/** What a recomputed root is made of: every claimed leaf hash that entered it is a
    subterm of it, and the leaf subterms of a real root are the leaves of its range. */
module Containment {
  import opened Wrappers
  import opened Bits
  import opened Positions
  import opened Mountain
  import opened Walk
  import opened PeakWalk
  import opened Sorting
  import opened MerkleProof
  import opened ProofLength

  predicate Within(x: Hash, t: Hash) {
    x == t || (t.Node? && (Within(x, t.left) || Within(x, t.right)))
  }

  lemma {:induction false} WithinTransitive(x: Hash, y: Hash, z: Hash)
    requires Within(x, y) && Within(y, z)
    ensures Within(x, z)
    decreases z
  {
    if y != z {
      if Within(y, z.left) {
        WithinTransitive(x, y, z.left);
      } else {
        WithinTransitive(x, y, z.right);
      }
    }
  }

  // ---- from the claims to the root -----------------------------------------------

  predicate Carried(x: Hash, level: seq<Entry>) {
    exists j :: 0 <= j < |level| && Within(x, level[j].x)
  }

  lemma CarriedAt(x: Hash, level: seq<Entry>, j: nat)
    requires j < |level| && Within(x, level[j].x)
    ensures Carried(x, level)
  {
  }

  lemma {:induction false} LevelKeeps(x: Hash, level: seq<Entry>, items: seq<Hash>)
    requires Carried(x, level) && LevelUp(level, items).Climbed?
    ensures Carried(x, LevelUp(level, items).level)
    decreases |level|
  {
    hide *;
    var j := CarriedWhere(x, level);
    LevelSplit(level, items);
    var up := LevelUp(level, items).level;
    var d := if Paired(Indices(level)) then 2 else 1;
    if j < d {
      ParentCarries(x, level[0], if d == 2 then level[1].x else items[0]);
      CarriedAt(x, up, 0);
    } else {
      var rest := if d == 2 then items else items[1..];
      assert level[d..][j - d] == level[j];
      CarriedAt(x, level[d..], j - d);
      LevelKeeps(x, level[d..], rest);
      var i := CarriedWhere(x, LevelUp(level[d..], rest).level);
      CarriedAt(x, up, i + 1);
    }
  }

  lemma ParentCarries(x: Hash, e: Entry, item: Hash)
    ensures Within(x, e.x) || Within(x, item) ==> Within(x, Parent(e, item).x)
  {
  }

  lemma {:induction false} ClimbKeeps(x: Hash, level: seq<Entry>, items: seq<Hash>, k: nat)
    requires Carried(x, level) && Climb(level, items, k).Climbed?
    ensures Carried(x, Climb(level, items, k).level)
    decreases k
  {
    if k > 0 {
      LevelKeeps(x, level, items);
      var up := LevelUp(level, items);
      ClimbKeeps(x, up.level, up.items, k - 1);
    }
  }

  predicate CarriedBy(x: Hash, hashes: seq<Hash>) {
    exists j :: 0 <= j < |hashes| && Within(x, hashes[j])
  }

  /** A leaf below the first peak enters its hash. */
  lemma PeakKeeps(x: Hash, peaks: seq<Coord>, es: seq<Entry>, items: seq<Hash>, from: nat, to: nat)
    requires peaks != [] && Tiles(peaks, from, to) && SortedIn(Indices(es), from, to)
    requires Carried(x, es[..Below(peaks, Indices(es))]) && TakePeak(peaks, es, items).Taken?
    ensures Within(x, TakePeak(peaks, es, items).x)
  {
    hide *;
    var m, c := Below(peaks, Indices(es)), peaks[0];
    var j := CarriedWhere(x, es[..m]);
    SplitAtPeak(peaks, Indices(es), from, to);
    assert Indices(es[..m]) == Indices(es)[..m];
    ClimbedPeak(peaks, es, items);
    PeakClimb(c, es[..m], items);
    ClimbKeeps(x, es[..m], items, c.h);
    j := CarriedWhere(x, Climb(es[..m], items, c.h).level);
  }

  lemma ClimbedPeak(peaks: seq<Coord>, es: seq<Entry>, items: seq<Hash>)
    requires peaks != [] && Below(peaks, Indices(es)) > 0 && TakePeak(peaks, es, items).Taken?
    ensures var up := Climb(es[..Below(peaks, Indices(es))], items, peaks[0].h);
            up.Climbed? && up.level != [] && TakePeak(peaks, es, items).x == up.level[0].x
  {
    hide Below, Climb;
  }

  lemma {:induction false} WalkKeeps(x: Hash, peaks: seq<Coord>, es: seq<Entry>, items: seq<Hash>, from: nat, to: nat)
    requires Tiles(peaks, from, to) && SortedIn(Indices(es), from, to)
    requires Carried(x, es)
    requires WalkPeaks(peaks, es, items).Walked? && WalkPeaks(peaks, es, items).es == []
    ensures CarriedBy(x, WalkPeaks(peaks, es, items).hashes)
    decreases |peaks|
  {
    hide *;
    var idx := Indices(es);
    var j := CarriedWhere(x, es);
    if peaks == [] {
      NoPeaksNoLeaves(idx, from, to);
    } else {
      var m, step := Below(peaks, idx), TakePeak(peaks, es, items);
      TakenHere(peaks, es, items);
      SplitAtPeak(peaks, idx, from, to);
      assert Indices(es[m..]) == idx[m..];
      var later := WalkPeaks(peaks[1..], es[m..], step.items);
      if j < m {
        CarriedAt(x, es[..m], j);
        PeakKeeps(x, peaks, es, items, from, to);
        HeadCarries(x, step.x, later.hashes);
      } else {
        CarriedAt(x, es[m..], j - m);
        WalkKeeps(x, peaks[1..], es[m..], step.items, Shl(peaks[0].i + 1, peaks[0].h), to);
        TailCarries(x, step.x, later.hashes);
      }
    }
  }

  lemma CarriedWhere(x: Hash, es: seq<Entry>) returns (j: nat)
    requires Carried(x, es)
    ensures j < |es| && Within(x, es[j].x)
  {
    hide Within;
    j :| 0 <= j < |es| && Within(x, es[j].x);
  }

  lemma TakenHere(peaks: seq<Coord>, es: seq<Entry>, items: seq<Hash>)
    requires peaks != [] && es != []
    requires WalkPeaks(peaks, es, items).Walked? && WalkPeaks(peaks, es, items).es == []
    ensures var step := TakePeak(peaks, es, items);
            && step.Taken?
            && var later := WalkPeaks(peaks[1..], es[Below(peaks, Indices(es))..], step.items);
               && later.Walked? && later.es == []
               && WalkPeaks(peaks, es, items).hashes == [step.x] + later.hashes
  {
    hide TakePeak, Below;
  }

  lemma HeadCarries(x: Hash, y: Hash, hashes: seq<Hash>)
    requires Within(x, y)
    ensures CarriedBy(x, [y] + hashes)
  {
    assert ([y] + hashes)[0] == y;
  }

  lemma TailCarries(x: Hash, y: Hash, hashes: seq<Hash>)
    requires CarriedBy(x, hashes)
    ensures CarriedBy(x, [y] + hashes)
  {
    var j :| 0 <= j < |hashes| && Within(x, hashes[j]);
    assert ([y] + hashes)[j + 1] == hashes[j];
  }

  lemma {:induction false} BagKeeps(x: Hash, hashes: seq<Hash>)
    requires CarriedBy(x, hashes)
    ensures hashes != [] && Within(x, Bag(hashes))
  {
    var j :| 0 <= j < |hashes| && Within(x, hashes[j]);
    if |hashes| > 1 && j > 0 {
      assert hashes[1..][j - 1] == hashes[j];
      BagKeeps(x, hashes[1..]);
    }
  }

  /** Every claim that survives deduplication is part of the recomputed root, whatever
      size and however many items the proof carries. */
  lemma {:induction false} ClaimsEnterRoot(claims: seq<Claim>, mmrSize: nat, items: seq<Hash>, root: Hash, c: Claim)
    requires ValidPositions(ClaimPositions(claims), LeafCount(mmrSize))
    requires CalculateRoot(claims, mmrSize, items) == Ok(root)
    requires c in Canonical(claims, ClaimPos)
    ensures Within(c.x, root)
  {
    var n, cs := LeafCount(mmrSize), Canonical(claims, ClaimPos);
    hide *;
    NoHighClaims(claims, n);
    SameIndices(claims);
    CanonicalPositions(ClaimPositions(claims), n);
    RangeTiles(n);
    WalkedClaims(claims, mmrSize, items, root);
    if mmrSize == 1 && |claims| == 1 && claims[0].pos == 0 {
      OnlyClaim(claims, c);
      WithinSelf(c.x);
    } else {
      var w := WalkPeaks(Peaks(n), Entries(cs), items);
      EntryOf(cs, c);
      WalkKeeps(c.x, Peaks(n), Entries(cs), items, 0, n);
      CarriedMore(c.x, w.hashes, w.items);
      BagKeeps(c.x, w.hashes + w.items);
    }
  }

  lemma OnlyClaim(claims: seq<Claim>, c: Claim)
    requires |claims| == 1 && c in Canonical(claims, ClaimPos)
    ensures c == claims[0]
  {
    hide Canonical;
    CanonicalMember(claims, ClaimPos, c);
  }

  lemma WithinSelf(x: Hash)
    ensures Within(x, x)
  {
  }

  lemma EntryOf(cs: seq<Claim>, c: Claim)
    requires c in cs
    ensures Carried(c.x, Entries(cs))
  {
    hide LeafCount;
    var j :| 0 <= j < |cs| && cs[j] == c;
    WithinSelf(c.x);
    assert Entries(cs)[j].x == c.x;
  }

  lemma CarriedMore(x: Hash, hashes: seq<Hash>, more: seq<Hash>)
    requires CarriedBy(x, hashes)
    ensures CarriedBy(x, hashes + more)
  {
    var j :| 0 <= j < |hashes| && Within(x, hashes[j]);
    assert (hashes + more)[j] == hashes[j];
  }

  /** A leaf right of the last peak is never used up. */
  lemma {:induction false} LeafLeftOver(peaks: seq<Coord>, es: seq<Entry>, items: seq<Hash>, from: nat, to: nat)
    requires Tiles(peaks, from, to) && es != [] && es[|es| - 1].i >= to
    ensures var w := WalkPeaks(peaks, es, items); w.Failed? || w.es != []
    decreases |peaks|
  {
    hide *;
    if peaks == [] {
      PeaksDone(es, items);
    } else if !TakePeak(peaks, es, items).Taken? {
      NotTaken(peaks, es, items);
    } else {
      var m, next, step := Below(peaks, Indices(es)), Shl(peaks[0].i + 1, peaks[0].h), TakePeak(peaks, es, items);
      TilesHead(peaks, from, to);
      TilesBounds(peaks, from, to);
      assert peaks[0] in peaks;
      BelowMeans(peaks, Indices(es));
      LastNotBelow(Indices(es), next);
      WalkUnfold(peaks, es, items);
      LeafLeftOver(peaks[1..], es[m..], step.items, next, to);
      PrependKeeps(WalkPeaks(peaks[1..], es[m..], step.items), step.x);
    }
  }

  lemma PeaksDone(es: seq<Entry>, items: seq<Hash>)
    ensures WalkPeaks([], es, items) == Walked([], es, items)
  {
  }

  lemma {:induction false} LastNotBelow(idx: seq<nat>, bound: nat)
    requires idx != [] && idx[|idx| - 1] >= bound
    ensures CountBelow(idx, bound) < |idx|
  {
    if |idx| > 1 {
      LastNotBelow(idx[1..], bound);
    }
  }

  /** A claim outside the range is never accepted: a position that is no leaf position, or
      a leaf position beyond the size. */
  lemma {:induction false} OutsideIsRefused(claims: seq<Claim>, mmrSize: nat, items: seq<Hash>, c: Claim)
    requires c in claims && (Height(c.pos) > 0 || LeafCount(c.pos) >= LeafCount(mmrSize))
    ensures CalculateRoot(claims, mmrSize, items).Err?
  {
    hide *;
    HighIsRefused(claims, mmrSize, items);
    if CalculateRoot(claims, mmrSize, items).Ok? {
      WalkedClaims(claims, mmrSize, items, CalculateRoot(claims, mmrSize, items).value);
      OneLeafSizes(mmrSize, c.pos);
      if !(mmrSize == 1 && |claims| == 1 && claims[0].pos == 0) {
        var n, es := LeafCount(mmrSize), Entries(Canonical(claims, ClaimPos));
        RangeTiles(n);
        LastClaimBeyond(claims, c, n);
        LeafLeftOver(Peaks(n), es, items, 0, n);
      }
    }
  }

  lemma {:induction false} HighIsRefused(claims: seq<Claim>, mmrSize: nat, items: seq<Hash>)
    ensures (exists c :: c in claims && Height(c.pos) > 0) ==> CalculateRoot(claims, mmrSize, items).Err?
  {
    hide Height, LeafCount, WalkPeaks, Canonical;
  }

  lemma {:induction false} OneLeafSizes(mmrSize: nat, pos: nat)
    ensures mmrSize == 1 && pos == 0 ==> LeafCount(pos) < LeafCount(mmrSize)
  {
    LeafCountUnique(0, 0);
    LeafCountUnique(1, 1);
  }

  lemma {:induction false} LastClaimBeyond(claims: seq<Claim>, c: Claim, n: nat)
    requires c in claims && LeafCount(c.pos) >= n && !exists d :: d in claims && Height(d.pos) > 0
    ensures var es := Entries(Canonical(claims, ClaimPos)); es != [] && es[|es| - 1].i >= n
  {
    hide *;
    var cs := Canonical(claims, ClaimPos);
    var j := KeptAt(claims, c);
    var last := cs[|cs| - 1];
    LastIsLargest(cs, j, claims);
    assert last in cs;
    CanonicalMember(claims, ClaimPos, last);
    assert Height(c.pos) == 0 && Height(last.pos) == 0;
    if c.pos < last.pos {
      LeafOrder(c.pos, last.pos);
    }
  }

  /** Deduplication keeps some claim for every claimed position. */
  lemma KeptAt(claims: seq<Claim>, c: Claim) returns (j: nat)
    requires c in claims
    ensures j < |Canonical(claims, ClaimPos)| && Canonical(claims, ClaimPos)[j].pos == c.pos
  {
    hide Canonical;
    var cs := Canonical(claims, ClaimPos);
    CanonicalKeys(claims, ClaimPos, c.pos);
    assert c in claims && ClaimPos(c) == c.pos;
    var d :| d in cs && ClaimPos(d) == c.pos;
    j :| 0 <= j < |cs| && cs[j] == d;
  }

  lemma LastIsLargest(cs: seq<Claim>, j: nat, claims: seq<Claim>)
    requires cs == Canonical(claims, ClaimPos) && j < |cs|
    ensures cs[j].pos <= cs[|cs| - 1].pos
  {
    hide Canonical;
    CanonicalSpec(claims, ClaimPos, 0);
    if j < |cs| - 1 {
      assert ClaimPos(cs[j]) < ClaimPos(cs[|cs| - 1]);
    }
  }

  /** The two ways a root is recomputed. */
  lemma {:induction false} WalkedClaims(claims: seq<Claim>, mmrSize: nat, items: seq<Hash>, root: Hash)
    requires !exists c :: c in claims && Height(c.pos) > 0
    requires CalculateRoot(claims, mmrSize, items) == Ok(root)
    ensures if mmrSize == 1 && |claims| == 1 && claims[0].pos == 0 then root == claims[0].x
            else
              var w := WalkPeaks(Peaks(LeafCount(mmrSize)), Entries(Canonical(claims, ClaimPos)), items);
              && w.Walked? && w.es == [] && w.hashes + w.items != []
              && root == Bag(w.hashes + w.items)
  {
    hide LeafCount, Peaks, Entries, Canonical, WalkPeaks, Height;
  }

  // ---- from the root to the leaves -----------------------------------------------

  lemma {:induction false} LeafOfBag(x: Hash, hashes: seq<Hash>)
    requires x.Leaf? && hashes != [] && Within(x, Bag(hashes))
    ensures CarriedBy(x, hashes)
  {
    if |hashes| == 1 {
      assert Within(x, hashes[0]);
    } else if Within(x, hashes[0]) {
    } else {
      LeafOfBag(x, hashes[1..]);
      var j :| 0 <= j < |hashes[1..]| && Within(x, hashes[1..][j]);
      assert hashes[j + 1] == hashes[1..][j];
    }
  }

  lemma {:induction false} LeafOfSubtree(x: Hash, v: seq<Hash>, i: nat, h: nat)
    requires x.Leaf? && LeafHashes(v) && Shl(i + 1, h) <= |v|
    requires Within(x, Subtree(v, i, h))
    ensures x in v
    decreases h
  {
    if h > 0 {
      hide Shl;
      ChildSpans(i, h - 1);
      if Within(x, Subtree(v, 2 * i, h - 1)) {
        LeafOfSubtree(x, v, 2 * i, h - 1);
      } else {
        LeafOfSubtree(x, v, 2 * i + 1, h - 1);
      }
    } else {
      assert v[i].Leaf?;
    }
  }

  /** The leaf hashes inside a real root are the leaves of its range. */
  lemma LeafOfRoot(x: Hash, v: seq<Hash>)
    requires x.Leaf? && LeafHashes(v) && v != [] && Within(x, Root(v))
    ensures x in v
  {
    hide *;
    var peaks := Peaks(|v|);
    PeaksOfRange(|v|);
    RootMeans(v);
    LeafOfBag(x, PeakHashes(v, peaks));
    var j := CarriedByWhere(x, PeakHashes(v, peaks));
    TilesBounds(peaks, 0, |v|);
    assert peaks[j] in peaks;
    LeafOfSubtree(x, v, peaks[j].i, peaks[j].h);
  }

  lemma CarriedByWhere(x: Hash, hashes: seq<Hash>) returns (j: nat)
    requires CarriedBy(x, hashes)
    ensures j < |hashes| && Within(x, hashes[j])
  {
    hide Within;
    j :| 0 <= j < |hashes| && Within(x, hashes[j]);
  }
}
