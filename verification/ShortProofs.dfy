/** The one number of items that does not bind claims to positions: when peaks follow the
    last claimed leaf and no item is left for them, what is accepted is never true of a range
    without repeated leaves. */
module ShortProofs {
  import opened Wrappers
  import opened Bits
  import opened Positions
  import opened Mountain
  import opened Walk
  import opened PeakWalk
  import opened Sorting
  import opened MerkleProof
  import opened ProofLength
  import opened Containment

  // ---- subterms at a depth -------------------------------------------------------------

  predicate OccursAt(x: Hash, t: Hash, d: nat) {
    if d == 0 then x == t else t.Node? && (OccursAt(x, t.left, d - 1) || OccursAt(x, t.right, d - 1))
  }

  lemma {:induction false} OccursWithin(x: Hash, t: Hash, d: nat)
    requires OccursAt(x, t, d)
    ensures Within(x, t)
    decreases d
  {
    if d > 0 {
      if OccursAt(x, t.left, d - 1) {
        OccursWithin(x, t.left, d - 1);
      } else {
        OccursWithin(x, t.right, d - 1);
      }
    }
  }

  predicate SomeAt(x: Hash, level: seq<Entry>, d: nat) {
    exists j :: 0 <= j < |level| && OccursAt(x, level[j].x, d)
  }

  /** Climbing one level puts every node one level deeper. */
  lemma {:induction false} LevelSinks(x: Hash, level: seq<Entry>, items: seq<Hash>, d: nat)
    requires SomeAt(x, level, d) && LevelUp(level, items).Climbed?
    ensures SomeAt(x, LevelUp(level, items).level, d + 1)
    decreases |level|
  {
    hide *;
    var j := SomeWhere(x, level, d);
    LevelSplit(level, items);
    var up := LevelUp(level, items).level;
    var w := if Paired(Indices(level)) then 2 else 1;
    if j < w {
      ParentSinks(x, level[0], if w == 2 then level[1].x else items[0], d);
      FoundAt(x, up, d + 1, 0);
    } else {
      var rest := if w == 2 then items else items[1..];
      assert level[w..][j - w] == level[j];
      FoundAt(x, level[w..], d, j - w);
      LevelSinks(x, level[w..], rest, d);
      var i := SomeWhere(x, LevelUp(level[w..], rest).level, d + 1);
      FoundAt(x, up, d + 1, i + 1);
    }
  }

  lemma SomeWhere(x: Hash, level: seq<Entry>, d: nat) returns (j: nat)
    requires SomeAt(x, level, d)
    ensures j < |level| && OccursAt(x, level[j].x, d)
  {
    hide OccursAt;
    j :| 0 <= j < |level| && OccursAt(x, level[j].x, d);
  }

  lemma FoundAt(x: Hash, level: seq<Entry>, d: nat, j: nat)
    requires j < |level| && OccursAt(x, level[j].x, d)
    ensures SomeAt(x, level, d)
  {
    hide OccursAt;
  }

  lemma ParentSinks(x: Hash, e: Entry, item: Hash, d: nat)
    ensures OccursAt(x, e.x, d) || OccursAt(x, item, d) ==> OccursAt(x, Parent(e, item).x, d + 1)
  {
  }

  lemma {:induction false} ClimbSinks(x: Hash, level: seq<Entry>, items: seq<Hash>, d: nat, k: nat)
    requires SomeAt(x, level, d) && Climb(level, items, k).Climbed?
    ensures SomeAt(x, Climb(level, items, k).level, d + k)
    decreases k
  {
    if k > 0 {
      LevelSinks(x, level, items, d);
      var up := LevelUp(level, items);
      ClimbSinks(x, up.level, up.items, d + 1, k - 1);
    }
  }

  /** A claim below the first peak lies as deep in its recomputed hash as the peak is high. */
  lemma TakenSinks(peaks: seq<Coord>, es: seq<Entry>, items: seq<Hash>, from: nat, to: nat, x: Hash, rest: seq<Hash>)
    requires peaks != [] && es != [] && Tiles(peaks, from, to) && SortedIn(Indices(es), from, to)
    requires Below(peaks, Indices(es)) == |es| && TakePeak(peaks, es, items) == Taken(x, rest)
    ensures OccursAt(es[0].x, x, peaks[0].h)
    ensures es[0].i < Shl(peaks[0].i + 1, peaks[0].h)
  {
    hide *;
    var c := peaks[0];
    AllInPeak(peaks, Indices(es), from, to);
    TakePeakClimbs(peaks, es, items);
    PeakClimb(c, es, items);
    SelfAt(es);
    ClimbSinks(es[0].x, es, items, 0, c.h);
    FirstInSpan(Indices(es), Shl(c.i, c.h), Shl(c.i + 1, c.h));
    OnlyOneAt(es[0].x, Climb(es, items, c.h).level, c.h);
  }

  lemma AllInPeak(peaks: seq<Coord>, idx: seq<nat>, from: nat, to: nat)
    requires peaks != [] && Tiles(peaks, from, to) && SortedIn(idx, from, to) && Below(peaks, idx) == |idx|
    ensures SortedIn(idx, Shl(peaks[0].i, peaks[0].h), Shl(peaks[0].i + 1, peaks[0].h))
  {
    SplitAtPeak(peaks, idx, from, to);
    assert idx[..|idx|] == idx;
  }

  lemma OnlyOneAt(x: Hash, level: seq<Entry>, d: nat)
    requires |level| == 1 && SomeAt(x, level, d)
    ensures OccursAt(x, level[0].x, d)
  {
  }

  lemma TakePeakClimbs(peaks: seq<Coord>, es: seq<Entry>, items: seq<Hash>)
    requires peaks != [] && es != [] && Below(peaks, Indices(es)) == |es|
    ensures var up := Climb(es, items, peaks[0].h);
            var step := TakePeak(peaks, es, items);
            step.Taken? ==> up.Climbed? && up.level != [] && step.x == up.level[0].x
  {
    hide Below, Climb;
    assert es[..|es|] == es;
  }

  lemma SelfAt(level: seq<Entry>)
    requires level != []
    ensures SomeAt(level[0].x, level, 0)
  {
    assert OccursAt(level[0].x, level[0].x, 0);
  }

  lemma FirstInSpan(idx: seq<nat>, lo: nat, hi: nat)
    requires idx != [] && SortedIn(idx, lo, hi)
    ensures lo <= idx[0] < hi
  {
  }

  // ---- the last recomputed peak ----------------------------------------------------------

  /** Some claim lies under the last recomputed peak, as deep as that peak is high. */
  ghost predicate LastHolds(peaks: seq<Coord>, es: seq<Entry>, roots: seq<Hash>, j: nat) {
    && 0 < |roots| <= |peaks| && j < |es|
    && es[j].i < Shl(peaks[|roots| - 1].i + 1, peaks[|roots| - 1].h)
    && OccursAt(es[j].x, roots[|roots| - 1], peaks[|roots| - 1].h)
  }

  lemma {:induction false} LastRootHolds(peaks: seq<Coord>, es: seq<Entry>, items: seq<Hash>, from: nat, to: nat)
    returns (j: nat)
    requires es != [] && Tiles(peaks, from, to) && SortedIn(Indices(es), from, to)
    requires |items| >= Need(peaks, Indices(es))
    ensures |PeakRoots(peaks, es, items)| == |peaks| - Tail(peaks, Indices(es))
    ensures LastHolds(peaks, es, PeakRoots(peaks, es, items), j)
    decreases |peaks|
  {
    var idx := Indices(es);
    if peaks == [] {
      NoPeaksNoLeaves(idx, from, to);
    }
    var m := Below(peaks, idx);
    TakeShape(peaks, es, items, from, to);
    SplitAtPeak(peaks, idx, from, to);
    TailNeedUnfold(peaks, idx);
    WalkUnfold(peaks, es, items);
    hide *;
    var step := TakePeak(peaks, es, items);
    var next := Shl(peaks[0].i + 1, peaks[0].h);
    if m < |es| {
      var rest := PeakRoots(peaks[1..], es[m..], step.items);
      var i := LastRootHolds(peaks[1..], es[m..], step.items, next, to);
      LastHoldsLater(peaks, es, m, step.x, rest, i);
      j := m + i;
    } else {
      TakenSinks(peaks, es, items, from, to, step.x, step.items);
      NoClaimsLeft(peaks[1..], es[m..], step.items);
      j := 0;
      LastHoldsHere(peaks, es, step.x);
      assert [step.x] + [] == [step.x];
    }
  }

  lemma LastHoldsLater(peaks: seq<Coord>, es: seq<Entry>, m: nat, x: Hash, roots: seq<Hash>, i: nat)
    requires peaks != [] && m <= |es| && LastHolds(peaks[1..], es[m..], roots, i)
    ensures LastHolds(peaks, es, [x] + roots, m + i)
  {
    hide Shl, OccursAt;
  }

  lemma LastHoldsHere(peaks: seq<Coord>, es: seq<Entry>, x: Hash)
    requires peaks != [] && es != []
    requires OccursAt(es[0].x, x, peaks[0].h) && es[0].i < Shl(peaks[0].i + 1, peaks[0].h)
    ensures LastHolds(peaks, es, [x], 0)
  {
    hide Shl, OccursAt;
  }

  lemma NoClaimsLeft(peaks: seq<Coord>, es: seq<Entry>, items: seq<Hash>)
    ensures es == [] ==> PeakRoots(peaks, es, items) == []
    ensures es == [] ==> Tail(peaks, Indices(es)) == |peaks|
  {
  }

  // ---- where a leaf lies in a range ------------------------------------------------------

  predicate DistinctLeaves(v: seq<Hash>) {
    forall a, b :: 0 <= a < b < |v| ==> v[a] != v[b]
  }

  /** In a perfect subtree every leaf is as deep as the subtree is high. */
  lemma {:induction false} LeafDepth(x: Hash, v: seq<Hash>, i: nat, h: nat, d: nat)
    requires x.Leaf? && LeafHashes(v) && OccursAt(x, Subtree(v, i, h), d)
    ensures d == h
    decreases h
  {
    if h > 0 {
      if OccursAt(x, Subtree(v, 2 * i, h - 1), d - 1) {
        LeafDepth(x, v, 2 * i, h - 1, d - 1);
      } else {
        LeafDepth(x, v, 2 * i + 1, h - 1, d - 1);
      }
    }
  }

  /** A leaf inside a perfect subtree is one of the leaves it spans. */
  lemma {:induction false} LeafInSpan(x: Hash, v: seq<Hash>, i: nat, h: nat) returns (m: nat)
    requires x.Leaf? && LeafHashes(v) && Shl(i + 1, h) <= |v| && Within(x, Subtree(v, i, h))
    ensures Shl(i, h) <= m < |v| && v[m] == x
    decreases h
  {
    if h > 0 {
      hide Shl;
      ChildSpans(i, h - 1);
      if Within(x, Subtree(v, 2 * i, h - 1)) {
        m := LeafInSpan(x, v, 2 * i, h - 1);
      } else {
        m := LeafInSpan(x, v, 2 * i + 1, h - 1);
      }
    } else {
      assert v[i].Leaf?;
      m := i;
    }
  }

  /** A leaf inside the bag of the later peaks is a later leaf. */
  lemma LeafOfLater(x: Hash, v: seq<Hash>, peaks: seq<Coord>, from: nat) returns (m: nat)
    requires x.Leaf? && LeafHashes(v) && peaks != [] && Tiles(peaks, from, |v|)
    requires Within(x, Bag(PeakHashes(v, peaks)))
    ensures from <= m < |v| && v[m] == x
  {
    hide Within, Subtree, Bag, Shl;
    LeafOfBag(x, PeakHashes(v, peaks));
    var j :| 0 <= j < |peaks| && Within(x, PeakHashes(v, peaks)[j]);
    TilesBounds(peaks, from, |v|);
    assert peaks[j] in peaks;
    m := LeafInSpan(x, v, peaks[j].i, peaks[j].h);
  }

  /** A real leaf of a peak does not lie at the peak's own height below the bag of that
      peak and the later ones. */
  lemma LeafNotThere(v: seq<Hash>, peaks: seq<Coord>, from: nat, i: nat)
    requires LeafHashes(v) && DistinctLeaves(v) && |peaks| > 1 && Tiles(peaks, from, |v|)
    requires i < Shl(peaks[0].i + 1, peaks[0].h) && i < |v|
    ensures !OccursAt(v[i], Bag(PeakHashes(v, peaks)), peaks[0].h)
  {
    var c, x := peaks[0], v[i];
    var next := Shl(c.i + 1, c.h);
    BagHead(v, peaks);
    hide Shl, Bag, Subtree;
    if OccursAt(x, Bag(PeakHashes(v, peaks)), c.h) {
      assert c.h > 0;
      if OccursAt(x, Subtree(v, c.i, c.h), c.h - 1) {
        LeafDepth(x, v, c.i, c.h, c.h - 1);
      } else {
        OccursWithin(x, Bag(PeakHashes(v, peaks[1..])), c.h - 1);
        var m := LeafOfLater(x, v, peaks[1..], next);
      }
    }
  }

  lemma BagHead(v: seq<Hash>, peaks: seq<Coord>)
    requires |peaks| > 1
    ensures Bag(PeakHashes(v, peaks)) ==
              Node(Bag(PeakHashes(v, peaks[1..])), Subtree(v, peaks[0].i, peaks[0].h))
  {
    assert PeakHashes(v, peaks)[1..] == PeakHashes(v, peaks[1..]);
  }

  // ---- the theorem -----------------------------------------------------------------------

  /** Without an item for the trailing peaks, the honest root is not recomputed from honest
      claims. */
  lemma ShortNeverHonest(v: seq<Hash>, peaks: seq<Coord>, es: seq<Entry>, items: seq<Hash>)
    requires LeafHashes(v) && DistinctLeaves(v) && es != []
    requires Tiles(peaks, 0, |v|) && SortedIn(Indices(es), 0, |v|)
    requires Tail(peaks, Indices(es)) > 0 && |items| == Need(peaks, Indices(es))
    requires IsHonest(v, es, 0)
    ensures var hashes := Collect(WalkPeaks(peaks, es, items));
            hashes.Ok? && hashes.value != [] && Bag(hashes.value) != Bag(PeakHashes(v, peaks))
  {
    hide *;
    var n, roots := |v|, PeakRoots(peaks, es, items);
    CollectShape(peaks, es, items, n);
    assert roots + items[|items|..] == roots;
    var j := LastRootHolds(peaks, es, items, 0, n);
    LastHoldsMeans(peaks, es, roots, j);
    var k := |roots|;
    var mine := peaks[k - 1..];
    HonestEntry(v, es, j);
    TilesSuffix(peaks, 0, n, k - 1);
    LeafNotThere(v, mine, Shl(mine[0].i, mine[0].h), es[j].i);
    PeakHashesSplit(v, peaks, k - 1);
    assert roots == roots[..k - 1] + [roots[k - 1]];
    BagParts(roots[..k - 1], [roots[k - 1]], PeakHashes(v, peaks[..k - 1]), PeakHashes(v, mine));
    BagOfTwo(roots[k - 1], roots[k - 1], roots[k - 1]);
  }

  lemma LastHoldsMeans(peaks: seq<Coord>, es: seq<Entry>, roots: seq<Hash>, j: nat)
    requires LastHolds(peaks, es, roots, j)
    ensures 0 < |roots| <= |peaks| && j < |es|
    ensures es[j].i < Shl(peaks[|roots| - 1].i + 1, peaks[|roots| - 1].h)
    ensures OccursAt(es[j].x, roots[|roots| - 1], peaks[|roots| - 1].h)
  {
    hide Shl, OccursAt;
  }

  lemma HonestEntry(v: seq<Hash>, es: seq<Entry>, j: nat)
    requires IsHonest(v, es, 0) && j < |es| && SortedIn(Indices(es), 0, |v|)
    ensures es[j].i < |v| && es[j].x == v[es[j].i]
  {
    assert Indices(es)[j] == es[j].i;
  }

  lemma {:induction false} TilesSuffix(peaks: seq<Coord>, from: nat, to: nat, k: nat)
    requires Tiles(peaks, from, to) && k < |peaks|
    ensures Tiles(peaks[k..], Shl(peaks[k].i, peaks[k].h), to)
    decreases k
  {
    hide Shl;
    if k > 0 {
      TilesSuffix(peaks[1..], Shl(peaks[0].i + 1, peaks[0].h), to, k - 1);
      assert peaks[1..][k - 1..] == peaks[k..];
    } else {
      assert peaks[0..] == peaks;
    }
  }

  /** Position soundness, exactly: in a range without repeated leaves, an accepted proof has
      true claims if and only if no peak follows the last claimed leaf or the number of
      items is not the one that leaves none for those peaks. */
  lemma SoundExactly(v: seq<Hash>, claims: seq<Claim>, items: seq<Hash>)
    requires LeafHashes(v) && DistinctLeaves(v) && |v| > 0 && ValidPositions(ClaimPositions(claims), |v|)
    requires CalculateRoot(claims, MmrSize(|v|), items) == Ok(Root(v))
    ensures ClaimsHold(v, claims) <==>
              TailOf(|v|, ClaimPositions(claims)) == 0 || |items| != NeedOf(|v|, ClaimPositions(claims))
  {
    var n, ps := |v|, ClaimPositions(claims);
    var es := Entries(Canonical(claims, ClaimPos));
    SameIndices(claims);
    assert NeedOf(n, ps) == Need(Peaks(n), Indices(es)) && TailOf(n, ps) == Tail(Peaks(n), Indices(es));
    hide *;
    CanonicalPositions(ps, n);
    if TailOf(n, ps) == 0 || |items| != NeedOf(n, ps) {
      SoundUnlessShort(v, claims, items);
    } else if Lone(claims, n) {
      LoneMeans(claims, n);
      LoneClaim(v, claims, items);
    } else {
      PeaksOfRange(n);
      RootOfWalk(claims, n, items);
      ClaimsHoldMeans(v, claims);
      RootMeans(v);
      if ClaimsHold(v, claims) {
        EntriesSome(es);
        ShortNeverHonest(v, Peaks(n), es, items);
      }
    }
  }

  lemma EntriesSome(es: seq<Entry>)
    ensures Indices(es) != [] ==> es != []
  {
  }
}
