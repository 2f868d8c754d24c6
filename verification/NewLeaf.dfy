/** Extending a proof by one leaf: recomputing the next root from a proof of the
    current range. */
module NewLeaf {
  import opened Wrappers
  import opened Bits
  import opened Positions
  import opened Mountain
  import opened Walk
  import opened PeakWalk
  import opened Sorting
  import opened MerkleProof
  import opened Incremental

  function FirstAtLeast(ps: seq<nat>, p: nat, i: nat): Option<nat>
    requires i <= |ps|
    decreases |ps| - i
  {
    if i == |ps| then None else if ps[i] >= p then Some(i) else FirstAtLeast(ps, p, i + 1)
  }

  /** `calculate_root_with_new_leaf` */
  function CalculateRootWithNewLeaf(mmrSize: nat, items: seq<Hash>, leaves: seq<Claim>,
                                    newPos: nat, newElem: Hash, newMmrSize: nat): Result<Hash, Error>
  {
    if newPos >= newMmrSize then Err(InvalidInput)
    else if Height(newPos + 1) > Height(newPos) then
      match CalculatePeaksHashes(leaves, mmrSize, items)
      case Err(e) => Err(e)
      case Ok(hashes) =>
        match FirstAtLeast(PeakPositions(Peaks(LeafCount(newMmrSize))), newPos, 0)
        case None => Err(InvalidInput)
        case Some(i) =>
          if i > |hashes| then Err(InvalidInput)
          else CalculateRoot([Claim(newPos, newElem)], newMmrSize, Reorder(hashes, i))
    else CalculateRoot(leaves + [Claim(newPos, newElem)], newMmrSize, items)
  }

  // ---- the peaks after one more leaf -------------------------------------------

  /** One more leaf: the shared peaks stay and one peak swallows the others. */
  lemma NextPeaks(n: nat)
    ensures Peaks(n + 1) == Shared(n, n + 1) + [Swallow(n, n + 1)]
    ensures var c := Swallow(n, n + 1); LastLeaf(c.i, c.h) == n
    ensures n % 2 == 0 ==> Shared(n, n + 1) == Peaks(n) && Swallow(n, n + 1) == Coord(n, 0)
  {
    EvenNext(n);
    hide *;
    PeaksNest(n, n + 1);
    SharedMeans(n, n + 1);
    var c := Swallow(n, n + 1);
    var low := LowPeaks(n + 1, c.h, 0);
    LastLeafMeans(c);
    if low != [] {
      TilesGrow(low, Shl(c.i + 1, c.h), n + 1);
    }
    assert Shared(n, n + 1) + [c] + low == Shared(n, n + 1) + [c];
  }

  lemma EvenNext(n: nat)
    ensures n % 2 == 0 ==> Shared(n, n + 1) == Peaks(n) && Swallow(n, n + 1) == Coord(n, 0)
  {
    if n % 2 == 0 {
      assert DiffBit(n, n + 1) == 0;
      hide DiffBit;
    }
  }

  lemma {:induction false} ScanSmaller(ps: seq<nat>, p: nat, i: nat, s: nat)
    requires i <= s < |ps| && ps[s] >= p
    requires forall j :: i <= j < s ==> ps[j] < p
    ensures FirstAtLeast(ps, p, i) == Some(s)
    decreases s - i
  {
    if i < s {
      ScanSmaller(ps, p, i + 1, s);
    }
  }

  /** The search for the new leaf's peak finds the swallowing one. */
  lemma FindSwallow(n: nat)
    ensures FirstAtLeast(PeakPositions(Peaks(n + 1)), Pos(n, 0), 0) == Some(|Shared(n, n + 1)|)
  {
    hide Pos, Shared, Swallow, Peaks, Shl;
    NextPeaks(n);
    PeaksNest(n, n + 1);
    var shared, c := Shared(n, n + 1), Swallow(n, n + 1);
    var ps, s := PeakPositions(Peaks(n + 1)), |Shared(n, n + 1)|;
    TilesBounds(shared, 0, Shl(c.i, c.h));
    forall j | 0 <= j < s ensures ps[j] < Pos(n, 0) {
      assert Peaks(n + 1)[j] == shared[j] && shared[j] in shared;
      LastLeafOrder(shared[j], Coord(n, 0)) by { ShlZero(n + 1); }
    }
    assert Peaks(n + 1)[s] == c;
    PosAtLeastLeaf(c.i, c.h);
    ScanSmaller(ps, Pos(n, 0), 0, s);
  }

  lemma ShlZero(n: nat)
    ensures Shl(n, 0) == n
  {
  }

  lemma PosAtLeastLeaf(i: nat, h: nat)
    ensures Pos(i, h) >= Pos(LastLeaf(i, h), 0)
  {
    PosInBlock(i, h);
    PosInBlock(LastLeaf(i, h), 0);
  }

  // ---- the new leaf completes a pair -----------------------------------------

  /** An honest proof yields the peaks themselves, the trailing ones bagged. */
  lemma HonestPeaks(v: seq<Hash>, claims: seq<Claim>, items: seq<Hash>)
    requires |v| > 0 && ValidPositions(ClaimPositions(claims), |v|)
    requires ClaimsHold(v, claims) && GenProof(v, ClaimPositions(claims)) == Ok(items)
    ensures var idx := LeafIndices(Canonical(ClaimPositions(claims), SelfKey));
            var peaks := Peaks(|v|);
            var k := |peaks| - Tail(peaks, idx);
            CalculatePeaksHashes(claims, MmrSize(|v|), items) ==
              Ok(PeakHashes(v, peaks[..k])
                 + (if k == |peaks| then [] else [Bag(PeakHashes(v, peaks[k..]))]))
  {
    hide *;
    var n, ps := |v|, ClaimPositions(claims);
    var es := Entries(Canonical(claims, ClaimPos));
    var idx := LeafIndices(Canonical(ps, SelfKey));
    SameIndices(claims);
    CanonicalPositions(ps, n);
    PeaksOfRange(n);
    GenProofValid(v, ps);
    OneLeafProof(v, idx);
    RootOfClaims(claims, n, items);
    ClaimsHoldMeans(v, claims);
    HonestWalk(v, Peaks(n), es, n);
  }

  lemma HonestWalk(v: seq<Hash>, peaks: seq<Coord>, es: seq<Entry>, n: nat)
    requires Tiles(peaks, 0, n) && SortedIn(Indices(es), 0, n) && IsHonest(v, es, 0)
    ensures var k := |peaks| - Tail(peaks, Indices(es));
            Collect(WalkPeaks(peaks, es, GenPeaks(v, peaks, Indices(es)))) ==
              Ok(PeakHashes(v, peaks[..k])
                 + (if k == |peaks| then [] else [Bag(PeakHashes(v, peaks[k..]))]))
  {
    hide *;
    var idx := Indices(es);
    var items := GenPeaks(v, peaks, idx);
    GenPeaksSplit(v, peaks, idx);
    CollectShape(peaks, es, items, n);
    RootsHonest(v, peaks, es, items, 0, n);
    RootsIffMeans(v, peaks, es, items);
  }

  lemma GenPeaksSplit(v: seq<Hash>, peaks: seq<Coord>, idx: seq<nat>)
    ensures var items, need, t := GenPeaks(v, peaks, idx), Need(peaks, idx), Tail(peaks, idx);
            && need <= |items| <= need + t + 1
            && items[..need] == GenRoots(v, peaks, idx)
            && items[need..] == if t == 0 then [] else [Bag(PeakHashes(v, peaks[|peaks| - t..]))]
  {
    GenRootsLength(v, peaks, idx);
    hide GenRoots, Tail, Need, Bag, PeakHashes;
  }

  /** The whole list of peaks is available exactly when at most one trails. */
  lemma PeaksAvailable(v: seq<Hash>, peaks: seq<Coord>, t: nat)
    requires t <= |peaks|
    ensures var k := |peaks| - t;
            var hashes := PeakHashes(v, peaks[..k]) + (if t == 0 then [] else [Bag(PeakHashes(v, peaks[k..]))]);
            && (t <= 1 ==> hashes == PeakHashes(v, peaks))
            && (t > 1 ==> |hashes| == k + 1 < |peaks| == |PeakHashes(v, peaks)|)
  {
    hide Subtree;
    if t == 0 {
      assert peaks[..|peaks|] == peaks;
    } else if t == 1 {
      var k := |peaks| - 1;
      assert peaks[k..] == [peaks[k]];
      assert peaks == peaks[..k] + [peaks[k]];
      PeakHashesConcat(v, peaks[..k], [peaks[k]]);
    }
  }

  lemma MergingLeaf(v: seq<Hash>, hashes: seq<Hash>, x: Hash)
    requires |v| > 0
    requires hashes == PeakHashes(v, Peaks(|v|)) || |hashes| < |Peaks(|v|)|
    ensures var n, s := |v|, |Shared(|v|, |v| + 1)|;
            s <= |hashes| ==>
              CalculateRoot([Claim(Pos(n, 0), x)], MmrSize(n + 1), Reorder(hashes, s)) ==
                if hashes == PeakHashes(v, Peaks(n)) then Ok(Root(v + [x])) else Err(InvalidProof)
    ensures hashes == PeakHashes(v, Peaks(|v|)) ==> |Shared(|v|, |v| + 1)| <= |hashes|
  {
    hide *;
    var n, w := |v|, v + [x];
    var s := |Shared(n, n + 1)|;
    PeaksNest(n, n + 1);
    NewLeafProof(w, n, [x]);
    OneNewClaim(n, x);
    assert w[n..] == [x];
    if hashes == PeakHashes(v, Peaks(n)) {
      MergedItems(v, x);
      AcceptsExactly(w, NewClaims(n, [x]), Reorder(hashes, s));
    } else if s <= |hashes| {
      ReorderLength(hashes, s);
      TooFewItems(w, n, Reorder(hashes, s));
    }
  }

  lemma OneNewClaim(n: nat, x: Hash)
    ensures NewClaims(n, [x]) == [Claim(Pos(n, 0), x)]
  {
  }

  /** Reversing the swallowed peaks gives the items `gen_proof` would emit. */
  lemma MergedItems(v: seq<Hash>, x: Hash)
    requires |v| > 0
    ensures var n := |v|;
            && |Shared(n, n + 1)| <= |PeakHashes(v, Peaks(n))|
            && Reorder(PeakHashes(v, Peaks(n)), |Shared(n, n + 1)|)
                 == GenPeaks(v + [x], Peaks(n + 1), Range(n, n + 1))
  {
    hide *;
    var n, w := |v|, v + [x];
    PeaksNest(n, n + 1);
    RunProof(w, n, n + 1);
    PeaksOfRange(n);
    PeakHashesFrame(v, w, Peaks(n), 0, n);
    PeakHashesConcat(w, Shared(n, n + 1), Own(n, n + 1));
    ReorderOf(PeakHashes(w, Shared(n, n + 1)), PeakHashes(w, Own(n, n + 1)));
  }

  lemma ReorderOf(a: seq<Hash>, b: seq<Hash>)
    ensures Reorder(a + b, |a|) == a + Reverse(b)
  {
    assert (a + b)[..|a|] == a && (a + b)[|a|..] == b;
  }

  /** The newest leaf alone needs every other peak: fewer items are rejected. */
  lemma TooFewItems(w: seq<Hash>, n: nat, items: seq<Hash>)
    requires 0 < n && |w| == n + 1 && |items| < |Peaks(n)|
    ensures CalculateRoot(NewClaims(n, [w[n]]), MmrSize(n + 1), items) == Err(InvalidProof)
  {
    hide *;
    var cs := NewClaims(n, [w[n]]);
    NewClaimsFit(w, n, [w[n]]);
    SameIndices(cs);
    CanonicalPositions(ClaimPositions(cs), n + 1);
    PeaksOfRange(n + 1);
    NewLeafProof(w, n, [w[n]]);
    GenPeaksLength(w, Peaks(n + 1), Range(n, n + 1));
    NoTailAtEnd(w, n);
    RootOfClaims(cs, n + 1, items);
    CollectShape(Peaks(n + 1), Entries(Canonical(cs, ClaimPos)), items, n + 1);
    GenCountMeans(Peaks(n + 1), Range(n, n + 1));
  }

  lemma NoTailAtEnd(v: seq<Hash>, n: nat)
    ensures Tail(Peaks(n + 1), Range(n, n + 1)) == 0
  {
    hide *;
    SharedMeans(n, n + 1);
    PeaksNest(n, n + 1);
    var c := Swallow(n, n + 1);
    var low := LowPeaks(n + 1, c.h, 0);
    var rest := [c] + low;
    assert Peaks(n + 1) == Shared(n, n + 1) + rest;
    assert rest[1..] == low;
    FirstPeakRun(v, rest, n, n + 1);
    CoveredPeaks(v, low, Shl(c.i + 1, c.h), n + 1);
    PeaksBeforeRun(v, Shared(n, n + 1), rest, Range(n, n + 1), 0, Shl(c.i, c.h));
  }

  // ---- the new leaf is a peak of its own ---------------------------------------

  lemma {:induction false} CountBelowAppend(idx: seq<nat>, n: nat, bound: nat)
    requires bound <= n
    ensures CountBelow(idx + [n], bound) == CountBelow(idx, bound)
    decreases |idx|
  {
    if idx != [] && idx[0] < bound {
      assert (idx + [n])[1..] == idx[1..] + [n];
      CountBelowAppend(idx[1..], n, bound);
    }
  }

  /** The first peak is treated as before. */
  lemma LonePeakUnfold(v: seq<Hash>, peaks: seq<Coord>, idx: seq<nat>, n: nat)
    requires peaks != [] && Shl(peaks[0].i + 1, peaks[0].h) <= n
    ensures var m, lone := Below(peaks, idx), Coord(n, 0);
            && GenRoots(v, peaks + [lone], idx + [n])
                 == GenPeak(v, peaks, idx) + GenRoots(v, peaks[1..] + [lone], idx[m..] + [n])
            && Tail(peaks + [lone], idx + [n]) == Tail(peaks[1..] + [lone], idx[m..] + [n])
  {
    hide *;
    LonePeakSplit(peaks, idx, n);
    SamePeak(v, peaks, idx, peaks + [Coord(n, 0)], idx + [n]);
    GenRootsUnfold(v, peaks + [Coord(n, 0)], idx + [n]);
    TailNeedUnfold(peaks + [Coord(n, 0)], idx + [n]);
  }

  lemma LonePeakSplit(peaks: seq<Coord>, idx: seq<nat>, n: nat)
    requires peaks != [] && Shl(peaks[0].i + 1, peaks[0].h) <= n
    ensures var m, all := Below(peaks, idx), peaks + [Coord(n, 0)];
            && Below(all, idx + [n]) == m
            && all[0] == peaks[0] && all[1..] == peaks[1..] + [Coord(n, 0)]
            && (idx + [n])[..m] == idx[..m] && (idx + [n])[m..] == idx[m..] + [n]
  {
    hide *;
    CountBelowAppend(idx, n, Shl(peaks[0].i + 1, peaks[0].h));
    BelowMeans(peaks, idx);
    BelowMeans(peaks + [Coord(n, 0)], idx + [n]);
  }

  lemma SamePeak(v: seq<Hash>, peaks: seq<Coord>, idx: seq<nat>, peaks': seq<Coord>, idx': seq<nat>)
    requires peaks != [] && peaks' != [] && peaks[0] == peaks'[0]
    requires Below(peaks, idx) == Below(peaks', idx') <= |idx|
    requires idx'[..Below(peaks, idx)] == idx[..Below(peaks, idx)]
    ensures GenPeak(v, peaks', idx') == GenPeak(v, peaks, idx)
  {
    hide *;
    GenPeakIs(v, peaks, idx);
    GenPeakIs(v, peaks', idx');
  }

  /** A further peak with its own leaf uses up one item per trailing peak. */
  lemma {:induction false} LonePeak(v: seq<Hash>, peaks: seq<Coord>, idx: seq<nat>, from: nat, n: nat)
    requires Tiles(peaks, from, n) && SortedIn(idx, from, n)
    ensures var k := |peaks| - Tail(peaks, idx);
            GenRoots(v, peaks + [Coord(n, 0)], idx + [n])
              == GenRoots(v, peaks, idx) + PeakHashes(v, peaks[k..])
    ensures Tail(peaks + [Coord(n, 0)], idx + [n]) == 0
    decreases |peaks|
  {
    if peaks == [] {
      NoPeaksNoLeaves(idx, from, n);
      LonePeakEnd(v, peaks, idx, n);
    } else {
      hide *;
      var next := Shl(peaks[0].i + 1, peaks[0].h);
      var rest := idx[Below(peaks, idx)..];
      SplitAtPeak(peaks, idx, from, n);
      TilesBounds(peaks[1..], next, n);
      LonePeak(v, peaks[1..], rest, next, n);
      LonePeakUnfold(v, peaks, idx, n);
      LonePeakStep(v, peaks, idx);
    }
  }

  lemma LonePeakStep(v: seq<Hash>, peaks: seq<Coord>, idx: seq<nat>)
    requires peaks != []
    ensures var rest := idx[Below(peaks, idx)..];
            var k, k' := |peaks| - Tail(peaks, idx), |peaks| - 1 - Tail(peaks[1..], rest);
            GenRoots(v, peaks, idx) + PeakHashes(v, peaks[k..])
              == GenPeak(v, peaks, idx) + (GenRoots(v, peaks[1..], rest) + PeakHashes(v, peaks[1..][k'..]))
  {
    hide *;
    var rest := idx[Below(peaks, idx)..];
    if idx == [] {
      assert rest == [];
      NothingProved(v, peaks);
    } else {
      GenRootsUnfold(v, peaks, idx);
      TailNeedUnfold(peaks, idx);
      var k := |peaks| - Tail(peaks, idx);
      assert peaks[k..] == peaks[1..][k - 1..];
      Regroup(GenPeak(v, peaks, idx), GenRoots(v, peaks[1..], rest), PeakHashes(v, peaks[k..]));
    }
  }

  lemma NothingProved(v: seq<Hash>, peaks: seq<Coord>)
    requires peaks != []
    ensures Tail(peaks, []) == |peaks| && Tail(peaks[1..], []) == |peaks| - 1
    ensures GenRoots(v, peaks, []) + PeakHashes(v, peaks[0..])
         == GenPeak(v, peaks, []) + (GenRoots(v, peaks[1..], []) + PeakHashes(v, peaks[1..][0..]))
  {
    hide Subtree;
    PeakHashesHead(v, peaks);
    assert peaks[0..] == peaks && peaks[1..][0..] == peaks[1..];
  }

  lemma Regroup(a: seq<Hash>, b: seq<Hash>, c: seq<Hash>)
    ensures (a + b) + c == a + (b + c)
  {
  }

  lemma LonePeakEnd(v: seq<Hash>, peaks: seq<Coord>, idx: seq<nat>, n: nat)
    requires peaks == [] && idx == []
    ensures var k := |peaks| - Tail(peaks, idx);
            GenRoots(v, peaks + [Coord(n, 0)], idx + [n])
              == GenRoots(v, peaks, idx) + PeakHashes(v, peaks[k..])
    ensures Tail(peaks + [Coord(n, 0)], idx + [n]) == 0
  {
    assert peaks + [Coord(n, 0)] == [Coord(n, 0)] && idx + [n] == [n];
    assert Below([Coord(n, 0)], [n]) == 1;
  }

  /** The leaf indices of the extended claims. */
  lemma ExtendedClaims(v: seq<Hash>, claims: seq<Claim>, x: Hash)
    requires ValidPositions(ClaimPositions(claims), |v|)
    ensures var n := |v|;
            var more := claims + [Claim(Pos(n, 0), x)];
            && ValidPositions(ClaimPositions(more), n + 1)
            && LeafIndices(Canonical(ClaimPositions(more), SelfKey))
                 == LeafIndices(Canonical(ClaimPositions(claims), SelfKey)) + [n]
            && (ClaimsHold(v, claims) ==> ClaimsHold(v + [x], more))
  {
    hide LeafCount, Height, Canonical, Pos, ClaimsHold, ValidPositions;
    var n, ps := |v|, ClaimPositions(claims);
    assert ClaimPositions(claims + [Claim(Pos(n, 0), x)]) == ps + [Pos(n, 0)];
    ExtendedPositions(ps, n);
    ExtendedHold(v, claims, x);
  }

  lemma ExtendedPositions(ps: seq<nat>, n: nat)
    requires ValidPositions(ps, n)
    ensures ValidPositions(ps + [Pos(n, 0)], n + 1)
    ensures LeafIndices(Canonical(ps + [Pos(n, 0)], SelfKey)) == LeafIndices(Canonical(ps, SelfKey)) + [n]
  {
    hide LeafCount, Height, Canonical, Pos;
    PosInBlock(n, 0);
    forall p | p in ps ensures SelfKey(p) < SelfKey(Pos(n, 0)) {
      PositionBefore(p, n);
    }
    CanonicalAppend(ps, Pos(n, 0), SelfKey);
  }

  lemma ExtendedHold(v: seq<Hash>, claims: seq<Claim>, x: Hash)
    requires ValidPositions(ClaimPositions(claims), |v|)
    ensures ClaimsHold(v, claims) ==> ClaimsHold(v + [x], claims + [Claim(Pos(|v|, 0), x)])
  {
    hide LeafCount, Height, Canonical, Pos;
    var c := Claim(Pos(|v|, 0), x);
    PosInBlock(|v|, 0);
    forall d | d in claims ensures ClaimPos(d) < ClaimPos(c) {
      var j :| 0 <= j < |claims| && claims[j] == d;
      assert ClaimPositions(claims)[j] in ClaimPositions(claims);
      PositionBefore(d.pos, |v|);
    }
    CanonicalAppend(claims, c, ClaimPos);
  }

  lemma {:induction false} PositionBefore(p: nat, n: nat)
    requires LeafCount(p) < n
    ensures p < Pos(n, 0)
  {
    hide LeafCount, MmrSize, TrailingOnes, Popcount, Pos;
    LeafAtEnd(n);
    SizeMonotone(LeafCount(p), n);
    SizeStep(LeafCount(p));
  }

  lemma LoneLeaf(v: seq<Hash>, claims: seq<Claim>, items: seq<Hash>, x: Hash)
    requires |v| > 0 && |v| % 2 == 0 && ValidPositions(ClaimPositions(claims), |v|)
    requires ClaimsHold(v, claims) && GenProof(v, ClaimPositions(claims)) == Ok(items)
    ensures var idx := LeafIndices(Canonical(ClaimPositions(claims), SelfKey));
            CalculateRoot(claims + [Claim(Pos(|v|, 0), x)], MmrSize(|v| + 1), items) ==
              if Tail(Peaks(|v|), idx) <= 1 then Ok(Root(v + [x])) else Err(InvalidProof)
  {
    hide *;
    var n, w := |v|, v + [x];
    var idx, more := LeafIndices(Canonical(ClaimPositions(claims), SelfKey)), claims + [Claim(Pos(n, 0), x)];
    ExtendedClaims(v, claims, x);
    NextPeaks(n);
    PeaksOfRange(n);
    CanonicalPositions(ClaimPositions(claims), n);
    GenProofValid(v, ClaimPositions(claims));
    GenProofValid(w, ClaimPositions(more));
    ExtendedItems(v, x, idx);
    var t, g := Tail(Peaks(n), idx), GenPeaks(w, Peaks(n + 1), idx + [n]);
    if t <= 1 {
      AcceptsExactly(w, more, items);
    } else {
      SameIndices(more);
      CanonicalPositions(ClaimPositions(more), n + 1);
      PeaksOfRange(n + 1);
      RootOfClaims(more, n + 1, items);
      CollectShape(Peaks(n + 1), Entries(Canonical(more, ClaimPos)), items, n + 1);
    }
  }

  /** With one trailing peak at most, the old items serve the longer range. */
  lemma ExtendedItems(v: seq<Hash>, x: Hash, idx: seq<nat>)
    requires |v| > 0 && |v| % 2 == 0
    requires idx != [] && SortedIn(idx, 0, |v|)
    ensures var n, w := |v|, v + [x];
            var was, now := GenPeaks(v, Peaks(n), idx), GenPeaks(w, Peaks(n + 1), idx + [n]);
            && (Tail(Peaks(n), idx) <= 1 ==> was == now)
            && (Tail(Peaks(n), idx) > 1 ==> |was| < Need(Peaks(n + 1), idx + [n]))
  {
    hide *;
    var n, w := |v|, v + [x];
    NextPeaks(n);
    PeaksOfRange(n);
    var peaks, t := Peaks(n), Tail(Peaks(n), idx);
    var tail := peaks[|peaks| - t..];
    LonePeak(w, peaks, idx, 0, n);
    NoTrailing(w, Peaks(n + 1), idx + [n]);
    GenRootsLength(w, Peaks(n + 1), idx + [n]);
    GenPeaksFrame(v, w, peaks, idx, n);
    GenRootsLength(w, peaks, idx);
    GenPeaksTail(w, peaks, idx);
  }

  lemma GenPeaksTail(v: seq<Hash>, peaks: seq<Coord>, idx: seq<nat>)
    ensures var t, roots := Tail(peaks, idx), GenRoots(v, peaks, idx);
            var tail := PeakHashes(v, peaks[|peaks| - t..]);
            && (t <= 1 ==> GenPeaks(v, peaks, idx) == roots + tail)
            && |GenPeaks(v, peaks, idx)| == |roots| + (if t == 0 then 0 else 1)
  {
    hide Subtree, GenRoots, Tail;
    var t := Tail(peaks, idx);
    var tail := PeakHashes(v, peaks[|peaks| - t..]);
    if t == 1 {
      assert tail == [tail[0]];
    }
  }

  /** Later leaves do not change a proof of earlier ones. */
  lemma GenPeaksFrame(v: seq<Hash>, w: seq<Hash>, peaks: seq<Coord>, idx: seq<nat>, n: nat)
    requires Tiles(peaks, 0, n) && SortedIn(idx, 0, n) && n <= |v| && n <= |w|
    requires forall j :: 0 <= j < n ==> v[j] == w[j]
    ensures GenPeaks(v, peaks, idx) == GenPeaks(w, peaks, idx)
  {
    hide Tiles, GenRoots, Tail, Bag;
    PeakHashesFrame(v, w, peaks, 0, n);
    GenRootsFrame(v, w, peaks, idx, 0, n);
    var k := |peaks| - Tail(peaks, idx);
    assert PeakHashes(v, peaks[k..]) == PeakHashes(v, peaks)[k..];
    assert PeakHashes(w, peaks[k..]) == PeakHashes(w, peaks)[k..];
  }

  lemma {:induction false} GenRootsFrame(v: seq<Hash>, w: seq<Hash>, peaks: seq<Coord>, idx: seq<nat>,
                                         from: nat, n: nat)
    requires Tiles(peaks, from, n) && SortedIn(idx, from, n) && n <= |v| && n <= |w|
    requires forall j :: 0 <= j < n ==> v[j] == w[j]
    ensures GenRoots(v, peaks, idx) == GenRoots(w, peaks, idx)
    decreases |peaks|
  {
    hide *;
    if peaks == [] || idx == [] {
      GenRootsNone(v, peaks, idx);
      GenRootsNone(w, peaks, idx);
    } else {
      var c, m := peaks[0], Below(peaks, idx);
      var next := Shl(c.i + 1, c.h);
      SplitAtPeak(peaks, idx, from, n);
      TilesBounds(peaks[1..], next, n);
      GenRootsFrame(v, w, peaks[1..], idx[m..], next, n);
      SubtreeFrame(v, w, c.i, c.h);
      EmitFrame(v, w, idx[..m], 0, c.i, c.h);
      GenPeakIs(v, peaks, idx);
      GenPeakIs(w, peaks, idx);
      GenRootsUnfold(v, peaks, idx);
      GenRootsUnfold(w, peaks, idx);
    }
  }

  lemma GenPeakIs(v: seq<Hash>, peaks: seq<Coord>, idx: seq<nat>)
    requires peaks != []
    ensures var c, m := peaks[0], Below(peaks, idx);
            GenPeak(v, peaks, idx) == if m == 0 then [Subtree(v, c.i, c.h)] else Emit(v, idx[..m], 0, c.h)
  {
  }

  /** Siblings met while climbing stay inside the peak. */
  lemma {:induction false} EmitFrame(v: seq<Hash>, w: seq<Hash>, level: seq<nat>, h: nat, i: nat, k: nat)
    requires SortedIn(level, Shl(i, k), Shl(i + 1, k))
    requires Shl(i + 1, h + k) <= |v| && Shl(i + 1, h + k) <= |w|
    requires forall j :: 0 <= j < Shl(i + 1, h + k) ==> v[j] == w[j]
    ensures Emit(v, level, h, k) == Emit(w, level, h, k)
    decreases k
  {
    if k > 0 {
      var lo, hi := Shl(i, k - 1), Shl(i + 1, k - 1);
      assert Shl(i, k) == 2 * lo && Shl(i + 1, k) == 2 * hi;
      hide Shl, Subtree, Missing, NextLevel;
      NextLevelSorted(level, lo, hi);
      EmitFrame(v, w, NextLevel(level), h + 1, i, k - 1);
      MissingIn(level, lo, hi);
      ShlShl(i + 1, k, h);
      HashesFrame(v, w, Missing(level), h, Shl(i + 1, k));
    }
  }

  lemma HashesFrame(v: seq<Hash>, w: seq<Hash>, idx: seq<nat>, h: nat, hi: nat)
    requires forall j :: 0 <= j < |idx| ==> idx[j] < hi
    requires Shl(hi, h) <= |v| && Shl(hi, h) <= |w|
    requires forall j :: 0 <= j < Shl(hi, h) ==> v[j] == w[j]
    ensures HashesAt(v, idx, h) == HashesAt(w, idx, h)
  {
    hide Shl, Subtree;
    forall j | 0 <= j < |idx| ensures Subtree(v, idx[j], h) == Subtree(w, idx[j], h) {
      ShlMonotone(idx[j] + 1, hi, h);
      SubtreeFrame(v, w, idx[j], h);
    }
  }

  lemma {:induction false} MissingIn(level: seq<nat>, lo: nat, hi: nat)
    requires SortedIn(level, 2 * lo, 2 * hi)
    ensures forall j :: 0 <= j < |Missing(level)| ==> 2 * lo <= Missing(level)[j] < 2 * hi
    decreases |level|
  {
    if level == [] {
    } else if Paired(level) {
      MissingIn(level[2..], lo, hi);
    } else {
      MissingIn(level[1..], lo, hi);
    }
  }

  // ---- the theorem ---------------------------------------------------------------

  /** Given an honest proof of any set of leaves, the call returns the root the range has
      after pushing the new leaf when at most one peak lies to the right of the last proved
      leaf's peak, and otherwise it is refused: it never returns another root. The refusal is
      an invalid input when the new leaf merges and more than one of the trailing peaks stays,
      else an invalid proof. A proof that includes the last leaf always serves. */
  lemma NewLeafExactly(v: seq<Hash>, claims: seq<Claim>, items: seq<Hash>, x: Hash)
    requires |v| > 0 && ValidPositions(ClaimPositions(claims), |v|)
    requires ClaimsHold(v, claims) && GenProof(v, ClaimPositions(claims)) == Ok(items)
    ensures var n := |v|;
            var t := Tail(Peaks(n), LeafIndices(Canonical(ClaimPositions(claims), SelfKey)));
            CalculateRootWithNewLeaf(MmrSize(n), items, claims, Pos(n, 0), x, MmrSize(n + 1)) ==
              if t <= 1 then Ok(Root(v + [x]))
              else if n % 2 == 1 && Popcount(n + 1) - 1 > Popcount(n) - t + 1 then Err(InvalidInput)
              else Err(InvalidProof)
  {
    hide *;
    var n := |v|;
    var peaks, t := Peaks(n), Tail(Peaks(n), LeafIndices(Canonical(ClaimPositions(claims), SelfKey)));
    NewLeafPosition(n);
    NewLeafMerges(n);
    NewLeafUnfold(MmrSize(n), items, claims, x, n);
    if n % 2 == 0 {
      LoneLeaf(v, claims, items, x);
    } else {
      FindSwallow(n);
      SharedCount(n);
      HonestPeaks(v, claims, items);
      PeaksAvailable(v, peaks, t);
      var hashes := CalculatePeaksHashes(claims, MmrSize(n), items).value;
      MergingLeaf(v, hashes, x);
    }
  }

  lemma SharedCount(n: nat)
    ensures |Shared(n, n + 1)| == Popcount(n + 1) - 1 && |Peaks(n)| == Popcount(n)
  {
    hide *;
    NextPeaks(n);
    PeaksIs(n);
    PeaksIs(n + 1);
    PeaksCount(n, 0);
    PeaksCount(n + 1, 0);
  }

  lemma {:induction false} NewLeafPosition(n: nat)
    ensures Pos(n, 0) < MmrSize(n + 1)
    ensures LeafCount(MmrSize(n + 1)) == n + 1
  {
    hide Popcount, TrailingOnes, LeafCount;
    SizeStep(n);
    LeafCountOfSize(n + 1);
  }

  lemma {:induction false} NewLeafMerges(n: nat)
    ensures Height(Pos(n, 0) + 1) > Height(Pos(n, 0)) <==> n % 2 == 1
  {
    hide *;
    NextHeight(n, 0);
    PosInBlock(n, 0);
  }

  lemma {:induction false} NewLeafUnfold(mmrSize: nat, items: seq<Hash>, claims: seq<Claim>, x: Hash, n: nat)
    requires Pos(n, 0) < MmrSize(n + 1) && LeafCount(MmrSize(n + 1)) == n + 1
    ensures var r := CalculateRootWithNewLeaf(mmrSize, items, claims, Pos(n, 0), x, MmrSize(n + 1));
            var hashes := CalculatePeaksHashes(claims, mmrSize, items);
            var found := FirstAtLeast(PeakPositions(Peaks(n + 1)), Pos(n, 0), 0);
            if Height(Pos(n, 0) + 1) > Height(Pos(n, 0)) then
              (hashes.Ok? && found.Some? ==>
                 r == if found.value > |hashes.value| then Err(InvalidInput)
                      else CalculateRoot([Claim(Pos(n, 0), x)], MmrSize(n + 1), Reorder(hashes.value, found.value)))
            else r == CalculateRoot(claims + [Claim(Pos(n, 0), x)], MmrSize(n + 1), items)
  {
    hide LeafCount, Height, CalculateRoot, CalculatePeaksHashes, Peaks, FirstAtLeast, Reorder, Pos, MmrSize;
  }

  /** A proved last leaf leaves no trailing peak. */
  lemma {:induction false} LastLeafProved(peaks: seq<Coord>, idx: seq<nat>, from: nat, n: nat)
    requires Tiles(peaks, from, n) && SortedIn(idx, from, n)
    requires idx != [] && idx[|idx| - 1] == n - 1
    ensures Tail(peaks, idx) == 0
    decreases |peaks|
  {
    if peaks != [] {
      var m := Below(peaks, idx);
      var next := Shl(peaks[0].i + 1, peaks[0].h);
      SplitAtPeak(peaks, idx, from, n);
      if m < |idx| {
        LastLeafProved(peaks[1..], idx[m..], next, n);
      } else {
        assert next >= n;
        TilesBounds(peaks[1..], next, n);
        if peaks[1..] != [] {
          TilesGrow(peaks[1..], next, n);
        }
      }
    }
  }

  /** With the last leaf among the proved ones, the call always returns the root after the
      push, whether or not the new leaf merges. */
  lemma NewLeafAfterLast(v: seq<Hash>, claims: seq<Claim>, items: seq<Hash>, x: Hash)
    requires |v| > 0 && ValidPositions(ClaimPositions(claims), |v|) && Pos(|v| - 1, 0) in ClaimPositions(claims)
    requires ClaimsHold(v, claims) && GenProof(v, ClaimPositions(claims)) == Ok(items)
    ensures CalculateRootWithNewLeaf(MmrSize(|v|), items, claims, Pos(|v|, 0), x, MmrSize(|v| + 1))
         == Ok(Root(v + [x]))
  {
    hide *;
    var n, ps := |v|, ClaimPositions(claims);
    var idx := LeafIndices(Canonical(ps, SelfKey));
    CanonicalPositions(ps, n);
    PeaksOfRange(n);
    LastIndex(Canonical(ps, SelfKey), n);
    LastLeafProved(Peaks(n), idx, 0, n);
    NewLeafExactly(v, claims, items, x);
  }

  lemma LastIndex(ps: seq<nat>, n: nat)
    requires n > 0 && Pos(n - 1, 0) in ps && SortedIn(LeafIndices(ps), 0, n)
    ensures LeafIndices(ps) != [] && LeafIndices(ps)[|ps| - 1] == n - 1
  {
    hide LeafCount, Pos;
    var j :| 0 <= j < |ps| && ps[j] == Pos(n - 1, 0);
    LeafOfPos(n - 1);
    assert LeafIndices(ps)[j] == n - 1;
  }

  lemma {:induction false} LeafOfPos(i: nat)
    ensures LeafCount(Pos(i, 0)) == i
  {
    hide LeafCount, Pos;
    PosInBlock(i, 0);
  }
}
