/** What a root and a proof are over any store: the positions they read, in order, and the
    result of the first read that fails, or of the nodes read. */
module RangeReads {
  import opened Wrappers
  import opened Bits
  import opened Positions
  import opened Mountain
  import opened Walk
  import opened PeakWalk
  import opened Sorting
  import opened MerkleProof
  import opened Verifier
  import opened NewLeaf
  import opened Prover
  import opened Overlay
  import opened Fetching

  /** `get_root` over the store `view`: the peaks of a range of that size, bagged. */
  function RootFrom(view: Store, size: nat): Result<Hash, Error> {
    if size == 0 then Err(GetRootOnEmpty) else BagOf(Fetch(view, PeakPositions(Peaks(LeafCount(size)))).nodes)
  }

  function BagOf(peaks: Result<seq<Hash>, Error>): Result<Hash, Error> {
    match peaks
    case Err(e) => Err(e)
    case Ok(nodes) => if nodes == [] then Err(InconsistentStore) else Ok(Bag(nodes))
  }

  /** The last `t` items replaced by their bag, when there are several. */
  function Bagged(raw: seq<Hash>, t: nat): seq<Hash> {
    if 1 < t <= |raw| then raw[..|raw| - t] + [Bag(raw[|raw| - t..])] else raw
  }

  /** `gen_proof` over the store `view`, and the positions it reads. */
  ghost function ProofFrom(view: Store, size: nat, posList: seq<nat>): Fetched {
    if posList == [] then Fetched(Err(GenProofForInvalidLeaves), [])
    else if size == 1 && posList == [0] then Fetched(Ok([]), [])
    else if exists p :: p in posList && Height(p) > 0 then Fetched(Err(NodeProofsNotSupported), [])
    else
      var peaks, idx := Peaks(LeafCount(size)), LeafIndices(Canonical(posList, SelfKey));
      var f := Fetch(view, Wanted(peaks, idx));
      if f.nodes.Err? then f
      else if OutOfRange(posList, LeafCount(size)) then f.(nodes := Err(GenProofForInvalidLeaves))
      else f.(nodes := Ok(Bagged(f.nodes.value, Track(peaks, idx, 0))))
  }

  // ---- over a store that holds a whole range -------------------------------------------

  /** Every node over the leaves `v` can be read at its position. */
  ghost predicate HoldsIn(view: Store, v: seq<Hash>) {
    forall i: nat, h: nat :: Shl(i + 1, h) <= |v| ==> view.Get(Pos(i, h)) == Present(Subtree(v, i, h))
  }

  lemma NodeReadable(view: Store, v: seq<Hash>, i: nat, h: nat)
    requires HoldsIn(view, v) && Shl(i + 1, h) <= |v|
    ensures view.Get(Pos(i, h)) == Present(Subtree(v, i, h))
  {
    hide Pos, Shl, Subtree;
  }

  lemma FindsNode(view: Store, v: seq<Hash>, i: nat, h: nat)
    requires HoldsIn(view, v) && Shl(i + 1, h) <= |v|
    ensures Finds(view, [Pos(i, h)], [Subtree(v, i, h)])
  {
    hide *;
    NodeReadable(view, v, i, h);
    PresentMeans(view.Get(Pos(i, h)), Subtree(v, i, h));
    FetchOne(view, Pos(i, h), []);
  }

  lemma PresentMeans(r: Read, x: Hash)
    ensures r == Present(x) <==> ToResult(r) == Ok(x)
  {
  }

  lemma FindsBoth(view: Store, a: seq<nat>, xs: seq<Hash>, b: seq<nat>, ys: seq<Hash>)
    requires Finds(view, a, xs) && Finds(view, b, ys)
    ensures Finds(view, a + b, xs + ys)
  {
    hide Fetch;
    FetchAfter(view, a, xs, b);
  }

  lemma {:induction false} FindsSpots(view: Store, v: seq<Hash>, idx: seq<nat>, h: nat, hi: nat)
    requires HoldsIn(view, v) && Shl(hi, h) <= |v| && forall j :: 0 <= j < |idx| ==> idx[j] < hi
    ensures Finds(view, SpotsAt(idx, h), HashesAt(v, idx, h))
    decreases |idx|
  {
    hide *;
    FindsNothing(view);
    SpotsUnfold(v, idx, h);
    if idx != [] {
      ShlMonotone(idx[0] + 1, hi, h);
      FindsNode(view, v, idx[0], h);
      FindsSpots(view, v, idx[1..], h, hi);
      FindsBoth(view, [Pos(idx[0], h)], [Subtree(v, idx[0], h)], SpotsAt(idx[1..], h), HashesAt(v, idx[1..], h));
    }
  }

  lemma SpotsUnfold(v: seq<Hash>, idx: seq<nat>, h: nat)
    ensures idx == [] ==> SpotsAt(idx, h) == [] && HashesAt(v, idx, h) == []
    ensures idx != [] ==>
              && SpotsAt(idx, h) == [Pos(idx[0], h)] + SpotsAt(idx[1..], h)
              && HashesAt(v, idx, h) == [Subtree(v, idx[0], h)] + HashesAt(v, idx[1..], h)
  {
    hide Pos, Subtree;
  }

  /** The siblings below a peak are the emitted ones. */
  lemma {:induction false} FindsSiblings(view: Store, v: seq<Hash>, level: seq<nat>, h: nat, i: nat, k: nat)
    requires HoldsIn(view, v) && SortedIn(level, Shl(i, k), Shl(i + 1, k)) && Shl(i + 1, k + h) <= |v|
    ensures Finds(view, EmitAt(level, h, k), Emit(v, level, h, k))
    decreases k
  {
    EmitUnfold(v, level, h, k);
    hide *;
    FindsNothing(view);
    if k > 0 {
      ShlHalves(i, k, h);
      var lo, hi := Shl(i, k - 1), Shl(i + 1, k - 1);
      NextLevelSorted(level, lo, hi);
      MissingIn(level, lo, hi);
      FindsSpots(view, v, Missing(level), h, Shl(i + 1, k));
      FindsSiblings(view, v, NextLevel(level), h + 1, i, k - 1);
      FindsBoth(view, SpotsAt(Missing(level), h), HashesAt(v, Missing(level), h),
                EmitAt(NextLevel(level), h + 1, k - 1), Emit(v, NextLevel(level), h + 1, k - 1));
    }
  }

  lemma ShlHalves(i: nat, k: nat, h: nat)
    requires k > 0
    ensures Shl(i, k) == 2 * Shl(i, k - 1) && Shl(i + 1, k) == 2 * Shl(i + 1, k - 1)
    ensures Shl(Shl(i + 1, k), h) == Shl(i + 1, k + h) && k - 1 + (h + 1) == k + h
  {
    ShlShl(i + 1, k, h);
  }

  lemma EmitUnfold(v: seq<Hash>, level: seq<nat>, h: nat, k: nat)
    ensures k == 0 ==> EmitAt(level, h, k) == [] && Emit(v, level, h, k) == []
    ensures k > 0 ==>
              && EmitAt(level, h, k) == SpotsAt(Missing(level), h) + EmitAt(NextLevel(level), h + 1, k - 1)
              && Emit(v, level, h, k) == HashesAt(v, Missing(level), h) + Emit(v, NextLevel(level), h + 1, k - 1)
  {
  }

  lemma FindsPeak(view: Store, v: seq<Hash>, c: Coord, idx: seq<nat>)
    requires HoldsIn(view, v) && Shl(c.i + 1, c.h) <= |v|
    requires SortedIn(idx, Shl(c.i, c.h), Shl(c.i + 1, c.h))
    ensures Finds(view, WantedBy(c, idx), if idx == [] then [Subtree(v, c.i, c.h)] else Emit(v, idx, 0, c.h))
  {
    hide HoldsIn, Pos, Shl, Subtree, Finds, EmitAt, Emit;
    if idx == [] {
      FindsNode(view, v, c.i, c.h);
    } else {
      FindsSiblings(view, v, idx, 0, c.i, c.h);
    }
  }

  /** Strictly increasing indices split at the first peak, whether or not they are in range. */
  lemma SplitAnywhere(peaks: seq<Coord>, idx: seq<nat>, from: nat, n: nat, hi: nat)
    requires peaks != [] && Tiles(peaks, from, n) && n <= hi && SortedIn(idx, from, hi)
    ensures var c, m := peaks[0], Below(peaks, idx);
            && SortedIn(idx[..m], Shl(c.i, c.h), Shl(c.i + 1, c.h))
            && SortedIn(idx[m..], Shl(c.i + 1, c.h), hi)
            && Tiles(peaks[1..], Shl(c.i + 1, c.h), n)
            && Shl(c.i + 1, c.h) <= n
  {
    hide Shl;
    TilesBounds(peaks, from, n);
    assert peaks[0] in peaks;
  }

  lemma {:induction false} FindsWanted(view: Store, v: seq<Hash>, peaks: seq<Coord>, idx: seq<nat>,
                                       from: nat, hi: nat)
    requires HoldsIn(view, v) && Tiles(peaks, from, |v|) && |v| <= hi && SortedIn(idx, from, hi)
    ensures Finds(view, Wanted(peaks, idx), RawGen(v, peaks, idx))
    decreases |peaks|
  {
    WantedUnfold(v, peaks, idx);
    hide *;
    FindsNothing(view);
    if peaks != [] {
      var c, m := peaks[0], Below(peaks, idx);
      SplitAnywhere(peaks, idx, from, |v|, hi);
      FindsPeak(view, v, c, idx[..m]);
      FindsWanted(view, v, peaks[1..], idx[m..], Shl(c.i + 1, c.h), hi);
      FindsBoth(view, WantedBy(c, idx[..m]), GenPeak(v, peaks, idx),
                Wanted(peaks[1..], idx[m..]), RawGen(v, peaks[1..], idx[m..]));
    }
  }

  lemma WantedUnfold(v: seq<Hash>, peaks: seq<Coord>, idx: seq<nat>)
    ensures peaks == [] ==> Wanted(peaks, idx) == [] && RawGen(v, peaks, idx) == []
    ensures peaks != [] ==>
              var c, m := peaks[0], Below(peaks, idx);
              && Wanted(peaks, idx) == WantedBy(c, idx[..m]) + Wanted(peaks[1..], idx[m..])
              && RawGen(v, peaks, idx) == GenPeak(v, peaks, idx) + RawGen(v, peaks[1..], idx[m..])
              && GenPeak(v, peaks, idx) ==
                   if idx[..m] == [] then [Subtree(v, c.i, c.h)] else Emit(v, idx[..m], 0, c.h)
  {
    hide Emit, EmitAt, WantedBy, Subtree;
  }

  /** The sorted positions are strictly increasing leaf indices. */
  lemma {:induction false} SortedLeaves(posList: seq<nat>) returns (hi: nat)
    requires forall p :: p in posList ==> Height(p) == 0
    ensures SortedIn(LeafIndices(Canonical(posList, SelfKey)), 0, hi)
  {
    hide *;
    WaitingStart(posList);
    hi := LeavesBelow(Canonical(posList, SelfKey), posList);
  }

  lemma LeavesBelow(left: seq<nat>, posList: seq<nat>) returns (hi: nat)
    requires Waiting(left, posList, 0)
    ensures SortedIn(LeafIndices(left), 0, hi)
  {
    hide *;
    WaitingMeans(left, posList, 0);
    AsClaimsMeans(left);
    PendingSorted(AsClaims(left));
    hi := LastOf(LeafIndices(left));
  }

  lemma PendingSorted(claims: seq<Claim>)
    requires Pending(claims, 0)
    ensures forall a, b :: 0 <= a < b < |claims| ==> Indices(Entries(claims))[a] < Indices(Entries(claims))[b]
  {
    hide LeafCount, Height;
  }

  lemma LastOf(idx: seq<nat>) returns (hi: nat)
    requires forall a, b :: 0 <= a < b < |idx| ==> idx[a] < idx[b]
    ensures SortedIn(idx, 0, hi)
  {
    hi := if idx == [] then 0 else idx[|idx| - 1] + 1;
  }

  /** Over a whole range, the proof is the prover's. */
  lemma ProofFromRange(view: Store, v: seq<Hash>, posList: seq<nat>)
    requires HoldsIn(view, v)
    ensures ProofFrom(view, MmrSize(|v|), posList).nodes == GenProof(v, posList)
  {
    hide *;
    LeafCountOfSize(|v|);
    OneNodeRange(|v|);
    OneLeafSize();
    SpecCases(view, v, posList);
    if !(exists p :: p in posList && Height(p) > 0) {
      var idx := LeafIndices(Canonical(posList, SelfKey));
      var hi := SortedLeaves(posList);
      RangeTiles(|v|);
      WidenSorted(idx, hi, hi + |v|);
      FindsWanted(view, v, Peaks(|v|), idx, 0, hi + |v|);
      FindsMeans(view, Wanted(Peaks(|v|), idx), RawGen(v, Peaks(|v|), idx));
      SpecOfProof(v, posList);
    }
  }

  lemma FindsMeans(view: Store, want: seq<nat>, nodes: seq<Hash>)
    requires Finds(view, want, nodes)
    ensures Fetch(view, want) == Fetched(Ok(nodes), want)
  {
  }

  lemma WidenSorted(idx: seq<nat>, hi: nat, hi': nat)
    requires SortedIn(idx, 0, hi) && hi <= hi'
    ensures SortedIn(idx, 0, hi')
  {
  }

  lemma {:induction false} SpecCases(view: Store, v: seq<Hash>, posList: seq<nat>)
    requires LeafCount(MmrSize(|v|)) == |v| && (MmrSize(|v|) == 1 <==> |v| == 1)
    ensures var idx, peaks := LeafIndices(Canonical(posList, SelfKey)), Peaks(|v|);
            var f, g := ProofFrom(view, MmrSize(|v|), posList).nodes, GenProof(v, posList);
            var raw := Fetch(view, Wanted(peaks, idx)).nodes;
            if posList == [] || (|v| == 1 && posList == [0]) || (exists p :: p in posList && Height(p) > 0) then f == g
            else
              && (OutOfRange(posList, |v|) ==> g == Err(GenProofForInvalidLeaves))
              && (raw.Ok? ==>
                    f == if OutOfRange(posList, |v|) then Err(GenProofForInvalidLeaves)
                         else Ok(Bagged(raw.value, Track(peaks, idx, 0))))
  {
    hide Height, Canonical, LeafCount, MmrSize, Fetch, Wanted, Bagged, GenPeaks, Peaks, Track;
  }

  lemma {:induction false} SpecOfProof(v: seq<Hash>, posList: seq<nat>)
    requires !exists p :: p in posList && Height(p) > 0
    ensures var peaks, idx := Peaks(|v|), LeafIndices(Canonical(posList, SelfKey));
            posList != [] && !(|v| == 1 && posList == [0]) && !OutOfRange(posList, |v|) ==>
              GenProof(v, posList) == Ok(Bagged(RawGen(v, peaks, idx), Track(peaks, idx, 0)))
  {
    hide *;
    var peaks, idx := Peaks(|v|), LeafIndices(Canonical(posList, SelfKey));
    InRangeMeans(posList, |v|);
    if ValidPositions(posList, |v|) {
      CanonicalPositions(posList, |v|);
      RangeTiles(|v|);
      BaggedProof(v, peaks, idx, 0, |v|);
      BaggedMeans(RawGen(v, peaks, idx), Track(peaks, idx, 0));
      GenProofValid(v, posList);
    }
  }

  lemma {:induction false} InRangeMeans(posList: seq<nat>, n: nat)
    requires !exists p :: p in posList && Height(p) > 0
    ensures ValidPositions(posList, n) <==> posList != [] && !OutOfRange(posList, n)
  {
    hide Height, LeafCount;
  }

  lemma BaggedMeans(raw: seq<Hash>, t: nat)
    requires t <= |raw|
    ensures Bagged(raw, t) == if t > 1 then raw[..|raw| - t] + [Bag(raw[|raw| - t..])] else raw
  {
    hide Bag;
  }

  // ---- the root of a whole range -------------------------------------------------------

  lemma {:induction false} FindsPeaks(view: Store, v: seq<Hash>, cs: seq<Coord>)
    requires HoldsIn(view, v) && forall c :: c in cs ==> Shl(c.i + 1, c.h) <= |v|
    ensures Finds(view, PeakPositions(cs), PeakHashes(v, cs))
    decreases |cs|
  {
    hide *;
    FindsNothing(view);
    PeaksUnfold(v, cs);
    if cs != [] {
      var c := cs[0];
      assert c in cs;
      FindsNode(view, v, c.i, c.h);
      FindsPeaks(view, v, cs[1..]);
      FindsBoth(view, [Pos(c.i, c.h)], [Subtree(v, c.i, c.h)], PeakPositions(cs[1..]), PeakHashes(v, cs[1..]));
    }
  }

  lemma PeaksUnfold(v: seq<Hash>, cs: seq<Coord>)
    ensures cs == [] ==> PeakPositions(cs) == [] && PeakHashes(v, cs) == []
    ensures cs != [] ==>
              && PeakPositions(cs) == [Pos(cs[0].i, cs[0].h)] + PeakPositions(cs[1..])
              && PeakHashes(v, cs) == [Subtree(v, cs[0].i, cs[0].h)] + PeakHashes(v, cs[1..])
  {
    hide *;
    if cs != [] {
      PeakHashesHead(v, cs);
      var rest := PeakPositions(cs[1..]);
      assert forall j :: 0 < j < |cs| ==> cs[1..][j - 1] == cs[j];
      assert PeakPositions(cs) == [Pos(cs[0].i, cs[0].h)] + rest;
    }
  }

  /** Over a whole range, the root is the range's. */
  lemma RootFromRange(view: Store, v: seq<Hash>)
    requires HoldsIn(view, v)
    ensures RootFrom(view, MmrSize(|v|)) == if v == [] then Err(GetRootOnEmpty) else Ok(Root(v))
  {
    LeafCountOfSize(|v|);
    SizeOfSome(|v|);
    hide HoldsIn, MmrSize, LeafCount, Peaks, Bag, Fetch, Tiles, PeakPositions, PeakHashes, Shl;
    if v != [] {
      PeaksOfRange(|v|);
      TilesBounds(Peaks(|v|), 0, |v|);
      FindsPeaks(view, v, Peaks(|v|));
      RootMeans(v);
    }
  }

  lemma SizeOfSome(n: nat)
    ensures MmrSize(n) == 0 <==> n == 0
  {
  }
}
