/** Inclusion proofs for sets of leaves: what the prover emits, what the verifier
    recomputes, and when the two agree. */
module MerkleProof {
  import opened Wrappers
  import opened Positions
  import opened Mountain
  import opened Walk
  import opened PeakWalk
  import opened Sorting

  datatype Error =
    | GetRootOnEmpty
    | InconsistentStore
    | StoreError
    | GenProofForInvalidLeaves
    | NodeProofsNotSupported
    | InvalidProof
    | InvalidInput
    | InvalidData
    | OperationFailed

  /** A claimed leaf: its position and its hash. */
  datatype Claim = Claim(pos: nat, x: Hash)

  function ClaimPos(c: Claim): nat { c.pos }

  function SelfKey(p: nat): nat { p }

  function Entries(claims: seq<Claim>): (es: seq<Entry>)
    ensures |es| == |claims|
    ensures forall j :: 0 <= j < |es| ==> es[j] == Entry(LeafCount(claims[j].pos), claims[j].x)
  {
    seq(|claims|, j requires 0 <= j < |claims| => Entry(LeafCount(claims[j].pos), claims[j].x))
  }

  function LeafIndices(posList: seq<nat>): (idx: seq<nat>)
    ensures |idx| == |posList|
    ensures forall j :: 0 <= j < |idx| ==> idx[j] == LeafCount(posList[j])
  {
    seq(|posList|, j requires 0 <= j < |posList| => LeafCount(posList[j]))
  }

  function ClaimPositions(claims: seq<Claim>): (ps: seq<nat>)
    ensures |ps| == |claims|
    ensures forall j :: 0 <= j < |ps| ==> ps[j] == claims[j].pos
  {
    seq(|claims|, j requires 0 <= j < |claims| => claims[j].pos)
  }

  /** End of the peak loop: no leaf may be left, and at most one item, which then
      stands for everything to the right. */
  function Collect(w: Walked): Result<seq<Hash>, Error> {
    match w
    case Failed => Err(InvalidProof)
    case Walked(hashes, es, items) =>
      if es != [] || |items| > 1 then Err(InvalidProof) else Ok(hashes + items)
  }

  /** `calculate_peaks_hashes` */
  function CalculatePeaksHashes(leaves: seq<Claim>, mmrSize: nat, items: seq<Hash>)
    : Result<seq<Hash>, Error>
  {
    if exists c :: c in leaves && Height(c.pos) > 0 then Err(NodeProofsNotSupported)
    else if mmrSize == 1 && |leaves| == 1 && leaves[0].pos == 0 then Ok([leaves[0].x])
    else Collect(WalkPeaks(Peaks(LeafCount(mmrSize)), Entries(Canonical(leaves, ClaimPos)), items))
  }

  /** `calculate_root` */
  function CalculateRoot(leaves: seq<Claim>, mmrSize: nat, items: seq<Hash>): Result<Hash, Error> {
    match CalculatePeaksHashes(leaves, mmrSize, items)
    case Err(e) => Err(e)
    case Ok(hashes) => if hashes == [] then Err(InvalidProof) else Ok(Bag(hashes))
  }

  /** `gen_proof` on the mountain range over the leaves `v`. */
  function GenProof(v: seq<Hash>, posList: seq<nat>): Result<seq<Hash>, Error> {
    if posList == [] then Err(GenProofForInvalidLeaves)
    else if |v| == 1 && posList == [0] then Ok([])
    else if exists p :: p in posList && Height(p) > 0 then Err(NodeProofsNotSupported)
    else if exists p :: p in posList && LeafCount(p) >= |v| then Err(GenProofForInvalidLeaves)
    else Ok(GenPeaks(v, Peaks(|v|), LeafIndices(Canonical(posList, SelfKey))))
  }

  /** A non-empty list of leaf positions of an `n`-leaf range. */
  predicate ValidPositions(posList: seq<nat>, n: nat) {
    && posList != []
    && forall p :: p in posList ==> Height(p) == 0 && LeafCount(p) < n
  }

  /** Every claim that survives deduplication is the leaf at its position. */
  predicate ClaimsHold(v: seq<Hash>, claims: seq<Claim>) {
    forall c :: c in Canonical(claims, ClaimPos) ==> LeafCount(c.pos) < |v| && c.x == v[LeafCount(c.pos)]
  }

  // ---- from positions to leaf indices --------------------------------------

  lemma {:induction false} LeafOrder(p: nat, q: nat)
    requires Height(p) == 0 && Height(q) == 0 && p < q
    ensures LeafCount(p) < LeafCount(q)
  {
    hide LeafCount, MmrSize;
    if LeafCount(q) < LeafCount(p) {
      SizeMonotone(LeafCount(q), LeafCount(p));
    }
  }

  lemma CanonicalPositions(posList: seq<nat>, n: nat)
    requires ValidPositions(posList, n)
    ensures var c := Canonical(posList, SelfKey);
            && ValidPositions(c, n)
            && (forall p :: p in c <==> p in posList)
            && LeafIndices(c) != []
            && SortedIn(LeafIndices(c), 0, n)
  {
    hide LeafCount, Height, Canonical;
    var c := Canonical(posList, SelfKey);
    forall p ensures p in c <==> p in posList {
      CanonicalMember(posList, SelfKey, p);
      FirstIsMember(posList, SelfKey, p);
    }
    assert posList[0] in c;
    CanonicalSpec(posList, SelfKey, 0);
    IndicesSorted(c, n);
  }

  lemma IndicesSorted(c: seq<nat>, n: nat)
    requires ValidPositions(c, n) && StrictlyAscending(c, SelfKey)
    ensures SortedIn(LeafIndices(c), 0, n)
  {
    hide LeafCount, Height;
    var idx := LeafIndices(c);
    forall a, b | 0 <= a < b < |idx| ensures idx[a] < idx[b] {
      assert SelfKey(c[a]) < SelfKey(c[b]);
      assert c[a] in c && c[b] in c;
      LeafOrder(c[a], c[b]);
    }
    forall a | 0 <= a < |idx| ensures idx[a] < n {
      assert c[a] in c;
    }
  }

  /** Prover and verifier see the same leaf indices. */
  lemma SameIndices(claims: seq<Claim>)
    ensures ClaimPositions(Canonical(claims, ClaimPos)) == Canonical(ClaimPositions(claims), SelfKey)
    ensures Indices(Entries(Canonical(claims, ClaimPos)))
         == LeafIndices(Canonical(ClaimPositions(claims), SelfKey))
  {
    hide *;
    var cs, ps := Canonical(claims, ClaimPos), Canonical(ClaimPositions(claims), SelfKey);
    CanonicalSpec(claims, ClaimPos, 0);
    CanonicalSpec(ClaimPositions(claims), SelfKey, 0);
    AscendingPositions(cs);
    AscendingSelf(ps);
    forall k: nat ensures k in ClaimPositions(cs) <==> k in ps {
      SamePosition(claims, k);
    }
    StrictUnique(ClaimPositions(cs), ps);
    EntryIndices(cs);
  }

  lemma AscendingPositions(cs: seq<Claim>)
    requires StrictlyAscending(cs, ClaimPos)
    ensures forall a, b :: 0 <= a < b < |cs| ==> ClaimPositions(cs)[a] < ClaimPositions(cs)[b]
  {
    forall a, b | 0 <= a < b < |cs| ensures ClaimPositions(cs)[a] < ClaimPositions(cs)[b] {
      assert ClaimPos(cs[a]) < ClaimPos(cs[b]);
    }
  }

  lemma AscendingSelf(ps: seq<nat>)
    requires StrictlyAscending(ps, SelfKey)
    ensures forall a, b :: 0 <= a < b < |ps| ==> ps[a] < ps[b]
  {
    forall a, b | 0 <= a < b < |ps| ensures ps[a] < ps[b] {
      assert SelfKey(ps[a]) < SelfKey(ps[b]);
    }
  }

  lemma SamePosition(claims: seq<Claim>, k: nat)
    ensures k in ClaimPositions(Canonical(claims, ClaimPos)) <==> k in Canonical(ClaimPositions(claims), SelfKey)
  {
    hide Canonical;
    CanonicalKeys(claims, ClaimPos, k);
    PositionOfSome(claims, k);
    PositionOfSome(Canonical(claims, ClaimPos), k);
    CanonicalMember(ClaimPositions(claims), SelfKey, k);
    FirstIsMember(ClaimPositions(claims), SelfKey, k);
  }

  lemma EntryIndices(cs: seq<Claim>)
    ensures Indices(Entries(cs)) == LeafIndices(ClaimPositions(cs))
  {
    hide LeafCount;
  }

  lemma PositionOfSome(claims: seq<Claim>, k: nat)
    ensures k in ClaimPositions(claims) <==> exists c :: c in claims && ClaimPos(c) == k
  {
    if k in ClaimPositions(claims) {
      var j :| 0 <= j < |claims| && ClaimPositions(claims)[j] == k;
      assert claims[j] in claims && ClaimPos(claims[j]) == k;
    }
    forall c | c in claims && ClaimPos(c) == k ensures k in ClaimPositions(claims) {
      var j :| 0 <= j < |claims| && claims[j] == c;
      assert ClaimPositions(claims)[j] == k;
    }
  }

  lemma ClaimsHoldMeans(v: seq<Hash>, claims: seq<Claim>)
    requires ValidPositions(ClaimPositions(claims), |v|)
    ensures ClaimsHold(v, claims) <==> IsHonest(v, Entries(Canonical(claims, ClaimPos)), 0)
  {
    hide LeafCount, Height;
    var cs := Canonical(claims, ClaimPos);
    var es := Entries(cs);
    forall j | 0 <= j < |cs|
      ensures LeafCount(cs[j].pos) < |v|
      ensures Subtree(v, es[j].i, 0) == v[es[j].i]
    {
      assert cs[j] in cs;
      CanonicalMember(claims, ClaimPos, cs[j]);
      var i :| 0 <= i < |claims| && claims[i] == cs[j];
      assert ClaimPositions(claims)[i] in ClaimPositions(claims);
    }
    if IsHonest(v, es, 0) {
      forall c | c in cs ensures LeafCount(c.pos) < |v| && c.x == v[LeafCount(c.pos)] {
        var j :| 0 <= j < |cs| && cs[j] == c;
        assert es[j].x == Subtree(v, es[j].i, 0);
      }
    }
  }

  // ---- the exact behaviour of the verifier ---------------------------------

  lemma CollectShape(peaks: seq<Coord>, es: seq<Entry>, items: seq<Hash>, n: nat)
    requires Tiles(peaks, 0, n) && SortedIn(Indices(es), 0, n)
    ensures var need, t := Need(peaks, Indices(es)), Tail(peaks, Indices(es));
            Collect(WalkPeaks(peaks, es, items)) ==
              if need <= |items| <= need + t + 1 then Ok(PeakRoots(peaks, es, items) + items[need..])
              else Err(InvalidProof)
  {
    hide *;
    WalkShape(peaks, es, items, 0, n);
    var need, t := Need(peaks, Indices(es)), Tail(peaks, Indices(es));
    if |items| >= need {
      FinishCollect(PeakRoots(peaks, es, items), t, items[need..]);
    }
    CollectFails(WalkPeaks(peaks, es, items));
  }

  lemma CollectFails(w: Walked)
    ensures w.Failed? || w.es != [] ==> Collect(w) == Err(InvalidProof)
  {
  }

  lemma FinishCollect(roots: seq<Hash>, t: nat, rest: seq<Hash>)
    ensures Collect(Finish(roots, t, rest)) ==
              if |rest| <= t + 1 then Ok(roots + rest) else Err(InvalidProof)
  {
    var k := if |rest| <= t then |rest| else t;
    assert roots + rest[..k] + rest[k..] == roots + rest;
  }

  /** Number of items the prover emits. */
  function GenCount(peaks: seq<Coord>, idx: seq<nat>): nat {
    Need(peaks, idx) + (if Tail(peaks, idx) == 0 then 0 else 1)
  }

  lemma GenPeaksLength(v: seq<Hash>, peaks: seq<Coord>, idx: seq<nat>)
    ensures |GenPeaks(v, peaks, idx)| == GenCount(peaks, idx)
  {
    GenRootsLength(v, peaks, idx);
  }

  /** Splitting the honest root at the trailing peaks. */
  lemma HonestBag(v: seq<Hash>, peaks: seq<Coord>, k: nat)
    requires k <= |peaks| && peaks != []
    ensures Bag(PeakHashes(v, peaks)) ==
              if k == |peaks| then Bag(PeakHashes(v, peaks[..k]))
              else Bag(PeakHashes(v, peaks[..k]) + [Bag(PeakHashes(v, peaks[k..]))])
  {
    assert PeakHashes(v, peaks) == PeakHashes(v, peaks[..k]) + PeakHashes(v, peaks[k..]);
    if k == |peaks| {
      assert peaks[..k] == peaks;
    } else {
      BagSplit(PeakHashes(v, peaks[..k]), PeakHashes(v, peaks[k..]));
    }
  }

  /** With as many items as the prover emits, the recomputed peaks bag to the honest
      root exactly when every leaf and every item is honest. */
  lemma ExactItems(v: seq<Hash>, peaks: seq<Coord>, es: seq<Entry>, items: seq<Hash>, n: nat)
    requires peaks != [] && Tiles(peaks, 0, n) && SortedIn(Indices(es), 0, n)
    requires |items| == GenCount(peaks, Indices(es))
    ensures var hashes := Collect(WalkPeaks(peaks, es, items));
            && hashes.Ok? && hashes.value != []
            && (Bag(hashes.value) == Bag(PeakHashes(v, peaks)) <==>
                  IsHonest(v, es, 0) && items == GenPeaks(v, peaks, Indices(es)))
  {
    var idx := Indices(es);
    var need, t := Need(peaks, idx), Tail(peaks, idx);
    var k := |peaks| - t;
    var gen, roots, honest := GenRoots(v, peaks, idx), PeakRoots(peaks, es, items), PeakHashes(v, peaks[..k]);
    CollectShape(peaks, es, items, n);
    RootsHonest(v, peaks, es, items, 0, n);
    GenRootsLength(v, peaks, idx);
    HonestBag(v, peaks, k);
    assert |roots| == k && (roots == honest <==> IsHonest(v, es, 0) && items[..need] == gen);
    hide Need, Tail, WalkPeaks, PeakRoots, Collect, GenRoots, Bag, Tiles, IsHonest;
    if t == 0 {
      assert roots + items[need..] == roots && items[..need] == items && gen + [] == gen;
      if Bag(roots) == Bag(honest) { BagInjective(roots, honest); }
    } else {
      BagOfSplit(roots, honest, items, gen, Bag(PeakHashes(v, peaks[k..])));
    }
  }

  lemma BagOfSplit(roots: seq<Hash>, honest: seq<Hash>, items: seq<Hash>, gen: seq<Hash>, last: Hash)
    requires |roots| == |honest| && |items| == |gen| + 1
    ensures Bag(roots + items[|gen|..]) == Bag(honest + [last]) <==> roots == honest && items[|gen|] == last
    ensures items == gen + [last] <==> items[..|gen|] == gen && items[|gen|] == last
  {
    var k, need := |roots|, |gen|;
    assert items == items[..need] + [items[need]];
    assert items[need..] == [items[need]];
    var a, b := roots + items[need..], honest + [last];
    if Bag(a) == Bag(b) {
      BagInjective(a, b);
      assert roots == a[..k] && honest == b[..k];
      assert items[need] == a[k] && last == b[k];
    }
  }

  lemma PeaksOfRange(n: nat)
    requires n > 0
    ensures Peaks(n) != [] && Tiles(Peaks(n), 0, n)
  {
    PeaksTile(n, 0);
    PeaksCount(n, 0);
  }

  /** Completeness and position soundness in one statement: against the real root of
      an `n`-leaf range, a proof with as many items as `gen_proof` emits for these
      leaves is accepted exactly when every deduplicated claim is the leaf at its
      position and the items are the ones `gen_proof` emits. */
  lemma AcceptsExactly(v: seq<Hash>, claims: seq<Claim>, items: seq<Hash>)
    requires |v| > 0 && ValidPositions(ClaimPositions(claims), |v|)
    requires var g := GenProof(v, ClaimPositions(claims)); g.Ok? ==> |items| == |g.value|
    ensures GenProof(v, ClaimPositions(claims)).Ok? && CalculateRoot(claims, MmrSize(|v|), items).Ok?
    ensures CalculateRoot(claims, MmrSize(|v|), items) == Ok(Root(v)) <==>
              ClaimsHold(v, claims) && GenProof(v, ClaimPositions(claims)) == Ok(items)
  {
    var n, ps := |v|, ClaimPositions(claims);
    var es := Entries(Canonical(claims, ClaimPos));
    hide *;
    GenProofValid(v, ps);
    SameIndices(claims);
    CanonicalPositions(ps, n);
    PeaksOfRange(n);
    GenPeaksLength(v, Peaks(n), Indices(es));
    OneLeafProof(v, Indices(es));
    RootOfClaims(claims, n, items);
    ClaimsHoldMeans(v, claims);
    ExactItems(v, Peaks(n), es, items, n);
    RootMeans(v);
  }

  lemma RootMeans(v: seq<Hash>)
    requires |v| > 0 && Peaks(|v|) != []
    ensures Root(v) == Bag(PeakHashes(v, Peaks(|v|)))
  {
  }

  /** `gen_proof` succeeds on every non-empty list of leaf positions. */
  lemma GenProofValid(v: seq<Hash>, posList: seq<nat>)
    requires ValidPositions(posList, |v|)
    ensures GenProof(v, posList) == Ok(GenPeaks(v, Peaks(|v|), LeafIndices(Canonical(posList, SelfKey))))
  {
    hide LeafCount, Height, GenPeaks, Peaks, Canonical;
    if |v| == 1 && posList == [0] {
      CanonicalOfOne<nat>(0, SelfKey);
      OneNodeRange(1);
      assert LeafIndices([0]) == [0];
      OneLeafRange(v, Leaf([]));
    }
  }

  lemma OneLeafProof(v: seq<Hash>, idx: seq<nat>)
    requires idx != [] && SortedIn(idx, 0, |v|)
    ensures |v| == 1 ==> GenPeaks(v, Peaks(1), idx) == []
  {
    if |v| == 1 {
      hide GenPeaks, Peaks;
      ClimbToPeak(idx, 0, 0);
      OneLeafRange(v, Leaf([]));
    }
  }

  /** The recomputed root: the one-leaf special case agrees with the general walk. */
  lemma RootOfClaims(claims: seq<Claim>, n: nat, items: seq<Hash>)
    requires ValidPositions(ClaimPositions(claims), n)
    requires n == 1 ==> items == []
    ensures var hashes := Collect(WalkPeaks(Peaks(n), Entries(Canonical(claims, ClaimPos)), items));
            && CalculatePeaksHashes(claims, MmrSize(n), items) == hashes
            && CalculateRoot(claims, MmrSize(n), items) ==
                 if hashes.Err? then Err(hashes.error)
                 else if hashes.value == [] then Err(InvalidProof) else Ok(Bag(hashes.value))
  {
    hide LeafCount, Height, WalkPeaks, Peaks, Canonical, Entries, MmrSize;
    NoHighClaims(claims, n);
    LeafCountOfSize(n);
    if MmrSize(n) == 1 && |claims| == 1 && claims[0].pos == 0 {
      OneNodeRange(n);
      assert claims == [claims[0]];
      CanonicalOfOne(claims[0], ClaimPos);
      assert Entries([claims[0]]) == [Entry(0, claims[0].x)];
      OneLeafRange([], claims[0].x);
      assert [claims[0].x] + [] == [claims[0].x];
    }
  }

  lemma {:induction false} OneNodeRange(n: nat)
    ensures MmrSize(n) == 1 ==> n == 1
    ensures LeafCount(0) == 0
  {
    LeafCountUnique(0, 0);
    LeafCountUnique(1, 1);
    LeafCountOfSize(n);
  }

  /** The special case of a one-leaf range agrees with the general walk. */
  lemma OneLeafRange(v: seq<Hash>, x: Hash)
    ensures GenPeaks(v, Peaks(1), [0]) == []
    ensures WalkPeaks(Peaks(1), [Entry(0, x)], []) == Walked([x], [], [])
  {
    hide *;
    OnePeak();
    OneLeafAlone(v, x, Peaks(1), [0], [Entry(0, x)]);
  }

  lemma OnePeak()
    ensures Peaks(1) == [Coord(0, 0)]
  {
  }

  lemma OneLeafAlone(v: seq<Hash>, x: Hash, peaks: seq<Coord>, idx: seq<nat>, es: seq<Entry>)
    requires peaks == [Coord(0, 0)] && idx == [0] && es == [Entry(0, x)]
    ensures GenPeaks(v, peaks, idx) == []
    ensures WalkPeaks(peaks, es, []) == Walked([x], [], [])
  {
    assert Indices(es) == idx;
    OneBelow(peaks, idx);
    hide *;
    assert peaks[1..] == [] && idx[1..] == [] && es[1..] == [];
    TailNeedUnfold(peaks, idx);
    GenRootsUnfold(v, peaks, idx);
    GenRootsNone(v, [], []);
    OneLeafTaken(v, x, peaks, idx, es);
    WalkUnfold(peaks, es, []);
    NothingWalked([], []);
    PrependIs(x, [], []);
    NoTrailing(v, peaks, idx);
  }

  lemma OneBelow(peaks: seq<Coord>, idx: seq<nat>)
    requires peaks == [Coord(0, 0)] && idx == [0]
    ensures Below(peaks, idx) == 1
  {
    assert idx[1..] == [];
  }

  lemma OneLeafTaken(v: seq<Hash>, x: Hash, peaks: seq<Coord>, idx: seq<nat>, es: seq<Entry>)
    requires peaks == [Coord(0, 0)] && idx == [0] && es == [Entry(0, x)] && Indices(es) == idx
    requires Below(peaks, idx) == 1
    ensures GenPeak(v, peaks, idx) == [] && TakePeak(peaks, es, []) == Taken(x, [])
  {
    hide Below, Indices;
    assert es[..1] == es;
  }

  lemma NoTrailing(v: seq<Hash>, peaks: seq<Coord>, idx: seq<nat>)
    requires Tail(peaks, idx) == 0
    ensures GenPeaks(v, peaks, idx) == GenRoots(v, peaks, idx)
  {
    hide Tail, GenRoots;
  }

  lemma {:induction false} NoHighClaims(claims: seq<Claim>, n: nat)
    requires ValidPositions(ClaimPositions(claims), n)
    ensures !exists c :: c in claims && Height(c.pos) > 0
  {
    forall c | c in claims ensures Height(c.pos) == 0 {
      var j :| 0 <= j < |claims| && claims[j] == c;
      assert ClaimPositions(claims)[j] in ClaimPositions(claims);
    }
  }

  lemma GenCountMeans(peaks: seq<Coord>, idx: seq<nat>)
    ensures GenCount(peaks, idx) == Need(peaks, idx) + if Tail(peaks, idx) == 0 then 0 else 1
  {
  }
}
