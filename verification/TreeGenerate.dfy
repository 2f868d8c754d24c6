/** Generating proofs from stored nodes, through a store that reads lazily and keeps the
    first failure aside. */
module TreeGenerate {
  import opened Wrappers
  import opened Bits
  import opened Positions
  import opened Mountain
  import opened MerkleProof
  import opened PeakWalk
  import opened Sorting
  import opened Prover
  import opened Overlay
  import opened Fetching
  import opened RangeReads
  import opened Mmr
  import opened TreeProof

  /** The check for indices out of range and for duplicates. */
  method CheckIndices(indices: seq<nat>, n: nat) returns (ok: bool)
    ensures ok <==> AllBelow(indices, n) && Distinct(indices)
  {
    var seen: set<nat> := {};
    var i := 0;
    while i < |indices|
      invariant 0 <= i <= |indices|
      invariant AllBelow(indices[..i], n) && Distinct(indices[..i])
      invariant forall k :: k in seen <==> k in indices[..i]
    {
      if indices[i] >= n {
        return false;
      }
      if indices[i] in seen {
        var j :| 0 <= j < i && indices[j] == indices[i];
        return false;
      }
      seen := seen + {indices[i]};
      i := i + 1;
    }
    assert indices[..i] == indices;
    ok := true;
  }

  // ---- leaf values ---------------------------------------------------------------------

  /** The value of a stored leaf, or why there is none. */
  function LeafValue(store: Store, i: nat): Result<Bytes, Error> {
    match store.Get(LeafIndexToPos(i))
    case Failed => Err(StoreError)
    case Absent => Err(InvalidData)
    case Present(x) => if x.Node? then Err(InvalidData) else Ok(x.value)
  }

  /** A failing read is a store error; a missing node and one that is no leaf are invalid data. */
  lemma LeafValueMeans(store: Store, i: nat)
    ensures LeafValue(store, i) == Err(StoreError) <==> LeafIndexToPos(i) in store.faulty
    ensures LeafValue(store, i) == Err(InvalidData) <==>
              && LeafIndexToPos(i) !in store.faulty
              && (LeafIndexToPos(i) !in store.nodes || store.nodes[LeafIndexToPos(i)].Node?)
    ensures forall x :: LeafValue(store, i) == Ok(x) <==>
              && LeafIndexToPos(i) !in store.faulty
              && LeafIndexToPos(i) in store.nodes && store.nodes[LeafIndexToPos(i)] == Leaf(x)
  {
    hide LeafIndexToPos;
  }

  predicate AllLeaves(store: Store, indices: seq<nat>) {
    forall j :: 0 <= j < |indices| ==> LeafValue(store, indices[j]).Ok?
  }

  function LeavesAt(store: Store, indices: seq<nat>): (ls: seq<Indexed>)
    requires AllLeaves(store, indices)
    ensures |ls| == |indices|
    ensures forall j :: 0 <= j < |ls| ==> ls[j] == Indexed(indices[j], LeafValue(store, indices[j]).value)
  {
    seq(|indices|, j requires 0 <= j < |indices| => Indexed(indices[j], LeafValue(store, indices[j]).value))
  }

  /** The first index without a leaf value fails this way. */
  ghost predicate FirstMissing(store: Store, indices: seq<nat>, e: Error) {
    exists j :: 0 <= j < |indices| && LeafValue(store, indices[j]) == Err(e) && AllLeaves(store, indices[..j])
  }

  /** The leaf values read from any store, or the error of the first one missing. */
  method CollectLeaves(store: Store, indices: seq<nat>) returns (r: Result<seq<Indexed>, Error>)
    ensures AllLeaves(store, indices) ==> r == Ok(LeavesAt(store, indices))
    ensures !AllLeaves(store, indices) ==> r.Err? && FirstMissing(store, indices, r.error)
  {
    hide LeafIndexToPos;
    var leaves: seq<Indexed> := [];
    var i := 0;
    while i < |indices|
      invariant 0 <= i <= |indices| && AllLeaves(store, indices[..i]) && leaves == LeavesAt(store, indices[..i])
    {
      var read := store.Get(LeafIndexToPos(indices[i]));
      match read {
        case Failed => return Err(StoreError);
        case Absent => return Err(InvalidData);
        case Present(x) =>
          if x.Node? {
            return Err(InvalidData);
          }
          assert forall j :: 0 <= j < i ==> indices[..i + 1][j] == indices[..i][j];
          leaves := leaves + [Indexed(indices[i], x.value)];
      }
      i := i + 1;
    }
    assert indices[..i] == indices;
    r := Ok(leaves);
  }

  // ---- the lazily filled store -----------------------------------------------------------

  /** What the lazy store shows of its source: a failing position looks empty. */
  function Quiet(source: Store): Store {
    Store(source.nodes - source.faulty, {})
  }

  lemma QuietReads(source: Store, p: nat)
    ensures Quiet(source).Get(p) == if source.Get(p).Failed? then Absent else source.Get(p)
  {
  }

  /** The read that failed, if the last one did. */
  function FailedRead(source: Store, asked: seq<nat>): Option<nat> {
    if asked != [] && source.Get(asked[|asked| - 1]).Failed? then Some(asked[|asked| - 1]) else None
  }

  /** Every read but the last found its node. */
  ghost predicate StopsAtLast(source: Store, asked: seq<nat>) {
    forall j :: 0 <= j < |asked| - 1 ==> source.Get(asked[j]).Present?
  }

  /** Reads go to the source once; the first failure is kept aside, by its position, and
      every later read finds nothing. */
  class LazyNodeStore {
    const source: Store
    var cache: map<nat, Read>
    var error: Option<nat>

    constructor (source: Store)
      ensures this.source == source && error == None && Valid()
    {
      this.source := source;
      cache := map[];
      error := None;
    }

    predicate Valid()
      reads this
    {
      forall p :: p in cache ==> cache[p] == source.Get(p) && !cache[p].Failed?
    }

    /** `element_at_position` */
    method ElementAtPosition(pos: nat) returns (r: Read)
      requires Valid()
      modifies this
      ensures Valid()
      ensures r == if old(error).Some? then Absent else Quiet(source).Get(pos)
      ensures error == if old(error).None? && source.Get(pos).Failed? then Some(pos) else old(error)
    {
      QuietReads(source, pos);
      hide Quiet;
      if error.Some? {
        return Absent;
      }
      if pos in cache {
        return cache[pos];
      }
      r := source.Get(pos);
      if r.Failed? {
        error := Some(pos);
        return Absent;
      }
      cache := cache[pos := r];
    }

    /** The reads of one proof generation: each is answered as the quiet store would, and
        the error kept is that of the read that failed. */
    method Serve(asked: seq<nat>) returns (answers: seq<Read>)
      requires Valid() && error == None && StopsAtLast(source, asked)
      modifies this
      ensures Valid() && error == FailedRead(source, asked)
      ensures |answers| == |asked| && forall j :: 0 <= j < |asked| ==> answers[j] == Quiet(source).Get(asked[j])
    {
      hide Quiet;
      answers := [];
      var i := 0;
      while i < |asked|
        invariant 0 <= i <= |asked| && |answers| == i && Valid()
        invariant error == FailedRead(source, asked[..i])
        invariant forall j :: 0 <= j < i ==> answers[j] == Quiet(source).Get(asked[j])
      {
        assert i > 0 ==> source.Get(asked[i - 1]).Present?;
        var answer := ElementAtPosition(asked[i]);
        answers := answers + [answer];
        i := i + 1;
      }
      assert asked[..i] == asked;
    }

    /** `take_error` */
    method TakeError() returns (failed: Option<nat>)
      modifies this
      ensures failed == old(error) && error == None && cache == old(cache)
    {
      failed := error;
      error := None;
    }
  }

  // ---- the prover behind the lazy store ----------------------------------------------------

  /** Reading through the lazy store asks for the same positions, and a failed read looks
      like an inconsistent store. */
  lemma {:induction false} QuietFetch(source: Store, want: seq<nat>)
    ensures var f, q := Fetch(source, want), Fetch(Quiet(source), want);
            && q.asked == f.asked && StopsAtLast(source, f.asked)
            && q.nodes == (if f.nodes == Err(StoreError) then Err(InconsistentStore) else f.nodes)
            && (f.nodes == Err(StoreError) <==> FailedRead(source, f.asked).Some?)
    decreases |want|
  {
    hide Quiet;
    if want != [] {
      QuietReads(source, want[0]);
      if source.Get(want[0]).Present? {
        QuietFetch(source, want[1..]);
        QuietStep(source, want);
      }
    }
  }

  lemma QuietStep(source: Store, want: seq<nat>)
    requires want != [] && source.Get(want[0]).Present?
    ensures var f, g := Fetch(source, want), Fetch(source, want[1..]);
            && (StopsAtLast(source, g.asked) ==> StopsAtLast(source, f.asked))
            && FailedRead(source, f.asked) == FailedRead(source, g.asked)
  {
    var f, g := Fetch(source, want), Fetch(source, want[1..]);
    assert f.asked == [want[0]] + g.asked;
  }

  lemma QuietProof(source: Store, size: nat, posList: seq<nat>)
    ensures var f, q := ProofFrom(source, size, posList), ProofFrom(Quiet(source), size, posList);
            && q.asked == f.asked && StopsAtLast(source, f.asked)
            && q.nodes == (if f.nodes == Err(StoreError) then Err(InconsistentStore) else f.nodes)
            && (f.nodes == Err(StoreError) <==> FailedRead(source, f.asked).Some?)
  {
    hide *;
    ProofCases(source, size, posList);
    ProofCases(Quiet(source), size, posList);
    QuietFetch(source, Wanted(Peaks(LeafCount(size)), LeafIndices(Canonical(posList, SelfKey))));
    NothingAsked(source);
  }

  lemma NothingAsked(source: Store)
    ensures StopsAtLast(source, []) && FailedRead(source, []) == None
  {
  }

  /** How `generate` reports the prover's result. */
  function Surfaced(r: Result<seq<Hash>, Error>): Result<seq<Hash>, Error> {
    if r.Err? && r.error != StoreError then Err(OperationFailed) else r
  }

  /** The prover over a lazy store, for any store: a deferred read error is reported first,
      and it is the error of the first read that failed. */
  method ProvePositions(mmrSize: u64, source: Store, positions: seq<nat>)
    returns (r: Result<seq<Hash>, Error>, cause: Option<nat>)
    requires forall p :: p in positions ==> p <= U64_MAX
    ensures r == Surfaced(ProofFrom(source, mmrSize, positions).nodes)
    ensures cause == FailedRead(source, ProofFrom(source, mmrSize, positions).asked)
    ensures r == Err(StoreError) <==> cause.Some?
    ensures r.Err? && cause.None? ==> r.error == OperationFailed
  {
    hide *;
    QuietProof(source, mmrSize, positions);
    var lazy := new LazyNodeStore(source);
    var mmr := new MountainRange(mmrSize, Quiet(source), []);
    FreshRange(mmr);
    var proof, trace := mmr.GenProof(positions, []);
    var answers := lazy.Serve(trace);
    cause := lazy.TakeError();
    SurfacedMeans(proof, ProofFrom(source, mmrSize, positions).nodes);
    if cause.Some? {
      return Err(StoreError), cause;
    }
    r := if proof.Err? then Err(OperationFailed) else proof;
  }

  lemma FreshRange(mmr: MountainRange)
    requires mmr.batch.memoryBatch == []
    ensures mmr.WellFormed() && mmr.batch.View() == mmr.batch.store
  {
  }

  lemma SurfacedMeans(quiet: Result<seq<Hash>, Error>, loud: Result<seq<Hash>, Error>)
    requires quiet == if loud == Err(StoreError) then Err(InconsistentStore) else loud
    ensures Surfaced(loud) ==
              if loud == Err(StoreError) then Err(StoreError)
              else if quiet.Err? then Err(OperationFailed) else quiet
    ensures Surfaced(loud) == Err(StoreError) <==> loud == Err(StoreError)
    ensures Surfaced(loud).Err? && loud != Err(StoreError) ==> Surfaced(loud).error == OperationFailed
  {
  }

  // ---- generation --------------------------------------------------------------------------

  /** What `generate` returns over any store: the first of the checks, the leaf reads and
      the prover's reads that fails decides the error. */
  ghost predicate Generates(store: Store, mmrSize: nat, indices: seq<nat>, r: Result<MmrTreeProof, Error>) {
    if indices == [] || !AllBelow(indices, LeafCount(mmrSize)) || !Distinct(indices) then r == Err(InvalidInput)
    else if !AllLeaves(store, indices) then r.Err? && FirstMissing(store, indices, r.error)
    else match Surfaced(ProofFrom(store, mmrSize, PositionsOf(indices)).nodes)
      case Err(e) => r == Err(e)
      case Ok(items) => r == Ok(MmrTreeProof(mmrSize, LeavesAt(store, indices), items))
  }

  lemma {:induction false} GeneratesMeans(store: Store, mmrSize: nat, indices: seq<nat>, r: Result<MmrTreeProof, Error>)
    ensures Generates(store, mmrSize, indices, r) <==>
              if indices == [] || !AllBelow(indices, LeafCount(mmrSize)) || !Distinct(indices) then
                r == Err(InvalidInput)
              else if !AllLeaves(store, indices) then r.Err? && FirstMissing(store, indices, r.error)
              else
                var items := Surfaced(ProofFrom(store, mmrSize, PositionsOf(indices)).nodes);
                r == if items.Err? then Err(items.error)
                     else Ok(MmrTreeProof(mmrSize, LeavesAt(store, indices), items.value))
  {
    hide AllBelow, Distinct, LeafCount, AllLeaves, FirstMissing, ProofFrom, Surfaced, LeavesAt, PositionsOf;
  }

  /** `generate` */
  method Generate(mmrSize: u64, indices: seq<nat>, store: Store, ghost v: seq<Hash>)
    returns (r: Result<MmrTreeProof, Error>)
    ensures Generates(store, mmrSize, indices, r)
    ensures HoldsIn(store, v) && mmrSize == MmrSize(|v|) ==> r == GenerateProof(v, indices)
  {
    r := GenerateFrom(mmrSize, indices, store);
    hide *;
    if HoldsIn(store, v) && mmrSize == MmrSize(|v|) {
      GeneratesOverRange(store, v, indices, r);
    }
  }

  method GenerateFrom(mmrSize: u64, indices: seq<nat>, store: Store) returns (r: Result<MmrTreeProof, Error>)
    ensures Generates(store, mmrSize, indices, r)
  {
    hide *;
    if |indices| == 0 {
      r := Err(InvalidInput);
      GeneratesMeans(store, mmrSize, indices, r);
      return;
    }
    var leafCount := GetPeakMap(mmrSize);
    var ok := CheckIndices(indices, leafCount);
    if !ok {
      r := Err(InvalidInput);
      GeneratesMeans(store, mmrSize, indices, r);
      return;
    }
    var leaves := CollectLeaves(store, indices);
    if leaves.Err? {
      r := Err(leaves.error);
      GeneratesMeans(store, mmrSize, indices, r);
      return;
    }
    PositionsFit(indices, mmrSize);
    var proof, cause := ProvePositions(mmrSize, store, PositionsOf(indices));
    r := if proof.Err? then Err(proof.error) else Ok(MmrTreeProof(mmrSize, leaves.value, proof.value));
    GeneratesMeans(store, mmrSize, indices, r);
  }

  lemma {:induction false} PositionsFit(indices: seq<nat>, mmrSize: u64)
    requires AllBelow(indices, LeafCount(mmrSize))
    ensures forall p :: p in PositionsOf(indices) ==> p <= U64_MAX
  {
    hide LeafCount, LeafIndexToPos;
    forall p | p in PositionsOf(indices) ensures p <= U64_MAX {
      var j :| 0 <= j < |indices| && PositionsOf(indices)[j] == p;
      PosOfLeafFits(indices[j], mmrSize);
    }
  }

  // ---- over a whole range --------------------------------------------------------------------

  lemma LeafReadable(store: Store, v: seq<Hash>, i: nat)
    requires HoldsIn(store, v) && i < |v|
    ensures store.Get(LeafIndexToPos(i)) == Present(v[i])
  {
    hide *;
    BottomLevel(v, i);
    NodeReadable(store, v, i, 0);
  }

  lemma BottomLevel(v: seq<Hash>, i: nat)
    requires i < |v|
    ensures Shl(i + 1, 0) <= |v| && Subtree(v, i, 0) == v[i] && LeafIndexToPos(i) == Pos(i, 0)
  {
    hide Pos, Popcount;
  }

  lemma LeafValueIs(store: Store, v: seq<Hash>, i: nat)
    requires HoldsIn(store, v) && i < |v|
    ensures LeafValue(store, i) == if v[i].Node? then Err(InvalidData) else Ok(v[i].value)
  {
    hide HoldsIn, LeafIndexToPos;
    LeafReadable(store, v, i);
  }

  lemma LeavesOfRange(store: Store, v: seq<Hash>, indices: seq<nat>)
    requires HoldsIn(store, v) && AllBelow(indices, |v|)
    ensures AllLeaves(store, indices) <==> forall j :: 0 <= j < |indices| ==> v[indices[j]].Leaf?
    ensures AllLeaves(store, indices) ==> LeavesAt(store, indices) == ValuesAt(v, indices)
    ensures forall e :: FirstMissing(store, indices, e) ==> e == InvalidData
  {
    hide HoldsIn, LeafValue;
    forall j | 0 <= j < |indices|
      ensures LeafValue(store, indices[j]) == if v[indices[j]].Node? then Err(InvalidData) else Ok(v[indices[j]].value)
    {
      LeafValueIs(store, v, indices[j]);
    }
  }

  lemma GenProofErrors(v: seq<Hash>, positions: seq<nat>)
    ensures GenProof(v, positions) != Err(StoreError)
  {
    hide Height, LeafCount, Canonical, GenPeaks;
  }

  /** Over a whole range, `generate` is the generator of the range's leaves. */
  lemma GeneratesOverRange(store: Store, v: seq<Hash>, indices: seq<nat>, r: Result<MmrTreeProof, Error>)
    requires HoldsIn(store, v) && Generates(store, MmrSize(|v|), indices, r)
    ensures r == GenerateProof(v, indices)
  {
    hide *;
    LeafCountOfSize(|v|);
    GeneratesMeans(store, MmrSize(|v|), indices, r);
    GenerateUnfold(v, indices);
    if indices != [] && AllBelow(indices, |v|) && Distinct(indices) {
      LeavesOfRange(store, v, indices);
      ProofFromRange(store, v, PositionsOf(indices));
      GenProofErrors(v, PositionsOf(indices));
      SurfacedRange(GenProof(v, PositionsOf(indices)));
      NodeOrLeaf(v, indices);
    }
  }

  lemma SurfacedRange(g: Result<seq<Hash>, Error>)
    requires g != Err(StoreError)
    ensures Surfaced(g) == if g.Err? then Err(OperationFailed) else g
  {
  }

  lemma NodeOrLeaf(v: seq<Hash>, indices: seq<nat>)
    requires AllBelow(indices, |v|)
    ensures (exists j :: 0 <= j < |indices| && v[indices[j]].Node?) <==>
              !forall j :: 0 <= j < |indices| ==> v[indices[j]].Leaf?
  {
  }

  lemma GenerateUnfold(v: seq<Hash>, indices: seq<nat>)
    ensures indices == [] || !AllBelow(indices, |v|) || !Distinct(indices) ==>
              GenerateProof(v, indices) == Err(InvalidInput)
    ensures indices != [] && AllBelow(indices, |v|) && Distinct(indices) ==>
              if exists j :: 0 <= j < |indices| && v[indices[j]].Node? then
                GenerateProof(v, indices) == Err(InvalidData)
              else
                match GenProof(v, PositionsOf(indices))
                case Err(_) => GenerateProof(v, indices) == Err(OperationFailed)
                case Ok(items) =>
                  GenerateProof(v, indices) == Ok(MmrTreeProof(MmrSize(|v|), ValuesAt(v, indices), items))
  {
    hide Distinct, GenProof, PositionsOf, MmrSize;
  }
}
