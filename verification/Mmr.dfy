/** The mountain range itself: an append-only sequence of nodes behind a write-ahead
    batch, its root, and its inclusion proofs. */
module Mmr {
  import opened Wrappers
  import opened Bits
  import opened Positions
  import opened Mountain
  import opened Walk
  import opened Sorting
  import opened MerkleProof
  import opened Verifier
  import opened Prover
  import opened Overlay
  import opened Fetching
  import opened RangeReads

  // ---- what one push appends ----------------------------------------------------

  /** Leaf `n` and the parents it completes, lowest first. */
  function PushedNodes(w: seq<Hash>, n: nat, count: nat): (s: seq<Hash>)
    ensures |s| == count
    ensures forall h :: 0 <= h < count ==> s[h] == Subtree(w, Shr(n, h), h)
  {
    seq(count, h requires 0 <= h < count => Subtree(w, Shr(n, h), h))
  }

  /** `map & peak != 0` for a word with a single one. */
  predicate HasDigit(peakMap: nat, peak: nat)
    requires peak > 0
  {
    (peakMap / peak) % 2 == 1
  }

  /** The digit test of the push loop. */
  lemma PushContinues(n: nat, j: nat)
    requires j <= TrailingOnes(n)
    ensures HasDigit(n, Shl(1, j)) <==> j < TrailingOnes(n)
  {
    hide Shl;
    ShrIsDivision(n, j);
    MultipleAboveOnes(n, j);
    TrailingOnesParity(Shr(n, j));
  }

  lemma PushRoom(size: nat, n: nat, j: nat)
    requires n <= size && j < TrailingOnes(n)
    ensures Shl(1, j + 1) <= size + j + 1
  {
    hide Shl, Shr, TrailingOnes;
    MultipleAboveOnes(n, j + 1);
    ShlMonotone(1, Shr(n, j + 1) + 1, j + 1);
  }

  /** The left sibling the push loop reads, and the parent it builds from it. */
  lemma PushStep(v: seq<Hash>, x: Hash, j: nat)
    requires j < TrailingOnes(|v|)
    ensures var n, w := |v|, v + [x];
            var i := Shr(n, j);
            && i % 2 == 1
            && Shl(i, j) <= n
            && MmrSize(n) + j + 1 == Pos(i - 1, j) + Shl(1, j + 1)
            && Node(Subtree(v, i - 1, j), Subtree(w, i, j)) == Subtree(w, Shr(n, j + 1), j + 1)
  {
    hide Shl, Shr, TrailingOnes, Pos, MmrSize, Subtree;
    var n, w := |v|, v + [x];
    var i := Shr(n, j);
    MultipleAboveOnes(n, j);
    TrailingOnesParity(i);
    ShrStep(n, j);
    ShlAdd(i, 1, j);
    SubtreeFrame(v, w, i - 1, j);
    PushSibling(n, i, j);
    ParentOfPair(w, i / 2, j);
  }

  lemma PushSibling(n: nat, i: nat, j: nat)
    requires i % 2 == 1 && n == Shl(i + 1, j) - 1
    ensures MmrSize(n) + j + 1 == Pos(i - 1, j) + Shl(1, j + 1)
  {
    hide *;
    LastLeafMeans(Coord(i, j));
    PosInBlock(i, j);
    Family(i / 2, j);
    OffsetsMean(j);
    assert i == 2 * (i / 2) + 1;
  }

  lemma OffsetsMean(j: nat)
    ensures SiblingOffset(j) == Shl(1, j + 1) - 1
  {
    ShlDouble(1, j);
  }

  lemma ParentOfPair(w: seq<Hash>, k: nat, j: nat)
    ensures Node(Subtree(w, 2 * k, j), Subtree(w, 2 * k + 1, j)) == Subtree(w, k, j + 1)
  {
  }

  lemma PushedLeaf(v: seq<Hash>, x: Hash)
    ensures PushedNodes(v + [x], |v|, 1) == [x]
  {
  }

  /** A node either lies wholly among the old leaves or is completed by the new one. */
  lemma NodeAfterPush(v: seq<Hash>, x: Hash, i: nat, h: nat)
    requires Shl(i + 1, h) <= |v| + 1
    ensures var n, w := |v|, v + [x];
            if Shl(i + 1, h) <= n
            then Pos(i, h) < MmrSize(n) && Subtree(w, i, h) == Subtree(v, i, h)
            else Pos(i, h) == MmrSize(n) + h && i == Shr(n, h) && h <= TrailingOnes(n)
  {
    var n, w := |v|, v + [x];
    if Shl(i + 1, h) <= n {
      SubtreeFrame(v, w, i, h);
      PosBeforeSize(i, h, n);
    } else {
      LastNode(i, h, n);
    }
  }

  lemma LastNode(i: nat, h: nat, n: nat)
    requires Shl(i + 1, h) == n + 1
    ensures Pos(i, h) == MmrSize(n) + h && i == Shr(n, h) && h <= TrailingOnes(n)
  {
    OnesBelowMultiple(i, h);
    hide Shl, TrailingOnes, Pos, MmrSize;
    PosInBlock(i, h);
    ShlAdd(i, 1, h);
    ShrUnique(n, h, i);
  }

  /** Appending the pushed nodes keeps every position holding the subtree it roots. */
  lemma PushPreserves(view: Store, v: seq<Hash>, x: Hash)
    requires HoldsIn(view, v)
    ensures var n := |v|;
            var run := Run(MmrSize(n), PushedNodes(v + [x], n, 1 + TrailingOnes(n)));
            HoldsIn(view.Write(run), v + [x])
  {
    hide Shl, Shr, Pos, MmrSize, TrailingOnes, Subtree, PushedNodes;
    var n, w := |v|, v + [x];
    var run := Run(MmrSize(n), PushedNodes(w, n, 1 + TrailingOnes(n)));
    forall i: nat, h: nat | Shl(i + 1, h) <= |w|
      ensures view.Write(run).Get(Pos(i, h)) == Present(Subtree(w, i, h))
    {
      NodeAfterPush(v, x, i, h);
      if Shl(i + 1, h) <= n {
        assert !run.Covers(Pos(i, h));
      } else {
        assert run.Covers(Pos(i, h)) && run.elems[h] == Subtree(w, Shr(n, h), h);
      }
    }
  }

  /** The read of the push loop in an honest range. */
  lemma PushReads(view: Store, v: seq<Hash>, x: Hash, j: nat)
    requires HoldsIn(view, v) && j < TrailingOnes(|v|)
    ensures var n := |v|;
            && Shl(1, j + 1) <= MmrSize(n) + j + 1
            && Shr(n, j) > 0
            && view.Get(MmrSize(n) + j + 1 - Shl(1, j + 1)) == Present(Subtree(v, Shr(n, j) - 1, j))
            && MmrSize(n) + j + 1 - Shl(1, j + 1) < MmrSize(n)
  {
    hide Shl, Shr, Pos, MmrSize, TrailingOnes, Subtree;
    PushStep(v, x, j);
    ShlGap(0, j + 1);
    Pow2Grows(j + 1);
  }

  lemma {:induction false} Pow2Grows(k: nat)
    ensures Shl(1, k) > k
  {
    if k > 0 {
      Pow2Grows(k - 1);
    }
  }

  lemma PushExtend(v: seq<Hash>, x: Hash, j: nat)
    requires j < TrailingOnes(|v|)
    ensures var n, w := |v|, v + [x];
            var nodes := PushedNodes(w, n, j + 1);
            && Shr(n, j) > 0
            && nodes + [Node(Subtree(v, Shr(n, j) - 1, j), nodes[j])] == PushedNodes(w, n, j + 2)
  {
    hide Shl, Shr, Pos, MmrSize, TrailingOnes, Subtree;
    PushStep(v, x, j);
  }

  /** One turn of the push loop in an honest range. */
  lemma PushTurn(view: Store, v: seq<Hash>, x: Hash, j: nat, left: Result<Hash, Error>)
    requires HoldsIn(view, v) && j < TrailingOnes(|v|)
    requires var p := MmrSize(|v|) + j + 1 - Shl(1, j + 1);
             p >= 0 ==> p >= MmrSize(|v|) || left == ToResult(view.Get(p))
    ensures var nodes := PushedNodes(v + [x], |v|, j + 1);
            left.Ok? && nodes + [Node(left.value, nodes[j])] == PushedNodes(v + [x], |v|, j + 2)
  {
    hide Shl, Shr, Pos, MmrSize, TrailingOnes, Subtree, PushedNodes, HoldsIn;
    PushReads(view, v, x, j);
    PushExtend(v, x, j);
  }

  /** State of the push loop after `j` merges; `view` and `v` matter if the range is honest. */
  ghost predicate InPush(elems: seq<Hash>, peak: nat, pos: nat, size: nat, n: nat, j: nat,
                         honest: bool, v: seq<Hash>, x: Hash)
  {
    && n <= size && j <= TrailingOnes(n) && |elems| == j + 1
    && peak == Shl(1, j) && pos == size + j
    && (honest ==> size == MmrSize(|v|) && n == |v| && elems == PushedNodes(v + [x], n, j + 1))
  }

  lemma {:induction false} InPushStart(size: nat, honest: bool, v: seq<Hash>, x: Hash)
    requires honest ==> size == MmrSize(|v|) && LeafCount(size) == |v|
    ensures InPush([x], 1, size, size, LeafCount(size), 0, honest, v, x)
  {
    hide TrailingOnes, LeafCount, MmrSize, PushedNodes;
    SizeBound(size);
    PushedLeaf(v, x);
  }

  lemma InPushTest(elems: seq<Hash>, peak: nat, pos: nat, size: nat, n: nat, j: nat,
                   honest: bool, v: seq<Hash>, x: Hash)
    requires InPush(elems, peak, pos, size, n, j, honest, v, x)
    ensures peak > 0 && |elems| == j + 1 && j <= TrailingOnes(n)
    ensures HasDigit(n, peak) <==> j < TrailingOnes(n)
    ensures HasDigit(n, peak) ==> 2 * peak <= pos + 1
    ensures !HasDigit(n, peak) ==>
              && |elems| == 1 + TrailingOnes(n)
              && (honest ==> elems == PushedNodes(v + [x], |v|, 1 + TrailingOnes(|v|)))
  {
    hide TrailingOnes, Shl, PushedNodes, HasDigit;
    PushContinues(n, j);
    if j < TrailingOnes(n) {
      PushRoom(size, n, j);
      DoublePeak(j);
    }
  }

  /** A node of the push in progress, or else of the range. */
  function FoundAt(view: Store, size: nat, hashes: seq<Hash>, pos: nat): Result<Hash, Error> {
    if pos >= size && pos - size < |hashes| then Ok(hashes[pos - size]) else ToResult(view.Get(pos))
  }

  lemma InPushNext(elems: seq<Hash>, peak: nat, pos: nat, size: nat, n: nat, j: nat,
                   honest: bool, v: seq<Hash>, x: Hash, view: Store, left: Result<Hash, Error>)
    requires InPush(elems, peak, pos, size, n, j, honest, v, x)
    requires peak > 0 && HasDigit(n, peak) && 2 * peak <= pos + 1
    requires honest ==> HoldsIn(view, v)
    requires left == FoundAt(view, size, elems, pos + 1 - 2 * peak)
    ensures honest ==> left.Ok?
    ensures left.Ok? ==>
              InPush(elems + [Node(left.value, elems[|elems| - 1])], 2 * peak, pos + 1, size, n, j + 1, honest, v, x)
  {
    hide TrailingOnes, Shl, PushedNodes, HasDigit, HoldsIn, MmrSize, ToResult;
    PushContinues(n, j);
    DoublePeak(j);
    if honest {
      PushReads(view, v, x, j);
      PushTurn(view, v, x, j, left);
    }
  }

  /** A run that `push` appends: the new leaf, then merged nodes. */
  predicate LeafThenParents(elem: Hash, nodes: seq<Hash>) {
    nodes != [] && nodes[0] == elem && forall j :: 0 < j < |nodes| ==> nodes[j].Node?
  }

  lemma LeafAlone(elem: Hash)
    ensures LeafThenParents(elem, [elem])
  {
  }

  lemma ParentNext(elem: Hash, nodes: seq<Hash>, left: Hash)
    requires LeafThenParents(elem, nodes)
    ensures LeafThenParents(elem, nodes + [Node(left, nodes[|nodes| - 1])])
  {
  }

  /** Sibling and parent of a queued node, from its position alone. */
  method Neighbours(slot: Slot, ghost i: nat) returns (sibPos: nat, parent: Slot)
    requires slot.pos == Pos(i, slot.height) && slot.pos + 1 <= U64_MAX
    ensures sibPos == Pos(Sibling(i), slot.height)
    ensures parent == Slot(Pos(i / 2, slot.height + 1), slot.height + 1)
  {
    hide *;
    RelativesMean(i, slot.height);
    var nextHeight := PosHeightInTree(slot.pos + 1);
    var right := nextHeight > slot.height;
    sibPos := SiblingPos(slot.pos, slot.height, right);
    parent := Slot(ParentPos(slot.pos, slot.height, right), slot.height + 1);
  }

  /** A step of a run: one push, or one commit to a store that takes some run starts. */
  datatype Op = PushOp(elem: Hash) | CommitOp(accepts: nat -> bool) {
    ghost predicate Succeeds() {
      CommitOp? ==> forall p: nat :: accepts(p)
    }
  }

  function PushedBy(ops: seq<Op>): seq<Hash> {
    if ops == [] then []
    else
      var last := ops[|ops| - 1];
      PushedBy(ops[..|ops| - 1]) + if last.PushOp? then [last.elem] else []
  }

  /** The leaves pushed before the last commit. */
  function CommittedBy(ops: seq<Op>): seq<Hash> {
    if ops == [] then []
    else if ops[|ops| - 1].CommitOp? then PushedBy(ops[..|ops| - 1])
    else CommittedBy(ops[..|ops| - 1])
  }

  lemma {:induction false} CommittedIsPushed(ops: seq<Op>)
    ensures CommittedBy(ops) <= PushedBy(ops)
    decreases |ops|
  {
    if ops != [] {
      CommittedIsPushed(ops[..|ops| - 1]);
    }
  }

  lemma CommittedStep(ops: seq<Op>, i: nat)
    requires i < |ops|
    ensures CommittedBy(ops[..i + 1]) == if ops[i].CommitOp? then PushedBy(ops[..i]) else CommittedBy(ops[..i])
  {
    assert ops[..i + 1][..i] == ops[..i];
  }

  lemma HoldsNothing(store: Store)
    ensures HoldsIn(store, [])
  {
    hide Shl, Pos, Subtree;
    forall i: nat, h: nat
      ensures Shl(i + 1, h) <= 0 ==> store.Get(Pos(i, h)) == Present(Subtree([], i, h))
    {
      ShlGap(i, h);
    }
  }

  lemma AllRunsTaken(runs: seq<Run>, accepts: nat -> bool)
    requires forall p: nat :: accepts(p)
    ensures forall run :: run in runs ==> AllTaken(run, accepts)
  {
    forall run | run in runs ensures AllTaken(run, accepts) {
      TakesAll(run, accepts);
    }
  }

  lemma {:induction false} TakesAll(run: Run, accepts: nat -> bool)
    requires forall p: nat :: accepts(p)
    ensures AllTaken(run, accepts)
    decreases |run.elems|
  {
    if run.elems != [] {
      TakesAll(Run(run.pos + 1, run.elems[1..]), accepts);
    }
  }

  lemma PushedStep(ops: seq<Op>, i: nat)
    requires i < |ops| && MmrSize(|PushedBy(ops)|) <= U64_MAX
    ensures PushedBy(ops[..i + 1]) == PushedBy(ops[..i]) + if ops[i].PushOp? then [ops[i].elem] else []
    ensures MmrSize(|PushedBy(ops[..i])|) <= U64_MAX
  {
    hide MmrSize;
    assert ops[..i + 1][..i] == ops[..i];
    PushedGrows(ops, i);
    if |PushedBy(ops[..i])| < |PushedBy(ops)| {
      SizeMonotone(|PushedBy(ops[..i])|, |PushedBy(ops)|);
    }
  }

  lemma {:induction false} PushedGrows(ops: seq<Op>, i: nat)
    requires i <= |ops|
    ensures |PushedBy(ops[..i])| <= |PushedBy(ops)|
    decreases |ops|
  {
    if i < |ops| {
      var init := ops[..|ops| - 1];
      PushedGrows(init, i);
      assert init[..i] == ops[..i];
    } else {
      assert ops[..i] == ops;
    }
  }

  class MountainRange {
    var mmrSize: nat
    const batch: MmrBatch

    /** `new` and `new_with_overlay` */
    constructor (mmrSize: nat, store: Store, overlay: seq<Run>)
      ensures this.mmrSize == mmrSize && fresh(batch)
      ensures batch.store == store && batch.memoryBatch == overlay
    {
      this.mmrSize := mmrSize;
      batch := new MmrBatch(store, overlay);
    }

    /** The batch is in order and ends where the range ends. */
    predicate WellFormed()
      reads this, batch
    {
      && Monotone(batch.memoryBatch)
      && (batch.memoryBatch != [] ==>
            var last := batch.memoryBatch[|batch.memoryBatch| - 1]; last.pos + |last.elems| <= mmrSize)
    }

    /** The range over the leaves `v`, whether committed or still in the batch. */
    ghost predicate Holds(v: seq<Hash>)
      reads this, batch
    {
      WellFormed() && mmrSize == MmrSize(|v|) && HoldsIn(batch.View(), v)
    }

    /** `find_element_at_position` */
    method FindElement(pos: nat, hashes: seq<Hash>) returns (r: Result<Hash, Error>)
      requires WellFormed()
      ensures r == FoundAt(batch.View(), mmrSize, hashes, pos)
    {
      if pos >= mmrSize && pos - mmrSize < |hashes| {
        return Ok(hashes[pos - mmrSize]);
      }
      var read := batch.ElementAtPosition(pos);
      r := ToResult(read);
    }

    /** The nodes `push` is about to append, or the error of a failed read. */
    method NodesToPush(elem: Hash, ghost v: seq<Hash>) returns (r: Result<seq<Hash>, Error>)
      requires WellFormed() && mmrSize <= U64_MAX
      ensures r.Ok? ==> |r.value| == 1 + TrailingOnes(LeafCount(mmrSize)) && LeafThenParents(elem, r.value)
      ensures Holds(v) ==> r == Ok(PushedNodes(v + [elem], |v|, 1 + TrailingOnes(|v|)))
    {
      hide *;
      HoldsMeans(v);
      ghost var view, honest := batch.View(), Holds(v);
      var elems := [elem];
      var peakMap: nat := GetPeakMap(mmrSize);
      var pos: nat := mmrSize;
      var peak: nat := 1;
      ghost var j: nat := 0;
      InPushStart(mmrSize, honest, v, elem);
      LeafAlone(elem);
      InPushTest(elems, peak, pos, mmrSize, peakMap, j, honest, v, elem);
      while HasDigit(peakMap, peak)
        invariant peak > 0 && InPush(elems, peak, pos, mmrSize, peakMap, j, honest, v, elem)
        invariant WellFormed() && batch.View() == view && Holds(v) == honest && LeafThenParents(elem, elems)
        decreases TrailingOnes(peakMap) - j
      {
        InPushTest(elems, peak, pos, mmrSize, peakMap, j, honest, v, elem);
        var left := FindElement(pos + 1 - 2 * peak, elems);
        InPushNext(elems, peak, pos, mmrSize, peakMap, j, honest, v, elem, view, left);
        peak := 2 * peak;
        pos := pos + 1;
        if left.Err? {
          return Err(left.error);
        }
        ParentNext(elem, elems, left.value);
        elems := elems + [Node(left.value, elems[|elems| - 1])];
        j := j + 1;
      }
      InPushTest(elems, peak, pos, mmrSize, peakMap, j, honest, v, elem);
      r := Ok(elems);
    }

    lemma {:induction false} HoldsMeans(v: seq<Hash>)
      ensures Holds(v) ==>
                && WellFormed() && mmrSize == MmrSize(|v|) && HoldsIn(batch.View(), v) && LeafCount(mmrSize) == |v|
    {
      LeafCountOfSize(|v|);
    }

    lemma SeesMeans(p: nat)
      ensures batch.Sees(p) == batch.View().Get(p)
    {
    }

    /** `push`: one run of `1 + trailing_ones` nodes is appended, or nothing changes. */
    method Push(elem: Hash, ghost v: seq<Hash>) returns (r: Result<nat, Error>)
      requires WellFormed() && mmrSize <= U64_MAX
      modifies this, batch
      ensures WellFormed() && batch.store == old(batch.store)
      ensures r.Err? ==> mmrSize == old(mmrSize) && batch.memoryBatch == old(batch.memoryBatch)
      ensures r.Ok? ==>
                && r.value == old(mmrSize)
                && mmrSize == old(mmrSize) + HashCountForPush(LeafCount(old(mmrSize)))
                && exists nodes: seq<Hash> ::
                     && |nodes| == HashCountForPush(LeafCount(old(mmrSize))) && LeafThenParents(elem, nodes)
                     && batch.memoryBatch == old(batch.memoryBatch) + [Run(old(mmrSize), nodes)]
      ensures old(Holds(v)) ==> r == Ok(Pos(|v|, 0)) && Holds(v + [elem])
    {
      hide Shl, Shr, Pos, MmrSize, TrailingOnes, LeafCount, Subtree, PushedNodes, HoldsIn, WriteAll, LeafThenParents;
      var nodes := NodesToPush(elem, v);
      if nodes.Err? {
        return Err(nodes.error);
      }
      if Holds(v) {
        PushPreserves(batch.View(), v, elem);
        LeafCountOfSize(|v|);
        SizeStep(|v|);
        LeafAtEnd(|v|);
      }
      r := Ok(mmrSize);
      batch.Append(mmrSize, nodes.value);
      mmrSize := mmrSize + |nodes.value|;
    }

    /** One step of a run; `kept` are the leaves the store held after the last commit. */
    method Perform(op: Op, ghost v: seq<Hash>, ghost kept: seq<Hash>) returns (ok: bool)
      requires Holds(v) && mmrSize <= U64_MAX && kept <= v && HoldsIn(batch.store, kept)
      modifies this, batch
      ensures op.PushOp? || op.Succeeds() ==> ok
      ensures ok ==> Holds(v + if op.PushOp? then [op.elem] else [])
      ensures HoldsIn(batch.store, if ok && op.CommitOp? then v else kept)
    {
      hide HoldsIn, MmrSize, WriteAll;
      assert v + [] == v;
      match op {
        case PushOp(elem) =>
          var pushed := Push(elem, v);
          ok := true;
        case CommitOp(accepts) =>
          if op.Succeeds() {
            AllRunsTaken(batch.memoryBatch, accepts);
          }
          ok := Commit(accepts, v, kept);
      }
    }

    /** Any run of pushes and commits that starts from an empty range: while the commits
        succeed it is the range of the leaves pushed so far, and a push never fails; at every
        step, also after a failed commit, the store holds the range of the leaves that were
        pushed before the last commit that succeeded. */
    method RunAll(ops: seq<Op>) returns (ok: bool, done: nat)
      requires Holds([]) && MmrSize(|PushedBy(ops)|) <= U64_MAX
      modifies this, batch
      ensures done <= |ops| && (ok <==> done == |ops|)
      ensures !ok ==> ops[done].CommitOp? && !ops[done].Succeeds()
      ensures ok ==> Holds(PushedBy(ops)) && mmrSize == MmrSize(|PushedBy(ops)|)
      ensures HoldsIn(batch.store, CommittedBy(ops[..done]))
    {
      hide MmrSize, HoldsIn, WriteAll;
      var i := 0;
      assert ops[..0] == [];
      HoldsNothing(batch.store);
      while i < |ops|
        invariant 0 <= i <= |ops| && Holds(PushedBy(ops[..i])) && HoldsIn(batch.store, CommittedBy(ops[..i]))
      {
        ghost var v, kept := PushedBy(ops[..i]), CommittedBy(ops[..i]);
        PushedStep(ops, i);
        CommittedIsPushed(ops[..i]);
        CommittedStep(ops, i);
        var stepped := Perform(ops[i], v, kept);
        if !stepped {
          return false, i;
        }
        i := i + 1;
      }
      assert ops[..i] == ops;
      return true, i;
    }

    method ReadAt(pos: nat) returns (r: Result<Hash, Error>)
      requires WellFormed()
      ensures r == ToResult(batch.View().Get(pos))
    {
      assert Monotone(batch.memoryBatch);
      hide *;
      var read := batch.ElementAtPosition(pos);
      SeesMeans(pos);
      r := ToResult(read);
    }

    /** Reads a list of positions, stopping at the first that cannot be read. */
    method ReadAll(positions: seq<nat>) returns (r: Result<seq<Hash>, Error>)
      requires WellFormed()
      ensures r == Fetch(batch.View(), positions).nodes
    {
      hide *;
      ghost var view := batch.View();
      var nodes := [];
      var i := 0;
      FindsNothing(view);
      assert positions[..0] == [];
      while i < |positions|
        invariant 0 <= i <= |positions| && WellFormed() && batch.View() == view
        invariant Finds(view, positions[..i], nodes)
      {
        var read := ReadAt(positions[i]);
        assert positions[..i + 1] == positions[..i] + [positions[i]];
        if read.Err? {
          FetchStops(view, positions[..i], nodes, positions[i], positions[i + 1..]);
          assert positions == positions[..i] + ([positions[i]] + positions[i + 1..]);
          return Err(read.error);
        }
        FindsNext(view, positions[..i], nodes, positions[i], read.value);
        nodes := nodes + [read.value];
        i := i + 1;
      }
      assert positions[..i] == positions;
      FindsMeans(view, positions, nodes);
      r := Ok(nodes);
    }

    /** `get_root`: reads the peaks and bags them. */
    method GetRoot(ghost v: seq<Hash>) returns (r: Result<Hash, Error>)
      requires WellFormed() && mmrSize <= U64_MAX
      ensures r == RootFrom(batch.View(), mmrSize)
      ensures Holds(v) ==> r == if v == [] then Err(GetRootOnEmpty) else Ok(Root(v))
    {
      hide *;
      HoldsMeans(v);
      if Holds(v) {
        RootFromRange(batch.View(), v);
      }
      RootCases(batch.View(), mmrSize);
      if mmrSize == 0 {
        return Err(GetRootOnEmpty);
      }
      if mmrSize == 1 {
        r := ReadAt(0);
        return;
      }
      var positions := GetPeaks(mmrSize);
      var peaks := ReadAll(positions);
      BagOfMeans(peaks);
      if peaks.Err? {
        return Err(peaks.error);
      }
      var bagged := BagPeaks(peaks.value);
      r := if bagged.Some? then Ok(bagged.value) else Err(InconsistentStore);
    }

    /** `gen_proof_for_peak`: the queue loop reads the positions of `WantedBy`, in order. */
    method GenProofForPeak(proof: seq<Hash>, posList: seq<nat>, peakPos: u64, ghost c: Coord)
      returns (r: Result<seq<Hash>, Error>, trace: seq<nat>)
      requires WellFormed() && peakPos == Pos(c.i, c.h)
      requires forall p :: p in posList ==> Height(p) == 0
      requires SortedIn(LeafIndices(posList), Shl(c.i, c.h), Shl(c.i + 1, c.h))
      ensures Fetched(r, trace) == Fetch(batch.View(), WantedBy(c, LeafIndices(posList))).After([], proof)
      ensures r.Ok? ==> |r.value| >= |proof| + if posList == [] then 1 else 0
    {
      hide *;
      WantedMeans(c, posList);
      if |posList| == 1 && posList == [peakPos] {
        assert peakPos in posList;
        PeakIsLeaf(c, posList);
        FindsNothing(batch.View());
        FindsAfter(batch.View(), [], [], proof);
        assert proof + [] == proof;
        return Ok(proof), [];
      }
      if posList == [] {
        r, trace := EmitPeak(proof, peakPos, c);
      } else {
        r, trace := EmitLeaves(proof, posList, peakPos, c);
      }
    }

    /** A peak without a requested leaf is emitted itself. */
    method EmitPeak(proof: seq<Hash>, peakPos: u64, ghost c: Coord)
      returns (r: Result<seq<Hash>, Error>, trace: seq<nat>)
      requires WellFormed() && peakPos == Pos(c.i, c.h)
      ensures Fetched(r, trace) == Fetch(batch.View(), [Pos(c.i, c.h)]).After([], proof)
      ensures r.Ok? ==> |r.value| == |proof| + 1
    {
      hide *;
      var read := ReadAt(peakPos);
      FetchedAlone(batch.View(), peakPos, proof);
      r := if read.Ok? then Ok(proof + [read.value]) else Err(read.error);
      trace := [peakPos];
    }

    /** The queue starts with the requested leaves. */
    method EmitLeaves(proof: seq<Hash>, posList: seq<nat>, peakPos: u64, ghost c: Coord)
      returns (r: Result<seq<Hash>, Error>, trace: seq<nat>)
      requires WellFormed() && peakPos == Pos(c.i, c.h)
      requires posList != [] && posList != [peakPos] && forall p :: p in posList ==> Height(p) == 0
      requires SortedIn(LeafIndices(posList), Shl(c.i, c.h), Shl(c.i + 1, c.h))
      ensures Fetched(r, trace) == Fetch(batch.View(), EmitAt(LeafIndices(posList), 0, c.h)).After([], proof)
      ensures r.Ok? ==> |r.value| >= |proof|
    {
      hide *;
      GenStart(c, posList);
      r, trace := EmitQueue(LeafSlots(posList), proof, peakPos, c, Progress(DummyEntries(posList), [], 0, false),
                            EmitAt(LeafIndices(posList), 0, c.h));
    }

    /** The sibling that is not queued is read and emitted. */
    method EmitSibling(proof: seq<Hash>, items: seq<Hash>, trace: seq<nat>, sibPos: nat, ghost goal: seq<nat>)
      returns (more: Result<seq<Hash>, Error>)
      requires WellFormed() && Gathered(batch.View(), trace, proof, items) && trace + [sibPos] <= goal
      ensures more.Ok? ==> Gathered(batch.View(), trace + [sibPos], proof, more.value)
      ensures more.Err? ==> Fetch(batch.View(), goal).After([], proof) == Fetched(more, trace + [sibPos])
    {
      hide *;
      var read := ReadAt(sibPos);
      GatherNext(batch.View(), trace, proof, items, sibPos, goal);
      more := if read.Err? then Err(read.error) else Ok(items + [read.value]);
    }

    /** The loop of `gen_proof_for_peak`. */
    method EmitQueue(start: seq<Slot>, proof: seq<Hash>, peakPos: u64, ghost c: Coord,
                     ghost begin: Progress, ghost goal: seq<nat>)
      returns (r: Result<seq<Hash>, Error>, trace: seq<nat>)
      requires WellFormed() && peakPos == Pos(c.i, c.h) && InState(start, [], begin, c, goal)
      ensures Fetched(r, trace) == Fetch(batch.View(), goal).After([], proof)
      ensures r.Ok? ==> |r.value| >= |proof|
    {
      ghost var view := batch.View();
      hide *;
      var queue, items := start, proof;
      trace := [];
      ghost var progress := begin;
      var unsupported := false;
      GatherStart(view, proof);
      while |queue| > 0 && !unsupported
        invariant !unsupported && WellFormed() && batch.View() == view
        invariant Gathered(view, trace, proof, items) && InState(queue, trace, progress, c, goal)
        decreases !progress.finished, c.h - progress.h, |progress.cur|
      {
        StateFront(queue, trace, progress, c, goal);
        if queue[0].pos == peakPos {
          unsupported := true;
        } else {
          var sibPos, parent := Neighbours(queue[0], progress.cur[0].i);
          var inQueue := |queue| > 1 && queue[1].pos == sibPos;
          var d := if inQueue then 2 else 1;
          StateTurn(queue, trace, progress, c, goal, d, parent);
          if !inQueue {
            var more := EmitSibling(proof, items, trace, sibPos, goal);
            trace := trace + [sibPos];
            if more.Err? {
              return more, trace;
            }
            items := more.value;
          }
          queue := if parent.pos < peakPos then queue[d..] + [parent] else queue[d..];
          progress := Consume(progress, d, c);
        }
      }
      StateEnd(queue, trace, progress, c, goal);
      GatherEnd(view, trace, proof, items);
      if unsupported {
        return Err(NodeProofsNotSupported), trace;
      }
      r := Ok(items);
    }

    /** One peak of `gen_proof`. */
    method GenOnePeak(proof: seq<Hash>, left: seq<nat>, peakPos: u64, track: nat, ghost peaks: seq<Coord>,
                      ghost posList: seq<nat>, ghost from: nat, ghost n: nat,
                      ghost asked: seq<nat>, ghost want: seq<nat>, ghost tail: nat)
      returns (r: Result<seq<Hash>, Error>, track': nat, later: seq<nat>, trace: seq<nat>)
      requires WellFormed() && track <= |proof|
      requires peaks != [] && Tiles(peaks, from, n) && peakPos == Pos(peaks[0].i, peaks[0].h)
      requires Waiting(left, posList, from)
      requires OnTrack(asked, track, peaks, left, want, tail) && Finds(batch.View(), asked, proof)
      ensures Waiting(later, posList, Shl(peaks[0].i + 1, peaks[0].h))
      ensures r.Ok? ==>
                && track' <= |r.value| && Finds(batch.View(), asked + trace, r.value)
                && OnTrack(asked + trace, track', peaks[1..], later, want, tail)
      ensures r.Err? ==> Fetch(batch.View(), want) == Fetched(r, asked + trace)
    {
      hide *;
      var mine;
      mine, later := TakeWhile(left, SelfKey, peakPos);
      SplitHere(mine, later, peaks[0]);
      WaitingLeft(mine, later, posList, peaks, from, n);
      WaitingTaken(mine, later, posList, peaks, from, n);
      WaitingBelow(mine, later, posList, peaks, from);
      track' := if mine == [] then track + 1 else 0;
      r, trace := GenProofForPeak(proof, mine, peakPos, peaks[0]);
      OnTrackStep(asked, track, peaks, mine, later, want, tail);
      PeakFetched(batch.View(), asked, proof, WantedBy(peaks[0], LeafIndices(mine)),
                  Wanted(peaks[1..], LeafIndices(later)), r, trace);
    }

    /** The peaks of `gen_proof`: what they emit, the counter of trailing peaks without a
        requested leaf, and the positions right of the last peak. */
    method GenForPeaks(posList: seq<nat>, start: seq<nat>, peaks: seq<u64>, ghost n: nat)
      returns (r: Result<seq<Hash>, Error>, track: nat, left: seq<nat>, trace: seq<nat>)
      requires WellFormed() && peaks == PeakPositions(Peaks(n)) && Waiting(start, posList, 0)
      ensures Fetched(r, trace) == Fetch(batch.View(), Wanted(Peaks(n), LeafIndices(start)))
      ensures r.Ok? ==>
                && track <= |r.value| && track == Track(Peaks(n), LeafIndices(start), 0)
                && (left != [] <==> OutOfRange(posList, n))
    {
      ghost var rest, from: nat := Peaks(n), 0;
      ghost var view := batch.View();
      ghost var want, tail := Wanted(rest, LeafIndices(start)), Track(rest, LeafIndices(start), 0);
      hide *;
      RangeTiles(n);
      OnTrackStart(rest, start);
      FindsNothing(view);
      var proof, todo := [], peaks;
      track, left, trace := 0, start, [];
      while |todo| > 0
        invariant todo == PeakPositions(rest) && track <= |proof|
        invariant Tiles(rest, from, n) && Waiting(left, posList, from)
        invariant WellFormed() && batch.View() == view
        invariant OnTrack(trace, track, rest, left, want, tail) && Finds(view, trace, proof)
      {
        NextPeak(todo, rest, from, n);
        var more, asked;
        more, track, left, asked := GenOnePeak(proof, left, todo[0], track, rest, posList, from, n, trace, want, tail);
        trace := trace + asked;
        if more.Err? {
          return Err(more.error), track, left, trace;
        }
        from := Shl(rest[0].i + 1, rest[0].h);
        proof, todo, rest := more.value, todo[1..], rest[1..];
      }
      LastPeak(rest, from, n);
      WaitingEnd(left, posList, n);
      OnTrackEnd(trace, track, left, want, tail);
      FindsMeans(view, want, proof);
      r := Ok(proof);
    }

    /** `gen_proof`: sorts and deduplicates the positions, passes over the peaks and bags
        the trailing ones. Over any store, the result and the reads are those of `ProofFrom`. */
    method GenProof(posList: seq<nat>, ghost v: seq<Hash>) returns (r: Result<seq<Hash>, Error>, trace: seq<nat>)
      requires WellFormed() && mmrSize <= U64_MAX
      requires forall p :: p in posList ==> p <= U64_MAX
      ensures Fetched(r, trace) == ProofFrom(batch.View(), mmrSize, posList)
      ensures Holds(v) ==> r == MerkleProof.GenProof(v, posList)
    {
      HoldsMeans(v);
      hide *;
      if Holds(v) {
        ProofFromRange(batch.View(), v, posList);
      }
      ProofCases(batch.View(), mmrSize, posList);
      if |posList| == 0 {
        return Err(GenProofForInvalidLeaves), [];
      }
      if mmrSize == 1 && posList == [0] {
        return Ok([]), [];
      }
      var high := AnyHighPosition(posList);
      if high {
        return Err(NodeProofsNotSupported), [];
      }
      var sorted := Canonical(posList, SelfKey);
      WaitingStart(posList);
      var peaks := GetPeaks(mmrSize);
      var proof, track, left, asked := GenForPeaks(posList, sorted, peaks, LeafCount(mmrSize));
      if proof.Err? {
        return proof, asked;
      }
      if left != [] {
        return Err(GenProofForInvalidLeaves), asked;
      }
      BaggedMeans(proof.value, track);
      if track > 1 {
        var k := |proof.value| - track;
        var bagged := BagPeaks(proof.value[k..]);
        return if bagged.Some? then Ok(proof.value[..k] + [bagged.value]) else Err(InconsistentStore), asked;
      }
      return proof, asked;
    }

    /** `commit`: a successful flush changes no read, so the range stays what it was; a failed
        one still leaves the store with every range it held before. */
    method Commit(accepts: nat -> bool, ghost v: seq<Hash>, ghost kept: seq<Hash>) returns (ok: bool)
      requires WellFormed()
      modifies this, batch
      ensures mmrSize == old(mmrSize) && batch.memoryBatch == [] && WellFormed()
      ensures batch.store == Flushed(old(batch.store), old(batch.memoryBatch), accepts)
      ensures ok <==> forall run :: run in old(batch.memoryBatch) ==> AllTaken(run, accepts)
      ensures ok && old(Holds(v)) ==> Holds(v) && HoldsIn(batch.store, v)
      ensures old(Holds(v)) && old(HoldsIn(batch.store, kept)) && kept <= v ==> HoldsIn(batch.store, kept)
    {
      hide HoldsIn, MmrSize, WriteAll, Flushed, AllTaken;
      if Holds(v) && HoldsIn(batch.store, kept) && kept <= v {
        FlushKeeps(batch.store, batch.memoryBatch, accepts, v, kept);
      }
      ok := batch.Commit(accepts);
      NothingBuffered();
    }

    lemma NothingBuffered()
      ensures batch.memoryBatch == [] ==> batch.View() == batch.store
    {
    }
  }

  /** Whatever part of the buffered runs reaches the store, a range it held is still held. */
  lemma FlushKeeps(store: Store, runs: seq<Run>, accepts: nat -> bool, v: seq<Hash>, kept: seq<Hash>)
    requires Monotone(runs) && HoldsIn(WriteAll(store, runs), v) && HoldsIn(store, kept) && kept <= v
    ensures HoldsIn(Flushed(store, runs, accepts), kept)
  {
    hide Pos, Shl, Subtree, WriteAll, Flushed;
    forall i: nat, h: nat | Shl(i + 1, h) <= |kept|
      ensures Flushed(store, runs, accepts).Get(Pos(i, h)) == Present(Subtree(kept, i, h))
    {
      FlushedReads(store, runs, accepts, Pos(i, h));
      SubtreeFrame(kept, v, i, h);
    }
  }

  method AnyHighPosition(posList: seq<nat>) returns (high: bool)
    requires forall p :: p in posList ==> p <= U64_MAX
    ensures high <==> exists p :: p in posList && Height(p) > 0
  {
    hide *;
    var i := 0;
    while i < |posList|
      invariant 0 <= i <= |posList|
      invariant forall j :: 0 <= j < i ==> Height(posList[j]) == 0
    {
      assert posList[i] in posList;
      var h := PosHeightInTree(posList[i]);
      if h > 0 {
        return true;
      }
      i := i + 1;
    }
    high := false;
  }

  lemma SplitHere(taken: seq<nat>, left: seq<nat>, c: Coord)
    requires forall j :: 0 <= j < |taken| ==> SelfKey(taken[j]) <= Pos(c.i, c.h)
    requires left != [] ==> SelfKey(left[0]) > Pos(c.i, c.h)
    ensures SplitsAt(taken, left, c)
  {
    hide Pos;
    forall j | 0 <= j < |taken| ensures taken[j] <= Pos(c.i, c.h) {
      assert SelfKey(taken[j]) == taken[j];
    }
  }

  lemma NextPeak(todo: seq<nat>, peaks: seq<Coord>, from: nat, n: nat)
    requires todo != [] && todo == PeakPositions(peaks) && Tiles(peaks, from, n)
    ensures peaks != [] && todo[0] == Pos(peaks[0].i, peaks[0].h)
    ensures todo[1..] == PeakPositions(peaks[1..])
    ensures Tiles(peaks[1..], Shl(peaks[0].i + 1, peaks[0].h), n)
  {
    hide Pos, Shl;
  }

  lemma LastPeak(peaks: seq<Coord>, from: nat, n: nat)
    requires PeakPositions(peaks) == [] && Tiles(peaks, from, n)
    ensures peaks == [] && from == n
  {
  }

  /** Entries with these leaf positions; the hashes play no role for the prover. */
  function DummyEntries(posList: seq<nat>): (es: seq<Entry>)
    ensures |es| == |posList|
    ensures forall j :: 0 <= j < |es| ==> es[j] == Entry(LeafCount(posList[j]), Leaf([]))
    ensures Indices(es) == LeafIndices(posList)
  {
    var es := seq(|posList|, j requires 0 <= j < |posList| => Entry(LeafCount(posList[j]), Leaf([])));
    assert Indices(es) == LeafIndices(posList);
    es
  }

  function LeafSlots(posList: seq<nat>): (queue: seq<Slot>)
    ensures |queue| == |posList|
    ensures forall j :: 0 <= j < |queue| ==> queue[j] == Slot(posList[j], 0)
  {
    seq(|posList|, j requires 0 <= j < |posList| => Slot(posList[j], 0))
  }

  lemma {:induction false} LeafPeakAlone(c: Coord, posList: seq<nat>)
    requires c.h == 0 && posList != []
    requires forall p :: p in posList ==> Height(p) == 0
    requires SortedIn(LeafIndices(posList), Shl(c.i, c.h), Shl(c.i + 1, c.h))
    ensures posList == [Pos(c.i, c.h)]
  {
    hide Pos, Shl, LeafCount, Height;
    ClimbToPeak(LeafIndices(posList), c.i, 0);
    assert posList[0] in posList;
    LeafPositions(posList[0]);
    assert |posList| == |LeafIndices(posList)| && LeafIndices(posList)[0] == c.i;
  }

  lemma {:induction false} SizeBound(size: nat)
    ensures LeafCount(size) <= size
  {
  }

  lemma DoublePeak(j: nat)
    ensures 2 * Shl(1, j) == Shl(1, j + 1)
  {
  }

  // ---- one peak ------------------------------------------------------------------

  lemma WantedMeans(c: Coord, posList: seq<nat>)
    ensures WantedBy(c, LeafIndices(posList)) ==
              if posList == [] then [Pos(c.i, c.h)] else EmitAt(LeafIndices(posList), 0, c.h)
  {
    hide Pos, EmitAt;
  }

  lemma {:induction false} PeakIsLeaf(c: Coord, posList: seq<nat>)
    requires posList == [Pos(c.i, c.h)] && Height(Pos(c.i, c.h)) == 0
    ensures EmitAt(LeafIndices(posList), 0, c.h) == []
  {
    hide Pos, Height;
    PosInBlock(c.i, c.h);
  }

  lemma {:induction false} GenStart(c: Coord, posList: seq<nat>)
    requires posList != [] && posList != [Pos(c.i, c.h)]
    requires forall p :: p in posList ==> Height(p) == 0
    requires SortedIn(LeafIndices(posList), Shl(c.i, c.h), Shl(c.i + 1, c.h))
    ensures InState(LeafSlots(posList), [], Progress(DummyEntries(posList), [], 0, false), c,
                    EmitAt(LeafIndices(posList), 0, c.h))
  {
    var es := DummyEntries(posList);
    hide Ordered, Pos, Shl, LeafCount, Height, EmitAt, Remaining;
    OrderedStart(es, c, c.h);
    forall j | 0 <= j < |posList| ensures Pos(es[j].i, 0) == posList[j] {
      assert posList[j] in posList;
      LeafPositions(posList[j]);
    }
    if c.h == 0 {
      LeafPeakAlone(c, posList);
    }
    var queue := LeafSlots(posList);
    if c.h > 0 {
      RemainingStart(es, c.h);
      assert queue == Slots(es, 0) + (if 1 == c.h then [] else Slots([], 1));
    }
  }

  lemma StateFront(queue: seq<Slot>, asked: seq<nat>, p: Progress, c: Coord, goal: seq<nat>)
    requires InState(queue, asked, p, c, goal) && queue != []
    ensures !p.finished && p.h < c.h && p.cur != []
    ensures var i := p.cur[0].i;
            && queue[0] == Slot(Pos(i, p.h), p.h)
            && queue[0].pos < Pos(c.i, c.h)
            && var d := if |queue| > 1 && queue[1].pos == Pos(Sibling(i), p.h) then 2 else 1;
               Takes(p, d)
  {
    hide Pos, InGen, Sibling, Paired, AskState, Indices;
    GenFront(queue, p.cur, p.next, p.h, c);
  }

  lemma RequeueMeans(queue: seq<Slot>, d: nat, p: Progress, parent: Slot, peakPos: nat)
    requires d <= |queue| && p.cur != []
    requires parent == Slot(Pos(p.cur[0].i / 2, p.h + 1), p.h + 1)
    ensures Requeue(queue, d, ParentSlot(p), peakPos) ==
              if parent.pos < peakPos then queue[d..] + [parent] else queue[d..]
  {
    hide Pos;
  }

  /** One turn of the loop of `gen_proof_for_peak`, in the loop's own terms. */
  lemma StateTurn(queue: seq<Slot>, asked: seq<nat>, p: Progress, c: Coord, goal: seq<nat>, d: nat, parent: Slot)
    requires InState(queue, asked, p, c, goal) && !p.finished && p.cur != [] && Takes(p, d)
    requires parent == Slot(Pos(p.cur[0].i / 2, p.h + 1), p.h + 1)
    ensures d <= |queue|
    ensures var asked' := if d == 2 then asked else asked + [Pos(Sibling(p.cur[0].i), p.h)];
            && asked' <= goal
            && InState(if parent.pos < Pos(c.i, c.h) then queue[d..] + [parent] else queue[d..], asked',
                       Consume(p, d, c), c, goal)
    ensures Consume(p, d, c).finished || Consume(p, d, c).h > p.h
         || (Consume(p, d, c).h == p.h && |Consume(p, d, c).cur| < |p.cur|)
  {
    hide *;
    StateTakes(queue, asked, p, c, goal, d);
    StateStep(queue, asked, p, c, goal, d);
    AskingMeans(asked, p, d);
    RequeueMeans(queue, d, p, parent, Pos(c.i, c.h));
    StatePrefix(Requeue(queue, d, ParentSlot(p), Pos(c.i, c.h)), Asking(asked, p, d), Consume(p, d, c), c, goal);
    ConsumeDecreases(p, d, c);
  }

  lemma AskingMeans(asked: seq<nat>, p: Progress, d: nat)
    requires p.cur != []
    ensures Asking(asked, p, d) == if d == 2 then asked else asked + [Pos(Sibling(p.cur[0].i), p.h)]
  {
    hide Pos, Sibling;
  }

  lemma StatePrefix(queue: seq<Slot>, asked: seq<nat>, p: Progress, c: Coord, goal: seq<nat>)
    requires InState(queue, asked, p, c, goal)
    ensures asked <= goal
  {
    hide QueueState, Remaining;
  }

  lemma StateTakes(queue: seq<Slot>, asked: seq<nat>, p: Progress, c: Coord, goal: seq<nat>, d: nat)
    requires InState(queue, asked, p, c, goal) && !p.finished && Takes(p, d)
    ensures 0 < d <= |p.cur| && d <= |queue| && p.h < c.h
  {
    hide QueueState, AskState, Takes;
    TakesMeans(queue, p, c, d);
  }

  lemma StateEnd(queue: seq<Slot>, asked: seq<nat>, p: Progress, c: Coord, goal: seq<nat>)
    requires InState(queue, asked, p, c, goal)
    ensures queue == [] ==> goal == asked
  {
  }

  lemma FindsAfter(view: Store, want: seq<nat>, nodes: seq<Hash>, proof: seq<Hash>)
    requires Finds(view, want, nodes)
    ensures Fetch(view, want).After([], proof) == Fetched(Ok(proof + nodes), want)
  {
    hide Fetch;
    assert [] + want == want;
  }

  /** Every position asked for so far was read, and its node follows the earlier items. */
  ghost predicate Gathered(view: Store, asked: seq<nat>, proof: seq<Hash>, items: seq<Hash>) {
    proof <= items && Finds(view, asked, items[|proof|..])
  }

  lemma GatherStart(view: Store, proof: seq<Hash>)
    ensures Gathered(view, [], proof, proof)
  {
    hide Finds;
    FindsNothing(view);
    assert proof[|proof|..] == [];
  }

  /** The next read goes on or ends it. */
  lemma GatherNext(view: Store, asked: seq<nat>, proof: seq<Hash>, items: seq<Hash>, p: nat, goal: seq<nat>)
    requires Gathered(view, asked, proof, items) && asked + [p] <= goal
    ensures var x := ToResult(view.Get(p));
            if x.Ok? then Gathered(view, asked + [p], proof, items + [x.value])
            else Fetch(view, goal).After([], proof) == Fetched(Err(x.error), asked + [p])
  {
    hide Fetch, ToResult, Finds;
    var x, got := ToResult(view.Get(p)), items[|proof|..];
    if x.Ok? {
      FindsNext(view, asked, got, p, x.value);
      assert (items + [x.value])[|proof|..] == got + [x.value];
    } else {
      var rest := goal[|asked| + 1..];
      FetchStops(view, asked, got, p, rest);
      assert goal == asked + ([p] + rest);
      assert [] + (asked + [p]) == asked + [p];
    }
  }

  lemma GatherEnd(view: Store, asked: seq<nat>, proof: seq<Hash>, items: seq<Hash>)
    requires Gathered(view, asked, proof, items)
    ensures Fetch(view, asked).After([], proof) == Fetched(Ok(items), asked) && |items| >= |proof|
  {
    hide Finds, Fetch;
    FindsAfter(view, asked, items[|proof|..], proof);
    assert items == proof + items[|proof|..];
  }

  lemma FetchedAlone(view: Store, p: nat, proof: seq<Hash>)
    ensures var x := ToResult(view.Get(p));
            Fetch(view, [p]).After([], proof) == Fetched(if x.Ok? then Ok(proof + [x.value]) else Err(x.error), [p])
  {
    hide Fetch, ToResult;
    FetchOne(view, p, []);
    assert [p] + [] == [p] && [] + [p] == [p];
  }

  // ---- all peaks -----------------------------------------------------------------

  /** One peak's reads follow those of the peaks before it. */
  lemma PeakFetched(view: Store, asked: seq<nat>, proof: seq<Hash>, more: seq<nat>, rest: seq<nat>,
                    r: Result<seq<Hash>, Error>, trace: seq<nat>)
    requires Finds(view, asked, proof) && Fetched(r, trace) == Fetch(view, more).After([], proof)
    ensures r.Ok? ==> trace == more && Finds(view, asked + more, r.value)
    ensures r.Err? ==> Fetch(view, asked + (more + rest)) == Fetched(r, asked + trace)
  {
    FetchedAll(view, more);
    hide Fetch;
    assert [] + Fetch(view, more).asked == Fetch(view, more).asked;
    FetchAfter(view, asked, proof, more);
    FetchAfter(view, asked, proof, more + rest);
    if r.Err? {
      FetchFails(view, more, rest);
    }
  }

  lemma {:induction false} ProofCases(view: Store, size: nat, posList: seq<nat>)
    ensures posList == [] ==> ProofFrom(view, size, posList) == Fetched(Err(GenProofForInvalidLeaves), [])
    ensures size == 1 && posList == [0] ==> ProofFrom(view, size, posList) == Fetched(Ok([]), [])
    ensures posList != [] && !(size == 1 && posList == [0]) ==>
              if exists p :: p in posList && Height(p) > 0 then
                ProofFrom(view, size, posList) == Fetched(Err(NodeProofsNotSupported), [])
              else
                var peaks, idx := Peaks(LeafCount(size)), LeafIndices(Canonical(posList, SelfKey));
                var f := Fetch(view, Wanted(peaks, idx));
                ProofFrom(view, size, posList) ==
                  if f.nodes.Err? then f
                  else if OutOfRange(posList, LeafCount(size)) then Fetched(Err(GenProofForInvalidLeaves), f.asked)
                  else Fetched(Ok(Bagged(f.nodes.value, Track(peaks, idx, 0))), f.asked)
  {
    hide Height, LeafCount, Canonical, Wanted, Track, Bagged, Fetch, Peaks, OutOfRange;
  }

  lemma {:induction false} RootCases(view: Store, size: nat)
    ensures size == 0 ==> RootFrom(view, size) == Err(GetRootOnEmpty)
    ensures size == 1 ==> RootFrom(view, size) == ToResult(view.Get(0))
    ensures size > 0 ==>
              RootFrom(view, size) == BagOf(Fetch(view, PeakPositions(Peaks(LeafCount(size)))).nodes)
  {
    hide *;
    RootUnfold(view, size);
    if size == 1 {
      OneLeafPeaks(size);
      OneFetched(view, 0);
      BagOfOne(ToResult(view.Get(0)));
    }
  }

  lemma {:induction false} RootUnfold(view: Store, size: nat)
    ensures size == 0 ==> RootFrom(view, size) == Err(GetRootOnEmpty)
    ensures size > 0 ==>
              RootFrom(view, size) == BagOf(Fetch(view, PeakPositions(Peaks(LeafCount(size)))).nodes)
  {
    hide LeafCount, Fetch, Peaks, BagOf;
  }

  lemma OneFetched(view: Store, p: nat)
    ensures var x := ToResult(view.Get(p));
            Fetch(view, [p]).nodes == if x.Ok? then Ok([x.value]) else Err(x.error)
  {
    hide Fetch, ToResult;
    FetchOne(view, p, []);
    assert [p] + [] == [p];
  }

  lemma BagOfMeans(peaks: Result<seq<Hash>, Error>)
    ensures BagOf(peaks) ==
              if peaks.Err? then Err(peaks.error)
              else if peaks.value == [] then Err(InconsistentStore) else Ok(Bag(peaks.value))
  {
  }

  lemma BagOfOne(x: Result<Hash, Error>)
    ensures x.Ok? ==> BagOf(Ok([x.value])) == x
    ensures x.Err? ==> BagOf(Err(x.error)) == x
  {
  }

  lemma {:induction false} OneLeafPeaks(size: nat)
    requires size == 1
    ensures PeakPositions(Peaks(LeafCount(size))) == [0]
  {
    hide LeafCount;
    OneLeafSize();
    LeafCountOfSize(1);
    assert Peaks(1) == [Coord(0, 0)];
  }
}
