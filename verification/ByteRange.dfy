/** The mountain range over stored bytes: every node is written under its position key and
    read back, whatever part of a flush the context takes. */
module ByteRange {
  import opened Wrappers
  import opened Bits
  import opened Positions
  import opened Mountain
  import opened Endian
  import opened MerkleProof
  import opened NodeCodec
  import opened NodeStorage
  import opened Overlay
  import opened Fetching
  import opened RangeReads
  import opened Mmr

  /** The two hash functions of the tree. */
  datatype Hashing = Hashing(leaf: Bytes -> Bytes, merge: (Bytes, Bytes) -> Bytes)

  ghost predicate Digests(b: Hashing) {
    (forall v :: |b.leaf(v)| == 32) && (forall l, r :: |b.merge(l, r)| == 32)
  }

  /** The bytes a hash term stands for. */
  function Digest(b: Hashing, x: Hash): Bytes {
    match x
    case Leaf(value) => b.leaf(value)
    case Node(l, r) => b.merge(Digest(b, l), Digest(b, r))
  }

  /** The stored node: a leaf carries its value, a merged node only its digest. */
  function ToNode(b: Hashing, x: Hash): MmrNode {
    MmrNode(Digest(b, x), if x.Leaf? then Some(x.value) else None, false)
  }

  /** Values longer than 32 bits cannot be written. */
  predicate Writable(x: Hash) {
    x.Leaf? ==> |x.value| <= U32_MAX
  }

  lemma NodeWellFormed(b: Hashing, x: Hash)
    requires Digests(b) && Writable(x)
    ensures NodeCodec.WellFormed(b.leaf, ToNode(b, x)) && Serialize(ToNode(b, x)).Ok?
  {
    match x
    case Leaf(value) =>
    case Node(l, r) =>
      assert |b.merge(Digest(b, l), Digest(b, r))| == 32;
  }

  /** `merge` on stored nodes. */
  function Merge(b: Hashing, l: MmrNode, r: MmrNode): MmrNode {
    MmrNode(b.merge(l.hash, r.hash), None, false)
  }

  /** What a read of the bytes returns for a read of the nodes. */
  function Shown(b: Hashing, r: Read): Result<Found, Error> {
    match r
    case Present(x) => Ok(Found(ToNode(b, x)))
    case Absent => Ok(Missing)
    case Failed => Err(StoreError)
  }

  /** Below the key limit the bytes read as the store of nodes. */
  ghost predicate Stands(bytes: MmrStore, b: Hashing, store: Store)
    reads bytes
  {
    && bytes.leafHash == b.leaf
    && forall p: u64 :: p < KeyLimit(bytes.size) ==> bytes.Reads(p) == Shown(b, store.Get(p))
  }

  // ---- writing -------------------------------------------------------------------------

  function ToNodes(b: Hashing, xs: seq<Hash>): (ns: seq<MmrNode>)
    ensures |ns| == |xs|
    ensures forall j :: 0 <= j < |xs| ==> ns[j] == ToNode(b, xs[j])
  {
    seq(|xs|, j requires 0 <= j < |xs| => ToNode(b, xs[j]))
  }

  predicate RunFits(run: Run, size: KeySize) {
    run.pos + |run.elems| <= KeyLimit(size) && forall x :: x in run.elems ==> Writable(x)
  }

  lemma {:induction false} TakenIs(run: Run, accepts: nat -> bool, n: nat)
    requires n <= |run.elems| && forall q: nat :: run.pos <= q < run.pos + n ==> accepts(q)
    requires n < |run.elems| ==> !accepts(run.pos + n)
    ensures Taken(run, accepts) == n
    decreases n
  {
    if n > 0 {
      TakenIs(Run(run.pos + 1, run.elems[1..]), accepts, n - 1);
    }
  }

  lemma KeyExists(pos: u64, size: KeySize)
    requires pos < KeyLimit(size)
    ensures NodeKey(pos, size).Ok?
  {
  }

  lemma LimitFits(size: KeySize)
    ensures KeyLimit(size) <= U64_MAX
  {
  }

  /** Appending a run to the bytes is the append of the nodes, also when it is cut short. */
  method AppendRun(bytes: MmrStore, b: Hashing, run: Run, accepts: nat -> bool, ghost store: Store)
    returns (ok: bool)
    requires Digests(b) && Stands(bytes, b, store) && RunFits(run, bytes.size)
    modifies bytes
    ensures ok <==> AllTaken(run, accepts)
    ensures Stands(bytes, b, store.Write(run.First(Taken(run, accepts))))
  {
    hide NodeKey, KeyLimit, Serialize, NodeCodec.WellFormed, MmrStore.Reads, Taken, Store.Write, Store.Get, ToNode;
    LimitFits(bytes.size);
    forall j | 0 <= j < |run.elems|
      ensures NodeCodec.WellFormed(b.leaf, ToNode(b, run.elems[j])) && Serialize(ToNode(b, run.elems[j])).Ok?
      ensures NodeKey(run.pos + j, bytes.size).Ok?
    {
      assert run.elems[j] in run.elems;
      NodeWellFormed(b, run.elems[j]);
      KeyExists(run.pos + j, bytes.size);
    }
    var r, done := bytes.Append(run.pos, ToNodes(b, run.elems), accepts);
    forall q: nat | run.pos <= q < run.pos + done ensures accepts(q) {
      assert bytes.Takes(run.pos + (q - run.pos), ToNodes(b, run.elems)[q - run.pos], accepts);
    }
    TakenIs(run, accepts, done);
    ghost var first := run.First(done);
    forall p: u64 | p < KeyLimit(bytes.size)
      ensures bytes.Reads(p) == Shown(b, store.Write(first).Get(p))
    {
      WriteGet(store, first, p);
      if first.Covers(p) {
        var i := p - run.pos;
        assert run.pos + i == p && ToNodes(b, run.elems)[i] == ToNode(b, run.elems[i]);
      }
    }
    ok := r.Ok?;
  }

  /** Flushing to the bytes is the flush of the nodes, complete or not. */
  method FlushBytes(bytes: MmrStore, b: Hashing, runs: seq<Run>, accepts: nat -> bool, ghost store: Store)
    returns (ok: bool)
    requires Digests(b) && Stands(bytes, b, store) && forall run :: run in runs ==> RunFits(run, bytes.size)
    modifies bytes
    ensures Stands(bytes, b, Flushed(store, runs, accepts))
  {
    hide Digests, Stands, RunFits, Taken, Store.Write;
    var i := 0;
    ghost var now := store;
    assert runs[0..] == runs;
    while i < |runs|
      invariant 0 <= i <= |runs| && Stands(bytes, b, now)
      invariant Flushed(now, runs[i..], accepts) == Flushed(store, runs, accepts)
    {
      var run := runs[i];
      assert run in runs && runs[i..][1..] == runs[i + 1..];
      ok := AppendRun(bytes, b, run, accepts, now);
      now := now.Write(run.First(Taken(run, accepts)));
      if !ok {
        return false;
      }
      i := i + 1;
    }
    ok := true;
  }

  // ---- runs ----------------------------------------------------------------------------

  ghost predicate BatchFits(range: MountainRange, size: KeySize)
    reads range, range.batch
  {
    forall run :: run in range.batch.memoryBatch ==> RunFits(run, size)
  }

  lemma PushedFits(size: nat, elem: Hash, nodes: seq<Hash>, keys: KeySize)
    requires Writable(elem) && LeafThenParents(elem, nodes) && size + |nodes| <= KeyLimit(keys)
    ensures RunFits(Run(size, nodes), keys)
  {
  }

  method PushOnBytes(range: MountainRange, elem: Hash, size: KeySize, ghost v: seq<Hash>)
    requires range.Holds(v) && Writable(elem) && MmrSize(|v| + 1) <= KeyLimit(size) && BatchFits(range, size)
    modifies range, range.batch
    ensures range.batch.store == old(range.batch.store)
    ensures range.Holds(v + [elem]) && BatchFits(range, size)
  {
    hide RunFits, HoldsIn, MmrSize, WriteAll, KeyLimit, LeafThenParents;
    SizeMonotone(|v|, |v| + 1);
    LimitFits(size);
    ghost var before := range.batch.memoryBatch;
    var pushed := range.Push(elem, v);
    ghost var nodes: seq<Hash> :| LeafThenParents(elem, nodes)
                                  && |nodes| == HashCountForPush(LeafCount(old(range.mmrSize)))
                                  && range.batch.memoryBatch == before + [Run(old(range.mmrSize), nodes)];
    PushedFits(old(range.mmrSize), elem, nodes, size);
  }

  /** One step of a run, on the nodes and on the bytes. */
  method PerformOnBytes(range: MountainRange, bytes: MmrStore, b: Hashing, op: Op, ghost v: seq<Hash>,
                        ghost kept: seq<Hash>)
    returns (ok: bool)
    requires Digests(b) && Stands(bytes, b, range.batch.store) && BatchFits(range, bytes.size)
    requires range.Holds(v) && kept <= v && HoldsIn(range.batch.store, kept)
    requires op.PushOp? ==> Writable(op.elem) && MmrSize(|v| + 1) <= KeyLimit(bytes.size)
    modifies range, range.batch, bytes
    ensures Stands(bytes, b, range.batch.store)
    ensures op.PushOp? || op.Succeeds() ==> ok
    ensures ok ==> range.Holds(v + if op.PushOp? then [op.elem] else []) && BatchFits(range, bytes.size)
    ensures ok && op.CommitOp? ==> range.mmrSize == MmrSize(|v|)
    ensures HoldsIn(range.batch.store, if ok && op.CommitOp? then v else kept)
  {
    hide Digests, Stands, RunFits, HoldsIn, MmrSize, WriteAll, KeyLimit, Flushed;
    match op {
      case PushOp(elem) =>
        PushOnBytes(range, elem, bytes.size, v);
        ok := true;
      case CommitOp(accepts) =>
        assert v + [] == v;
        var flushed := FlushBytes(bytes, b, range.batch.memoryBatch, accepts, range.batch.store);
        if op.Succeeds() {
          AllRunsTaken(range.batch.memoryBatch, accepts);
        }
        ok := range.Commit(accepts, v, kept);
    }
  }

  /** Every node over the leaves `v` is stored as bytes under its position. */
  ghost predicate BytesHold(bytes: MmrStore, b: Hashing, v: seq<Hash>)
    reads bytes
  {
    forall i: nat, h: nat :: Shl(i + 1, h) <= |v| ==>
      Pos(i, h) <= U64_MAX && bytes.Reads(Pos(i, h)) == Ok(Found(ToNode(b, Subtree(v, i, h))))
  }

  lemma StandsHold(bytes: MmrStore, b: Hashing, store: Store, v: seq<Hash>)
    requires Stands(bytes, b, store) && HoldsIn(store, v) && MmrSize(|v|) <= KeyLimit(bytes.size)
    ensures BytesHold(bytes, b, v)
  {
    hide Pos, Shl, Subtree, MmrSize, KeyLimit, ToNode, MmrStore.Reads;
    LimitFits(bytes.size);
    forall i: nat, h: nat | Shl(i + 1, h) <= |v|
      ensures Pos(i, h) <= U64_MAX && bytes.Reads(Pos(i, h)) == Ok(Found(ToNode(b, Subtree(v, i, h))))
    {
      PosBeforeSize(i, h, |v|);
      var p: u64 := Pos(i, h);
      assert bytes.Reads(p) == Shown(b, store.Get(p));
    }
  }

  /** Any run of pushes and commits over an empty byte store: after every step, also after a
      commit that failed halfway, the bytes hold every node of the range of the leaves pushed
      before the last commit that succeeded; `size` is the size of that range. */
  method RunOnBytes(range: MountainRange, bytes: MmrStore, b: Hashing, ops: seq<Op>)
    returns (ok: bool, done: nat, size: nat)
    requires Digests(b) && Stands(bytes, b, range.batch.store)
    requires range.Holds([]) && range.batch.memoryBatch == []
    requires MmrSize(|PushedBy(ops)|) <= KeyLimit(bytes.size)
    requires forall op :: op in ops && op.PushOp? ==> Writable(op.elem)
    modifies range, range.batch, bytes
    ensures done <= |ops| && (ok <==> done == |ops|)
    ensures !ok ==> ops[done].CommitOp? && !ops[done].Succeeds()
    ensures ok ==> range.Holds(PushedBy(ops))
    ensures size == MmrSize(|CommittedBy(ops[..done])|) <= KeyLimit(bytes.size)
    ensures BytesHold(bytes, b, CommittedBy(ops[..done]))
    ensures Stands(bytes, b, range.batch.store) && HoldsIn(range.batch.store, CommittedBy(ops[..done]))
  {
    hide *;
    LimitFits(bytes.size);
    done, size := 0, 0;
    ok := true;
    NothingDone(range, ops, bytes.size);
    HoldsNothing(range.batch.store);
    while done < |ops| && ok
      invariant done <= |ops| && Stands(bytes, b, range.batch.store)
      invariant HoldsIn(range.batch.store, CommittedBy(ops[..done])) && size == MmrSize(|CommittedBy(ops[..done])|)
      invariant ok ==> range.Holds(PushedBy(ops[..done])) && BatchFits(range, bytes.size)
      invariant !ok ==> done < |ops| && ops[done].CommitOp? && !ops[done].Succeeds()
      decreases |ops| - done, ok
    {
      ghost var v, kept := PushedBy(ops[..done]), CommittedBy(ops[..done]);
      var op := ops[done];
      assert op in ops;
      PushedStep(ops, done);
      PushedRoom(ops, done, bytes.size);
      CommittedIsPushed(ops[..done]);
      CommittedStep(ops, done);
      ok := PerformOnBytes(range, bytes, b, op, v, kept);
      if ok {
        done := done + 1;
        size := if op.CommitOp? then range.mmrSize else size;
      }
    }
    if ok {
      assert ops[..done] == ops;
    }
    CommittedRoom(ops, done, bytes.size);
    StandsHold(bytes, b, range.batch.store, CommittedBy(ops[..done]));
  }

  lemma NothingDone(range: MountainRange, ops: seq<Op>, size: KeySize)
    ensures PushedBy(ops[..0]) == [] && CommittedBy(ops[..0]) == [] && MmrSize(|CommittedBy(ops[..0])|) == 0
    ensures range.batch.memoryBatch == [] ==> BatchFits(range, size)
  {
    hide RunFits;
    SizeOfSome(0);
  }

  lemma PushedRoom(ops: seq<Op>, i: nat, size: KeySize)
    requires i < |ops| && MmrSize(|PushedBy(ops)|) <= KeyLimit(size)
    ensures ops[i].PushOp? ==> MmrSize(|PushedBy(ops[..i])| + 1) <= KeyLimit(size)
  {
    hide MmrSize, KeyLimit;
    LimitFits(size);
    PushedStep(ops, i);
    PushedGrows(ops, i + 1);
    if ops[i].PushOp? && |PushedBy(ops[..i])| + 1 < |PushedBy(ops)| {
      SizeMonotone(|PushedBy(ops[..i])| + 1, |PushedBy(ops)|);
    }
  }

  lemma CommittedRoom(ops: seq<Op>, i: nat, size: KeySize)
    requires i <= |ops| && MmrSize(|PushedBy(ops)|) <= KeyLimit(size)
    ensures MmrSize(|CommittedBy(ops[..i])|) <= KeyLimit(size)
  {
    hide MmrSize, KeyLimit;
    CommittedIsPushed(ops[..i]);
    PushedGrows(ops, i);
    if |CommittedBy(ops[..i])| < |PushedBy(ops)| {
      SizeMonotone(|CommittedBy(ops[..i])|, |PushedBy(ops)|);
    }
  }

  // ---- reading -------------------------------------------------------------------------

  function NodesOf(b: Hashing, r: Result<seq<Hash>, Error>): Result<seq<MmrNode>, Error> {
    if r.Err? then Err(r.error) else Ok(ToNodes(b, r.value))
  }

  /** Reading positions from the bytes finds the nodes the store would find, or its error. */
  method FetchBytes(bytes: MmrStore, b: Hashing, want: seq<u64>, ghost store: Store)
    returns (r: Result<seq<MmrNode>, Error>)
    requires Stands(bytes, b, store) && forall p :: p in want ==> p < KeyLimit(bytes.size)
    ensures r == NodesOf(b, Fetch(store, want).nodes)
  {
    hide Fetch, Finds, KeyLimit, MmrStore.Reads, ToNode, Store.Get;
    var nodes: seq<MmrNode> := [];
    ghost var xs: seq<Hash> := [];
    var i := 0;
    FindsNothing(store);
    assert want[..0] == [];
    while i < |want|
      invariant 0 <= i <= |want| && Finds(store, want[..i], xs) && nodes == ToNodes(b, xs)
    {
      assert want[i] in want && want[..i + 1] == want[..i] + [want[i]];
      var found := bytes.ElementAtPosition(want[i], true);
      ghost var read := store.Get(want[i]);
      assert found == Shown(b, read);
      if found.Err? || found.value.Missing? {
        FetchStops(store, want[..i], xs, want[i], want[i + 1..]);
        assert want == want[..i] + ([want[i]] + want[i + 1..]);
        return Err(if found.Err? then found.error else InconsistentStore);
      }
      FindsNext(store, want[..i], xs, want[i], read.x);
      nodes := nodes + [found.value.node];
      xs := xs + [read.x];
      i := i + 1;
    }
    assert want[..i] == want;
    FindsMeans(store, want, xs);
    r := Ok(nodes);
  }

  /** `bag_peaks` on stored nodes. */
  method BagNodes(input: seq<MmrNode>, b: Hashing, ghost xs: seq<Hash>) returns (bagged: MmrNode)
    requires input != [] && input == ToNodes(b, xs)
    ensures bagged == ToNode(b, Bag(xs))
  {
    var peaks := input;
    ghost var ys := xs;
    while |peaks| > 1
      invariant |peaks| > 0 && peaks == ToNodes(b, ys) && Bag(ys) == Bag(xs)
    {
      var n := |peaks|;
      var right, left := peaks[n - 1], peaks[n - 2];
      BagSplit(ys[..n - 2], [ys[n - 2], ys[n - 1]]);
      assert ys == ys[..n - 2] + [ys[n - 2], ys[n - 1]];
      assert Bag([ys[n - 2], ys[n - 1]]) == Node(ys[n - 1], ys[n - 2]);
      ys := ys[..n - 2] + [Node(ys[n - 1], ys[n - 2])];
      peaks := peaks[..n - 2] + [Merge(b, right, left)];
    }
    bagged := peaks[0];
  }

  function DigestOf(b: Hashing, root: Result<Hash, Error>): Result<Bytes, Error> {
    if root.Err? then Err(root.error) else Ok(Digest(b, root.value))
  }

  lemma DigestOfMeans(b: Hashing, root: Result<Hash, Error>)
    ensures DigestOf(b, root) == if root.Err? then Err(root.error) else Ok(Digest(b, root.value))
  {
    hide Digest;
  }

  /** `get_root` over the bytes of a range: the digest of the range's root. */
  method RootOfBytes(bytes: MmrStore, b: Hashing, mmrSize: u64, ghost store: Store) returns (r: Result<Bytes, Error>)
    requires Stands(bytes, b, store) && mmrSize <= KeyLimit(bytes.size)
    ensures r == DigestOf(b, RootFrom(store, mmrSize))
  {
    hide *;
    RootCases(store, mmrSize);
    DigestOfMeans(b, RootFrom(store, mmrSize));
    if mmrSize == 0 {
      return Err(GetRootOnEmpty);
    }
    var positions := GetPeaks(mmrSize);
    PeaksBelow(mmrSize, positions, KeyLimit(bytes.size));
    var peaks := FetchBytes(bytes, b, positions, store);
    ghost var xs := Fetch(store, positions).nodes;
    BagOfMeans(xs);
    NodesOfMeans(b, xs);
    if peaks.Err? {
      return Err(peaks.error);
    }
    if peaks.value == [] {
      return Err(InconsistentStore);
    }
    var bagged := BagNodes(peaks.value, b, xs.value);
    r := Ok(bagged.hash);
  }

  /** The range that is left in the bytes after any run can be opened again by its size: its
      root is the root of the leaves pushed before the last commit that succeeded. */
  method RootAfterRun(range: MountainRange, bytes: MmrStore, b: Hashing, ops: seq<Op>)
    returns (root: Result<Bytes, Error>, done: nat)
    requires Digests(b) && Stands(bytes, b, range.batch.store)
    requires range.Holds([]) && range.batch.memoryBatch == []
    requires MmrSize(|PushedBy(ops)|) <= KeyLimit(bytes.size)
    requires forall op :: op in ops && op.PushOp? ==> Writable(op.elem)
    modifies range, range.batch, bytes
    ensures done <= |ops|
    ensures var v := CommittedBy(ops[..done]);
            root == if v == [] then Err(GetRootOnEmpty) else Ok(Digest(b, Root(v)))
  {
    hide *;
    var ok, size;
    ok, done, size := RunOnBytes(range, bytes, b, ops);
    LimitFits(bytes.size);
    RootFromRange(range.batch.store, CommittedBy(ops[..done]));
    DigestOfMeans(b, RootFrom(range.batch.store, size));
    root := RootOfBytes(bytes, b, size, range.batch.store);
  }

  lemma NodesOfMeans(b: Hashing, r: Result<seq<Hash>, Error>)
    ensures NodesOf(b, r).Err? <==> r.Err?
    ensures r.Err? ==> NodesOf(b, r) == Err(r.error)
    ensures r.Ok? ==> NodesOf(b, r) == Ok(ToNodes(b, r.value)) && |ToNodes(b, r.value)| == |r.value|
    ensures forall x :: ToNode(b, x).hash == Digest(b, x)
  {
  }

  lemma {:induction false} PeaksBelow(mmrSize: u64, positions: seq<nat>, limit: nat)
    requires positions == PeakPositions(Peaks(LeafCount(mmrSize))) && mmrSize <= limit
    ensures forall p :: p in positions ==> p < limit
  {
    hide LeafCount, Peaks, Pos, MmrSize, Shl;
    var n := LeafCount(mmrSize);
    RangeTiles(n);
    TilesBounds(Peaks(n), 0, n);
    SizeWithin(mmrSize);
    forall p | p in positions ensures p < limit {
      var j :| 0 <= j < |positions| && positions[j] == p;
      var c := Peaks(n)[j];
      assert c in Peaks(n);
      PosBeforeSize(c.i, c.h, n);
    }
  }

  lemma {:induction false} SizeWithin(size: nat)
    ensures MmrSize(LeafCount(size)) <= size
  {
  }

  // ---- small ranges written out ------------------------------------------------------------

  /** The digests of the ranges of one, two and three leaves: children from left to right, and
      peaks from right to left. */
  lemma SmallRanges(b: Hashing, x: Bytes, y: Bytes, z: Bytes)
    ensures Digest(b, Root([Leaf(x)])) == b.leaf(x)
    ensures Digest(b, Root([Leaf(x), Leaf(y)])) == b.merge(b.leaf(x), b.leaf(y))
    ensures Digest(b, Root([Leaf(x), Leaf(y), Leaf(z)])) == b.merge(b.leaf(z), b.merge(b.leaf(x), b.leaf(y)))
  {
    SmallRoots(Leaf(x), Leaf(y), Leaf(z));
    hide Root;
  }

  lemma SmallRoots(x: Hash, y: Hash, z: Hash)
    ensures Root([x]) == x && Root([x, y]) == Node(x, y) && Root([x, y, z]) == Node(z, Node(x, y))
  {
    SmallPeaks();
    hide PeaksFrom;
    PairIs([x, y], x, y);
    PairIs([x, y, z], x, y);
    assert PeakHashes([x], Peaks(1)) == [x];
    assert PeakHashes([x, y], Peaks(2)) == [Node(x, y)];
    assert PeakHashes([x, y, z], Peaks(3)) == [Node(x, y), z];
    assert Bag([Node(x, y), z]) == Node(z, Node(x, y)) by {
      assert [Node(x, y), z][1..] == [z];
    }
  }

  lemma PairIs(v: seq<Hash>, x: Hash, y: Hash)
    requires |v| >= 2 && v[0] == x && v[1] == y
    ensures Mountain.Subtree(v, 0, 1) == Node(x, y)
    ensures |v| == 3 ==> Mountain.Subtree(v, 2, 0) == v[2]
  {
    SubtreeUnfold(v, 0, 1);
    LeafSpan(v, 0);
    LeafSpan(v, 1);
  }

  lemma SmallPeaks()
    ensures Peaks(1) == [Coord(0, 0)] && Peaks(2) == [Coord(0, 1)] && Peaks(3) == [Coord(0, 1), Coord(2, 0)]
  {
    assert PeaksFrom(1, 1) == [Coord(0, 1)];
    assert PeaksFrom(1, 0) == [Coord(0, 0)];
  }
}
