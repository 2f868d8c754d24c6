/** The write-ahead batch: runs of appended nodes kept in memory over a store. */
module Overlay {
  import opened Mountain

  /** A contiguous run of nodes starting at `pos`. */
  datatype Run = Run(pos: nat, elems: seq<Hash>) {
    predicate Covers(p: nat) {
      pos <= p < pos + |elems|
    }

    function First(n: nat): Run
      requires n <= |elems|
    {
      Run(pos, elems[..n])
    }
  }

  datatype Read = Present(x: Hash) | Absent | Failed

  /** The backing store: its nodes, and the positions whose reads fail. */
  datatype Store = Store(nodes: map<nat, Hash>, faulty: set<nat>) {
    function Get(p: nat): Read {
      if p in faulty then Failed else if p in nodes then Present(nodes[p]) else Absent
    }

    /** A successful write of one run. */
    function Write(run: Run): Store {
      Store(map p | p in nodes.Keys + RunPositions(run) ::
              if run.Covers(p) then run.elems[p - run.pos] else nodes[p],
            faulty - RunPositions(run))
    }
  }

  function RunPositions(run: Run): (s: set<nat>)
    ensures forall p: nat :: p in s <==> run.Covers(p)
  {
    set p | run.pos <= p < run.pos + |run.elems| && run.Covers(p)
  }

  /** The store after all runs have been written, oldest first. */
  function WriteAll(store: Store, runs: seq<Run>): Store {
    if runs == [] then store else WriteAll(store, runs[..|runs| - 1]).Write(runs[|runs| - 1])
  }

  /** Every run starts at or after the end of the run before it. */
  predicate Monotone(runs: seq<Run>) {
    forall a, b :: 0 <= a < b < |runs| ==> runs[a].pos + |runs[a].elems| <= runs[b].pos
  }

  /** A position at or after the end of one run is in no earlier run. */
  lemma {:induction false} NotInEarlierRuns(store: Store, runs: seq<Run>, p: nat)
    requires forall a :: 0 <= a < |runs| ==> !runs[a].Covers(p)
    ensures WriteAll(store, runs).Get(p) == store.Get(p)
  {
    if runs != [] {
      NotInEarlierRuns(store, runs[..|runs| - 1], p);
    }
  }

  // ---- flushing ------------------------------------------------------------------------

  /** The leading nodes of a run that the store takes; it stops at the first it refuses. */
  function Taken(run: Run, accepts: nat -> bool): (n: nat)
    ensures n <= |run.elems|
    decreases |run.elems|
  {
    if run.elems == [] || !accepts(run.pos) then 0 else 1 + Taken(Run(run.pos + 1, run.elems[1..]), accepts)
  }

  predicate AllTaken(run: Run, accepts: nat -> bool) {
    Taken(run, accepts) == |run.elems|
  }

  /** The store after the runs have been written up to the first refused node. */
  function Flushed(store: Store, runs: seq<Run>, accepts: nat -> bool): Store
    decreases |runs|
  {
    if runs == [] then store
    else
      var next := store.Write(runs[0].First(Taken(runs[0], accepts)));
      if AllTaken(runs[0], accepts) then Flushed(next, runs[1..], accepts) else next
  }

  lemma {:induction false} WriteFirst(store: Store, runs: seq<Run>)
    requires runs != []
    ensures WriteAll(store, runs) == WriteAll(store.Write(runs[0]), runs[1..])
    decreases |runs|
  {
    hide Store.Write;
    if |runs| > 1 {
      var init := runs[..|runs| - 1];
      WriteFirst(store, init);
      assert init[1..] == runs[1..][..|runs| - 2];
    } else {
      assert runs[..0] == [] && runs[1..] == [];
    }
  }

  lemma {:induction false} FlushedAll(store: Store, runs: seq<Run>, accepts: nat -> bool)
    requires forall run :: run in runs ==> AllTaken(run, accepts)
    ensures Flushed(store, runs, accepts) == WriteAll(store, runs)
    decreases |runs|
  {
    if runs != [] {
      var run := runs[0];
      assert run in runs && run.First(|run.elems|) == run;
      FlushedAll(store.Write(run), runs[1..], accepts);
      WriteFirst(store, runs);
    }
  }

  lemma WriteGet(store: Store, run: Run, p: nat)
    ensures store.Write(run).Get(p) == if run.Covers(p) then Present(run.elems[p - run.pos]) else store.Get(p)
  {
  }

  /** The first run's own positions are not touched by the later ones. */
  lemma FirstRunStays(store: Store, runs: seq<Run>, p: nat)
    requires Monotone(runs) && runs != [] && runs[0].Covers(p)
    ensures WriteAll(store, runs).Get(p) == Present(runs[0].elems[p - runs[0].pos])
  {
    hide WriteAll, Store.Write, Store.Get;
    WriteFirst(store, runs);
    WriteGet(store, runs[0], p);
    NotInEarlierRuns(store.Write(runs[0]), runs[1..], p);
  }

  /** A flush, complete or not, leaves every position with what the store had there or with
      what the buffered runs hold for it. */
  lemma {:induction false} FlushedReads(store: Store, runs: seq<Run>, accepts: nat -> bool, p: nat)
    requires Monotone(runs)
    ensures var now := Flushed(store, runs, accepts).Get(p);
            now == store.Get(p) || now == WriteAll(store, runs).Get(p)
    decreases |runs|
  {
    hide WriteAll, Store.Write, Store.Get, Taken;
    if runs != [] {
      var run, rest := runs[0], runs[1..];
      var first := run.First(Taken(run, accepts));
      var next := store.Write(first);
      WriteFirst(store, runs);
      WriteGet(store, first, p);
      if run.Covers(p) {
        FirstRunStays(store, runs, p);
      }
      if AllTaken(run, accepts) {
        assert first == run;
        FlushedReads(next, rest, accepts, p);
      }
    }
  }

  class MmrBatch {
    var memoryBatch: seq<Run>
    var store: Store

    /** `new` and `with_overlay` */
    constructor (store: Store, overlay: seq<Run>)
      ensures this.store == store && memoryBatch == overlay
    {
      this.store := store;
      memoryBatch := overlay;
    }

    /** What reads are meant to see: the store overwritten by every buffered run. */
    function View(): Store
      reads this
    {
      WriteAll(store, memoryBatch)
    }

    function Sees(p: nat): Read
      reads this
    {
      View().Get(p)
    }

    /** `element_at_position`: a reverse scan that stops at the first run starting at
        or before `pos`. */
    method ElementAtPosition(pos: nat) returns (r: Read)
      requires Monotone(memoryBatch)
      ensures r == Sees(pos)
    {
      var i := |memoryBatch|;
      assert memoryBatch[..i] == memoryBatch;
      while i > 0
        invariant 0 <= i <= |memoryBatch|
        invariant WriteAll(store, memoryBatch[..i]).Get(pos) == Sees(pos)
      {
        var run := memoryBatch[i - 1];
        assert memoryBatch[..i][..i - 1] == memoryBatch[..i - 1];
        if pos < run.pos {
          i := i - 1;
        } else if pos < run.pos + |run.elems| {
          return Present(run.elems[pos - run.pos]);
        } else {
          break;
        }
      }
      forall a | 0 <= a < i ensures !memoryBatch[..i][a].Covers(pos) {
        if a < i - 1 {
          assert memoryBatch[a].pos + |memoryBatch[a].elems| <= memoryBatch[i - 1].pos;
        }
      }
      NotInEarlierRuns(store, memoryBatch[..i], pos);
      r := store.Get(pos);
    }

    /** `append` */
    method Append(pos: nat, elems: seq<Hash>)
      requires Monotone(memoryBatch)
      requires memoryBatch != [] ==>
                 var last := memoryBatch[|memoryBatch| - 1]; last.pos + |last.elems| <= pos
      modifies this
      ensures store == old(store) && memoryBatch == old(memoryBatch) + [Run(pos, elems)]
      ensures Monotone(memoryBatch)
      ensures View() == old(View()).Write(Run(pos, elems))
      ensures forall p: nat :: Sees(p) ==
                if pos <= p < pos + |elems| then Present(elems[p - pos]) else old(Sees(p))
    {
      memoryBatch := memoryBatch + [Run(pos, elems)];
      assert memoryBatch[..|memoryBatch| - 1] == old(memoryBatch);
    }

    /** `take_overlay` */
    method TakeOverlay() returns (overlay: seq<Run>)
      modifies this
      ensures overlay == old(memoryBatch) && memoryBatch == [] && store == old(store)
    {
      overlay := memoryBatch;
      memoryBatch := [];
    }

    /** `commit`: the buffer is drained, and the runs are written until a node is refused. */
    method Commit(accepts: nat -> bool) returns (ok: bool)
      modifies this
      ensures memoryBatch == [] && store == Flushed(old(store), old(memoryBatch), accepts)
      ensures ok <==> forall run :: run in old(memoryBatch) ==> AllTaken(run, accepts)
      ensures ok ==> View() == old(View())
    {
      var runs := memoryBatch;
      memoryBatch := [];
      var i := 0;
      assert runs[0..] == runs;
      while i < |runs|
        invariant 0 <= i <= |runs|
        invariant runs == old(memoryBatch) && memoryBatch == []
        invariant forall j :: 0 <= j < i ==> AllTaken(runs[j], accepts)
        invariant Flushed(store, runs[i..], accepts) == Flushed(old(store), runs, accepts)
      {
        var run := runs[i];
        assert runs[i..][1..] == runs[i + 1..];
        store := store.Write(run.First(Taken(run, accepts)));
        if Taken(run, accepts) < |run.elems| {
          assert run in runs;
          return false;
        }
        i := i + 1;
      }
      ok := true;
      FlushedAll(old(store), runs, accepts);
    }
  }

  /** Handing the overlay to a new batch over the same store changes no read. */
  method ResumeOverlay(batch: MmrBatch) returns (resumed: MmrBatch)
    modifies batch
    ensures fresh(resumed) && Monotone(resumed.memoryBatch) == old(Monotone(batch.memoryBatch))
    ensures forall p: nat :: resumed.Sees(p) == old(batch.Sees(p))
  {
    var overlay := batch.TakeOverlay();
    resumed := new MmrBatch(batch.store, overlay);
  }
}
