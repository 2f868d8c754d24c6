/** The dense tree as a state machine: a count, a write-through cache and a storage
    context that may refuse or defer writes and fail reads. */
module DenseTree {
  import opened Wrappers
  import opened DenseHash

  /** What reads of the context return; reads of `unreadable` positions fail. */
  datatype Storage = Storage(data: map<nat, Bytes>, unreadable: set<nat>) {
    function Write(pos: nat, value: Bytes): Storage {
      Storage(data[pos := value], unreadable)
    }

    function Read(pos: nat): Result<Option<Bytes>, DenseError> {
      if pos in unreadable then Err(StoreError) else if pos in data then Ok(Some(data[pos])) else Ok(None)
    }

    /** Every one of these values is stored at its position, readable at the moment or not. */
    predicate Stores(values: seq<Bytes>) {
      forall p :: 0 <= p < |values| ==> p in data && data[p] == values[p]
    }
  }

  /** A write fails, is visible at once, or waits in a batch that reads do not see. */
  datatype Put = Refuse | WriteNow | Defer

  /** A step of a run. `SetStorage` is anything that happens to the context outside. */
  datatype Op =
    | InsertOp(value: Bytes, put: Put)
    | TryInsertOp(value: Bytes, put: Put)
    | GetOp(pos: nat)
    | RootOp
    | ResetOp
    | SetStorage(storage: Storage)

  datatype Reply =
    | Inserted(inserted: Result<(Bytes, nat), DenseError>)
    | Tried(tried: Result<Option<(Bytes, nat)>, DenseError>)
    | Got(got: Result<Option<Bytes>, DenseError>)
    | Rooted(root: Result<Bytes, DenseError>)
    | Done

  /** What a tree stands for: the first `stored` values are left to the context as the
      outside made it, the ones added since are kept. The tree's own writes play no part. */
  datatype Session = Session(stored: nat, added: seq<Bytes>, context: Storage) {
    function Count(): nat {
      stored + |added|
    }

    /** Every value left to the context can be read at this moment. */
    predicate Legible() {
      forall p :: 0 <= p < stored ==> p in context.data && p !in context.unreadable
    }

    function Values(): seq<Bytes>
      requires Legible()
    {
      seq(stored, p requires 0 <= p < stored => context.data[p]) + added
    }

    predicate Accepts(put: Put, cap: nat) {
      Count() < cap && put != Refuse && Legible()
    }

    function After(op: Op, cap: nat): Session {
      match op
      case InsertOp(value, put) => if Accepts(put, cap) then this.(added := added + [value]) else this
      case TryInsertOp(value, put) => if Accepts(put, cap) then this.(added := added + [value]) else this
      case GetOp(_) => this
      case RootOp => this
      case ResetOp => Session(0, [], context)
      case SetStorage(s) => this.(context := s)
    }

    function Append(h: Hashing, value: Bytes, put: Put, cap: nat): Result<(Bytes, nat), DenseError> {
      if !Accepts(put, cap) then Err(StoreError) else Ok((RootOf(h, Values() + [value], cap), Count()))
    }

    function Value(pos: nat): Result<Option<Bytes>, DenseError> {
      if pos >= Count() then Ok(None)
      else if pos >= stored then Ok(Some(added[pos - stored]))
      else if context.Read(pos) == Ok(None) then Err(StoreError)
      else context.Read(pos)
    }

    function Answer(h: Hashing, op: Op, cap: nat): Reply {
      match op
      case InsertOp(value, put) =>
        Inserted(if Count() >= cap then Err(TreeFull) else Append(h, value, put, cap))
      case TryInsertOp(value, put) =>
        Tried(if Count() >= cap then Ok(None)
              else
                var r := Append(h, value, put, cap);
                if r.Err? then Err(r.error) else Ok(Some(r.value)))
      case GetOp(pos) => Got(Value(pos))
      case RootOp => Rooted(if Legible() then Ok(RootOf(h, Values(), cap)) else Err(StoreError))
      case ResetOp => Done
      case SetStorage(_) => Done
    }
  }

  function AfterAll(start: Session, ops: seq<Op>, cap: nat): Session {
    if ops == [] then start
    else AfterAll(start, ops[..|ops| - 1], cap).After(ops[|ops| - 1], cap)
  }

  function Answers(start: Session, h: Hashing, ops: seq<Op>, cap: nat): seq<Reply> {
    if ops == [] then []
    else
      var before := ops[..|ops| - 1];
      Answers(start, h, before, cap) + [AfterAll(start, before, cap).Answer(h, ops[|ops| - 1], cap)]
  }

  /** These fields of a tree stand for the session. */
  ghost predicate Fits(s: Session, count: nat, cache: seq<Option<Bytes>>, storage: Storage) {
    && s.Count() == count <= |cache|
    && (forall p :: 0 <= p < s.stored ==> cache[p] == None && storage.Read(p) == s.context.Read(p))
    && forall p :: s.stored <= p < count ==> cache[p] == Some(s.added[p - s.stored])
  }

  /** An accepted append extends the session by a cached value; whether the write is visible
      at once, waits, or outlives an append that was undone, the session's reads do not see it. */
  lemma AppendFits(s: Session, value: Bytes, put: Put, cap: nat, cache: seq<Option<Bytes>>, storage: Storage)
    requires Fits(s, s.Count(), cache, storage) && s.Count() <= cap == |cache|
    ensures var count := s.Count();
            var next := if count < cap && put == WriteNow then storage.Write(count, value) else storage;
            if s.Accepts(put, cap) then
              Fits(s.(added := s.added + [value]), count + 1, cache[count := Some(value)], next)
            else
              Fits(s, count, cache, next)
  {
    hide Session.Legible;
  }

  class DenseTree {
    const h: Hashing
    const height: nat
    const cap: nat
    var count: nat
    var cache: seq<Option<Bytes>>
    var storage: Storage

    predicate Valid()
      reads this
    {
      && 1 <= height <= 16 && cap == Capacity(height)
      && count <= cap && |cache| == cap
      && forall i :: count <= i < cap ==> cache[i] == None
    }

    /** `from_state` with an admissible height and count; `new` is the case of count zero. */
    constructor (h: Hashing, height: nat, count: nat, storage: Storage)
      requires 1 <= height <= 16 && count <= Capacity(height)
      ensures Valid() && this.h == h && this.height == height && this.count == count && this.storage == storage
      ensures forall i :: 0 <= i < cap ==> cache[i] == None
    {
      this.h := h;
      this.height := height;
      this.cap := Capacity(height);
      this.count := count;
      this.cache := seq(Capacity(height), _ => None);
      this.storage := storage;
    }

    /** `get_value` */
    function Read(pos: nat): Result<Option<Bytes>, DenseError>
      reads this
    {
      if pos < |cache| && cache[pos].Some? then Ok(cache[pos]) else storage.Read(pos)
    }

    predicate Readable(pos: nat)
      reads this
    {
      Read(pos).Ok? && Read(pos).value.Some?
    }

    predicate AllReadable()
      reads this
    {
      forall p :: 0 <= p < count ==> Readable(p)
    }

    /** The tree reads as exactly these values. */
    ghost predicate Holds(values: seq<Bytes>)
      reads this
    {
      |values| == count && forall p :: 0 <= p < count ==> Read(p) == Ok(Some(values[p]))
    }

    /** `hash_node`: the digest, and the number of hash calls made for it. */
    method HashFrom(pos: nat, ghost values: seq<Bytes>) returns (r: Result<Bytes, DenseError>, calls: nat)
      requires Valid()
      ensures r.Ok? <==> forall p :: p in Visited(count, cap, pos) ==> Readable(p)
      ensures r.Err? ==> r.error == StoreError
      ensures r.Ok? ==> calls == 2 * |Visited(count, cap, pos)|
      ensures Holds(values) ==> r == Ok(HashNode(h, values, cap, pos))
      decreases cap - pos
    {
      hide Read, Readable, Capacity;
      if pos >= cap || pos >= count {
        return Ok(ZERO), 0;
      }
      ReadableMeans(pos);
      assert pos in Visited(count, cap, pos);
      var value := Read(pos);
      if value.Err? {
        return Err(StoreError), 0;
      }
      if value.value.None? {
        return Err(StoreError), 0;
      }
      var left, leftCalls := HashFrom(Left(pos), values);
      VisitedChildren(pos);
      if left.Err? {
        return left, 1 + leftCalls;
      }
      var right, rightCalls := HashFrom(Right(pos), values);
      if right.Err? {
        return right, 1 + leftCalls + rightCalls;
      }
      return Ok(h.node(h.value(value.value.value), left.value, right.value)), 2 + leftCalls + rightCalls;
    }

    lemma ReadableMeans(pos: nat)
      ensures Readable(pos) <==> Read(pos).Ok? && Read(pos).value.Some?
    {
    }

    lemma VisitedChildren(pos: nat)
      requires pos < cap && pos < count
      ensures forall p :: p in Visited(count, cap, pos) <==>
                p == pos || p in Visited(count, cap, Left(pos)) || p in Visited(count, cap, Right(pos))
      ensures |Visited(count, cap, pos)| ==
                1 + |Visited(count, cap, Left(pos))| + |Visited(count, cap, Right(pos))|
    {
    }

    /** `root_hash`: two hash calls for every value, when every value can be read. */
    method RootHash(ghost values: seq<Bytes>) returns (r: Result<Bytes, DenseError>, calls: nat)
      requires Valid()
      ensures r.Ok? <==> AllReadable()
      ensures r.Err? ==> r.error == StoreError
      ensures r.Ok? ==> calls == 2 * count
      ensures Holds(values) ==> r == Ok(RootOf(h, values, cap))
    {
      hide Readable, Read, Capacity, HashNode, Visited;
      if count == 0 {
        return Ok(ZERO), 0;
      }
      RootVisitsAll(count, cap);
      r, calls := HashFrom(0, values);
    }

    /** `get` */
    method Get(pos: nat) returns (r: Result<Option<Bytes>, DenseError>)
      requires Valid()
      ensures r == if pos >= count then Ok(None) else if Readable(pos) then Read(pos) else Err(StoreError)
    {
      if pos >= count {
        return Ok(None);
      }
      var value := Read(pos);
      if value.Err? || value.value.None? {
        return Err(StoreError);
      }
      r := value;
    }

    /** `reset` */
    method Reset()
      requires Valid()
      modifies this`count, this`cache
      ensures Valid() && Holds([]) && forall i :: 0 <= i < cap ==> cache[i] == None
    {
      count := 0;
      cache := seq(cap, _ => None);
    }

    /** `put_value` */
    method PutValue(pos: nat, value: Bytes, put: Put) returns (ok: bool)
      requires Valid() && pos < cap
      modifies this`storage, this`cache
      ensures ok <==> put != Refuse
      ensures storage == if put == WriteNow then old(storage).Write(pos, value) else old(storage)
      ensures cache == if ok then old(cache)[pos := Some(value)] else old(cache)
    {
      if put == Refuse {
        return false;
      }
      if put == WriteNow {
        storage := storage.Write(pos, value);
      }
      cache := cache[pos := Some(value)];
      ok := true;
    }

    /** The part `insert` and `try_insert` share: write, count, hash, and undo on failure. */
    method Append(value: Bytes, put: Put, ghost values: seq<Bytes>) returns (r: Result<(Bytes, nat), DenseError>)
      requires Valid() && count < cap
      modifies this`count, this`storage, this`cache
      ensures Valid()
      ensures r.Ok? <==> put != Refuse && old(AllReadable())
      ensures r.Err? ==> r.error == StoreError && count == old(count) && cache == old(cache)
      ensures r.Ok? ==>
                && count == old(count) + 1 && cache == old(cache)[old(count) := Some(value)]
                && r.value.1 == old(count)
      ensures storage == if put == WriteNow then old(storage).Write(old(count), value) else old(storage)
      ensures forall p :: 0 <= p < old(count) ==> Read(p) == old(Read(p))
      ensures old(Holds(values)) ==>
                if put == Refuse then Holds(values)
                else r == Ok((RootOf(h, values + [value], cap), |values|)) && Holds(values + [value])
    {
      hide Capacity, RootOf;
      var pos := count;
      var ok := PutValue(pos, value, put);
      if !ok {
        return Err(StoreError);
      }
      count := count + 1;
      assert forall p :: 0 <= p < old(count) ==> Read(p) == old(Read(p));
      assert Read(pos) == Ok(Some(value));
      assert old(Holds(values)) ==> Holds(values + [value]);
      var root, calls := RootHash(values + [value]);
      assert forall p :: 0 <= p < old(count) ==> (old(Readable(p)) <==> Readable(p));
      assert Readable(pos);
      if AllReadable() {
        assert forall p :: 0 <= p < old(count) ==> Readable(p);
      }
      assert AllReadable() <==> old(AllReadable());
      if root.Err? {
        count := count - 1;
        cache := cache[pos := None];
        assert cache == old(cache);
        return Err(StoreError);
      }
      r := Ok((root.value, pos));
    }

    /** `insert` */
    method Insert(value: Bytes, put: Put, ghost values: seq<Bytes>) returns (r: Result<(Bytes, nat), DenseError>)
      requires Valid()
      modifies this`count, this`storage, this`cache
      ensures Valid()
      ensures r.Ok? <==> old(count) < cap && put != Refuse && old(AllReadable())
      ensures r.Err? ==> r.error == if old(count) == cap then TreeFull else StoreError
      ensures r.Err? ==> count == old(count) && cache == old(cache)
      ensures r.Ok? ==> count == old(count) + 1 && cache == old(cache)[old(count) := Some(value)]
      ensures storage ==
                if old(count) < cap && put == WriteNow then old(storage).Write(old(count), value) else old(storage)
      ensures forall p :: 0 <= p < old(count) ==> Read(p) == old(Read(p))
      ensures old(Holds(values)) ==>
                if old(count) == cap || put == Refuse then Holds(values)
                else r == Ok((RootOf(h, values + [value], cap), |values|)) && Holds(values + [value])
    {
      hide Capacity, RootOf;
      if count >= cap {
        return Err(TreeFull);
      }
      r := Append(value, put, values);
    }

    /** `try_insert` */
    method TryInsert(value: Bytes, put: Put, ghost values: seq<Bytes>)
      returns (r: Result<Option<(Bytes, nat)>, DenseError>)
      requires Valid()
      modifies this`count, this`storage, this`cache
      ensures Valid()
      ensures r == Ok(None) <==> old(count) == cap
      ensures r.Err? <==> old(count) < cap && (put == Refuse || !old(AllReadable()))
      ensures r.Err? ==> r.error == StoreError
      ensures r.Err? || r.value.None? ==> count == old(count) && cache == old(cache)
      ensures r.Ok? && r.value.Some? ==> count == old(count) + 1 && cache == old(cache)[old(count) := Some(value)]
      ensures storage ==
                if old(count) < cap && put == WriteNow then old(storage).Write(old(count), value) else old(storage)
      ensures forall p :: 0 <= p < old(count) ==> Read(p) == old(Read(p))
      ensures old(Holds(values)) ==>
                if old(count) == cap || put == Refuse then Holds(values)
                else r == Ok(Some((RootOf(h, values + [value], cap), |values|))) && Holds(values + [value])
    {
      hide Capacity, RootOf;
      if count >= cap {
        return Ok(None);
      }
      var inserted := Append(value, put, values);
      r := if inserted.Err? then Err(inserted.error) else Ok(Some(inserted.value));
    }

    /** The tree stands for this session. */
    ghost predicate Stands(s: Session)
      reads this
    {
      Valid() && Fits(s, count, cache, storage)
    }

    /** Reads of a session's positions, cached or not. */
    lemma StandsRead(s: Session, pos: nat)
      requires Stands(s) && pos < count
      ensures Read(pos) == if pos < s.stored then s.context.Read(pos) else Ok(Some(s.added[pos - s.stored]))
    {
    }

    lemma StandsReads(s: Session)
      requires Stands(s)
      ensures AllReadable() <==> s.Legible()
      ensures s.Legible() ==> Holds(s.Values())
    {
      forall p | 0 <= p < count
        ensures Read(p) == if p < s.stored then s.context.Read(p) else Ok(Some(s.added[p - s.stored]))
      {
        StandsRead(s, p);
      }
      if AllReadable() {
        forall p | 0 <= p < s.stored ensures p in s.context.data && p !in s.context.unreadable {
          assert Readable(p);
        }
      }
    }

    method PerformInsert(value: Bytes, put: Put, ghost s: Session) returns (reply: Reply)
      requires Stands(s)
      modifies this
      ensures reply == s.Answer(h, InsertOp(value, put), cap)
      ensures Stands(s.After(InsertOp(value, put), cap))
    {
      hide Capacity, RootOf, Session.Legible, Session.Values, AllReadable, Holds;
      StandsReads(s);
      ghost var values := if s.Legible() then s.Values() else [];
      var inserted := Insert(value, put, values);
      AppendFits(s, value, put, cap, old(cache), old(storage));
      reply := Inserted(inserted);
    }

    method PerformTryInsert(value: Bytes, put: Put, ghost s: Session) returns (reply: Reply)
      requires Stands(s)
      modifies this
      ensures reply == s.Answer(h, TryInsertOp(value, put), cap)
      ensures Stands(s.After(TryInsertOp(value, put), cap))
    {
      hide Capacity, RootOf, Session.Legible, Session.Values, AllReadable, Holds;
      StandsReads(s);
      ghost var values := if s.Legible() then s.Values() else [];
      var tried := TryInsert(value, put, values);
      AppendFits(s, value, put, cap, old(cache), old(storage));
      reply := Tried(tried);
    }

    method Perform(op: Op, ghost s: Session) returns (reply: Reply)
      requires Stands(s)
      modifies this
      ensures reply == s.Answer(h, op, cap)
      ensures Stands(s.After(op, cap))
    {
      hide Capacity, RootOf, Session.Legible, Session.Values, AllReadable, Holds;
      match op {
        case InsertOp(value, put) =>
          reply := PerformInsert(value, put, s);
        case TryInsertOp(value, put) =>
          reply := PerformTryInsert(value, put, s);
        case GetOp(pos) =>
          if pos < count { StandsRead(s, pos); }
          var got := Get(pos);
          reply := Got(got);
        case RootOp =>
          StandsReads(s);
          var root, calls := RootHash(if s.Legible() then s.Values() else []);
          reply := Rooted(root);
        case ResetOp =>
          Reset();
          reply := Done;
        case SetStorage(outside) =>
          storage := outside;
          reply := Done;
      }
    }

    /** What a tree reads after a run over stored values that stay stored. */
    lemma RunReads(s: Session, f: Shelf, ops: seq<Op>)
      requires Matches(s, f) && KeepsStored(ops, f.values[..f.base]) && Stands(AfterAll(s, ops, cap))
      ensures var g := Shelved(f, ops, cap);
              && count == |g.values|
              && forall p :: 0 <= p < count ==>
                   Read(p) == if p < g.base && p in g.unreadable then Err(StoreError) else Ok(Some(g.values[p]))
    {
      hide Read, Shelved, AfterAll;
      var t, g := AfterAll(s, ops, cap), Shelved(f, ops, cap);
      RunMatches(s, f, ops, cap);
      forall p | 0 <= p < count
        ensures Read(p) == if p < g.base && p in g.unreadable then Err(StoreError) else Ok(Some(g.values[p]))
      {
        StandsRead(t, p);
        assert p < g.base ==> g.values[..g.base][p] == g.values[p];
      }
    }

    /** Any run, from any tree, with failing and deferred writes, failing reads and a context
        that changes in any way between the steps: every reply is the session's, and the tree
        stands for the session afterwards. */
    method Run(ops: seq<Op>, ghost start: Session) returns (replies: seq<Reply>)
      requires Stands(start)
      modifies this
      ensures replies == Answers(start, h, ops, cap)
      ensures Stands(AfterAll(start, ops, cap))
    {
      hide *;
      replies := [];
      var i := 0;
      NoSteps(start, h, ops, cap);
      while i < |ops|
        invariant 0 <= i <= |ops|
        invariant replies == Answers(start, h, ops[..i], cap)
        invariant Stands(AfterAll(start, ops[..i], cap))
      {
        var reply := Perform(ops[i], AfterAll(start, ops[..i], cap));
        OneStep(start, h, ops, cap, i);
        replies := replies + [reply];
        i := i + 1;
      }
      assert ops[..i] == ops;
    }
  }

  lemma NoSteps(start: Session, h: Hashing, ops: seq<Op>, cap: nat)
    ensures AfterAll(start, ops[..0], cap) == start && Answers(start, h, ops[..0], cap) == []
  {
  }

  lemma OneStep(start: Session, h: Hashing, ops: seq<Op>, cap: nat, i: nat)
    requires i < |ops|
    ensures var s := AfterAll(start, ops[..i], cap);
            && AfterAll(start, ops[..i + 1], cap) == s.After(ops[i], cap)
            && Answers(start, h, ops[..i + 1], cap) ==
               Answers(start, h, ops[..i], cap) + [s.Answer(h, ops[i], cap)]
  {
    assert ops[..i + 1][..i] == ops[..i];
  }

  // ---- stale values --------------------------------------------------------------------

  /** The same step, up to what the storage holds and when a write becomes visible in it. */
  predicate Alike(a: Op, b: Op) {
    match (a, b)
    case (InsertOp(x, p), InsertOp(y, q)) => x == y && (p == Refuse <==> q == Refuse)
    case (TryInsertOp(x, p), TryInsertOp(y, q)) => x == y && (p == Refuse <==> q == Refuse)
    case (SetStorage(_), SetStorage(_)) => true
    case _ => a == b
  }

  /** A tree that is new or was reset never answers from the storage: values left there from
      before, failing reads and the visibility of its own writes change no reply. */
  lemma {:induction false} StaleNeverRead(s: Session, t: Session, h: Hashing, a: seq<Op>, b: seq<Op>, cap: nat)
    requires s.stored == 0 && t.stored == 0 && s.added == t.added
    requires |a| == |b| && forall i :: 0 <= i < |a| ==> Alike(a[i], b[i])
    ensures Answers(s, h, a, cap) == Answers(t, h, b, cap)
    ensures var x, y := AfterAll(s, a, cap), AfterAll(t, b, cap); x.stored == 0 && y.stored == 0 && x.added == y.added
    decreases |a|
  {
    if a != [] {
      var n := |a| - 1;
      StaleNeverRead(s, t, h, a[..n], b[..n], cap);
      StepIgnoresStorage(AfterAll(s, a[..n], cap), AfterAll(t, b[..n], cap), h, a[n], b[n], cap);
      hide Session.Answer, Session.After;
    }
  }

  lemma StepIgnoresStorage(s: Session, t: Session, h: Hashing, a: Op, b: Op, cap: nat)
    requires s.stored == 0 && t.stored == 0 && s.added == t.added && Alike(a, b)
    ensures s.Answer(h, a, cap) == t.Answer(h, b, cap)
    ensures var x, y := s.After(a, cap), t.After(b, cap); x.stored == 0 && y.stored == 0 && x.added == y.added
  {
    hide RootOf;
    assert s.Legible() && t.Legible() && s.Values() == t.Values();
  }

  // ---- the values a run leaves -----------------------------------------------------

  /** A bounded sequence of values, the first `base` of which are left to a context that
      cannot read the `unreadable` positions at the moment. */
  datatype Shelf = Shelf(values: seq<Bytes>, base: nat, unreadable: set<nat>) {
    function Put(value: Bytes, put: Put, cap: nat): Shelf {
      if |values| < cap && put != Refuse && (forall p :: 0 <= p < base ==> p !in unreadable) then
        this.(values := values + [value])
      else
        this
    }

    function After(op: Op, cap: nat): Shelf {
      match op
      case InsertOp(value, put) => Put(value, put, cap)
      case TryInsertOp(value, put) => Put(value, put, cap)
      case GetOp(_) => this
      case RootOp => this
      case ResetOp => Shelf([], 0, unreadable)
      case SetStorage(s) => this.(unreadable := s.unreadable)
    }
  }

  function Shelved(start: Shelf, ops: seq<Op>, cap: nat): Shelf {
    if ops == [] then start else Shelved(start, ops[..|ops| - 1], cap).After(ops[|ops| - 1], cap)
  }

  /** The outside never loses or alters the stored values; it may write anything else. */
  ghost predicate KeepsStored(ops: seq<Op>, values: seq<Bytes>) {
    forall i :: 0 <= i < |ops| && ops[i].SetStorage? ==> ops[i].storage.Stores(values)
  }

  /** The session is this shelf: the context stores the first values, the rest were added. */
  ghost predicate Matches(s: Session, f: Shelf) {
    && s.stored == f.base <= |f.values| && f.unreadable == s.context.unreadable
    && s.added == f.values[f.base..] && s.context.Stores(f.values[..f.base])
  }

  lemma MatchesMeans(s: Session, f: Shelf)
    requires Matches(s, f)
    ensures s.Legible() <==> forall p :: 0 <= p < f.base ==> p !in f.unreadable
    ensures s.Legible() ==> s.Values() == f.values
  {
    assert f.values == f.values[..f.base] + f.values[f.base..];
  }

  lemma StepMatches(s: Session, f: Shelf, op: Op, cap: nat)
    requires Matches(s, f) && (op.SetStorage? ==> op.storage.Stores(f.values[..f.base]))
    ensures Matches(s.After(op, cap), f.After(op, cap))
    ensures f.After(op, cap).values[..f.After(op, cap).base] <= f.values[..f.base]
  {
    MatchesMeans(s, f);
  }

  /** After any run over stored values that stay stored, readable or not, the session is the
      bounded sequence: the values that were there and those accepted since the last reset. */
  lemma {:induction false} RunMatches(s: Session, f: Shelf, ops: seq<Op>, cap: nat)
    requires Matches(s, f) && KeepsStored(ops, f.values[..f.base])
    ensures Matches(AfterAll(s, ops, cap), Shelved(f, ops, cap))
    ensures var g := Shelved(f, ops, cap); g.values[..g.base] <= f.values[..f.base]
  {
    if ops != [] {
      var n := |ops| - 1;
      RunMatches(s, f, ops[..n], cap);
      StepMatches(AfterAll(s, ops[..n], cap), Shelved(f, ops[..n], cap), ops[n], cap);
    }
  }

  /** `new` and `from_state`: the height and the count are checked. */
  method FromState(h: Hashing, height: nat, count: nat, storage: Storage) returns (r: Result<DenseTree, DenseError>)
    ensures r.Ok? <==> 1 <= height <= 16 && count <= Capacity(height)
    ensures r.Err? ==> r.error == InvalidData
    ensures r.Ok? ==>
              && fresh(r.value) && r.value.h == h && r.value.cap == Capacity(height)
              && r.value.Stands(Session(count, [], storage))
  {
    if !(1 <= height <= 16) || count > Capacity(height) {
      return Err(InvalidData);
    }
    var tree := new DenseTree(h, height, count, storage);
    r := Ok(tree);
  }
}
