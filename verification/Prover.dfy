/** The prover's loops, stated on values: the level-order queue that decides which
    siblings one peak needs, and the pass over the peaks that bags the trailing ones. */
module Prover {
  import opened Bits
  import opened Positions
  import opened Mountain
  import opened Walk
  import opened PeakWalk
  import opened Sorting
  import opened MerkleProof
  import opened Verifier
  import opened NewLeaf

  // ---- the queue of one peak -------------------------------------------------------

  datatype Slot = Slot(pos: nat, height: nat)

  function Slots(es: seq<Entry>, h: nat): (q: seq<Slot>)
    ensures |q| == |es|
    ensures forall j :: 0 <= j < |es| ==> q[j] == Slot(Pos(es[j].i, h), h)
  {
    seq(|es|, j requires 0 <= j < |es| => Slot(Pos(es[j].i, h), h))
  }

  /** `cur` is left of the level at height `h`, `next` has been built above it. The
      peak itself is never queued. */
  ghost predicate InGen(queue: seq<Slot>, cur: seq<Entry>, next: seq<Entry>, h: nat, c: Coord) {
    && h < c.h && cur != []
    && Ordered(cur, next, c, c.h - h)
    && queue == Slots(cur, h) + (if h + 1 == c.h then [] else Slots(next, h + 1))
  }

  function SpotsAt(idx: seq<nat>, h: nat): (r: seq<nat>)
    ensures |r| == |idx|
    ensures forall j :: 0 <= j < |idx| ==> r[j] == Pos(idx[j], h)
  {
    seq(|idx|, j requires 0 <= j < |idx| => Pos(idx[j], h))
  }

  /** Where the nodes of `Emit` lie, in the same order. */
  function EmitAt(level: seq<nat>, h: nat, k: nat): seq<nat>
    decreases k
  {
    if k == 0 then [] else SpotsAt(Missing(level), h) + EmitAt(NextLevel(level), h + 1, k - 1)
  }

  /** Positions still to be read. */
  function Remaining(cur: seq<Entry>, next: seq<Entry>, h: nat, k: nat): seq<nat>
    requires k > 0
  {
    SpotsAt(Missing(Indices(cur)), h) + EmitAt(Indices(next) + NextLevel(Indices(cur)), h + 1, k - 1)
  }

  lemma RemainingPair(cur: seq<Entry>, next: seq<Entry>, h: nat, k: nat, p: Entry)
    requires k > 0 && cur != [] && Paired(Indices(cur)) && p.i == cur[0].i / 2
    ensures Remaining(cur, next, h, k) == Remaining(cur[2..], next + [p], h, k)
  {
    hide EmitAt;
    assert Indices(cur[2..]) == Indices(cur)[2..];
    NextIndices(cur, next, p);
  }

  lemma RemainingSingle(cur: seq<Entry>, next: seq<Entry>, h: nat, k: nat, p: Entry)
    requires k > 0 && cur != [] && !Paired(Indices(cur)) && p.i == cur[0].i / 2
    ensures Remaining(cur, next, h, k) == [Pos(Sibling(cur[0].i), h)] + Remaining(cur[1..], next + [p], h, k)
  {
    hide *;
    var idx := Indices(cur);
    assert Indices(cur[1..]) == idx[1..];
    SpotsOfSingle(idx, h);
    NextIndices(cur, next, p);
    RemainingIs(cur, next, h, k);
    RemainingIs(cur[1..], next + [p], h, k);
    var above := EmitAt(Indices(next) + NextLevel(idx), h + 1, k - 1);
    var here := SpotsAt(Missing(idx[1..]), h);
    assert [Pos(Sibling(idx[0]), h)] + here + above == [Pos(Sibling(idx[0]), h)] + (here + above);
  }

  lemma SpotsOfSingle(idx: seq<nat>, h: nat)
    requires idx != [] && !Paired(idx)
    ensures SpotsAt(Missing(idx), h) == [Pos(Sibling(idx[0]), h)] + SpotsAt(Missing(idx[1..]), h)
  {
    assert Missing(idx) == [Sibling(idx[0])] + Missing(idx[1..]);
    hide Pos, Missing, Sibling;
  }

  lemma RemainingIs(cur: seq<Entry>, next: seq<Entry>, h: nat, k: nat)
    requires k > 0
    ensures Remaining(cur, next, h, k) ==
              SpotsAt(Missing(Indices(cur)), h) + EmitAt(Indices(next) + NextLevel(Indices(cur)), h + 1, k - 1)
  {
    hide SpotsAt, Missing, EmitAt, NextLevel, Indices;
  }

  lemma NextIndices(cur: seq<Entry>, next: seq<Entry>, p: Entry)
    requires cur != [] && p.i == cur[0].i / 2
    ensures var d := if Paired(Indices(cur)) then 2 else 1;
            Indices(next + [p]) + NextLevel(Indices(cur[d..])) == Indices(next) + NextLevel(Indices(cur))
  {
    var d := if Paired(Indices(cur)) then 2 else 1;
    assert Indices(cur[d..]) == Indices(cur)[d..];
    assert Indices(next + [p]) == Indices(next) + [p.i];
    assert NextLevel(Indices(cur)) == [p.i] + NextLevel(Indices(cur)[d..]);
  }

  lemma RemainingTurn(next: seq<Entry>, h: nat, k: nat)
    requires k > 0
    ensures k == 1 ==> Remaining([], next, h, k) == []
    ensures k > 1 ==> Remaining([], next, h, k) == Remaining(next, [], h + 1, k - 1)
  {
    var idx := Indices(next);
    assert idx + NextLevel(Indices([])) == idx;
    assert Remaining([], next, h, k) == EmitAt(idx, h + 1, k - 1);
    assert Indices([]) + NextLevel(idx) == NextLevel(idx);
  }

  lemma RemainingStart(es: seq<Entry>, k: nat)
    requires k > 0
    ensures Remaining(es, [], 0, k) == EmitAt(Indices(es), 0, k)
  {
    assert Indices([]) + NextLevel(Indices(es)) == NextLevel(Indices(es));
  }

  /** What the front of the prover's queue tells the loop. */
  lemma GenFront(queue: seq<Slot>, cur: seq<Entry>, next: seq<Entry>, h: nat, c: Coord)
    requires InGen(queue, cur, next, h, c)
    ensures h < c.h && cur != [] && queue != []
    ensures queue[0] == Slot(Pos(cur[0].i, h), h)
    ensures queue[0].pos < Pos(c.i, c.h)
    ensures Pos(cur[0].i / 2, h + 1) <= Pos(c.i, c.h)
    ensures Pos(cur[0].i / 2, h + 1) == Pos(c.i, c.h) <==> h + 1 == c.h
    ensures (|queue| > 1 && queue[1].pos == Pos(Sibling(cur[0].i), h)) <==> Paired(Indices(cur))
  {
    hide Ordered, Pos, Shl;
    FrontInPeak(cur, next, h, c);
    var shown := if h + 1 == c.h then [] else next;
    var items := Encode(cur[1..], h) + Encode(shown, h + 1);
    assert |queue| == |items| + 1;
    assert forall j :: 0 <= j < |items| ==> queue[j + 1].pos == items[j].pos;
    OrderedShown(cur, next, c, c.h - h);
    if h + 1 == c.h {
      FrontIsSiblingAlone(cur, next, h, c, c.h - h);
    } else {
      FrontIsSibling(cur, next, h, c, c.h - h);
    }
  }

  lemma OrderedShown(cur: seq<Entry>, next: seq<Entry>, c: Coord, k: nat)
    requires Ordered(cur, next, c, k)
    ensures SortedIn(Indices(cur), Shl(c.i, k), Shl(c.i + 1, k))
  {
  }

  /** The same test when the level above is not queued. */
  lemma FrontIsSiblingAlone(cur: seq<Entry>, next: seq<Entry>, h: nat, c: Coord, k: nat)
    requires cur != [] && Ordered(cur, next, c, k)
    ensures var queue := Encode(cur[1..], h) + Encode([], h + 1);
            (queue != [] && queue[0].pos == Pos(Sibling(cur[0].i), h)) <==> Paired(Indices(cur))
  {
    hide Shl, Pos;
    OrderedShown(cur, next, c, k);
    OrderedStart(cur, c, k);
    FrontIsSibling(cur, [], h, c, k);
  }

  /** One turn of the prover's loop. */
  lemma GenTurn(queue: seq<Slot>, cur: seq<Entry>, next: seq<Entry>, h: nat, c: Coord, p: Entry, d: nat)
    requires InGen(queue, cur, next, h, c) && cur != [] && p.i == cur[0].i / 2
    requires d == if Paired(Indices(cur)) then 2 else 1
    requires d <= |cur| && d <= |queue|
    ensures GenNext(queue[d..] + (if h + 1 == c.h then [] else [Slot(Pos(p.i, h + 1), h + 1)]),
                    cur[d..], next + [p], h, c)
  {
    hide Ordered, Pos, Shl;
    var cur', next' := cur[d..], next + [p];
    OrderedStep(cur, next, c, c.h - h, p);
    var queue' := queue[d..] + (if h + 1 == c.h then [] else [Slot(Pos(p.i, h + 1), h + 1)]);
    assert queue' == Slots(cur', h) + (if h + 1 == c.h then [] else Slots(next', h + 1));
    if cur' == [] && h + 1 < c.h {
      OrderedTurn(next', c, c.h - h);
      assert queue' == Slots(next', h + 1) + Slots([], h + 2);
    }
  }

  /** After a turn: the level goes on, the next one starts, or the queue is empty. */
  ghost predicate GenNext(queue: seq<Slot>, cur: seq<Entry>, next: seq<Entry>, h: nat, c: Coord) {
    if cur != [] then InGen(queue, cur, next, h, c)
    else if h + 1 < c.h then InGen(queue, next, [], h + 1, c)
    else queue == []
  }

  /** Sibling and parent as the loops compute them from a position. */
  function SiblingPos(pos: nat, height: nat, right: bool): int {
    if right then pos - SiblingOffset(height) else pos + SiblingOffset(height)
  }

  function ParentPos(pos: nat, height: nat, right: bool): nat {
    if right then pos + 1 else pos + ParentOffset(height)
  }

  lemma {:induction false} RelativesMean(i: nat, h: nat)
    ensures var right := Height(Pos(i, h) + 1) > h;
            && SiblingPos(Pos(i, h), h, right) == Pos(Sibling(i), h)
            && ParentPos(Pos(i, h), h, right) == Pos(i / 2, h + 1)
  {
    hide Pos, Height, SiblingOffset, ParentOffset;
    Relatives(i, h);
  }

  /** The prover's progress: what is left of a level and what is built above it. */
  datatype Progress = Progress(cur: seq<Entry>, next: seq<Entry>, h: nat, finished: bool)

  ghost predicate InState(queue: seq<Slot>, asked: seq<nat>, p: Progress, c: Coord, goal: seq<nat>) {
    QueueState(queue, p, c) && AskState(asked, p, c, goal)
  }

  ghost predicate QueueState(queue: seq<Slot>, p: Progress, c: Coord) {
    && p.h < c.h
    && (p.finished <==> queue == [])
    && (!p.finished ==> InGen(queue, p.cur, p.next, p.h, c))
  }

  /** What was read and what is still to be read make up the goal. */
  ghost predicate AskState(asked: seq<nat>, p: Progress, c: Coord, goal: seq<nat>) {
    && p.h < c.h
    && goal == asked + if p.finished then [] else Remaining(p.cur, p.next, p.h, c.h - p.h)
  }

  /** A turn takes two slots when the sibling is queued, else one. */
  ghost predicate Takes(p: Progress, d: nat) {
    p.cur != [] && d == if Paired(Indices(p.cur)) then 2 else 1
  }

  /** The sibling of the front is read unless it is queued. */
  function Asking(asked: seq<nat>, p: Progress, d: nat): seq<nat> {
    if d == 2 || p.cur == [] then asked else asked + [Pos(Sibling(p.cur[0].i), p.h)]
  }

  /** To the rest of the level, up to the next one, or done. */
  function Advance(cur: seq<Entry>, next: seq<Entry>, h: nat, c: Coord): Progress {
    if cur != [] then Progress(cur, next, h, false)
    else if h + 1 < c.h then Progress(next, [], h + 1, false)
    else Progress(cur, next, h, true)
  }

  function Consume(p: Progress, d: nat, c: Coord): Progress {
    if 0 < d <= |p.cur| then Advance(p.cur[d..], p.next + [Entry(p.cur[0].i / 2, p.cur[0].x)], p.h, c) else p
  }

  /** The queue after taking `d` slots; the parent is queued unless it is the peak. */
  function Requeue(queue: seq<Slot>, d: nat, parent: Slot, peakPos: nat): seq<Slot> {
    if d > |queue| then queue
    else if parent.pos < peakPos then queue[d..] + [parent]
    else queue[d..]
  }

  function ParentSlot(p: Progress): Slot {
    if p.cur == [] then Slot(0, 0) else Slot(Pos(p.cur[0].i / 2, p.h + 1), p.h + 1)
  }

  lemma ConsumeDecreases(p: Progress, d: nat, c: Coord)
    requires 0 < d <= |p.cur| && p.h < c.h && !p.finished
    ensures Consume(p, d, c).finished || Consume(p, d, c).h > p.h
         || (Consume(p, d, c).h == p.h && |Consume(p, d, c).cur| < |p.cur|)
  {
  }

  /** One turn of the prover's loop. */
  lemma StateStep(queue: seq<Slot>, asked: seq<nat>, p: Progress, c: Coord, goal: seq<nat>, d: nat)
    requires InState(queue, asked, p, c, goal) && !p.finished && Takes(p, d)
    ensures InState(Requeue(queue, d, ParentSlot(p), Pos(c.i, c.h)), Asking(asked, p, d), Consume(p, d, c), c, goal)
  {
    hide QueueState, AskState, Takes, Asking, Requeue, ParentSlot, Pos, Consume;
    StateQueue(queue, p, c, d);
    StateAsks(asked, p, c, goal, d);
  }

  lemma TakesMeans(queue: seq<Slot>, p: Progress, c: Coord, d: nat)
    requires QueueState(queue, p, c) && !p.finished && Takes(p, d)
    ensures 0 < d <= |p.cur| && d <= |queue| && p.h < c.h
  {
    hide Pos, Ordered;
    GenFront(queue, p.cur, p.next, p.h, c);
  }

  lemma StateQueue(queue: seq<Slot>, p: Progress, c: Coord, d: nat)
    requires QueueState(queue, p, c) && !p.finished && Takes(p, d)
    ensures QueueState(Requeue(queue, d, ParentSlot(p), Pos(c.i, c.h)), Consume(p, d, c), c)
  {
    hide *;
    TakesMeans(queue, p, c, d);
    QueueMeans(queue, p, c, d);
    var e := Entry(p.cur[0].i / 2, p.cur[0].x);
    GenTurn(queue, p.cur, p.next, p.h, c, e, d);
    GenFront(queue, p.cur, p.next, p.h, c);
    RequeueParent(queue, d, p, c);
    AdvanceState(Requeue(queue, d, ParentSlot(p), Pos(c.i, c.h)), p.cur[d..], p.next + [e], p.h, c);
    ConsumeMeans(p, d, c);
  }

  lemma QueueMeans(queue: seq<Slot>, p: Progress, c: Coord, d: nat)
    requires QueueState(queue, p, c) && !p.finished && Takes(p, d)
    ensures InGen(queue, p.cur, p.next, p.h, c)
    ensures d == if Paired(Indices(p.cur)) then 2 else 1
  {
    hide InGen, Paired, Indices;
  }

  lemma ConsumeMeans(p: Progress, d: nat, c: Coord)
    requires 0 < d <= |p.cur|
    ensures Consume(p, d, c) == Advance(p.cur[d..], p.next + [Entry(p.cur[0].i / 2, p.cur[0].x)], p.h, c)
  {
    hide Advance;
  }

  lemma RequeueParent(queue: seq<Slot>, d: nat, p: Progress, c: Coord)
    requires d <= |queue| && p.cur != []
    requires Pos(p.cur[0].i / 2, p.h + 1) <= Pos(c.i, c.h)
    requires Pos(p.cur[0].i / 2, p.h + 1) == Pos(c.i, c.h) <==> p.h + 1 == c.h
    ensures Requeue(queue, d, ParentSlot(p), Pos(c.i, c.h)) ==
            queue[d..] + if p.h + 1 == c.h then [] else [Slot(Pos(p.cur[0].i / 2, p.h + 1), p.h + 1)]
  {
    hide Pos;
    assert queue[d..] + [] == queue[d..];
  }

  lemma AdvanceState(queue: seq<Slot>, cur: seq<Entry>, next: seq<Entry>, h: nat, c: Coord)
    requires h < c.h && GenNext(queue, cur, next, h, c)
    ensures QueueState(queue, Advance(cur, next, h, c), c)
  {
    hide InGen, Pos;
    if cur != [] {
      GenFront(queue, cur, next, h, c);
    } else if h + 1 < c.h {
      GenFront(queue, next, [], h + 1, c);
    }
  }

  lemma StateAsks(asked: seq<nat>, p: Progress, c: Coord, goal: seq<nat>, d: nat)
    requires AskState(asked, p, c, goal) && !p.finished && Takes(p, d)
    ensures AskState(Asking(asked, p, d), Consume(p, d, c), c, goal)
  {
    hide *;
    AsksUnfold(asked, p, c, goal, d);
    var e, k := Entry(p.cur[0].i / 2, p.cur[0].x), c.h - p.h;
    var cur, next := p.cur[d..], p.next + [e];
    RemainingStep(p, d, k);
    RemainingTurn(next, p.h, k);
    AskedOn(asked, Asking(asked, p, d), goal, Remaining(p.cur, p.next, p.h, k), Remaining(cur, next, p.h, k));
    AdvanceAsks(Asking(asked, p, d), cur, next, p.h, c, goal);
    ConsumeMeans(p, d, c);
  }

  lemma AsksUnfold(asked: seq<nat>, p: Progress, c: Coord, goal: seq<nat>, d: nat)
    requires AskState(asked, p, c, goal) && !p.finished && Takes(p, d)
    ensures p.h < c.h && 0 < d <= |p.cur| && goal == asked + Remaining(p.cur, p.next, p.h, c.h - p.h)
  {
    hide Remaining;
  }

  /** Before the turn, what remains starts with the sibling the turn reads, if any. */
  lemma RemainingStep(p: Progress, d: nat, k: nat)
    requires k > 0 && Takes(p, d) && d <= |p.cur|
    ensures var e := Entry(p.cur[0].i / 2, p.cur[0].x);
            Remaining(p.cur, p.next, p.h, k) == Asking([], p, d) + Remaining(p.cur[d..], p.next + [e], p.h, k)
    ensures forall asked :: Asking(asked, p, d) == asked + Asking([], p, d)
  {
    var e := Entry(p.cur[0].i / 2, p.cur[0].x);
    hide Remaining, Pos, Sibling, Indices;
    if d == 2 {
      RemainingPair(p.cur, p.next, p.h, k, e);
    } else {
      RemainingSingle(p.cur, p.next, p.h, k, e);
    }
  }

  lemma AskedOn(asked: seq<nat>, asked': seq<nat>, goal: seq<nat>, now: seq<nat>, later: seq<nat>)
    requires goal == asked + now && asked <= asked' && now == asked'[|asked|..] + later
    ensures goal == asked' + later
  {
    assert asked' == asked + asked'[|asked|..];
  }

  lemma AdvanceAsks(asked: seq<nat>, cur: seq<Entry>, next: seq<Entry>, h: nat, c: Coord, goal: seq<nat>)
    requires h < c.h && goal == asked + Remaining(cur, next, h, c.h - h)
    requires c.h - h == 1 ==> Remaining([], next, h, c.h - h) == []
    requires c.h - h > 1 ==> Remaining([], next, h, c.h - h) == Remaining(next, [], h + 1, c.h - h - 1)
    ensures AskState(asked, Advance(cur, next, h, c), c, goal)
  {
    hide Remaining;
  }

  // ---- the pass over the peaks -----------------------------------------------------

  /** Everything emitted before the trailing peaks are bagged. */
  function RawGen(v: seq<Hash>, peaks: seq<Coord>, idx: seq<nat>): seq<Hash>
    decreases |peaks|
  {
    if peaks == [] then []
    else GenPeak(v, peaks, idx) + RawGen(v, peaks[1..], idx[Below(peaks, idx)..])
  }

  /** The positions the first peak needs read. */
  function WantedBy(c: Coord, idx: seq<nat>): seq<nat> {
    if idx == [] then [Pos(c.i, c.h)] else EmitAt(idx, 0, c.h)
  }

  /** Where the raw items lie, in the same order. */
  function Wanted(peaks: seq<Coord>, idx: seq<nat>): seq<nat>
    decreases |peaks|
  {
    if peaks == [] then []
    else
      var m := Below(peaks, idx);
      WantedBy(peaks[0], idx[..m]) + Wanted(peaks[1..], idx[m..])
  }

  /** The counter of peaks in a row without a proved leaf. */
  function Track(peaks: seq<Coord>, idx: seq<nat>, t: nat): nat
    decreases |peaks|
  {
    if peaks == [] then t
    else
      var m := Below(peaks, idx);
      Track(peaks[1..], idx[m..], if m == 0 then t + 1 else 0)
  }

  lemma {:induction false} RawGenSplit(v: seq<Hash>, peaks: seq<Coord>, idx: seq<nat>)
    ensures RawGen(v, peaks, idx) == GenRoots(v, peaks, idx) + PeakHashes(v, peaks[|peaks| - Tail(peaks, idx)..])
    decreases |peaks|
  {
    hide *;
    if peaks == [] {
      RawGenNone(v, idx);
    } else {
      var rest := idx[Below(peaks, idx)..];
      RawGenSplit(v, peaks[1..], rest);
      RawGenUnfold(v, peaks, idx);
      LonePeakStep(v, peaks, idx);
    }
  }

  lemma RawGenNone(v: seq<Hash>, idx: seq<nat>)
    ensures RawGen(v, [], idx) == GenRoots(v, [], idx) + PeakHashes(v, [][0 - Tail([], idx)..])
  {
  }

  lemma RawGenUnfold(v: seq<Hash>, peaks: seq<Coord>, idx: seq<nat>)
    requires peaks != []
    ensures RawGen(v, peaks, idx) == GenPeak(v, peaks, idx) + RawGen(v, peaks[1..], idx[Below(peaks, idx)..])
  {
  }

  lemma {:induction false} TrackAll(peaks: seq<Coord>, t: nat)
    ensures Track(peaks, [], t) == t + |peaks|
    decreases |peaks|
  {
    if peaks != [] {
      TrackAll(peaks[1..], t + 1);
    }
  }

  /** At the end the counter is the number of trailing peaks. */
  lemma {:induction false} TrackIsTail(peaks: seq<Coord>, idx: seq<nat>, t: nat, from: nat, n: nat)
    requires Tiles(peaks, from, n) && SortedIn(idx, from, n) && idx != []
    ensures Track(peaks, idx, t) == Tail(peaks, idx)
    decreases |peaks|
  {
    if peaks == [] {
      NoPeaksNoLeaves(idx, from, n);
    } else {
      var m := Below(peaks, idx);
      SplitAtPeak(peaks, idx, from, n);
      if m == |idx| {
        assert idx[m..] == [];
        TrackAll(peaks[1..], 0);
      } else {
        TrackIsTail(peaks[1..], idx[m..], if m == 0 then t + 1 else 0, Shl(peaks[0].i + 1, peaks[0].h), n);
      }
    }
  }

  /** Bagging the last `t` of the raw items gives the proof. */
  lemma BaggedProof(v: seq<Hash>, peaks: seq<Coord>, idx: seq<nat>, from: nat, n: nat)
    requires Tiles(peaks, from, n) && SortedIn(idx, from, n) && idx != []
    ensures var raw, t := RawGen(v, peaks, idx), Track(peaks, idx, 0);
            && t <= |raw|
            && GenPeaks(v, peaks, idx) ==
                 if t > 1 then raw[..|raw| - t] + [Bag(raw[|raw| - t..])] else raw
  {
    hide RawGen, Track, GenRoots, Tail, Tiles, Bag, Subtree;
    var raw, t := RawGen(v, peaks, idx), Track(peaks, idx, 0);
    RawGenSplit(v, peaks, idx);
    TrackIsTail(peaks, idx, 0, from, n);
    var tail := PeakHashes(v, peaks[|peaks| - t..]);
    assert raw[..|raw| - t] == GenRoots(v, peaks, idx) && raw[|raw| - t..] == tail;
    GenPeaksTail(v, peaks, idx);
  }

  // ---- the loop over the peaks -----------------------------------------------------

  function AsClaims(posList: seq<nat>): (cs: seq<Claim>)
    ensures |cs| == |posList|
    ensures forall j :: 0 <= j < |cs| ==> cs[j] == Claim(posList[j], Leaf([]))
  {
    seq(|posList|, j requires 0 <= j < |posList| => Claim(posList[j], Leaf([])))
  }

  lemma AsClaimsMeans(posList: seq<nat>)
    ensures Indices(Entries(AsClaims(posList))) == LeafIndices(posList)
  {
    hide LeafCount;
  }

  lemma AsClaimsConcat(a: seq<nat>, b: seq<nat>)
    ensures AsClaims(a + b) == AsClaims(a) + AsClaims(b)
    ensures LeafIndices(a + b) == LeafIndices(a) + LeafIndices(b)
  {
    hide LeafCount;
  }

  /** The positions no peak before `from` has taken; each is one of the requested ones. */
  ghost predicate Waiting(left: seq<nat>, posList: seq<nat>, from: nat) {
    && Pending(AsClaims(left), from)
    && (forall p :: p in left ==> p in posList)
    && (forall p :: p in posList ==> LeafCount(p) < from || p in left)
  }

  lemma {:induction false} WaitingStart(posList: seq<nat>)
    requires forall p :: p in posList ==> Height(p) == 0
    ensures Waiting(Canonical(posList, SelfKey), posList, 0)
  {
    hide LeafCount, Height, Canonical;
    var c := Canonical(posList, SelfKey);
    CanonicalSpec(posList, SelfKey, 0);
    forall p ensures p in c <==> p in posList {
      CanonicalMember(posList, SelfKey, p);
      FirstIsMember(posList, SelfKey, p);
    }
    forall j | 0 <= j < |c| ensures Height(c[j]) == 0 {
      assert c[j] in c;
    }
    forall a, b | 0 <= a < b < |c| ensures LeafCount(c[a]) < LeafCount(c[b]) {
      assert SelfKey(c[a]) < SelfKey(c[b]);
      LeafOrder(c[a], c[b]);
    }
  }

  /** The positions up to a peak are taken by it. */
  ghost predicate SplitsAt(taken: seq<nat>, left: seq<nat>, c: Coord) {
    && (forall j :: 0 <= j < |taken| ==> taken[j] <= Pos(c.i, c.h))
    && (left != [] ==> left[0] > Pos(c.i, c.h))
  }

  lemma SplitsMeans(taken: seq<nat>, left: seq<nat>, c: Coord)
    requires SplitsAt(taken, left, c)
    ensures forall j :: 0 <= j < |taken| ==> AsClaims(taken)[j].pos <= Pos(c.i, c.h)
    ensures left != [] ==> AsClaims(left) != [] && AsClaims(left)[0].pos > Pos(c.i, c.h)
    ensures left == [] ==> AsClaims(left) == []
  {
    hide Pos;
  }

  lemma WaitingPending(taken: seq<nat>, left: seq<nat>, posList: seq<nat>, from: nat)
    requires Waiting(taken + left, posList, from)
    ensures Pending(AsClaims(taken) + AsClaims(left), from)
  {
    hide Pending;
    AsClaimsConcat(taken, left);
  }

  /** What is left waits behind the peak. */
  lemma WaitingLeft(taken: seq<nat>, left: seq<nat>, posList: seq<nat>, peaks: seq<Coord>, from: nat, n: nat)
    requires peaks != [] && Tiles(peaks, from, n) && Waiting(taken + left, posList, from)
    requires SplitsAt(taken, left, peaks[0])
    ensures Waiting(left, posList, Shl(peaks[0].i + 1, peaks[0].h))
  {
    hide *;
    WaitingKept(taken, left, posList, peaks, from, n);
    WaitingPending(taken, left, posList, from);
    SplitsMeans(taken, left, peaks[0]);
    PendingLeft(AsClaims(taken), AsClaims(left), peaks[0], from);
    WaitingMeans(left, posList, Shl(peaks[0].i + 1, peaks[0].h));
  }

  /** What is taken are leaves of the peak. */
  lemma {:induction false} WaitingTaken(taken: seq<nat>, left: seq<nat>, posList: seq<nat>, peaks: seq<Coord>,
                                        from: nat, n: nat)
    requires peaks != [] && Tiles(peaks, from, n) && Waiting(taken + left, posList, from)
    requires SplitsAt(taken, left, peaks[0])
    ensures SortedIn(LeafIndices(taken), Shl(peaks[0].i, peaks[0].h), Shl(peaks[0].i + 1, peaks[0].h))
    ensures forall p :: p in taken ==> Height(p) == 0
  {
    hide *;
    WaitingPending(taken, left, posList, from);
    SplitsMeans(taken, left, peaks[0]);
    TilesHead(peaks, from, n);
    PendingTaken(AsClaims(taken), AsClaims(left), peaks[0], from);
    AsClaimsMeans(taken);
    forall p | p in taken ensures Height(p) == 0 {
      var j :| 0 <= j < |taken| && taken[j] == p;
      assert AsClaims(taken)[j].pos == p;
    }
  }

  lemma WaitingBelow(taken: seq<nat>, left: seq<nat>, posList: seq<nat>, peaks: seq<Coord>, from: nat)
    requires peaks != [] && Waiting(taken + left, posList, from)
    requires SplitsAt(taken, left, peaks[0])
    ensures Below(peaks, LeafIndices(taken + left)) == |taken|
  {
    hide *;
    WaitingPending(taken, left, posList, from);
    SplitsMeans(taken, left, peaks[0]);
    PendingMeans(AsClaims(taken) + AsClaims(left), from);
    SameSplit(AsClaims(taken), AsClaims(left), peaks);
    AsClaimsConcat(taken, left);
    AsClaimsMeans(taken + left);
  }

  lemma {:induction false} WaitingMeans(left: seq<nat>, posList: seq<nat>, from: nat)
    ensures Waiting(left, posList, from) <==>
              && Pending(AsClaims(left), from)
              && (forall p :: p in left ==> p in posList)
              && (forall p :: p in posList ==> LeafCount(p) < from || p in left)
  {
    hide Pending, LeafCount, AsClaims;
  }

  lemma {:induction false} WaitingKept(taken: seq<nat>, left: seq<nat>, posList: seq<nat>, peaks: seq<Coord>,
                                       from: nat, n: nat)
    requires peaks != [] && Tiles(peaks, from, n) && Waiting(taken + left, posList, from)
    requires SplitsAt(taken, left, peaks[0])
    ensures forall p :: p in left ==> p in posList
    ensures forall p :: p in posList ==> LeafCount(p) < Shl(peaks[0].i + 1, peaks[0].h) || p in left
  {
    hide Shl, Pos, LeafCount, Height;
    var c := peaks[0];
    assert c in peaks;
    TilesBounds(peaks, from, n);
    forall p | p in left ensures p in posList {
      assert p in taken + left;
    }
    forall p | p in posList ensures LeafCount(p) < Shl(c.i + 1, c.h) || p in left {
      if p in taken {
        var j :| 0 <= j < |taken| && taken[j] == p;
        assert AsClaims(taken + left)[j].pos == p;
        LeafBelowPeak(p, c);
      }
    }
  }

  ghost predicate OutOfRange(posList: seq<nat>, n: nat) {
    exists p :: p in posList && LeafCount(p) >= n
  }

  /** Nothing waits behind the last peak exactly when every position was in range. */
  lemma WaitingEnd(left: seq<nat>, posList: seq<nat>, n: nat)
    requires Waiting(left, posList, n)
    ensures left != [] <==> OutOfRange(posList, n)
  {
    hide LeafCount, Height;
    if left != [] {
      assert left[0] in left && AsClaims(left)[0].pos == left[0];
    }
  }

  /** Reads and counter so far, and what the peaks to come will add. */
  ghost predicate OnTrack(asked: seq<nat>, track: nat, peaks: seq<Coord>, left: seq<nat>, want: seq<nat>, tail: nat) {
    && want == asked + Wanted(peaks, LeafIndices(left))
    && tail == Track(peaks, LeafIndices(left), track)
  }

  lemma OnTrackStart(peaks: seq<Coord>, left: seq<nat>)
    ensures OnTrack([], 0, peaks, left, Wanted(peaks, LeafIndices(left)), Track(peaks, LeafIndices(left), 0))
  {
    var want := Wanted(peaks, LeafIndices(left));
    hide Wanted, Track, LeafIndices;
    assert [] + want == want;
  }

  lemma OnTrackStep(asked: seq<nat>, track: nat, peaks: seq<Coord>, taken: seq<nat>, left: seq<nat>,
                    want: seq<nat>, tail: nat)
    requires peaks != [] && OnTrack(asked, track, peaks, taken + left, want, tail)
    requires Below(peaks, LeafIndices(taken + left)) == |taken|
    ensures var more := WantedBy(peaks[0], LeafIndices(taken));
            && want == asked + (more + Wanted(peaks[1..], LeafIndices(left)))
            && OnTrack(asked + more, if taken == [] then track + 1 else 0, peaks[1..], left, want, tail)
  {
    hide WantedBy, Below, LeafCount;
    AsClaimsConcat(taken, left);
    var idx, m, more := LeafIndices(taken + left), |taken|, WantedBy(peaks[0], LeafIndices(taken));
    assert idx[..m] == LeafIndices(taken) && idx[m..] == LeafIndices(left);
    var rest := Wanted(peaks[1..], LeafIndices(left));
    assert asked + (more + rest) == asked + more + rest;
  }

  lemma OnTrackEnd(asked: seq<nat>, track: nat, left: seq<nat>, want: seq<nat>, tail: nat)
    requires OnTrack(asked, track, [], left, want, tail)
    ensures want == asked && tail == track
  {
  }
}
