/** The verifier's loops: the level-order queue of one peak, and the pass over all
    peaks. Each is proved to compute the functions of `Walk`, `PeakWalk` and
    `MerkleProof`. */
module Verifier {
  import opened Wrappers
  import opened Bits
  import opened Positions
  import opened Mountain
  import opened Walk
  import opened PeakWalk
  import opened Sorting
  import opened MerkleProof
  import opened Incremental
  import opened NewLeaf

  datatype Item = Item(pos: nat, x: Hash, height: nat)

  /** One level of entries as queue items. */
  function Encode(es: seq<Entry>, h: nat): (q: seq<Item>)
    ensures |q| == |es|
    ensures forall j :: 0 <= j < |es| ==> q[j] == Item(Pos(es[j].i, h), es[j].x, h)
  {
    seq(|es|, j requires 0 <= j < |es| => Item(Pos(es[j].i, h), es[j].x, h))
  }

  // ---- positions inside one peak ------------------------------------------------

  /** Nodes below a peak have smaller positions. */
  lemma PosInPeak(i: nat, h: nat, c: Coord)
    requires h <= c.h && Shl(c.i, c.h - h) <= i < Shl(c.i + 1, c.h - h)
    ensures Pos(i, h) <= Pos(c.i, c.h)
    ensures Pos(i, h) == Pos(c.i, c.h) <==> h == c.h
  {
    hide *;
    LastLeafInPeak(i, h, c);
    PosInBlock(i, h);
    PosInBlock(c.i, c.h);
    if LastLeaf(i, h) < LastLeaf(c.i, c.h) {
      PosOrder(i, h, c.i, c.h);
    }
    if Pos(i, h) == Pos(c.i, c.h) {
      PosInjective(i, h, c.i, c.h);
    }
    PeakAlone(i, h, c);
  }

  lemma LastLeafInPeak(i: nat, h: nat, c: Coord)
    requires h <= c.h && i < Shl(c.i + 1, c.h - h)
    ensures LastLeaf(i, h) <= LastLeaf(c.i, c.h)
  {
    ShlMonotone(i + 1, Shl(c.i + 1, c.h - h), h);
    ShlShl(c.i + 1, c.h - h, h);
  }

  lemma PeakAlone(i: nat, h: nat, c: Coord)
    requires h <= c.h && Shl(c.i, c.h - h) <= i < Shl(c.i + 1, c.h - h)
    ensures h == c.h ==> i == c.i
  {
  }

  lemma DifferentHeights(i: nat, j: nat, h: nat)
    ensures Pos(i, h) != Pos(j, h + 1)
  {
    if Pos(i, h) == Pos(j, h + 1) {
      PosInjective(i, h, j, h + 1);
    }
  }

  /** Sibling and parent of a node, as the loops compute them. */
  lemma {:induction false} Relatives(i: nat, h: nat)
    ensures Height(Pos(i, h) + 1) > h <==> i % 2 == 1
    ensures i % 2 == 1 ==> Pos(i, h) >= SiblingOffset(h) && Pos(i, h) - SiblingOffset(h) == Pos(i - 1, h)
    ensures i % 2 == 1 ==> Pos(i, h) + 1 == Pos(i / 2, h + 1)
    ensures i % 2 == 0 ==> Pos(i, h) + SiblingOffset(h) == Pos(i + 1, h)
    ensures i % 2 == 0 ==> Pos(i, h) + ParentOffset(h) == Pos(i / 2, h + 1)
  {
    hide *;
    NextHeight(i, h);
    Family(i / 2, h);
    assert i == 2 * (i / 2) + i % 2;
  }

  // ---- resuming in the middle of a level -------------------------------------------

  /** The rest of the climb when `cur` is left of this level and `next` has been built. */
  function Resume(cur: seq<Entry>, next: seq<Entry>, items: seq<Hash>, k: nat): Climbed {
    if k == 0 then Climbed(cur, items)
    else match LevelUp(cur, items)
      case Short => Short
      case Climbed(up, rest) => Climb(next + up, rest, k - 1)
  }

  lemma ResumePair(cur: seq<Entry>, next: seq<Entry>, items: seq<Hash>, k: nat)
    requires k > 0 && cur != [] && Paired(Indices(cur))
    ensures Resume(cur, next, items, k) == Resume(cur[2..], next + [Parent(cur[0], cur[1].x)], items, k)
  {
    hide Climb;
    var p, tail := Parent(cur[0], cur[1].x), LevelUp(cur[2..], items);
    if tail.Climbed? {
      assert next + ([p] + tail.level) == (next + [p]) + tail.level;
    }
  }

  lemma ResumeSingle(cur: seq<Entry>, next: seq<Entry>, items: seq<Hash>, k: nat)
    requires k > 0 && cur != [] && !Paired(Indices(cur))
    ensures items == [] ==> Resume(cur, next, items, k) == Short
    ensures items != [] ==>
              Resume(cur, next, items, k) == Resume(cur[1..], next + [Parent(cur[0], items[0])], items[1..], k)
  {
    hide Climb;
    if items != [] {
      var p, tail := Parent(cur[0], items[0]), LevelUp(cur[1..], items[1..]);
      if tail.Climbed? {
        assert next + ([p] + tail.level) == (next + [p]) + tail.level;
      }
    }
  }

  /** A finished level becomes the current one. */
  lemma ResumeTurn(next: seq<Entry>, items: seq<Hash>, k: nat)
    requires k > 0
    ensures Resume([], next, items, k) == Climb(next, items, k - 1)
    ensures Climb(next, items, k - 1) == Resume(next, [], items, k - 1)
  {
    assert next + [] == next;
    if k > 1 {
      match LevelUp(next, items)
      case Short =>
      case Climbed(up, _) => assert [] + up == up;
    }
  }

  /** The indices still to come on this level and on the next are sorted. */
  predicate Ordered(cur: seq<Entry>, next: seq<Entry>, c: Coord, k: nat) {
    && SortedIn(Indices(cur), Shl(c.i, k), Shl(c.i + 1, k))
    && (k == 0 ==> next == [])
    && (k > 0 ==> SortedIn(Indices(next) + NextLevel(Indices(cur)), Shl(c.i, k - 1), Shl(c.i + 1, k - 1)))
  }

  lemma OrderedStart(cur: seq<Entry>, c: Coord, k: nat)
    requires SortedIn(Indices(cur), Shl(c.i, k), Shl(c.i + 1, k))
    ensures Ordered(cur, [], c, k)
  {
    if k > 0 {
      NextLevelSorted(Indices(cur), Shl(c.i, k - 1), Shl(c.i + 1, k - 1));
      assert Indices([]) + NextLevel(Indices(cur)) == NextLevel(Indices(cur));
    }
  }

  /** Consuming the front (one entry, or a pair) moves its parent to the next level. */
  lemma OrderedStep(cur: seq<Entry>, next: seq<Entry>, c: Coord, k: nat, p: Entry)
    requires k > 0 && cur != [] && Ordered(cur, next, c, k) && p.i == cur[0].i / 2
    ensures var d := if Paired(Indices(cur)) then 2 else 1;
            Ordered(cur[d..], next + [p], c, k)
  {
    hide Shl;
    var d := if Paired(Indices(cur)) then 2 else 1;
    assert Indices(cur[d..]) == Indices(cur)[d..];
    assert Indices(next + [p]) == Indices(next) + [p.i];
    assert (Indices(next) + [p.i]) + NextLevel(Indices(cur[d..])) == Indices(next) + NextLevel(Indices(cur));
  }

  lemma OrderedTurn(next: seq<Entry>, c: Coord, k: nat)
    requires k > 0 && Ordered([], next, c, k)
    ensures Ordered(next, [], c, k - 1)
  {
    assert Indices(next) + NextLevel(Indices([])) == Indices(next);
    OrderedStart(next, c, k - 1);
  }

  /** The front of the queue is the sibling exactly when the level pairs them. */
  lemma FrontIsSibling(cur: seq<Entry>, next: seq<Entry>, h: nat, c: Coord, k: nat)
    requires cur != [] && Ordered(cur, next, c, k)
    ensures var queue := Encode(cur[1..], h) + Encode(next, h + 1);
            var sib := Pos(Sibling(cur[0].i), h);
            (queue != [] && queue[0].pos == sib) <==> Paired(Indices(cur))
  {
    hide Shl, Pos, NextLevel, Ordered;
    var queue := Encode(cur[1..], h) + Encode(next, h + 1);
    var i := cur[0].i;
    if |cur| > 1 {
      assert queue[0].pos == Pos(cur[1].i, h);
      assert i < cur[1].i by { OrderedAscends(cur, next, c, k); }
      if queue[0].pos == Pos(Sibling(i), h) {
        PosInjective(cur[1].i, h, Sibling(i), h);
      }
    } else if next != [] {
      assert queue[0].pos == Pos(next[0].i, h + 1);
      DifferentHeights(Sibling(i), next[0].i, h);
    }
  }

  lemma OrderedAscends(cur: seq<Entry>, next: seq<Entry>, c: Coord, k: nat)
    requires |cur| > 1 && Ordered(cur, next, c, k)
    ensures cur[0].i < cur[1].i
  {
    var idx := Indices(cur);
    assert idx[0] < idx[1];
  }

  lemma FrontInPeak(cur: seq<Entry>, next: seq<Entry>, h: nat, c: Coord)
    requires cur != [] && h <= c.h && Ordered(cur, next, c, c.h - h)
    ensures Pos(cur[0].i, h) <= Pos(c.i, c.h)
    ensures Pos(cur[0].i, h) == Pos(c.i, c.h) <==> h == c.h
    ensures h < c.h ==> Pos(cur[0].i / 2, h + 1) <= Pos(c.i, c.h)
    ensures h < c.h ==> (Pos(cur[0].i / 2, h + 1) == Pos(c.i, c.h) <==> h + 1 == c.h)
    ensures h == c.h ==> |cur| == 1 && next == []
  {
    hide *;
    FrontIndex(cur, next, c, c.h - h);
    PosInPeak(cur[0].i, h, c);
    if h < c.h {
      HalfInSpan(cur[0].i, c, c.h - h);
      PosInPeak(cur[0].i / 2, h + 1, c);
    }
  }

  lemma FrontIndex(cur: seq<Entry>, next: seq<Entry>, c: Coord, k: nat)
    requires cur != [] && Ordered(cur, next, c, k)
    ensures Shl(c.i, k) <= cur[0].i < Shl(c.i + 1, k)
    ensures k == 0 ==> |cur| == 1 && next == []
  {
    var idx := Indices(cur);
    assert idx[0] == cur[0].i;
    if k == 0 {
      ClimbToPeak(idx, c.i, 0);
    }
  }

  lemma HalfInSpan(i: nat, c: Coord, k: nat)
    requires k > 0 && Shl(c.i, k) <= i < Shl(c.i + 1, k)
    ensures Shl(c.i, k - 1) <= i / 2 < Shl(c.i + 1, k - 1)
  {
  }

  /** State of the queue loop: `cur` is left of the level at height `h`, `next` has been
      built above it, and the rest of the climb still leads to `result`. */
  ghost predicate InLevel(queue: seq<Item>, cur: seq<Entry>, next: seq<Entry>, h: nat,
                          rest: seq<Hash>, c: Coord, result: Climbed)
  {
    && h <= c.h && cur != []
    && Ordered(cur, next, c, c.h - h)
    && queue == Encode(cur, h) + Encode(next, h + 1)
    && Resume(cur, next, rest, c.h - h) == result
  }

  lemma EncodeStep(cur: seq<Entry>, next: seq<Entry>, h: nat, d: nat, p: Entry)
    requires d <= |cur|
    ensures (Encode(cur, h) + Encode(next, h + 1))[d..] + [Item(Pos(p.i, h + 1), p.x, h + 1)]
         == Encode(cur[d..], h) + Encode(next + [p], h + 1)
  {
    hide Pos;
  }

  /** Moving on: to the rest of the level, or up to the next one. */
  lemma MoveOn(queue: seq<Item>, cur: seq<Entry>, next: seq<Entry>, h: nat,
               rest: seq<Hash>, c: Coord, result: Climbed)
    requires h < c.h && next != []
    requires Ordered(cur, next, c, c.h - h)
    requires queue == Encode(cur, h) + Encode(next, h + 1)
    requires Resume(cur, next, rest, c.h - h) == result
    ensures if cur != [] then InLevel(queue, cur, next, h, rest, c, result)
            else InLevel(queue, next, [], h + 1, rest, c, result)
  {
    hide Ordered, Resume, Pos;
    if cur == [] {
      OrderedTurn(next, c, c.h - h);
      ResumeTurn(next, rest, c.h - h);
      assert Encode([], h) + Encode(next, h + 1) == Encode(next, h + 1) + Encode([], h + 2);
    }
  }

  /** One turn of the loop below the peak: the pair is taken from the queue. */
  lemma PairTurn(queue: seq<Item>, cur: seq<Entry>, next: seq<Entry>, h: nat,
                 rest: seq<Hash>, c: Coord, result: Climbed)
    requires InLevel(queue, cur, next, h, rest, c, result)
    requires h < c.h && Paired(Indices(cur))
    ensures var p := Parent(cur[0], cur[1].x);
            var cur', next' := cur[2..], next + [p];
            var queue' := queue[2..] + [Item(Pos(p.i, h + 1), p.x, h + 1)];
            && |cur| >= 2 && |queue| >= 2 && queue[1].x == cur[1].x
            && if cur' != [] then InLevel(queue', cur', next', h, rest, c, result)
               else InLevel(queue', next', [], h + 1, rest, c, result)
  {
    var p := Parent(cur[0], cur[1].x);
    hide Ordered, Resume, Pos, Shl;
    ResumePair(cur, next, rest, c.h - h);
    OrderedStep(cur, next, c, c.h - h, p);
    EncodeStep(cur, next, h, 2, p);
    MoveOn(queue[2..] + [Item(Pos(p.i, h + 1), p.x, h + 1)], cur[2..], next + [p], h, rest, c, result);
  }

  /** One turn of the loop below the peak: the sibling is the next proof item. */
  lemma SingleTurn(queue: seq<Item>, cur: seq<Entry>, next: seq<Entry>, h: nat,
                   rest: seq<Hash>, c: Coord, result: Climbed)
    requires InLevel(queue, cur, next, h, rest, c, result)
    requires h < c.h && !Paired(Indices(cur))
    ensures rest == [] ==> result == Short
    ensures rest != [] ==>
            var p := Parent(cur[0], rest[0]);
            var cur', next' := cur[1..], next + [p];
            var queue' := queue[1..] + [Item(Pos(p.i, h + 1), p.x, h + 1)];
            if cur' != [] then InLevel(queue', cur', next', h, rest[1..], c, result)
            else InLevel(queue', next', [], h + 1, rest[1..], c, result)
  {
    hide Ordered, Resume, Pos, Shl;
    ResumeSingle(cur, next, rest, c.h - h);
    if rest != [] {
      var p := Parent(cur[0], rest[0]);
      OrderedStep(cur, next, c, c.h - h, p);
      EncodeStep(cur, next, h, 1, p);
      MoveOn(queue[1..] + [Item(Pos(p.i, h + 1), p.x, h + 1)], cur[1..], next + [p], h, rest[1..], c, result);
    }
  }

  /** What the front of the queue tells the loop. */
  lemma Front(queue: seq<Item>, cur: seq<Entry>, next: seq<Entry>, h: nat,
              rest: seq<Hash>, c: Coord, result: Climbed)
    requires InLevel(queue, cur, next, h, rest, c, result)
    ensures h <= c.h && cur != []
    ensures queue != [] && queue[0] == Item(Pos(cur[0].i, h), cur[0].x, h)
    ensures queue[0].pos <= Pos(c.i, c.h)
    ensures queue[0].pos == Pos(c.i, c.h) <==> h == c.h
    ensures h == c.h ==> |queue| == 1 && result == Climbed([cur[0]], rest)
    ensures h < c.h ==> Pos(cur[0].i / 2, h + 1) <= Pos(c.i, c.h)
    ensures h < c.h ==>
              ((|queue| > 1 && queue[1].pos == Pos(Sibling(cur[0].i), h)) <==> Paired(Indices(cur)))
  {
    hide *;
    LevelMeans(queue, cur, next, h, rest, c, result);
    FrontInPeak(cur, next, h, c);
    FrontIsSibling(cur, next, h, c, c.h - h);
    assert queue[1..] == Encode(cur[1..], h) + Encode(next, h + 1);
    if h == c.h {
      assert cur == [cur[0]];
    }
  }

  lemma LevelMeans(queue: seq<Item>, cur: seq<Entry>, next: seq<Entry>, h: nat,
                   rest: seq<Hash>, c: Coord, result: Climbed)
    requires InLevel(queue, cur, next, h, rest, c, result)
    ensures h <= c.h && cur != [] && Ordered(cur, next, c, c.h - h)
    ensures queue == Encode(cur, h) + Encode(next, h + 1)
    ensures h == c.h ==> result == Climbed(cur, rest)
  {
    hide Ordered, Encode;
  }

  lemma {:induction false} Start(leaves: seq<Claim>, items: seq<Hash>, c: Coord)
    requires leaves != []
    requires forall a :: 0 <= a < |leaves| ==> Height(leaves[a].pos) == 0
    requires SortedIn(Indices(Entries(leaves)), Shl(c.i, c.h), Shl(c.i + 1, c.h))
    ensures var queue := seq(|leaves|, j requires 0 <= j < |leaves| => Item(leaves[j].pos, leaves[j].x, 0));
            InLevel(queue, Entries(leaves), [], 0, items, c, Climb(Entries(leaves), items, c.h))
  {
    var queue := seq(|leaves|, j requires 0 <= j < |leaves| => Item(leaves[j].pos, leaves[j].x, 0));
    var es := Entries(leaves);
    hide Ordered, Pos, Shl, LeafCount, Height, Climb;
    OrderedStart(es, c, c.h);
    forall a | 0 <= a < |leaves| ensures Pos(es[a].i, 0) == leaves[a].pos {
      LeafPositions(leaves[a].pos);
    }
    assert queue == Encode(es, 0) + Encode([], 1);
    ResumeWhole(es, items, c.h);
  }

  lemma ResumeWhole(es: seq<Entry>, items: seq<Hash>, k: nat)
    ensures Resume(es, [], items, k) == Climb(es, items, k)
  {
    ResumeTurn(es, items, k + 1);
  }

  /** `calculate_peak_root`: the queue loop computes `Climb`. */
  method CalculatePeakRoot(leaves: seq<Claim>, peakPos: u64, items: seq<Hash>, ghost c: Coord)
    returns (r: Result<Hash, Error>, rest: seq<Hash>)
    requires leaves != [] && peakPos == Pos(c.i, c.h)
    requires forall a :: 0 <= a < |leaves| ==> Height(leaves[a].pos) == 0
    requires SortedIn(Indices(Entries(leaves)), Shl(c.i, c.h), Shl(c.i + 1, c.h))
    ensures match Climb(Entries(leaves), items, c.h)
            case Short => r == Err(InvalidProof)
            case Climbed(top, left) => |top| == 1 && r == Ok(top[0].x) && rest == left
  {
    hide *;
    Start(leaves, items, c);
    var queue := seq(|leaves|, j requires 0 <= j < |leaves| => Item(leaves[j].pos, leaves[j].x, 0));
    rest := items;
    r := Err(InvalidProof);
    ghost var result := Climb(Entries(leaves), items, c.h);
    ghost var cur: seq<Entry>, next: seq<Entry>, h: nat := Entries(leaves), [], 0;
    var done := false;
    while |queue| > 0 && !done
      invariant !done ==> InLevel(queue, cur, next, h, rest, c, result)
      invariant !done ==> |queue| > 0 && r == Err(InvalidProof)
      invariant done ==> match result
                         case Short => r == Err(InvalidProof)
                         case Climbed(top, left) => |top| == 1 && r == Ok(top[0].x) && rest == left
      decreases !done, c.h - h, |cur|
    {
      Front(queue, cur, next, h, rest, c, result);
      var front := queue[0];
      if front.pos == peakPos {
        r := if |queue| == 1 then Ok(front.x) else Err(InvalidProof);
        done := true;
      } else {
        Relatives(cur[0].i, h);
        SiblingMeans(cur[0].i);
        var nextHeight := PosHeightInTree(front.pos + 1);
        var right := nextHeight > front.height;
        var sibPos := if right then front.pos - SiblingOffset(front.height)
                      else front.pos + SiblingOffset(front.height);
        var parentPos := if right then front.pos + 1 else front.pos + ParentOffset(front.height);
        var inQueue := |queue| > 1 && queue[1].pos == sibPos;
        if !inQueue && rest == [] {
          SingleTurn(queue, cur, next, h, rest, c, result);
          done := true;
        } else if parentPos <= peakPos {
          var sibling := if inQueue then queue[1].x else rest[0];
          var parent := if right then Node(sibling, front.x) else Node(front.x, sibling);
          ParentMeans(cur[0], sibling);
          ghost var d := if inQueue then 2 else 1;
          if inQueue {
            PairTurn(queue, cur, next, h, rest, c, result);
            queue := queue[2..];
          } else {
            SingleTurn(queue, cur, next, h, rest, c, result);
            queue, rest := queue[1..], rest[1..];
          }
          queue := queue + [Item(parentPos, parent, front.height + 1)];
          cur, next := cur[d..], next + [Entry(cur[0].i / 2, parent)];
          if cur == [] {
            cur, next, h := next, [], h + 1;
          }
        } else {
          done := true;
        }
      }
    }
  }

  lemma SiblingMeans(i: nat)
    ensures Sibling(i) == if i % 2 == 0 then i + 1 else i - 1
  {
  }

  lemma ParentMeans(e: Entry, x: Hash)
    ensures Parent(e, x) == Entry(e.i / 2, if e.i % 2 == 0 then Node(e.x, x) else Node(x, e.x))
  {
  }

  // ---- the pass over the peaks ---------------------------------------------------

  /** `take_while_vec` with the test `pos <= bound`. */
  method TakeWhile<T>(v: seq<T>, key: T -> nat, bound: nat) returns (taken: seq<T>, left: seq<T>)
    ensures v == taken + left
    ensures forall j :: 0 <= j < |taken| ==> key(taken[j]) <= bound
    ensures left != [] ==> key(left[0]) > bound
  {
    var i := 0;
    while i < |v|
      invariant 0 <= i <= |v|
      invariant forall j :: 0 <= j < i ==> key(v[j]) <= bound
    {
      if !(key(v[i]) <= bound) {
        return v[..i], v[i..];
      }
      i := i + 1;
    }
    return v, [];
  }

  /** A leaf lies at or before a peak's position exactly when it is not right of it. */
  lemma {:induction false} LeafBelowPeak(p: nat, c: Coord)
    requires Height(p) == 0
    ensures p <= Pos(c.i, c.h) <==> LeafCount(p) < Shl(c.i + 1, c.h)
  {
    hide *;
    LastLeafMeans(c);
    PosInBlock(c.i, c.h);
    LeafAtSize(p);
    var n, last := LeafCount(p), LastLeaf(c.i, c.h);
    if n < last {
      SizeMonotone(n, last);
    } else if last < n {
      SizeMonotone(last, n);
      HeightBound(Pos(c.i, c.h));
    }
  }

  lemma {:induction false} LeafAtSize(p: nat)
    ensures Height(p) == p - MmrSize(LeafCount(p))
  {
  }

  /** Positions and indices split the claims at the same place. */
  lemma {:induction false} SameSplit(taken: seq<Claim>, left: seq<Claim>, peaks: seq<Coord>)
    requires peaks != []
    requires forall j :: 0 <= j < |taken + left| ==> Height((taken + left)[j].pos) == 0
    requires forall j :: 0 <= j < |taken| ==> taken[j].pos <= Pos(peaks[0].i, peaks[0].h)
    requires left != [] ==> left[0].pos > Pos(peaks[0].i, peaks[0].h)
    ensures Below(peaks, Indices(Entries(taken + left))) == |taken|
    ensures Entries(taken + left)[..|taken|] == Entries(taken)
    ensures Entries(taken + left)[|taken|..] == Entries(left)
  {
    hide *;
    var all, c := taken + left, peaks[0];
    var idx := Indices(Entries(all));
    EntriesSplit(taken, left);
    forall j | 0 <= j < |taken| ensures idx[j] < Shl(c.i + 1, c.h) {
      assert all[j] == taken[j] && Height(all[j].pos) == 0;
      LeafBelowPeak(taken[j].pos, c);
    }
    if left != [] {
      assert all[|taken|] == left[0] && Height(all[|taken|].pos) == 0;
      LeafBelowPeak(left[0].pos, c);
    }
    CountBelowUnique(idx, Shl(c.i + 1, c.h), |taken|);
    BelowMeans(peaks, idx);
  }

  lemma EntriesSplit(taken: seq<Claim>, left: seq<Claim>)
    ensures Entries(taken + left)[..|taken|] == Entries(taken)
    ensures Entries(taken + left)[|taken|..] == Entries(left)
  {
    hide LeafCount;
  }

  lemma {:induction false} CountBelowUnique(idx: seq<nat>, bound: nat, m: nat)
    requires m <= |idx|
    requires forall j :: 0 <= j < m ==> idx[j] < bound
    requires m < |idx| ==> idx[m] >= bound
    ensures CountBelow(idx, bound) == m
    decreases m
  {
    if m > 0 {
      CountBelowUnique(idx[1..], bound, m - 1);
    }
  }

  /** A walk that has already found some hashes. */
  function Then(hashes: seq<Hash>, w: Walked): Walked {
    if w.Failed? then Failed else Walked(hashes + w.hashes, w.es, w.items)
  }

  lemma ThenTaken(hashes: seq<Hash>, peaks: seq<Coord>, es: seq<Entry>, rest: seq<Hash>)
    requires peaks != []
    ensures var step := TakePeak(peaks, es, rest);
            var w := WalkPeaks(peaks, es, rest);
            && (step.Exhausted? ==> Then(hashes, w) == Walked(hashes, es, rest))
            && (step.Broken? ==> Then(hashes, w) == Failed)
            && (step.Taken? ==>
                  Then(hashes, w) ==
                  Then(hashes + [step.x], WalkPeaks(peaks[1..], es[Below(peaks, Indices(es))..], step.items)))
  {
    hide TakePeak, Below;
    var step := TakePeak(peaks, es, rest);
    if step.Taken? {
      var w := WalkPeaks(peaks[1..], es[Below(peaks, Indices(es))..], step.items);
      if w.Walked? {
        assert hashes + ([step.x] + w.hashes) == (hashes + [step.x]) + w.hashes;
      }
    }
  }

  /** Sorted claims of leaves that no peak before `from` has taken. */
  ghost predicate Pending(claims: seq<Claim>, from: nat) {
    && (forall j :: 0 <= j < |claims| ==> Height(claims[j].pos) == 0 && LeafCount(claims[j].pos) >= from)
    && (forall a, b :: 0 <= a < b < |claims| ==> LeafCount(claims[a].pos) < LeafCount(claims[b].pos))
  }

  lemma {:induction false} PendingTaken(taken: seq<Claim>, left: seq<Claim>, c: Coord, from: nat)
    requires Pending(taken + left, from) && from == Shl(c.i, c.h)
    requires forall j :: 0 <= j < |taken| ==> taken[j].pos <= Pos(c.i, c.h)
    ensures SortedIn(Indices(Entries(taken)), Shl(c.i, c.h), Shl(c.i + 1, c.h))
    ensures forall j :: 0 <= j < |taken| ==> Height(taken[j].pos) == 0
  {
    hide Shl, Pos, LeafCount, Height;
    var all := taken + left;
    forall j | 0 <= j < |taken|
      ensures Height(taken[j].pos) == 0 && from <= LeafCount(taken[j].pos) < Shl(c.i + 1, c.h)
    {
      assert all[j] == taken[j];
      LeafBelowPeak(taken[j].pos, c);
    }
    forall a, b | 0 <= a < b < |taken| ensures LeafCount(taken[a].pos) < LeafCount(taken[b].pos) {
      assert all[a] == taken[a] && all[b] == taken[b];
    }
  }

  lemma PendingLeft(taken: seq<Claim>, left: seq<Claim>, c: Coord, from: nat)
    requires Pending(taken + left, from)
    requires left != [] ==> left[0].pos > Pos(c.i, c.h)
    ensures Pending(left, Shl(c.i + 1, c.h))
  {
    hide *;
    LeftOrder(taken, left, from);
    if left != [] {
      LeafBelowPeak(left[0].pos, c);
    }
    PendingFrom(left, Shl(c.i + 1, c.h));
  }

  lemma {:induction false} LeftOrder(taken: seq<Claim>, left: seq<Claim>, from: nat)
    requires Pending(taken + left, from)
    ensures forall j :: 0 <= j < |left| ==> Height(left[j].pos) == 0
    ensures forall a, b :: 0 <= a < b < |left| ==> LeafCount(left[a].pos) < LeafCount(left[b].pos)
  {
    hide *;
    var all, m := taken + left, |taken|;
    assert all[m..] == left;
    forall j | 0 <= j < |left| ensures Height(left[j].pos) == 0 {
      PendingAt(all, from, m + j);
    }
    forall a, b | 0 <= a < b < |left| ensures LeafCount(left[a].pos) < LeafCount(left[b].pos) {
      PendingTwo(all, from, m + a, m + b);
    }
  }

  lemma {:induction false} PendingAt(claims: seq<Claim>, from: nat, j: nat)
    requires Pending(claims, from) && j < |claims|
    ensures Height(claims[j].pos) == 0 && LeafCount(claims[j].pos) >= from
  {
    hide LeafCount, Height;
  }

  lemma {:induction false} PendingTwo(claims: seq<Claim>, from: nat, a: nat, b: nat)
    requires Pending(claims, from) && a < b < |claims|
    ensures LeafCount(claims[a].pos) < LeafCount(claims[b].pos)
  {
    hide LeafCount, Height;
  }

  lemma {:induction false} PendingFrom(left: seq<Claim>, from: nat)
    requires forall j :: 0 <= j < |left| ==> Height(left[j].pos) == 0
    requires forall a, b :: 0 <= a < b < |left| ==> LeafCount(left[a].pos) < LeafCount(left[b].pos)
    requires left != [] ==> LeafCount(left[0].pos) >= from
    ensures Pending(left, from)
  {
    hide LeafCount, Height;
    forall j | 0 <= j < |left| ensures LeafCount(left[j].pos) >= from {
      if j > 0 {
        assert LeafCount(left[0].pos) < LeafCount(left[j].pos);
      }
    }
  }

  lemma {:induction false} PendingSplit(taken: seq<Claim>, left: seq<Claim>, peaks: seq<Coord>, from: nat, n: nat)
    requires peaks != [] && Tiles(peaks, from, n) && Pending(taken + left, from)
    requires forall j :: 0 <= j < |taken| ==> taken[j].pos <= Pos(peaks[0].i, peaks[0].h)
    requires left != [] ==> left[0].pos > Pos(peaks[0].i, peaks[0].h)
    ensures var c := peaks[0];
            && SortedIn(Indices(Entries(taken)), Shl(c.i, c.h), Shl(c.i + 1, c.h))
            && Pending(left, Shl(c.i + 1, c.h))
            && Tiles(peaks[1..], Shl(c.i + 1, c.h), n)
            && (forall j :: 0 <= j < |taken| ==> Height(taken[j].pos) == 0)
  {
    hide Shl, Pos, LeafCount, Height, Pending;
    PendingTaken(taken, left, peaks[0], from);
    PendingLeft(taken, left, peaks[0], from);
  }

  lemma {:induction false} PendingStart(leaves: seq<Claim>)
    requires forall c :: c in leaves ==> Height(c.pos) == 0
    ensures Pending(Canonical(leaves, ClaimPos), 0)
  {
    hide LeafCount, Height, Canonical;
    var cs := Canonical(leaves, ClaimPos);
    CanonicalSpec(leaves, ClaimPos, 0);
    forall j | 0 <= j < |cs| ensures Height(cs[j].pos) == 0 {
      CanonicalMember(leaves, ClaimPos, cs[j]);
    }
    forall a, b | 0 <= a < b < |cs| ensures LeafCount(cs[a].pos) < LeafCount(cs[b].pos) {
      assert ClaimPos(cs[a]) < ClaimPos(cs[b]);
      LeafOrder(cs[a].pos, cs[b].pos);
    }
  }

  /** A peak climbed from its own leaves, or taken from the items. */
  function StepFrom(es: seq<Entry>, items: seq<Hash>, h: nat): Step {
    if es == [] then (if items == [] then Exhausted else Taken(items[0], items[1..]))
    else match Climb(es, items, h)
      case Short => Broken
      case Climbed(top, rest) => if top == [] then Broken else Taken(top[0].x, rest)
  }

  lemma StepAtSplit(mine: seq<Claim>, left: seq<Claim>, peaks: seq<Coord>, from: nat, n: nat, items: seq<Hash>)
    requires peaks != [] && Tiles(peaks, from, n) && Pending(mine + left, from)
    requires forall j :: 0 <= j < |mine| ==> mine[j].pos <= Pos(peaks[0].i, peaks[0].h)
    requires left != [] ==> left[0].pos > Pos(peaks[0].i, peaks[0].h)
    ensures TakePeak(peaks, Entries(mine + left), items) == StepFrom(Entries(mine), items, peaks[0].h)
  {
    hide *;
    PendingMeans(mine + left, from);
    SameSplit(mine, left, peaks);
    TakePeakMeans(peaks, Entries(mine + left), items);
    StepFromMeans(Entries(mine), items, peaks[0].h);
  }

  lemma StepFromMeans(es: seq<Entry>, items: seq<Hash>, h: nat)
    ensures es == [] && items == [] ==> StepFrom(es, items, h) == Exhausted
    ensures es == [] && items != [] ==> StepFrom(es, items, h) == Taken(items[0], items[1..])
    ensures es != [] && Climb(es, items, h).Short? ==> StepFrom(es, items, h) == Broken
    ensures forall top: seq<Entry>, rest: seq<Hash> :: es != [] && Climb(es, items, h) == Climbed(top, rest) ==>
              StepFrom(es, items, h) == if top == [] then Broken else Taken(top[0].x, rest)
  {
  }

  /** One peak of the pass. */
  method PassPeak(mine: seq<Claim>, peakPos: u64, items: seq<Hash>, ghost peaks: seq<Coord>, ghost left: seq<Claim>,
                  ghost from: nat, ghost n: nat)
    returns (step: Step)
    requires peaks != [] && Tiles(peaks, from, n) && Pending(mine + left, from)
    requires peakPos == Pos(peaks[0].i, peaks[0].h)
    requires forall j :: 0 <= j < |mine| ==> mine[j].pos <= peakPos
    requires left != [] ==> left[0].pos > peakPos
    ensures step == TakePeak(peaks, Entries(mine + left), items)
  {
    hide *;
    StepAtSplit(mine, left, peaks, from, n, items);
    PendingSplit(mine, left, peaks, from, n);
    step := ClimbPeak(mine, peakPos, items, peaks[0]);
  }

  method ClimbPeak(mine: seq<Claim>, peakPos: u64, items: seq<Hash>, ghost c: Coord) returns (step: Step)
    requires peakPos == Pos(c.i, c.h)
    requires forall a :: 0 <= a < |mine| ==> Height(mine[a].pos) == 0
    requires SortedIn(Indices(Entries(mine)), Shl(c.i, c.h), Shl(c.i + 1, c.h))
    ensures step == StepFrom(Entries(mine), items, c.h)
  {
    hide *;
    StepFromMeans(Entries(mine), items, c.h);
    if |mine| == 1 && mine[0].pos == peakPos {
      LeafIsPeak(mine, c, items);
      step := Taken(mine[0].x, items);
    } else if mine == [] {
      step := if items == [] then Exhausted else Taken(items[0], items[1..]);
    } else {
      var r, rest := CalculatePeakRoot(mine, peakPos, items, c);
      step := if r.Ok? then Taken(r.value, rest) else Broken;
    }
  }

  lemma {:induction false} PendingMeans(claims: seq<Claim>, from: nat)
    requires Pending(claims, from)
    ensures forall j :: 0 <= j < |claims| ==> Height(claims[j].pos) == 0
  {
  }

  lemma TakePeakMeans(peaks: seq<Coord>, es: seq<Entry>, items: seq<Hash>)
    requires peaks != []
    ensures var m := Below(peaks, Indices(es));
            TakePeak(peaks, es, items) ==
              if m == 0 then (if items == [] then Exhausted else Taken(items[0], items[1..]))
              else match Climb(es[..m], items, peaks[0].h)
                case Short => Broken
                case Climbed(top, rest) => if top == [] then Broken else Taken(top[0].x, rest)
  {
  }

  /** A leaf that is itself the peak needs no climbing. */
  lemma {:induction false} LeafIsPeak(mine: seq<Claim>, c: Coord, items: seq<Hash>)
    requires |mine| == 1 && mine[0].pos == Pos(c.i, c.h) && Height(mine[0].pos) == 0
    ensures Climb(Entries(mine), items, c.h) == Climbed(Entries(mine), items)
    ensures Entries(mine)[0].x == mine[0].x && |Entries(mine)| == 1
  {
    hide Pos, LeafCount, Height;
    PosInBlock(c.i, c.h);
  }

  /** Is any claimed position not a leaf position? */
  method AnyHigh(leaves: seq<Claim>) returns (high: bool)
    requires forall c :: c in leaves ==> c.pos <= U64_MAX
    ensures high <==> exists c :: c in leaves && Height(c.pos) > 0
  {
    hide *;
    var i := 0;
    while i < |leaves|
      invariant 0 <= i <= |leaves|
      invariant forall j :: 0 <= j < i ==> Height(leaves[j].pos) == 0
    {
      assert leaves[i] in leaves;
      var h := PosHeightInTree(leaves[i].pos);
      if h > 0 {
        return true;
      }
      i := i + 1;
    }
    high := false;
  }

  lemma {:induction false} PeaksHashesMeans(leaves: seq<Claim>, mmrSize: nat, items: seq<Hash>)
    ensures CalculatePeaksHashes(leaves, mmrSize, items) ==
              if exists c :: c in leaves && Height(c.pos) > 0 then Err(NodeProofsNotSupported)
              else if mmrSize == 1 && |leaves| == 1 && leaves[0].pos == 0 then Ok([leaves[0].x])
              else Collect(WalkPeaks(Peaks(LeafCount(mmrSize)), Entries(Canonical(leaves, ClaimPos)), items))
  {
  }

  lemma ThenNothing(w: Walked)
    ensures Then([], w) == w
  {
    if w.Walked? {
      assert [] + w.hashes == w.hashes;
    }
  }

  lemma ClaimPosMeans(claims: seq<Claim>)
    ensures forall j :: 0 <= j < |claims| ==> ClaimPos(claims[j]) == claims[j].pos
  {
  }

  lemma CollectMeans(w: Walked)
    ensures w.Failed? ==> Collect(w) == Err(InvalidProof)
    ensures w.Walked? ==>
              Collect(w) == if w.es != [] || |w.items| > 1 then Err(InvalidProof) else Ok(w.hashes + w.items)
  {
  }

  lemma WalkEnd(hashes: seq<Hash>, es: seq<Entry>, items: seq<Hash>)
    ensures Then(hashes, WalkPeaks([], es, items)) == Walked(hashes, es, items)
  {
    assert hashes + [] == hashes;
  }

  /** `calculate_peaks_hashes` */
  method CalculatePeaks(leaves: seq<Claim>, mmrSize: u64, items: seq<Hash>)
    returns (r: Result<seq<Hash>, Error>)
    requires forall c :: c in leaves ==> c.pos <= U64_MAX
    ensures r == CalculatePeaksHashes(leaves, mmrSize, items)
  {
    hide *;
    var high := AnyHigh(leaves);
    if high {
      PeaksHashesMeans(leaves, mmrSize, items);
      return Err(NodeProofsNotSupported);
    }
    if mmrSize == 1 && |leaves| == 1 && leaves[0].pos == 0 {
      PeaksHashesMeans(leaves, mmrSize, items);
      return Ok([leaves[0].x]);
    }
    PeaksHashesMeans(leaves, mmrSize, items);
    PendingStart(leaves);
    var left := Canonical(leaves, ClaimPos);
    var peaks := GetPeaks(mmrSize);
    ghost var n := LeafCount(mmrSize);
    ghost var cs, from: nat := Peaks(n), 0;
    RangeTiles(n);
    var hashes, rest := [], items;
    ghost var total := WalkPeaks(cs, Entries(left), items);
    ThenNothing(total);
    var i, stop, broken := 0, false, false;
    while i < |peaks| && !stop && !broken
      invariant 0 <= i <= |peaks| == |cs|
      invariant peaks == PeakPositions(cs)
      invariant broken ==> total == Failed
      invariant !broken && stop ==> total == Walked(hashes, Entries(left), rest)
      invariant !broken && !stop ==>
                  && Tiles(cs[i..], from, n) && Pending(left, from)
                  && Then(hashes, WalkPeaks(cs[i..], Entries(left), rest)) == total
    {
      var mine, later := TakeWhile(left, ClaimPos, peaks[i]);
      ghost var cur := cs[i..];
      assert cur[0] == cs[i] && cur[1..] == cs[i + 1..];
      ClaimPosMeans(mine);
      ClaimPosMeans(later);
      var step := PassPeak(mine, peaks[i], rest, cur, later, from, n);
      ThenTaken(hashes, cur, Entries(left), rest);
      PendingSplit(mine, later, cur, from, n);
      PendingMeans(left, from);
      SameSplit(mine, later, cur);
      match step {
        case Exhausted => stop := true;
        case Broken => broken := true;
        case Taken(x, more) =>
          hashes, rest, left := hashes + [x], more, later;
          from := Shl(cs[i].i + 1, cs[i].h);
      }
      i := i + 1;
    }
    if broken {
      CollectMeans(total);
      return Err(InvalidProof);
    }
    if !stop {
      assert cs[i..] == [];
      WalkEnd(hashes, Entries(left), rest);
    }
    CollectMeans(total);
    if |left| != 0 {
      return Err(InvalidProof);
    }
    assert rest == [] ==> hashes + rest == hashes;
    assert |rest| == 1 ==> rest == [rest[0]];
    if rest != [] {
      hashes, rest := hashes + [rest[0]], rest[1..];
    }
    if rest != [] {
      return Err(InvalidProof);
    }
    r := Ok(hashes);
  }

  /** `calculate_root` */
  method RecomputeRoot(leaves: seq<Claim>, mmrSize: u64, items: seq<Hash>) returns (r: Result<Hash, Error>)
    requires forall c :: c in leaves ==> c.pos <= U64_MAX
    ensures r == CalculateRoot(leaves, mmrSize, items)
  {
    hide CalculatePeaksHashes, Bag;
    var peaks := CalculatePeaks(leaves, mmrSize, items);
    match peaks {
      case Err(e) => r := Err(e);
      case Ok(hashes) =>
        var bagged := BagPeaks(hashes);
        r := if bagged.Some? then Ok(bagged.value) else Err(InvalidProof);
    }
  }

  // ---- growth ------------------------------------------------------------------------

  /** `verify_incremental` */
  method CheckIncremental(mmrSize: u64, items: seq<Hash>, root: Hash, prevRoot: Hash, incremental: seq<Hash>)
    returns (r: Result<bool, Error>)
    ensures r == VerifyIncremental(mmrSize, items, root, prevRoot, incremental)
  {
    hide CalculateRoot, Bag, LeafCount, Peaks, FirstBefore, Height, Pos, MmrSize, PeakPositions, Popcount, NewClaims;
    var current := GetPeakMap(mmrSize);
    if current <= |incremental| {
      return Err(InvalidProof);
    }
    var m := current - |incremental|;
    PrevSizeFits(mmrSize, m);
    var prev := GetPeaks(LeafIndexToMmrSize(m - 1));
    if |prev| != |items| {
      return Err(InvalidProof);
    }
    PrevNotEmpty(m);
    var cur := GetPeaks(mmrSize);
    var reverseIndex := FindFirstBefore(prev, cur);
    var prevPeaks := items[..reverseIndex] + Reverse(items[reverseIndex..]);
    var bagged := BagPeaks(prevPeaks);
    if bagged.value != prevRoot {
      return Ok(false);
    }
    var leaves := NewClaims(m, incremental);
    NewClaimsFitU64(m, incremental, mmrSize);
    var again := RecomputeRoot(leaves, mmrSize, items);
    r := if again.Err? then Err(again.error) else Ok(again.value == root);
  }

  method FindFirstBefore(prev: seq<nat>, cur: seq<nat>) returns (reverseIndex: nat)
    requires |prev| > 0
    ensures reverseIndex == FirstBefore(prev, cur, 0)
  {
    hide *;
    reverseIndex := |prev| - 1;
    var i, found := 0, false;
    while i < |prev| && i < |cur| && !found
      invariant 0 <= i <= |prev|
      invariant if found then reverseIndex == FirstBefore(prev, cur, 0)
                else reverseIndex == |prev| - 1 && FirstBefore(prev, cur, i) == FirstBefore(prev, cur, 0)
    {
      FirstBeforeStep(prev, cur, i);
      if prev[i] < cur[i] {
        reverseIndex, found := i, true;
      }
      i := i + 1;
    }
    FirstBeforeEnd(prev, cur, i);
  }

  lemma {:induction false} PrevSizeFits(mmrSize: u64, m: nat)
    requires 0 < m <= LeafCount(mmrSize)
    ensures LeafIndexToMmrSize(m - 1) <= mmrSize
  {
    hide LeafCount, Popcount;
    if m < LeafCount(mmrSize) {
      SizeMonotone(m, LeafCount(mmrSize));
    }
  }

  lemma {:induction false} PrevNotEmpty(m: nat)
    requires m > 0
    ensures |Peaks(LeafCount(LeafIndexToMmrSize(m - 1)))| > 0
  {
    PrevPeaks(m);
    PeaksOfRange(m);
  }

  lemma FirstBeforeStep(prev: seq<nat>, cur: seq<nat>, i: nat)
    requires i < |prev| && i < |cur|
    ensures FirstBefore(prev, cur, i) == if prev[i] < cur[i] then i else FirstBefore(prev, cur, i + 1)
  {
  }

  lemma FirstBeforeEnd(prev: seq<nat>, cur: seq<nat>, i: nat)
    requires |prev| > 0
    ensures i >= |prev| || i >= |cur| ==> FirstBefore(prev, cur, i) == |prev| - 1
  {
  }

  lemma {:induction false} NewClaimsFitU64(m: nat, incremental: seq<Hash>, mmrSize: u64)
    requires LeafCount(mmrSize) == m + |incremental|
    ensures forall c :: c in NewClaims(m, incremental) ==> c.pos <= U64_MAX
  {
    hide *;
    forall c | c in NewClaims(m, incremental) ensures c.pos <= U64_MAX {
      var j :| 0 <= j < |incremental| && NewClaims(m, incremental)[j] == c;
      PosOfLeafFits(m + j, mmrSize);
    }
  }

  /** `calculate_root_with_new_leaf` */
  method ExtendRoot(mmrSize: u64, items: seq<Hash>, leaves: seq<Claim>, newPos: u64, newElem: Hash, newMmrSize: u64)
    returns (r: Result<Hash, Error>)
    requires forall c :: c in leaves ==> c.pos <= U64_MAX
    ensures r == CalculateRootWithNewLeaf(mmrSize, items, leaves, newPos, newElem, newMmrSize)
  {
    hide CalculateRoot, CalculatePeaksHashes, LeafCount, Peaks, FirstAtLeast, Height;
    if newPos >= newMmrSize {
      return Err(InvalidInput);
    }
    var posHeight := PosHeightInTree(newPos);
    var nextHeight := PosHeightInTree(newPos + 1);
    if nextHeight > posHeight {
      var computed := CalculatePeaks(leaves, mmrSize, items);
      if computed.Err? {
        return Err(computed.error);
      }
      var hashes := computed.value;
      var peaks := GetPeaks(newMmrSize);
      var i := 0;
      FirstAtLeastUnfold(peaks, newPos, 0);
      while i < |peaks| && peaks[i] < newPos
        invariant 0 <= i <= |peaks|
        invariant FirstAtLeast(peaks, newPos, i) == FirstAtLeast(peaks, newPos, 0)
      {
        FirstAtLeastUnfold(peaks, newPos, i);
        i := i + 1;
      }
      FirstAtLeastUnfold(peaks, newPos, i);
      if i == |peaks| || i > |hashes| {
        return Err(InvalidInput);
      }
      r := RecomputeRoot([Claim(newPos, newElem)], newMmrSize, hashes[..i] + Reverse(hashes[i..]));
    } else {
      r := RecomputeRoot(leaves + [Claim(newPos, newElem)], newMmrSize, items);
    }
  }

  lemma FirstAtLeastUnfold(ps: seq<nat>, p: nat, i: nat)
    requires i <= |ps|
    ensures FirstAtLeast(ps, p, i) ==
              if i == |ps| then None else if ps[i] >= p then Some(i) else FirstAtLeast(ps, p, i + 1)
  {
  }
}
