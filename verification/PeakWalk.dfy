/** Walking the peaks from left to right.

    The verifier turns every peak into a hash: climbed from the proved leaves below
    it, or taken from the proof. Once no proved leaf is left, the remaining peaks
    share the remaining items. */
module PeakWalk {
  import opened Bits
  import opened Positions
  import opened Mountain
  import opened Walk

  /** Number of leading indices below `bound`. */
  function CountBelow(idx: seq<nat>, bound: nat): (m: nat)
    ensures m <= |idx|
    ensures forall j :: 0 <= j < m ==> idx[j] < bound
    ensures m < |idx| ==> idx[m] >= bound
  {
    if idx == [] || idx[0] >= bound then 0 else 1 + CountBelow(idx[1..], bound)
  }

  function Below(peaks: seq<Coord>, idx: seq<nat>): (m: nat)
    requires peaks != []
    ensures m <= |idx|
  {
    CountBelow(idx, Shl(peaks[0].i + 1, peaks[0].h))
  }

  datatype Walked = Failed | Walked(hashes: seq<Hash>, es: seq<Entry>, items: seq<Hash>) {
    function Prepend(x: Hash): Walked {
      if Failed? then Failed else Walked([x] + hashes, es, items)
    }
  }

  datatype Step = Exhausted | Broken | Taken(x: Hash, items: seq<Hash>)

  /** The first peak: climbed from its leaves, or taken from the items. */
  function TakePeak(peaks: seq<Coord>, es: seq<Entry>, items: seq<Hash>): Step
    requires peaks != []
  {
    var m := Below(peaks, Indices(es));
    if m == 0 then (if items == [] then Exhausted else Taken(items[0], items[1..]))
    else match Climb(es[..m], items, peaks[0].h)
      case Short => Broken
      case Climbed(top, rest) => if top == [] then Broken else Taken(top[0].x, rest)
  }

  /** The verifier's loop over the peaks: the hashes found, and the leaves and items
      left over when it ends or runs out of items. */
  function WalkPeaks(peaks: seq<Coord>, es: seq<Entry>, items: seq<Hash>): Walked
    decreases |peaks|
  {
    if peaks == [] then Walked([], es, items)
    else match TakePeak(peaks, es, items)
      case Exhausted => Walked([], es, items)
      case Broken => Failed
      case Taken(x, rest) =>
        WalkPeaks(peaks[1..], es[Below(peaks, Indices(es))..], rest).Prepend(x)
  }

  /** Peaks after the last one with a proved leaf below it. */
  function Tail(peaks: seq<Coord>, idx: seq<nat>): (t: nat)
    ensures t <= |peaks|
    decreases |peaks|
  {
    if peaks == [] || idx == [] then |peaks|
    else Tail(peaks[1..], idx[Below(peaks, idx)..])
  }

  /** Items the first peak uses. */
  function PeakNeed(peaks: seq<Coord>, idx: seq<nat>): nat
    requires peaks != []
  {
    var m := Below(peaks, idx);
    if m == 0 then 1 else EmitCount(idx[..m], peaks[0].h)
  }

  /** Items used up to and including the last peak with a proved leaf. */
  function Need(peaks: seq<Coord>, idx: seq<nat>): nat
    decreases |peaks|
  {
    if peaks == [] || idx == [] then 0
    else PeakNeed(peaks, idx) + Need(peaks[1..], idx[Below(peaks, idx)..])
  }

  /** Hashes of the peaks up to the last one with a proved leaf. */
  function PeakRoots(peaks: seq<Coord>, es: seq<Entry>, items: seq<Hash>): seq<Hash>
    decreases |peaks|
  {
    if peaks == [] || es == [] then []
    else match TakePeak(peaks, es, items)
      case Taken(x, rest) =>
        [x] + PeakRoots(peaks[1..], es[Below(peaks, Indices(es))..], rest)
      case _ => []
  }

  /** What the prover emits for the first peak. */
  function GenPeak(v: seq<Hash>, peaks: seq<Coord>, idx: seq<nat>): seq<Hash>
    requires peaks != []
  {
    var m := Below(peaks, idx);
    if m == 0 then [Subtree(v, peaks[0].i, peaks[0].h)] else Emit(v, idx[..m], 0, peaks[0].h)
  }

  /** What the prover emits up to the last peak with a proved leaf. */
  function GenRoots(v: seq<Hash>, peaks: seq<Coord>, idx: seq<nat>): seq<Hash>
    decreases |peaks|
  {
    if peaks == [] || idx == [] then []
    else GenPeak(v, peaks, idx) + GenRoots(v, peaks[1..], idx[Below(peaks, idx)..])
  }

  /** The whole proof: the trailing peaks travel as one bagged hash. */
  function GenPeaks(v: seq<Hash>, peaks: seq<Coord>, idx: seq<nat>): seq<Hash> {
    var t := Tail(peaks, idx);
    GenRoots(v, peaks, idx)
    + (if t == 0 then [] else [Bag(PeakHashes(v, peaks[|peaks| - t..]))])
  }

  lemma GenPeakLength(v: seq<Hash>, peaks: seq<Coord>, idx: seq<nat>)
    requires peaks != []
    ensures |GenPeak(v, peaks, idx)| == PeakNeed(peaks, idx)
  {
    EmitLength(v, idx[..Below(peaks, idx)], 0, peaks[0].h);
  }

  lemma {:induction false} GenRootsLength(v: seq<Hash>, peaks: seq<Coord>, idx: seq<nat>)
    ensures |GenRoots(v, peaks, idx)| == Need(peaks, idx)
    decreases |peaks|
  {
    if peaks != [] && idx != [] {
      GenRootsLength(v, peaks[1..], idx[Below(peaks, idx)..]);
      GenPeakLength(v, peaks, idx);
    }
  }

  // ---- splitting the leaves at a peak --------------------------------------

  /** Sorted leaves inside tiled peaks: the first peak takes a prefix. */
  lemma SplitAtPeak(peaks: seq<Coord>, idx: seq<nat>, from: nat, to: nat)
    requires peaks != [] && Tiles(peaks, from, to) && SortedIn(idx, from, to)
    ensures var c, m := peaks[0], Below(peaks, idx);
            && SortedIn(idx[..m], Shl(c.i, c.h), Shl(c.i + 1, c.h))
            && SortedIn(idx[m..], Shl(c.i + 1, c.h), to)
            && Tiles(peaks[1..], Shl(c.i + 1, c.h), to)
  {
    hide Shl;
  }

  lemma SpanNotEmpty(idx: seq<nat>, from: nat, to: nat)
    requires idx != [] && SortedIn(idx, from, to)
    ensures from < to
  {
    assert from <= idx[0] < to;
  }

  lemma NoPeaksNoLeaves(idx: seq<nat>, from: nat, to: nat)
    requires Tiles([], from, to) && SortedIn(idx, from, to)
    ensures idx == []
  {
    if idx != [] {
      SpanNotEmpty(idx, from, to);
    }
  }

  /** Climbing the leaves of one peak ends in that peak alone. */
  lemma PeakClimb(c: Coord, es: seq<Entry>, items: seq<Hash>)
    requires es != [] && SortedIn(Indices(es), Shl(c.i, c.h), Shl(c.i + 1, c.h))
    ensures var up := Climb(es, items, c.h);
            var n := EmitCount(Indices(es), c.h);
            && (up.Climbed? <==> |items| >= n)
            && (up.Climbed? ==> |up.level| == 1 && up.level[0].i == c.i && up.items == items[n..])
  {
    ClimbShape(es, items, c.h);
    ClimbToPeak(Indices(es), c.i, c.h);
  }

  // ---- the shape of a walk -------------------------------------------------

  /** One peak is taken exactly when enough items are left. */
  lemma TakeShape(peaks: seq<Coord>, es: seq<Entry>, items: seq<Hash>, from: nat, to: nat)
    requires peaks != [] && es != []
    requires Tiles(peaks, from, to) && SortedIn(Indices(es), from, to)
    ensures var idx := Indices(es);
            var n, m, step := PeakNeed(peaks, idx), Below(peaks, idx), TakePeak(peaks, es, items);
            && Indices(es[m..]) == idx[m..]
            && (step.Taken? <==> |items| >= n)
            && (step.Taken? ==> step.items == items[n..])
  {
    hide Climb, EmitCount, Shl, Tiles, Below;
    var idx := Indices(es);
    var m := Below(peaks, idx);
    SplitAtPeak(peaks, idx, from, to);
    assert Indices(es[..m]) == idx[..m] && Indices(es[m..]) == idx[m..];
    if m > 0 {
      PeakClimb(peaks[0], es[..m], items);
    }
  }

  /** The trailing peaks share the remaining items. */
  function Finish(roots: seq<Hash>, t: nat, rest: seq<Hash>): Walked {
    var k := if |rest| <= t then |rest| else t;
    Walked(roots + rest[..k], [], rest[k..])
  }

  lemma FinishPrepend(x: Hash, roots: seq<Hash>, t: nat, rest: seq<Hash>)
    ensures Finish(roots, t, rest).Prepend(x) == Finish([x] + roots, t, rest)
  {
  }

  lemma PrependKeeps(w: Walked, x: Hash)
    ensures w.Failed? || w.es != [] ==> w.Prepend(x).Failed? || w.Prepend(x).es != []
  {
  }

  lemma WalkUnfold(peaks: seq<Coord>, es: seq<Entry>, items: seq<Hash>)
    requires peaks != [] && es != [] && TakePeak(peaks, es, items).Taken?
    ensures var step := TakePeak(peaks, es, items);
            var later := es[Below(peaks, Indices(es))..];
            && WalkPeaks(peaks, es, items) == WalkPeaks(peaks[1..], later, step.items).Prepend(step.x)
            && PeakRoots(peaks, es, items) == [step.x] + PeakRoots(peaks[1..], later, step.items)
  {
    hide TakePeak, Below;
  }

  /** Exactly which walks end with all leaves used, and what they return. */
  lemma {:induction false} WalkShape(peaks: seq<Coord>, es: seq<Entry>, items: seq<Hash>, from: nat, to: nat)
    requires Tiles(peaks, from, to) && SortedIn(Indices(es), from, to)
    ensures var need := Need(peaks, Indices(es));
            var w := WalkPeaks(peaks, es, items);
            && (|items| < need ==> w.Failed? || w.es != [])
            && (|items| >= need ==>
                  w == Finish(PeakRoots(peaks, es, items), Tail(peaks, Indices(es)), items[need..]))
    decreases |peaks|
  {
    hide *;
    var idx := Indices(es);
    if peaks == [] {
      NoPeaksNoLeaves(idx, from, to);
    }
    if es == [] {
      NoLeavesWalk(peaks, es, items);
    } else {
      var n, m := PeakNeed(peaks, idx), Below(peaks, idx);
      var need, t := Need(peaks, idx), Tail(peaks, idx);
      TailNeedUnfold(peaks, idx);
      SplitAtPeak(peaks, idx, from, to);
      TakeShape(peaks, es, items, from, to);
      if |items| >= n {
        WalkUnfold(peaks, es, items);
        var w := WalkPeaks(peaks[1..], es[m..], items[n..]);
        var roots := PeakRoots(peaks[1..], es[m..], items[n..]);
        WalkShape(peaks[1..], es[m..], items[n..], Shl(peaks[0].i + 1, peaks[0].h), to);
        PrependKeeps(w, TakePeak(peaks, es, items).x);
        if |items| >= need {
          assert items[n..][need - n..] == items[need..];
          FinishPrepend(TakePeak(peaks, es, items).x, roots, t, items[need..]);
        }
      } else {
        NotTaken(peaks, es, items);
      }
    }
  }

  lemma NoLeavesWalk(peaks: seq<Coord>, es: seq<Entry>, items: seq<Hash>)
    requires es == []
    ensures Need(peaks, Indices(es)) == 0
    ensures WalkPeaks(peaks, es, items) == Finish(PeakRoots(peaks, es, items), Tail(peaks, Indices(es)), items[0..])
  {
    TrailingWalk(peaks, items);
    hide WalkPeaks;
    assert items[0..] == items && Indices(es) == [];
  }

  lemma NotTaken(peaks: seq<Coord>, es: seq<Entry>, items: seq<Hash>)
    requires peaks != [] && es != [] && !TakePeak(peaks, es, items).Taken?
    ensures var w := WalkPeaks(peaks, es, items); w.Failed? || w.es != []
  {
    hide TakePeak, Below;
  }

  /** Without leaves every peak takes one item until none is left. */
  lemma {:induction false} TrailingWalk(peaks: seq<Coord>, items: seq<Hash>)
    ensures var k := if |items| <= |peaks| then |items| else |peaks|;
            WalkPeaks(peaks, [], items) == Walked(items[..k], [], items[k..])
    decreases |peaks|
  {
    hide *;
    if peaks == [] || items == [] {
      NothingWalked(peaks, items);
      assert items[..0] == [] && items[0..] == items;
    } else {
      TrailingWalk(peaks[1..], items[1..]);
      WalkedOn(peaks, items);
      var k := if |items| <= |peaks| then |items| else |peaks|;
      PrependIs(items[0], items[1..][..k - 1], items[1..][k - 1..]);
      assert items[..k] == [items[0]] + items[1..][..k - 1] && items[k..] == items[1..][k - 1..];
    }
  }

  lemma NothingWalked(peaks: seq<Coord>, items: seq<Hash>)
    requires peaks == [] || items == []
    ensures WalkPeaks(peaks, [], items) == Walked([], [], items)
  {
    if peaks != [] {
      assert Below(peaks, Indices([])) == 0;
    }
  }

  lemma WalkedOn(peaks: seq<Coord>, items: seq<Hash>)
    requires peaks != [] && items != []
    ensures WalkPeaks(peaks, [], items) == WalkPeaks(peaks[1..], [], items[1..]).Prepend(items[0])
  {
    assert Below(peaks, Indices([])) == 0;
    hide Below;
  }

  lemma PrependIs(x: Hash, hashes: seq<Hash>, rest: seq<Hash>)
    ensures Walked(hashes, [], rest).Prepend(x) == Walked([x] + hashes, [], rest)
  {
  }

  // ---- honest roots --------------------------------------------------------

  /** One peak is honest exactly when its leaves and its items are. */
  lemma PeakHonest(v: seq<Hash>, c: Coord, es: seq<Entry>, items: seq<Hash>)
    requires es != [] && SortedIn(Indices(es), Shl(c.i, c.h), Shl(c.i + 1, c.h))
    requires |items| >= EmitCount(Indices(es), c.h)
    ensures var n := EmitCount(Indices(es), c.h);
            var up := Climb(es, items, c.h);
            && up.Climbed? && up.level != []
            && (up.level[0].x == Subtree(v, c.i, c.h) <==>
                  IsHonest(v, es, 0) && items[..n] == Emit(v, Indices(es), 0, c.h))
  {
    hide *;
    var idx := Indices(es);
    var n := EmitCount(idx, c.h);
    PeakClimb(c, es, items);
    EmitLength(v, idx, 0, c.h);
    var up := Climb(es, items, c.h);
    if up.level[0].x == Subtree(v, c.i, c.h) {
      OneHonest(v, up.level, c.i, c.h);
      ClimbSound(v, es, 0, items, c.h);
    }
    if IsHonest(v, es, 0) && items[..n] == Emit(v, idx, 0, c.h) {
      IsHonestMeans(v, es, 0);
      assert items == Emit(v, idx, 0, c.h) + items[n..];
      ClimbComplete(v, idx, 0, c.h, items[n..]);
      ClimbToPeak(idx, c.i, c.h);
    }
  }

  lemma OneHonest(v: seq<Hash>, level: seq<Entry>, i: nat, h: nat)
    requires |level| == 1 && level[0].i == i && level[0].x == Subtree(v, i, h)
    ensures IsHonest(v, level, h)
  {
    hide Subtree;
  }

  lemma StepHonest(v: seq<Hash>, peaks: seq<Coord>, es: seq<Entry>, items: seq<Hash>, from: nat, to: nat)
    requires peaks != [] && es != []
    requires Tiles(peaks, from, to) && SortedIn(Indices(es), from, to)
    requires |items| >= PeakNeed(peaks, Indices(es))
    ensures TakePeak(peaks, es, items).Taken?
    ensures var idx := Indices(es);
            TakePeak(peaks, es, items).x == Subtree(v, peaks[0].i, peaks[0].h) <==>
              && IsHonest(v, es[..Below(peaks, idx)], 0)
              && items[..PeakNeed(peaks, idx)] == GenPeak(v, peaks, idx)
  {
    hide Climb, Emit, EmitCount, Shl, Tiles, Below, Subtree;
    var idx := Indices(es);
    var m := Below(peaks, idx);
    SplitAtPeak(peaks, idx, from, to);
    assert Indices(es[..m]) == idx[..m];
    if m > 0 {
      PeakHonest(v, peaks[0], es[..m], items);
    }
  }

  /** All peaks with proved leaves come out honest exactly when every leaf and every
      item used for them is honest. */
  predicate RootsIff(v: seq<Hash>, peaks: seq<Coord>, es: seq<Entry>, items: seq<Hash>) {
    var idx := Indices(es);
    var need, k := Need(peaks, idx), |peaks| - Tail(peaks, idx);
    var roots := PeakRoots(peaks, es, items);
    && need <= |items|
    && |roots| == k
    && (roots == PeakHashes(v, peaks[..k]) <==>
          IsHonest(v, es, 0) && items[..need] == GenRoots(v, peaks, idx))
  }

  lemma {:induction false} RootsHonest(v: seq<Hash>, peaks: seq<Coord>, es: seq<Entry>, items: seq<Hash>,
                                       from: nat, to: nat)
    requires Tiles(peaks, from, to) && SortedIn(Indices(es), from, to)
    requires |items| >= Need(peaks, Indices(es))
    ensures RootsIff(v, peaks, es, items)
    decreases |peaks|
  {
    var idx := Indices(es);
    if peaks == [] {
      NoPeaksNoLeaves(idx, from, to);
    } else if es == [] {
      assert Indices(es) == [];
    } else {
      var n, m := PeakNeed(peaks, idx), Below(peaks, idx);
      assert Need(peaks, idx) == n + Need(peaks[1..], idx[m..]);
      hide *;
      SplitAtPeak(peaks, idx, from, to);
      TakeShape(peaks, es, items, from, to);
      RootsHonest(v, peaks[1..], es[m..], items[n..], Shl(peaks[0].i + 1, peaks[0].h), to);
      RootsStep(v, peaks, es, items, from, to);
    }
  }

  lemma RootsStep(v: seq<Hash>, peaks: seq<Coord>, es: seq<Entry>, items: seq<Hash>, from: nat, to: nat)
    requires peaks != [] && es != []
    requires Tiles(peaks, from, to) && SortedIn(Indices(es), from, to)
    requires |items| >= PeakNeed(peaks, Indices(es))
    requires RootsIff(v, peaks[1..], es[Below(peaks, Indices(es))..], items[PeakNeed(peaks, Indices(es))..])
    ensures RootsIff(v, peaks, es, items)
  {
    hide *;
    var idx := Indices(es);
    var n, m := PeakNeed(peaks, idx), Below(peaks, idx);
    TakeShape(peaks, es, items, from, to);
    TailNeedUnfold(peaks, idx);
    GenRootsUnfold(v, peaks, idx);
    RootsIffMeans(v, peaks[1..], es[m..], items[n..]);
    RootsIffMeans(v, peaks, es, items);
    var need, k := Need(peaks, idx), |peaks| - Tail(peaks, idx);
    var head, tail := GenPeak(v, peaks, idx), GenRoots(v, peaks[1..], idx[m..]);
    var x, y := TakePeak(peaks, es, items).x, Subtree(v, peaks[0].i, peaks[0].h);
    WalkUnfold(peaks, es, items);
    PeakHashesHead(v, peaks[..k]);
    assert peaks[..k][1..] == peaks[1..][..k - 1];
    StepHonest(v, peaks, es, items, from, to);
    SameCons(x, PeakRoots(peaks[1..], es[m..], items[n..]), y, PeakHashes(v, peaks[1..][..k - 1]));
    SplitHonest(v, es, m);
    GenPeakLength(v, peaks, idx);
    SplitItems(items, n, need, head, tail);
  }

  lemma SameCons(x: Hash, s: seq<Hash>, y: Hash, t: seq<Hash>)
    ensures [x] + s == [y] + t <==> x == y && s == t
  {
    if [x] + s == [y] + t {
      assert s == ([x] + s)[1..] == ([y] + t)[1..] == t;
      assert x == ([x] + s)[0];
    }
  }

  lemma SplitItems(items: seq<Hash>, n: nat, need: nat, head: seq<Hash>, tail: seq<Hash>)
    requires n <= need <= |items| && |head| == n
    ensures items[..need] == head + tail <==> items[..n] == head && items[n..][..need - n] == tail
  {
    assert items[..need] == items[..n] + items[n..][..need - n];
  }

  lemma PeakHashesHead(v: seq<Hash>, cs: seq<Coord>)
    ensures cs != [] ==> PeakHashes(v, cs) == [Subtree(v, cs[0].i, cs[0].h)] + PeakHashes(v, cs[1..])
  {
  }

  lemma SplitHonest(v: seq<Hash>, es: seq<Entry>, m: nat)
    requires m <= |es|
    ensures IsHonest(v, es, 0) <==> IsHonest(v, es[..m], 0) && IsHonest(v, es[m..], 0)
  {
    if IsHonest(v, es[..m], 0) && IsHonest(v, es[m..], 0) {
      forall j | 0 <= j < |es| ensures es[j].x == Subtree(v, es[j].i, 0) {
        if j < m {
          assert es[j] == es[..m][j];
        } else {
          assert es[j] == es[m..][j - m];
        }
      }
    }
  }

  lemma TailNeedUnfold(peaks: seq<Coord>, idx: seq<nat>)
    requires peaks != [] && idx != []
    ensures Tail(peaks, idx) == Tail(peaks[1..], idx[Below(peaks, idx)..])
    ensures Need(peaks, idx) == PeakNeed(peaks, idx) + Need(peaks[1..], idx[Below(peaks, idx)..])
  {
  }

  lemma GenRootsUnfold(v: seq<Hash>, peaks: seq<Coord>, idx: seq<nat>)
    requires peaks != [] && idx != []
    ensures GenRoots(v, peaks, idx) == GenPeak(v, peaks, idx) + GenRoots(v, peaks[1..], idx[Below(peaks, idx)..])
  {
  }

  lemma GenRootsNone(v: seq<Hash>, peaks: seq<Coord>, idx: seq<nat>)
    requires peaks == [] || idx == []
    ensures GenRoots(v, peaks, idx) == [] && Tail(peaks, idx) == |peaks| && Need(peaks, idx) == 0
  {
  }

  lemma RootsIffMeans(v: seq<Hash>, peaks: seq<Coord>, es: seq<Entry>, items: seq<Hash>)
    ensures var idx := Indices(es);
            var need, k := Need(peaks, idx), |peaks| - Tail(peaks, idx);
            var roots := PeakRoots(peaks, es, items);
            RootsIff(v, peaks, es, items) <==>
              && need <= |items|
              && |roots| == k
              && (roots == PeakHashes(v, peaks[..k]) <==>
                    IsHonest(v, es, 0) && items[..need] == GenRoots(v, peaks, idx))
  {
    hide Need, Tail, PeakRoots, IsHonest, GenRoots, PeakHashes, Indices;
  }

  lemma BelowMeans(peaks: seq<Coord>, idx: seq<nat>)
    requires peaks != []
    ensures Below(peaks, idx) == CountBelow(idx, Shl(peaks[0].i + 1, peaks[0].h))
  {
    hide Shl, CountBelow;
  }
}
