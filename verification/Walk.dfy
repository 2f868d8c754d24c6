/** Climbing one mountain, level by level.

    `LevelUp` pairs the nodes of one level with each other or with the next proof
    item; `Missing` lists the siblings a prover has to supply. Both run on node
    indices. The queue loops of prover and verifier are shown elsewhere to compute
    exactly these functions. */
module Walk {
  import opened Bits
  import opened Mountain

  datatype Entry = Entry(i: nat, x: Hash)

  datatype Climbed = Short | Climbed(level: seq<Entry>, items: seq<Hash>) {
    function Prepend(e: Entry): Climbed {
      if Short? then Short else Climbed([e] + level, items)
    }
  }

  /** Strictly increasing indices inside `[lo, hi)`. */
  predicate SortedIn(level: seq<nat>, lo: nat, hi: nat) {
    && (forall a, b :: 0 <= a < b < |level| ==> level[a] < level[b])
    && (forall a :: 0 <= a < |level| ==> lo <= level[a] < hi)
  }

  function Indices(es: seq<Entry>): (r: seq<nat>)
    ensures |r| == |es|
    ensures forall j :: 0 <= j < |es| ==> r[j] == es[j].i
  {
    seq(|es|, j requires 0 <= j < |es| => es[j].i)
  }

  /** The entries an honest mountain range has at these indices. */
  function Honest(v: seq<Hash>, level: seq<nat>, h: nat): (r: seq<Entry>)
    ensures |r| == |level|
    ensures forall j :: 0 <= j < |level| ==> r[j] == Entry(level[j], Subtree(v, level[j], h))
    ensures Indices(r) == level
  {
    var r := seq(|level|, j requires 0 <= j < |level| => Entry(level[j], Subtree(v, level[j], h)));
    assert Indices(r) == level;
    r
  }

  /** The first two indices are the two children of one parent. */
  predicate Paired(level: seq<nat>) {
    |level| > 1 && level[0] % 2 == 0 && level[1] == level[0] + 1
  }

  function Parent(e: Entry, item: Hash): Entry {
    Entry(e.i / 2, if e.i % 2 == 0 then Node(e.x, item) else Node(item, e.x))
  }

  /** One level of the verifier. */
  function LevelUp(level: seq<Entry>, items: seq<Hash>): Climbed
    decreases |level|
  {
    if level == [] then Climbed([], items)
    else if Paired(Indices(level)) then
      LevelUp(level[2..], items).Prepend(Parent(level[0], level[1].x))
    else if items == [] then Short
    else LevelUp(level[1..], items[1..]).Prepend(Parent(level[0], items[0]))
  }

  /** `k` levels of the verifier. */
  function Climb(level: seq<Entry>, items: seq<Hash>, k: nat): Climbed
    decreases k
  {
    if k == 0 then Climbed(level, items)
    else match LevelUp(level, items)
      case Short => Short
      case Climbed(up, rest) => Climb(up, rest, k - 1)
  }

  /** Indices on the next level. */
  function NextLevel(level: seq<nat>): seq<nat>
    decreases |level|
  {
    if level == [] then []
    else if Paired(level) then [level[0] / 2] + NextLevel(level[2..])
    else [level[0] / 2] + NextLevel(level[1..])
  }

  function Sibling(i: nat): nat {
    if i % 2 == 0 then i + 1 else i - 1
  }

  /** Siblings of one level that are not themselves on the level. */
  function Missing(level: seq<nat>): seq<nat>
    decreases |level|
  {
    if level == [] then []
    else if Paired(level) then Missing(level[2..])
    else [Sibling(level[0])] + Missing(level[1..])
  }

  function HashesAt(v: seq<Hash>, idx: seq<nat>, h: nat): (r: seq<Hash>)
    ensures |r| == |idx|
    ensures forall j :: 0 <= j < |idx| ==> r[j] == Subtree(v, idx[j], h)
  {
    seq(|idx|, j requires 0 <= j < |idx| => Subtree(v, idx[j], h))
  }

  /** What the prover emits for `k` levels starting at height `h`. */
  function Emit(v: seq<Hash>, level: seq<nat>, h: nat, k: nat): seq<Hash>
    decreases k
  {
    if k == 0 then []
    else HashesAt(v, Missing(level), h) + Emit(v, NextLevel(level), h + 1, k - 1)
  }

  /** How many items the prover emits, whatever the leaves are. */
  function EmitCount(level: seq<nat>, k: nat): nat
    decreases k
  {
    if k == 0 then 0 else |Missing(level)| + EmitCount(NextLevel(level), k - 1)
  }

  lemma {:induction false} EmitLength(v: seq<Hash>, level: seq<nat>, h: nat, k: nat)
    ensures |Emit(v, level, h, k)| == EmitCount(level, k)
    decreases k
  {
    if k > 0 {
      EmitLength(v, NextLevel(level), h + 1, k - 1);
    }
  }

  // ---- shape -------------------------------------------------------------

  /** The verifier's level is determined by the indices; only the number of items
      matters for success, and it takes exactly the missing siblings. */
  lemma {:induction false} LevelShape(level: seq<Entry>, items: seq<Hash>)
    ensures LevelUp(level, items).Climbed? <==> |items| >= |Missing(Indices(level))|
    ensures LevelUp(level, items).Climbed? ==>
              && Indices(LevelUp(level, items).level) == NextLevel(Indices(level))
              && LevelUp(level, items).items == items[|Missing(Indices(level))|..]
    decreases |level|
  {
    var idx := Indices(level);
    if level == [] {
    } else if Paired(idx) {
      LevelShape(level[2..], items);
      assert Indices(level[2..]) == idx[2..];
      PrependIndices(LevelUp(level[2..], items), Parent(level[0], level[1].x));
    } else if items != [] {
      LevelShape(level[1..], items[1..]);
      assert Indices(level[1..]) == idx[1..];
      PrependIndices(LevelUp(level[1..], items[1..]), Parent(level[0], items[0]));
    }
  }

  lemma PrependIndices(c: Climbed, e: Entry)
    ensures c.Climbed? ==>
              c.Prepend(e).level == [e] + c.level && Indices(c.Prepend(e).level) == [e.i] + Indices(c.level)
  {
  }

  lemma {:induction false} NextLevelSorted(level: seq<nat>, lo: nat, hi: nat)
    requires SortedIn(level, 2 * lo, 2 * hi)
    ensures SortedIn(NextLevel(level), lo, hi)
    ensures level != [] ==> NextLevel(level) != [] && NextLevel(level)[0] == level[0] / 2
    decreases |level|
  {
    hide *;
    NextUnfold(level);
    if level == [] {
      NothingSorted(lo, hi);
    } else {
      var d := if Paired(level) then 2 else 1;
      var next := level[0] / 2 + 1;
      RestSorted(level, d, lo, hi);
      NextLevelSorted(level[d..], next, hi);
      SortedCons(level[0] / 2, NextLevel(level[d..]), lo, hi);
    }
  }

  lemma NextUnfold(level: seq<nat>)
    ensures level == [] ==> NextLevel(level) == []
    ensures level != [] ==>
              var d := if Paired(level) then 2 else 1;
              d <= |level| && NextLevel(level) == [level[0] / 2] + NextLevel(level[d..])
  {
  }

  lemma NothingSorted(lo: nat, hi: nat)
    ensures SortedIn([], lo, hi)
  {
  }

  /** After the first parent, the rest of a level lies right of it. */
  lemma RestSorted(level: seq<nat>, d: nat, lo: nat, hi: nat)
    requires level != [] && SortedIn(level, 2 * lo, 2 * hi) && d == if Paired(level) then 2 else 1
    ensures d <= |level| && lo <= level[0] / 2 < hi
    ensures SortedIn(level[d..], 2 * (level[0] / 2 + 1), 2 * hi)
  {
  }

  lemma SortedCons(i: nat, rest: seq<nat>, lo: nat, hi: nat)
    requires lo <= i < hi && SortedIn(rest, i + 1, hi)
    ensures SortedIn([i] + rest, lo, hi)
  {
  }

  /** `k` levels up, the indices are still sorted inside the peak's span. */
  function NextLevels(level: seq<nat>, k: nat): seq<nat>
    decreases k
  {
    if k == 0 then level else NextLevels(NextLevel(level), k - 1)
  }

  lemma {:induction false} ClimbShape(level: seq<Entry>, items: seq<Hash>, k: nat)
    ensures Climb(level, items, k).Climbed? <==> |items| >= EmitCount(Indices(level), k)
    ensures Climb(level, items, k).Climbed? ==>
              && Indices(Climb(level, items, k).level) == NextLevels(Indices(level), k)
              && Climb(level, items, k).items == items[EmitCount(Indices(level), k)..]
    decreases k
  {
    if k > 0 {
      LevelShape(level, items);
      var up := LevelUp(level, items);
      if up.Climbed? {
        ClimbShape(up.level, up.items, k - 1);
      }
    }
  }

  /** Climbing to the peak leaves exactly one entry: the peak. */
  lemma {:induction false} ClimbToPeak(level: seq<nat>, i: nat, k: nat)
    requires level != [] && SortedIn(level, Shl(i, k), Shl(i + 1, k))
    ensures NextLevels(level, k) == [i]
    decreases k
  {
    if k > 0 {
      NextLevelSorted(level, Shl(i, k - 1), Shl(i + 1, k - 1));
      ClimbToPeak(NextLevel(level), i, k - 1);
    } else {
      var last := |level| - 1;
      assert level[0] == i == level[last];
      assert last == 0;
    }
  }

  // ---- completeness ------------------------------------------------------

  lemma {:induction false} LevelComplete(v: seq<Hash>, level: seq<nat>, h: nat, rest: seq<Hash>)
    ensures LevelUp(Honest(v, level, h), HashesAt(v, Missing(level), h) + rest)
         == Climbed(Honest(v, NextLevel(level), h + 1), rest)
    decreases |level|
  {
    hide *;
    NoLevel(v, h, rest);
    if level != [] {
      var d := if Paired(level) then 2 else 1;
      PairedLength(level);
      LevelComplete(v, level[d..], h, rest);
      PrependOn(HonestParent(v, level, h), Honest(v, NextLevel(level[d..]), h + 1), rest);
      NextHonest(v, level, h);
      if Paired(level) {
        PairComplete(v, level, h, rest);
      } else {
        SingleComplete(v, level, h, rest);
      }
    }
  }

  function HonestParent(v: seq<Hash>, level: seq<nat>, h: nat): Entry
    requires level != []
  {
    Entry(level[0] / 2, Subtree(v, level[0] / 2, h + 1))
  }

  lemma NoLevel(v: seq<Hash>, h: nat, rest: seq<Hash>)
    ensures LevelUp(Honest(v, [], h), HashesAt(v, Missing([]), h) + rest) ==
              Climbed(Honest(v, NextLevel([]), h + 1), rest)
  {
    assert HashesAt(v, Missing([]), h) + rest == rest;
  }

  lemma PairedLength(level: seq<nat>)
    ensures Paired(level) ==> |level| >= 2
  {
  }

  lemma PrependOn(e: Entry, level: seq<Entry>, items: seq<Hash>)
    ensures Climbed(level, items).Prepend(e) == Climbed([e] + level, items)
  {
  }

  lemma NextHonest(v: seq<Hash>, level: seq<nat>, h: nat)
    requires level != []
    ensures var d := if Paired(level) then 2 else 1;
            d <= |level|
            && Honest(v, NextLevel(level), h + 1) ==
                 [HonestParent(v, level, h)] + Honest(v, NextLevel(level[d..]), h + 1)
  {
    hide *;
    var d := if Paired(level) then 2 else 1;
    NextUnfold(level);
    HonestCons(v, level[0] / 2, NextLevel(level[d..]), h + 1);
    HonestParentIs(v, level, h);
  }

  lemma HonestParentIs(v: seq<Hash>, level: seq<nat>, h: nat)
    requires level != []
    ensures HonestParent(v, level, h) == Entry(level[0] / 2, Subtree(v, level[0] / 2, h + 1))
  {
    hide Subtree;
  }

  lemma HonestCons(v: seq<Hash>, i: nat, rest: seq<nat>, h: nat)
    ensures Honest(v, [i] + rest, h) == [Entry(i, Subtree(v, i, h))] + Honest(v, rest, h)
  {
    hide *;
    var a, b := Honest(v, [i] + rest, h), [Entry(i, Subtree(v, i, h))] + Honest(v, rest, h);
    forall j | 0 <= j < |a| ensures a[j] == b[j] {
      if j > 0 {
        assert ([i] + rest)[j] == rest[j - 1] && b[j] == Honest(v, rest, h)[j - 1];
      }
    }
  }

  lemma PairComplete(v: seq<Hash>, level: seq<nat>, h: nat, rest: seq<Hash>)
    requires Paired(level)
    ensures LevelUp(Honest(v, level, h), HashesAt(v, Missing(level), h) + rest) ==
              LevelUp(Honest(v, level[2..], h), HashesAt(v, Missing(level[2..]), h) + rest)
                .Prepend(HonestParent(v, level, h))
  {
    var es, items := Honest(v, level, h), HashesAt(v, Missing(level), h) + rest;
    assert Missing(level) == Missing(level[2..]);
    assert Parent(es[0], es[1].x) == HonestParent(v, level, h);
    hide Subtree, Missing, Parent, HonestParent;
    assert es[2..] == Honest(v, level[2..], h);
    assert LevelUp(es, items) == LevelUp(es[2..], items).Prepend(Parent(es[0], es[1].x));
  }

  lemma SingleComplete(v: seq<Hash>, level: seq<nat>, h: nat, rest: seq<Hash>)
    requires level != [] && !Paired(level)
    ensures LevelUp(Honest(v, level, h), HashesAt(v, Missing(level), h) + rest) ==
              LevelUp(Honest(v, level[1..], h), HashesAt(v, Missing(level[1..]), h) + rest)
                .Prepend(HonestParent(v, level, h))
  {
    var es, items := Honest(v, level, h), HashesAt(v, Missing(level), h) + rest;
    assert Missing(level) == [Sibling(level[0])] + Missing(level[1..]);
    assert items[0] == Subtree(v, Sibling(level[0]), h);
    assert Parent(es[0], items[0]) == HonestParent(v, level, h);
    hide Subtree, Missing, Parent, HonestParent;
    assert es[1..] == Honest(v, level[1..], h);
    assert items[1..] == HashesAt(v, Missing(level[1..]), h) + rest;
    assert LevelUp(es, items) == LevelUp(es[1..], items[1..]).Prepend(Parent(es[0], items[0]));
  }

  /** What the prover emits for a mountain lets the verifier climb it. */
  lemma {:induction false} ClimbComplete(v: seq<Hash>, level: seq<nat>, h: nat, k: nat, rest: seq<Hash>)
    ensures Climb(Honest(v, level, h), Emit(v, level, h, k) + rest, k)
         == Climbed(Honest(v, NextLevels(level, k), h + k), rest)
    decreases k
  {
    hide *;
    if k == 0 {
      NoClimb(v, level, h, rest);
    } else {
      var tail := Emit(v, NextLevel(level), h + 1, k - 1) + rest;
      LevelComplete(v, level, h, tail);
      ClimbOnce(v, level, h, k, rest);
      ClimbComplete(v, NextLevel(level), h + 1, k - 1, rest);
    }
  }

  lemma NoClimb(v: seq<Hash>, level: seq<nat>, h: nat, rest: seq<Hash>)
    ensures Climb(Honest(v, level, h), Emit(v, level, h, 0) + rest, 0) ==
              Climbed(Honest(v, NextLevels(level, 0), h), rest)
  {
    assert Emit(v, level, h, 0) + rest == rest;
  }

  lemma ClimbOnce(v: seq<Hash>, level: seq<nat>, h: nat, k: nat, rest: seq<Hash>)
    requires k > 0
    requires var tail := Emit(v, NextLevel(level), h + 1, k - 1) + rest;
             LevelUp(Honest(v, level, h), HashesAt(v, Missing(level), h) + tail) ==
               Climbed(Honest(v, NextLevel(level), h + 1), tail)
    ensures NextLevels(level, k) == NextLevels(NextLevel(level), k - 1)
    ensures Climb(Honest(v, level, h), Emit(v, level, h, k) + rest, k) ==
              Climb(Honest(v, NextLevel(level), h + 1), Emit(v, NextLevel(level), h + 1, k - 1) + rest, k - 1)
  {
    assert Emit(v, level, h, k) == HashesAt(v, Missing(level), h) + Emit(v, NextLevel(level), h + 1, k - 1);
    hide Emit, LevelUp, Missing, Subtree, NextLevel;
    assert Emit(v, level, h, k) + rest ==
           HashesAt(v, Missing(level), h) + (Emit(v, NextLevel(level), h + 1, k - 1) + rest);
  }

  // ---- soundness ---------------------------------------------------------

  /** An honest parent has honest children: hashing is injective. */
  lemma ParentSound(v: seq<Hash>, e: Entry, item: Hash, h: nat)
    ensures Parent(e, item).i == e.i / 2
    ensures Parent(e, item).x == Subtree(v, e.i / 2, h + 1) <==>
              e.x == Subtree(v, e.i, h) && item == Subtree(v, Sibling(e.i), h)
  {
  }

  predicate IsHonest(v: seq<Hash>, es: seq<Entry>, h: nat) {
    forall j :: 0 <= j < |es| ==> es[j].x == Subtree(v, es[j].i, h)
  }

  lemma IsHonestMeans(v: seq<Hash>, es: seq<Entry>, h: nat)
    ensures IsHonest(v, es, h) <==> es == Honest(v, Indices(es), h)
  {
    if IsHonest(v, es, h) {
      assert es == Honest(v, Indices(es), h);
    }
  }

  /** An honest level can only come from an honest level and honest items. */
  lemma {:induction false} LevelSound(v: seq<Hash>, level: seq<Entry>, h: nat, items: seq<Hash>)
    requires LevelUp(level, items).Climbed?
    requires IsHonest(v, LevelUp(level, items).level, h + 1)
    ensures IsHonest(v, level, h)
    ensures items == HashesAt(v, Missing(Indices(level)), h) + LevelUp(level, items).items
    decreases |level|
  {
    hide *;
    if level == [] {
      NoneSound(v, h, items);
    } else if Paired(Indices(level)) {
      PairTaken(level, items);
      HonestTail(v, LevelUp(level[2..], items), Parent(level[0], level[1].x), h + 1);
      LevelSound(v, level[2..], h, items);
      ParentSound(v, level[0], level[1].x, h);
      PairSound(v, level, h);
    } else {
      SingleTaken(level, items);
      HonestTail(v, LevelUp(level[1..], items[1..]), Parent(level[0], items[0]), h + 1);
      LevelSound(v, level[1..], h, items[1..]);
      ParentSound(v, level[0], items[0], h);
      SingleSound(v, level, h, items, LevelUp(level, items).items);
    }
  }

  lemma NoneSound(v: seq<Hash>, h: nat, items: seq<Hash>)
    ensures IsHonest(v, [], h) && items == HashesAt(v, Missing(Indices([])), h) + LevelUp([], items).items
  {
  }

  lemma PairTaken(level: seq<Entry>, items: seq<Hash>)
    requires level != [] && Paired(Indices(level)) && LevelUp(level, items).Climbed?
    ensures |level| > 1 && level[1].i == Sibling(level[0].i)
    ensures LevelUp(level[2..], items).Climbed?
    ensures LevelUp(level, items) == LevelUp(level[2..], items).Prepend(Parent(level[0], level[1].x))
    ensures LevelUp(level, items).items == LevelUp(level[2..], items).items
  {
    hide Parent;
  }

  lemma SingleTaken(level: seq<Entry>, items: seq<Hash>)
    requires level != [] && !Paired(Indices(level)) && LevelUp(level, items).Climbed?
    ensures items != [] && LevelUp(level[1..], items[1..]).Climbed?
    ensures LevelUp(level, items) == LevelUp(level[1..], items[1..]).Prepend(Parent(level[0], items[0]))
    ensures LevelUp(level, items).items == LevelUp(level[1..], items[1..]).items
  {
    hide Parent;
  }

  lemma PairSound(v: seq<Hash>, level: seq<Entry>, h: nat)
    requires |level| > 1 && Paired(Indices(level)) && IsHonest(v, level[2..], h)
    requires level[0].x == Subtree(v, level[0].i, h) && level[1].x == Subtree(v, level[1].i, h)
    ensures IsHonest(v, level, h)
    ensures Missing(Indices(level)) == Missing(Indices(level[2..]))
  {
    hide Subtree;
    assert Indices(level[2..]) == Indices(level)[2..];
    assert level == [level[0], level[1]] + level[2..];
  }

  lemma SingleSound(v: seq<Hash>, level: seq<Entry>, h: nat, items: seq<Hash>, rest: seq<Hash>)
    requires level != [] && !Paired(Indices(level)) && IsHonest(v, level[1..], h) && items != []
    requires level[0].x == Subtree(v, level[0].i, h) && items[0] == Subtree(v, Sibling(level[0].i), h)
    requires items[1..] == HashesAt(v, Missing(Indices(level[1..])), h) + rest
    ensures IsHonest(v, level, h)
    ensures items == HashesAt(v, Missing(Indices(level)), h) + rest
  {
    hide *;
    var idx := Indices(level);
    assert Indices(level[1..]) == idx[1..];
    MissingSingle(idx);
    HashesCons(v, Sibling(level[0].i), Missing(idx[1..]), h);
    HonestOn(v, level, h);
    var tail := HashesAt(v, Missing(idx[1..]), h);
    assert [items[0]] + tail + rest == [items[0]] + (tail + rest);
    assert items == [items[0]] + items[1..];
  }

  lemma MissingSingle(idx: seq<nat>)
    requires idx != [] && !Paired(idx)
    ensures Missing(idx) == [Sibling(idx[0])] + Missing(idx[1..])
  {
  }

  lemma HashesCons(v: seq<Hash>, i: nat, rest: seq<nat>, h: nat)
    ensures HashesAt(v, [i] + rest, h) == [Subtree(v, i, h)] + HashesAt(v, rest, h)
  {
    hide *;
    var a, b := HashesAt(v, [i] + rest, h), [Subtree(v, i, h)] + HashesAt(v, rest, h);
    forall j | 0 <= j < |a| ensures a[j] == b[j] {
      if j > 0 {
        assert ([i] + rest)[j] == rest[j - 1] && b[j] == HashesAt(v, rest, h)[j - 1];
      }
    }
  }

  lemma HonestOn(v: seq<Hash>, level: seq<Entry>, h: nat)
    requires level != [] && IsHonest(v, level[1..], h) && level[0].x == Subtree(v, level[0].i, h)
    ensures IsHonest(v, level, h)
  {
    hide Subtree;
    assert level == [level[0]] + level[1..];
  }

  lemma HonestTail(v: seq<Hash>, tail: Climbed, e: Entry, h: nat)
    requires tail.Climbed?
    requires IsHonest(v, tail.Prepend(e).level, h)
    ensures e.x == Subtree(v, e.i, h) && IsHonest(v, tail.level, h)
  {
    hide Subtree;
    var all := tail.Prepend(e).level;
    assert all[0] == e;
    forall j | 0 <= j < |tail.level| ensures tail.level[j].x == Subtree(v, tail.level[j].i, h) {
      assert all[j + 1] == tail.level[j];
    }
  }

  /** An honest peak forces every leaf below it and every item to be honest. */
  lemma {:induction false} ClimbSound(v: seq<Hash>, level: seq<Entry>, h: nat, items: seq<Hash>, k: nat)
    requires Climb(level, items, k).Climbed?
    requires IsHonest(v, Climb(level, items, k).level, h + k)
    ensures IsHonest(v, level, h)
    ensures items == Emit(v, Indices(level), h, k) + Climb(level, items, k).items
    decreases k
  {
    hide *;
    ClimbUnfold(v, level, h, items, k);
    if k > 0 {
      LevelShape(level, items);
      var up := LevelUp(level, items);
      ClimbSound(v, up.level, h + 1, up.items, k - 1);
      LevelSound(v, level, h, items);
      assert items == HashesAt(v, Missing(Indices(level)), h)
                      + (Emit(v, Indices(up.level), h + 1, k - 1) + Climb(level, items, k).items);
    }
  }

  lemma ClimbUnfold(v: seq<Hash>, level: seq<Entry>, h: nat, items: seq<Hash>, k: nat)
    requires Climb(level, items, k).Climbed?
    ensures k == 0 ==> Climb(level, items, k) == Climbed(level, items) && Emit(v, Indices(level), h, k) == []
    ensures k > 0 ==>
              && LevelUp(level, items).Climbed?
              && Climb(level, items, k) == Climb(LevelUp(level, items).level, LevelUp(level, items).items, k - 1)
              && Emit(v, Indices(level), h, k) ==
                   HashesAt(v, Missing(Indices(level)), h) + Emit(v, NextLevel(Indices(level)), h + 1, k - 1)
  {
  }

  /** The first parent of a level, and the rest. */
  lemma LevelSplit(level: seq<Entry>, items: seq<Hash>)
    requires level != [] && LevelUp(level, items).Climbed?
    ensures Paired(Indices(level)) ==>
              && |level| > 1 && LevelUp(level[2..], items).Climbed?
              && LevelUp(level, items).level == [Parent(level[0], level[1].x)] + LevelUp(level[2..], items).level
    ensures !Paired(Indices(level)) ==>
              && items != [] && LevelUp(level[1..], items[1..]).Climbed?
              && LevelUp(level, items).level == [Parent(level[0], items[0])] + LevelUp(level[1..], items[1..]).level
  {
    hide *;
    if Paired(Indices(level)) {
      PairTaken(level, items);
      PrependIndices(LevelUp(level[2..], items), Parent(level[0], level[1].x));
    } else {
      SingleTaken(level, items);
      PrependIndices(LevelUp(level[1..], items[1..]), Parent(level[0], items[0]));
    }
  }
}
