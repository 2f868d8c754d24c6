/** Query items as intervals between bounds over byte-string keys, and how two of them
    are split into what they share and what each has alone. */
module QueryRange {
  import opened Wrappers

  // ---- keys --------------------------------------------------------------------------

  /** Lexicographic order of byte strings. */
  predicate KeyLess(a: Bytes, b: Bytes) {
    b != [] && (a == [] || a[0] < b[0] || (a[0] == b[0] && KeyLess(a[1..], b[1..])))
  }

  lemma {:induction false} KeyIrreflexive(a: Bytes)
    ensures !KeyLess(a, a)
  {
    if a != [] {
      KeyIrreflexive(a[1..]);
    }
  }

  lemma {:induction false} KeyTotal(a: Bytes, b: Bytes)
    ensures a == b || KeyLess(a, b) || KeyLess(b, a)
  {
    if a != [] && b != [] && a[0] == b[0] {
      KeyTotal(a[1..], b[1..]);
      assert a == [a[0]] + a[1..] && b == [b[0]] + b[1..];
    }
  }

  lemma {:induction false} KeyTransitive(a: Bytes, b: Bytes, c: Bytes)
    requires KeyLess(a, b) && KeyLess(b, c)
    ensures KeyLess(a, c)
  {
    if a != [] && a[0] == b[0] && b[0] == c[0] {
      KeyTransitive(a[1..], b[1..], c[1..]);
    }
  }

  // ---- bounds ------------------------------------------------------------------------

  datatype Bound =
    | UnboundedStart
    | UnboundedEnd
    | Inclusive(v: Bytes)
    | ExclusiveStart(v: Bytes)
    | ExclusiveEnd(v: Bytes)

  /** Just before a key, at it, or just after it. */
  function Offset(b: Bound): int {
    match b
    case ExclusiveEnd(_) => -1
    case ExclusiveStart(_) => 1
    case _ => 0
  }

  predicate Lt(a: Bound, b: Bound) {
    match (a, b)
    case (UnboundedStart, _) => b != UnboundedStart
    case (_, UnboundedStart) => false
    case (UnboundedEnd, _) => false
    case (_, UnboundedEnd) => true
    case _ => KeyLess(a.v, b.v) || (a.v == b.v && Offset(a) < Offset(b))
  }

  predicate Le(a: Bound, b: Bound) { a == b || Lt(a, b) }

  datatype Ordering = Less | Equal | Greater

  function KeyCompare(a: Bytes, b: Bytes): Ordering {
    if a == b then Equal else if KeyLess(a, b) then Less else Greater
  }

  /** `cmp` of bounds */
  function Compare(a: Bound, b: Bound): Ordering {
    match (a, b)
    case (UnboundedStart, UnboundedStart) => Equal
    case (UnboundedEnd, UnboundedEnd) => Equal
    case (UnboundedStart, _) => Less
    case (_, UnboundedStart) => Greater
    case (UnboundedEnd, _) => Greater
    case (_, UnboundedEnd) => Less
    case (Inclusive(v), Inclusive(w)) => KeyCompare(v, w)
    case (ExclusiveStart(v), ExclusiveStart(w)) => KeyCompare(v, w)
    case (ExclusiveEnd(v), ExclusiveEnd(w)) => KeyCompare(v, w)
    case (Inclusive(v), ExclusiveStart(w)) => if KeyCompare(v, w) == Greater then Greater else Less
    case (ExclusiveEnd(v), Inclusive(w)) => if KeyCompare(v, w) == Greater then Greater else Less
    case (Inclusive(v), ExclusiveEnd(w)) => if KeyCompare(v, w) == Less then Less else Greater
    case (ExclusiveStart(v), Inclusive(w)) => if KeyCompare(v, w) == Less then Less else Greater
    case (ExclusiveStart(v), ExclusiveEnd(w)) => if KeyCompare(v, w) == Less then Less else Greater
    case (ExclusiveEnd(v), ExclusiveStart(w)) => if KeyCompare(v, w) == Greater then Greater else Less
  }

  /** The comparison is a linear order of bounds. */
  lemma CompareMeans(a: Bound, b: Bound)
    ensures Compare(a, b) == Less <==> Lt(a, b)
    ensures Compare(a, b) == Equal <==> a == b
    ensures Compare(a, b) == Greater <==> Lt(b, a)
  {
    if !(a.UnboundedStart? || a.UnboundedEnd? || b.UnboundedStart? || b.UnboundedEnd?) {
      KeyTotal(a.v, b.v);
      KeyIrreflexive(a.v);
      if KeyLess(a.v, b.v) && KeyLess(b.v, a.v) {
        KeyTransitive(a.v, b.v, a.v);
      }
    }
  }

  lemma LtTransitive(a: Bound, b: Bound, c: Bound)
    requires Lt(a, b) && Lt(b, c)
    ensures Lt(a, c)
  {
    if !(a.UnboundedStart? || c.UnboundedEnd?) {
      if KeyLess(a.v, b.v) && KeyLess(b.v, c.v) {
        KeyTransitive(a.v, b.v, c.v);
      }
    }
  }

  /** Order facts about any bounds. */
  lemma Linear()
    ensures forall a, b :: Lt(a, b) || Lt(b, a) || a == b
    ensures forall a, b :: Lt(a, b) ==> !Lt(b, a) && a != b
    ensures forall a, b, c :: Lt(a, b) && Lt(b, c) ==> Lt(a, c)
  {
    forall a, b ensures Lt(a, b) || Lt(b, a) || a == b ensures Lt(a, b) ==> !Lt(b, a) && a != b {
      CompareMeans(a, b);
    }
    forall a, b, c | Lt(a, b) && Lt(b, c) ensures Lt(a, c) {
      LtTransitive(a, b, c);
    }
  }

  /** `invert` */
  function Invert(b: Bound, isStart: bool): Bound {
    match b
    case Inclusive(v) => if isStart then ExclusiveStart(v) else ExclusiveEnd(v)
    case ExclusiveStart(v) => Inclusive(v)
    case ExclusiveEnd(v) => Inclusive(v)
    case _ => b
  }

  predicate StartKind(b: Bound) { b.UnboundedStart? || b.Inclusive? || b.ExclusiveStart? }

  predicate EndKind(b: Bound) { b.UnboundedEnd? || b.Inclusive? || b.ExclusiveEnd? }

  /** An inverted start is the last bound before it. */
  lemma BeforeStart(b: Bound, x: Bound)
    requires b.Inclusive? || b.ExclusiveStart?
    ensures Lt(x, b) <==> Le(x, Invert(b, false))
  {
    if !(x.UnboundedStart? || x.UnboundedEnd?) {
      KeyIrreflexive(b.v);
    }
  }

  /** An inverted end is the first bound after it. */
  lemma AfterEnd(b: Bound, x: Bound)
    requires b.Inclusive? || b.ExclusiveEnd?
    ensures Lt(b, x) <==> Le(Invert(b, true), x)
  {
    if !(x.UnboundedStart? || x.UnboundedEnd?) {
      KeyIrreflexive(b.v);
    }
  }

  // ---- items -------------------------------------------------------------------------

  datatype Item = Item(start: Bound, end: Bound)

  /** A non-empty interval with bounds of the right kind. */
  predicate Valid(i: Item) {
    StartKind(i.start) && EndKind(i.end) && Le(i.start, i.end)
  }

  /** Does the interval contain this point? A key is the point `Inclusive(key)`. */
  predicate In(i: Item, x: Bound) {
    Le(i.start, x) && Le(x, i.end)
  }

  datatype Parts = Parts(inBoth: Option<Item>, oursLeft: Option<Item>, oursRight: Option<Item>,
                         theirsLeft: Option<Item>, theirsRight: Option<Item>)

  /** `intersect` */
  function Intersect(ours: Item, theirs: Item): Parts {
    if Compare(ours.end, theirs.start) == Less then Parts(None, Some(ours), None, None, Some(theirs))
    else if Compare(theirs.end, ours.start) == Less then Parts(None, None, Some(ours), Some(theirs), None)
    else
      var ourStart := Compare(ours.start, theirs.start) == Less;
      var smallerStart, biggerStart := if ourStart then ours.start else theirs.start,
                                       if ourStart then theirs.start else ours.start;
      var ourEnd := Compare(ours.end, theirs.end) == Less;
      var smallerEnd, largerEnd := if ourEnd then ours.end else theirs.end, if ourEnd then theirs.end else ours.end;
      var left := Item(smallerStart, Invert(biggerStart, false));
      var right := Item(Invert(smallerEnd, true), largerEnd);
      var splitLeft, splitRight := ours.start != theirs.start, ours.end != theirs.end;
      var ourRight := Compare(ours.end, theirs.end) == Greater;
      Parts(Some(Item(biggerStart, smallerEnd)),
            if splitLeft && ours.start == smallerStart then Some(left) else None,
            if splitRight && ourRight then Some(right) else None,
            if splitLeft && ours.start != smallerStart then Some(left) else None,
            if splitRight && !ourRight then Some(right) else None)
  }

  predicate Holds(part: Option<Item>, x: Bound) {
    part.Some? && In(part.value, x)
  }

  predicate PartValid(part: Option<Item>) {
    part.Some? ==> Valid(part.value)
  }

  /** Two items that share a point. */
  predicate Overlap(a: Item, b: Item) {
    !Lt(a.end, b.start) && !Lt(b.end, a.start)
  }

  /** When the items overlap, the parts of a start comparison. */
  lemma LeftPart(a: Bound, b: Bound, x: Bound)
    requires StartKind(a) && StartKind(b) && Lt(a, b)
    ensures Valid(Item(a, Invert(b, false)))
    ensures In(Item(a, Invert(b, false)), x) <==> Le(a, x) && Lt(x, b)
    ensures Lt(Invert(b, false), b)
  {
    Linear();
    BeforeStart(b, x);
    BeforeStart(b, a);
    BeforeStart(b, Invert(b, false));
    hide Lt;
  }

  lemma RightPart(a: Bound, b: Bound, x: Bound)
    requires EndKind(a) && EndKind(b) && Lt(a, b)
    ensures Valid(Item(Invert(a, true), b))
    ensures In(Item(Invert(a, true), b), x) <==> Lt(a, x) && Le(x, b)
    ensures Lt(a, Invert(a, true))
  {
    Linear();
    AfterEnd(a, x);
    AfterEnd(a, b);
    AfterEnd(a, Invert(a, true));
    hide Lt;
  }

  /** Items share something exactly when the intersection finds a common part. */
  lemma IntersectFinds(ours: Item, theirs: Item)
    requires Valid(ours) && Valid(theirs)
    ensures Intersect(ours, theirs).inBoth.Some? <==> Overlap(ours, theirs)
  {
    CompareMeans(ours.end, theirs.start);
    CompareMeans(theirs.end, ours.start);
    hide Lt, Compare;
  }

  lemma OverlapShares(a: Item, b: Item)
    requires Valid(a) && Valid(b)
    ensures Overlap(a, b) ==> exists x :: In(a, x) && In(b, x)
    ensures forall x :: In(a, x) && In(b, x) ==> Overlap(a, b)
  {
    Linear();
    hide Lt;
    if Overlap(a, b) {
      var x := if Lt(a.start, b.start) then b.start else a.start;
      assert In(a, x) && In(b, x);
    }
  }

  /** What `a` has to the left of `b`, and to its right. */
  function LeftOf(a: Item, b: Item): Option<Item> {
    if Lt(a.start, b.start) then Some(Item(a.start, Invert(b.start, false))) else None
  }

  function RightOf(a: Item, b: Item): Option<Item> {
    if Lt(b.end, a.end) then Some(Item(Invert(b.end, true), a.end)) else None
  }

  function LaterStart(a: Item, b: Item): Bound { if Lt(a.start, b.start) then b.start else a.start }

  function EarlierEnd(a: Item, b: Item): Bound { if Lt(a.end, b.end) then a.end else b.end }

  lemma IntersectForm(ours: Item, theirs: Item)
    requires Overlap(ours, theirs)
    ensures Intersect(ours, theirs) ==
              Parts(Some(Item(LaterStart(ours, theirs), EarlierEnd(ours, theirs))),
                    LeftOf(ours, theirs), RightOf(ours, theirs), LeftOf(theirs, ours), RightOf(theirs, ours))
  {
    CompareMeans(ours.end, theirs.start);
    CompareMeans(theirs.end, ours.start);
    CompareMeans(ours.start, theirs.start);
    CompareMeans(ours.end, theirs.end);
    Linear();
    hide Lt, Compare, Invert;
  }

  lemma LeftOfMeans(a: Item, b: Item, x: Bound)
    requires Valid(a) && Valid(b) && Overlap(a, b)
    ensures PartValid(LeftOf(a, b))
    ensures Holds(LeftOf(a, b), x) <==> In(a, x) && Lt(x, b.start)
    ensures LeftOf(a, b).Some? ==> LeftOf(a, b).value.start == a.start && Lt(LeftOf(a, b).value.end, b.start)
  {
    if Lt(a.start, b.start) {
      LeftPart(a.start, b.start, x);
    }
    Linear();
    hide Lt, Invert, Valid;
  }

  lemma RightOfMeans(a: Item, b: Item, x: Bound)
    requires Valid(a) && Valid(b) && Overlap(a, b)
    ensures PartValid(RightOf(a, b))
    ensures Holds(RightOf(a, b), x) <==> In(a, x) && Lt(b.end, x)
    ensures RightOf(a, b).Some? ==> RightOf(a, b).value.end == a.end && Lt(b.end, RightOf(a, b).value.start)
  {
    if Lt(b.end, a.end) {
      RightPart(b.end, a.end, x);
    }
    Linear();
    hide Lt, Invert, Valid;
  }

  lemma SharedPartMeans(a: Item, b: Item, x: Bound)
    requires Valid(a) && Valid(b) && Overlap(a, b)
    ensures Valid(Item(LaterStart(a, b), EarlierEnd(a, b)))
    ensures In(Item(LaterStart(a, b), EarlierEnd(a, b)), x) <==> In(a, x) && In(b, x)
  {
    Linear();
    hide Lt;
  }

  /** The parts of two overlapping items: what they share, and on each side what one of
      them has alone. */
  lemma IntersectSplits(ours: Item, theirs: Item, x: Bound)
    requires Valid(ours) && Valid(theirs) && Overlap(ours, theirs)
    ensures var p := Intersect(ours, theirs);
            && p.inBoth.Some? && Valid(p.inBoth.value) && PartValid(p.oursLeft) && PartValid(p.oursRight)
            && PartValid(p.theirsLeft) && PartValid(p.theirsRight)
            && (Holds(p.inBoth, x) <==> In(ours, x) && In(theirs, x))
            && (Holds(p.oursLeft, x) <==> In(ours, x) && Lt(x, theirs.start))
            && (Holds(p.oursRight, x) <==> In(ours, x) && Lt(theirs.end, x))
            && (Holds(p.theirsLeft, x) <==> In(theirs, x) && Lt(x, ours.start))
            && (Holds(p.theirsRight, x) <==> In(theirs, x) && Lt(ours.end, x))
            && (p.theirsLeft.Some? ==>
                  p.theirsLeft.value.start == theirs.start && Lt(p.theirsLeft.value.end, ours.start))
            && (p.theirsRight.Some? ==>
                  p.theirsRight.value.end == theirs.end && Lt(ours.end, p.theirsRight.value.start))
  {
    hide Lt, Valid, In, Intersect, LeftOf, RightOf, LaterStart, EarlierEnd, Overlap;
    IntersectForm(ours, theirs);
    OverlapBoth(ours, theirs);
    SharedPartMeans(ours, theirs, x);
    LeftOfMeans(ours, theirs, x);
    RightOfMeans(ours, theirs, x);
    LeftOfMeans(theirs, ours, x);
    RightOfMeans(theirs, ours, x);
  }

  lemma OverlapBoth(a: Item, b: Item)
    ensures Overlap(a, b) <==> Overlap(b, a)
  {
    hide Lt;
  }

  // ---- keys in items ---------------------------------------------------------------------

  /** The order of keys: a proper prefix comes first, and else the first byte that differs
      decides. */
  lemma {:induction false} KeyOrder(a: Bytes, b: Bytes)
    ensures KeyLess(a, b) <==> a < b || exists k: nat :: DiffersAt(a, b, k) && a[k] < b[k]
    decreases |a|
  {
    if a == [] || b == [] {
      assert a < b <==> a == [] && b != [];
    } else if a[0] != b[0] {
      FirstDiffers(a, b);
    } else {
      var x, y := a[1..], b[1..];
      KeyOrder(x, y);
      assert KeyLess(a, b) <==> KeyLess(x, y);
      assert a == [a[0]] + x && b == [b[0]] + y;
      assert a < b <==> x < y;
      hide KeyLess;
      forall k: nat | DiffersAt(x, y, k) ensures DiffersAt(a, b, k + 1) {
        assert a[..k + 1] == [a[0]] + x[..k] && b[..k + 1] == [b[0]] + y[..k];
      }
      forall k: nat | DiffersAt(a, b, k) ensures k > 0 && DiffersAt(x, y, k - 1) {
        assert k > 0 ==> x[..k - 1] == a[..k][1..] && y[..k - 1] == b[..k][1..];
      }
      if exists k: nat :: DiffersAt(x, y, k) && x[k] < y[k] {
        var k: nat :| DiffersAt(x, y, k) && x[k] < y[k];
        assert DiffersAt(a, b, k + 1) && a[k + 1] < b[k + 1];
      }
      if exists k: nat :: DiffersAt(a, b, k) && a[k] < b[k] {
        var k: nat :| DiffersAt(a, b, k) && a[k] < b[k];
        assert DiffersAt(x, y, k - 1) && x[k - 1] < y[k - 1];
      }
    }
  }

  predicate DiffersAt(a: Bytes, b: Bytes, k: nat) {
    k < |a| && k < |b| && a[..k] == b[..k] && a[k] != b[k]
  }

  lemma FirstDiffers(a: Bytes, b: Bytes)
    requires a != [] && b != [] && a[0] != b[0]
    ensures DiffersAt(a, b, 0) && !(a < b)
    ensures forall k: nat :: DiffersAt(a, b, k) ==> k == 0
  {
    forall k: nat | DiffersAt(a, b, k) ensures k == 0 {
      SameHead(a, b, k);
    }
  }

  lemma SameHead(a: Bytes, b: Bytes, k: nat)
    ensures 0 < k <= |a| && k <= |b| && a[..k] == b[..k] ==> a[0] == b[0]
  {
    if 0 < k <= |a| && k <= |b| && a[..k] == b[..k] {
      assert a[0] == a[..k][0] && b[0] == b[..k][0];
    }
  }

  /** The keys from a start on. */
  predicate AfterStart(b: Bound, key: Bytes) {
    match b
    case UnboundedStart => true
    case Inclusive(v) => !KeyLess(key, v)
    case ExclusiveStart(v) => KeyLess(v, key)
    case _ => false
  }

  /** The keys up to an end. */
  predicate BeforeEnd(b: Bound, key: Bytes) {
    match b
    case UnboundedEnd => true
    case Inclusive(v) => !KeyLess(v, key)
    case ExclusiveEnd(v) => KeyLess(key, v)
    case _ => false
  }

  /** Which keys an item holds, by the kind of its two bounds. */
  lemma KeyIn(i: Item, key: Bytes)
    requires StartKind(i.start) && EndKind(i.end)
    ensures In(i, Inclusive(key)) <==> AfterStart(i.start, key) && BeforeEnd(i.end, key)
  {
    if !i.start.UnboundedStart? {
      KeyCases(i.start.v, key);
    }
    if !i.end.UnboundedEnd? {
      KeyCases(i.end.v, key);
    }
  }

  lemma KeyCases(a: Bytes, b: Bytes)
    ensures KeyLess(a, b) || KeyLess(b, a) || a == b
    ensures !(KeyLess(a, b) && KeyLess(b, a)) && !KeyLess(a, a)
  {
    KeyTotal(a, b);
    KeyIrreflexive(a);
    if KeyLess(a, b) && KeyLess(b, a) {
      KeyTransitive(a, b, a);
    }
  }
}
