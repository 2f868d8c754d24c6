/** Merging one conditional subquery into a map of conditional subqueries: the new item is
    cut up along the existing ones. */
module QueryMerge {
  import opened Wrappers
  import opened QueryRange

  /** One conditional branch. Merging two branches is a parameter. */
  datatype Entry<B> = Entry(item: Item, branch: B)

  /** Insertion into the index map: an equal item is overwritten in place. */
  function Insert<B>(m: seq<Entry<B>>, item: Item, branch: B): seq<Entry<B>> {
    if m == [] then [Entry(item, branch)]
    else if m[0].item == item then [Entry(item, branch)] + m[1..]
    else [m[0]] + Insert(m[1..], item, branch)
  }

  /** The first branch whose item contains the point. */
  function Lookup<B>(m: seq<Entry<B>>, x: Bound): Option<B> {
    if m == [] then None else if In(m[0].item, x) then Some(m[0].branch) else Lookup(m[1..], x)
  }

  predicate AllValid<B>(m: seq<Entry<B>>) {
    forall j :: 0 <= j < |m| ==> Valid(m[j].item)
  }

  predicate PairwiseApart<B>(m: seq<Entry<B>>) {
    forall a, b :: 0 <= a < b < |m| ==> !Overlap(m[a].item, m[b].item)
  }

  /** What a point should find after the merge. */
  function Expected<B>(origs: seq<Entry<B>>, incoming: Item, merge: (B, B) -> B, branch: B, x: Bound): Option<B> {
    match Lookup(origs, x)
    case Some(b) => Some(if In(incoming, x) then merge(b, branch) else b)
    case None => if In(incoming, x) then Some(branch) else None
  }

  // ---- lists of entries --------------------------------------------------------------

  lemma {:induction false} InsertFresh<B>(m: seq<Entry<B>>, item: Item, branch: B)
    requires forall j :: 0 <= j < |m| ==> m[j].item != item
    ensures Insert(m, item, branch) == m + [Entry(item, branch)]
  {
    if m != [] {
      InsertFresh(m[1..], item, branch);
      assert m + [Entry(item, branch)] == [m[0]] + (m[1..] + [Entry(item, branch)]);
    } else {
      assert m + [Entry(item, branch)] == [Entry(item, branch)];
    }
  }

  lemma OverlapSelf(i: Item)
    requires Valid(i)
    ensures Overlap(i, i)
  {
    Linear();
    hide Lt;
  }

  /** Inserting entries that are apart from everything before them appends them. */
  method InsertAll<B>(m: seq<Entry<B>>, more: seq<Entry<B>>) returns (r: seq<Entry<B>>)
    ensures AllValid(m + more) && PairwiseApart(m + more) ==> r == m + more
  {
    hide Valid, Overlap, Insert;
    ghost var apart := AllValid(m + more) && PairwiseApart(m + more);
    r := m;
    var i := 0;
    while i < |more|
      invariant 0 <= i <= |more| && (apart ==> r == m + more[..i])
    {
      if apart {
        FreshItem(m, more, i);
        InsertFresh(r, more[i].item, more[i].branch);
      }
      r := Insert(r, more[i].item, more[i].branch);
      i := i + 1;
    }
    assert more[..i] == more;
  }

  lemma FreshItem<B>(m: seq<Entry<B>>, more: seq<Entry<B>>, i: nat)
    requires AllValid(m + more) && PairwiseApart(m + more) && i < |more|
    ensures forall j :: 0 <= j < |m + more[..i]| ==> (m + more[..i])[j].item != more[i].item
  {
    hide Valid, Overlap;
    var all, before, e := m + more, m + more[..i], more[i];
    assert all[|m| + i] == e;
    forall j | 0 <= j < |before| ensures before[j].item != e.item {
      assert before[j] == all[j];
      OverlapSelf(e.item);
    }
  }

  lemma {:induction false} LookupMeans<B>(m: seq<Entry<B>>, x: Bound)
    ensures Lookup(m, x).Some? <==> exists j :: 0 <= j < |m| && In(m[j].item, x)
    ensures Lookup(m, x).Some? ==> exists j :: 0 <= j < |m| && In(m[j].item, x) && Lookup(m, x) == Some(m[j].branch)
  {
    if m != [] && !In(m[0].item, x) {
      LookupMeans(m[1..], x);
      if Lookup(m[1..], x).Some? {
        var j :| 0 <= j < |m[1..]| && In(m[1..][j].item, x) && Lookup(m[1..], x) == Some(m[1..][j].branch);
        assert m[j + 1] == m[1..][j];
      }
      forall j | 0 <= j < |m| && In(m[j].item, x) ensures Lookup(m[1..], x).Some? {
        assert m[1..][j - 1] == m[j];
      }
    }
  }

  /** In a list of apart items a point finds the one entry that contains it. */
  lemma LookupApart<B>(m: seq<Entry<B>>, x: Bound, j: nat)
    requires AllValid(m) && PairwiseApart(m) && j < |m| && In(m[j].item, x)
    ensures Lookup(m, x) == Some(m[j].branch)
  {
    LookupMeans(m, x);
    hide Lookup, Overlap, In, Valid;
    var i :| 0 <= i < |m| && In(m[i].item, x) && Lookup(m, x) == Some(m[i].branch);
    SharedIsSame(m, i, j, x);
  }

  lemma SharedIsSame<B>(m: seq<Entry<B>>, i: nat, j: nat, x: Bound)
    requires AllValid(m) && PairwiseApart(m) && i < |m| && j < |m| && In(m[i].item, x) && In(m[j].item, x)
    ensures i == j
  {
    hide Overlap, In, Valid;
    OverlapShares(m[i].item, m[j].item);
    OverlapShares(m[j].item, m[i].item);
  }

  // ---- the state between two existing items --------------------------------------------

  predicate InSome(items: seq<Item>, x: Bound) {
    exists a :: 0 <= a < |items| && In(items[a], x)
  }

  predicate InEntries<B>(m: seq<Entry<B>>, x: Bound) {
    exists a :: 0 <= a < |m| && In(m[a].item, x)
  }

  /** The point is in one of the first `i` existing items. */
  predicate InFirst<B>(origs: seq<Entry<B>>, i: nat, x: Bound) {
    exists j :: 0 <= j < |origs| && j < i && In(origs[j].item, x)
  }

  /** The start of an item already passed lies between two pieces. */
  predicate Between<B>(origs: seq<Entry<B>>, i: nat, a: Item, b: Item) {
    exists j :: 0 <= j < |origs| && j < i && Lt(a.end, origs[j].item.start) && Lt(origs[j].item.start, b.start)
  }

  predicate PiecesValid(pieces: seq<Item>) {
    forall a :: 0 <= a < |pieces| ==> Valid(pieces[a])
  }

  predicate Separated<B>(origs: seq<Entry<B>>, i: nat, pieces: seq<Item>) {
    forall a, b :: 0 <= a < b < |pieces| ==> Between(origs, i, pieces[a], pieces[b])
  }

  /** The pieces are what the passed items leave of the new item. */
  ghost predicate PiecesCover<B>(origs: seq<Entry<B>>, i: nat, incoming: Item, pieces: seq<Item>) {
    forall x :: InSome(pieces, x) <==> In(incoming, x) && !InFirst(origs, i, x)
  }

  predicate PiecesState<B>(origs: seq<Entry<B>>, i: nat, pieces: seq<Item>) {
    PiecesValid(pieces) && Separated(origs, i, pieces)
  }

  /** An entry has the right branch at this point. */
  ghost predicate Right<B>(origs: seq<Entry<B>>, i: nat, incoming: Item, merge: (B, B) -> B, branch: B,
                           e: Entry<B>, x: Bound)
  {
    exists j :: 0 <= j < |origs| && j < i && In(origs[j].item, x)
                && e.branch == if In(incoming, x) then merge(origs[j].branch, branch) else origs[j].branch
  }

  /** The merged entries cover the passed items, each point with the right branch. */
  ghost predicate MergedState<B>(origs: seq<Entry<B>>, i: nat, incoming: Item, merge: (B, B) -> B, branch: B,
                                 merged: seq<Entry<B>>)
  {
    && AllValid(merged) && PairwiseApart(merged)
    && (forall x, a :: 0 <= a < |merged| && In(merged[a].item, x) ==>
          Right(origs, i, incoming, merge, branch, merged[a], x))
    && (forall x :: InFirst(origs, i, x) ==> InEntries(merged, x))
  }

  predicate Admissible<B>(origs: seq<Entry<B>>, incoming: Item) {
    AllValid(origs) && PairwiseApart(origs) && Valid(incoming)
  }

  lemma FirstStep<B>(origs: seq<Entry<B>>, i: nat, x: Bound)
    requires i < |origs|
    ensures InFirst(origs, i + 1, x) <==> InFirst(origs, i, x) || In(origs[i].item, x)
  {
    hide In;
  }

  lemma NotInFirst<B>(origs: seq<Entry<B>>, i: nat, x: Bound)
    requires AllValid(origs) && PairwiseApart(origs) && i < |origs| && In(origs[i].item, x)
    ensures !InFirst(origs, i, x)
  {
    hide In, Valid, Overlap;
    forall j | 0 <= j < i ensures !In(origs[j].item, x) {
      OverlapShares(origs[j].item, origs[i].item);
    }
  }

  /** An existing item overlaps at most one piece: between two pieces lies the start of an
      item it is apart from, which it would contain. */
  lemma OneHit<B>(origs: seq<Entry<B>>, i: nat, pieces: seq<Item>, a: nat, b: nat)
    requires AllValid(origs) && PairwiseApart(origs) && PiecesState(origs, i, pieces)
    requires i < |origs| && a < b < |pieces| && Overlap(origs[i].item, pieces[a])
    ensures !Overlap(origs[i].item, pieces[b])
  {
    var o := origs[i].item;
    assert Between(origs, i, pieces[a], pieces[b]);
    var j :| 0 <= j < |origs| && j < i && Lt(pieces[a].end, origs[j].item.start)
             && Lt(origs[j].item.start, pieces[b].start);
    var q := origs[j].item;
    assert Valid(q) && Valid(o) && !Overlap(q, o);
    NotAcross(o, q, pieces[a], pieces[b]);
  }

  lemma NotAcross(o: Item, q: Item, a: Item, b: Item)
    requires Valid(o) && Valid(q) && !Overlap(q, o)
    requires Lt(a.end, q.start) && Lt(q.start, b.start) && Overlap(o, a)
    ensures !Overlap(o, b)
  {
    Linear();
    hide Lt;
  }

  // ---- an existing item that meets no piece --------------------------------------------

  lemma SeparatedGrows<B>(origs: seq<Entry<B>>, i: nat, pieces: seq<Item>)
    requires Separated(origs, i, pieces)
    ensures Separated(origs, i + 1, pieces)
  {
    hide Lt;
    forall a, b | 0 <= a < b < |pieces| ensures Between(origs, i + 1, pieces[a], pieces[b]) {
      assert Between(origs, i, pieces[a], pieces[b]);
    }
  }

  lemma MissPieces<B>(origs: seq<Entry<B>>, i: nat, incoming: Item, pieces: seq<Item>)
    requires Admissible(origs, incoming) && i < |origs|
    requires PiecesState(origs, i, pieces) && PiecesCover(origs, i, incoming, pieces)
    requires forall a :: 0 <= a < |pieces| ==> !Overlap(origs[i].item, pieces[a])
    ensures PiecesState(origs, i + 1, pieces) && PiecesCover(origs, i + 1, incoming, pieces)
    ensures forall x :: In(origs[i].item, x) ==> !In(incoming, x)
  {
    hide In, Valid, Overlap, InFirst, Separated;
    SeparatedGrows(origs, i, pieces);
    forall x ensures InSome(pieces, x) ==> !In(origs[i].item, x) {
      if InSome(pieces, x) {
        var a :| 0 <= a < |pieces| && In(pieces[a], x);
        OverlapShares(origs[i].item, pieces[a]);
      }
    }
    forall x ensures InFirst(origs, i + 1, x) <==> InFirst(origs, i, x) || In(origs[i].item, x) {
      FirstStep(origs, i, x);
    }
    forall x | In(origs[i].item, x) ensures !In(incoming, x) {
      NotInFirst(origs, i, x);
      assert !InSome(pieces, x);
    }
  }

  /** A merged entry stays right when more items are passed. */
  lemma RightGrows<B>(origs: seq<Entry<B>>, i: nat, incoming: Item, merge: (B, B) -> B, branch: B,
                      e: Entry<B>, x: Bound)
    requires Right(origs, i, incoming, merge, branch, e, x)
    ensures Right(origs, i + 1, incoming, merge, branch, e, x) && InFirst(origs, i, x)
  {
    hide In;
  }

  /** An entry inside the next existing item, with its branch, is right. */
  lemma RightNew<B>(origs: seq<Entry<B>>, i: nat, incoming: Item, merge: (B, B) -> B, branch: B,
                    e: Entry<B>, x: Bound)
    requires i < |origs| && In(origs[i].item, x)
    requires e.branch == if In(incoming, x) then merge(origs[i].branch, branch) else origs[i].branch
    ensures Right(origs, i + 1, incoming, merge, branch, e, x)
  {
    hide In;
  }

  /** Entries inside the next existing item, with the right branch, extend the map. */
  lemma MergedGrows<B>(origs: seq<Entry<B>>, i: nat, incoming: Item, merge: (B, B) -> B, branch: B,
                       merged: seq<Entry<B>>, more: seq<Entry<B>>)
    requires Admissible(origs, incoming) && i < |origs| && MergedState(origs, i, incoming, merge, branch, merged)
    requires AllValid(more) && PairwiseApart(more)
    requires forall x, a :: 0 <= a < |more| && In(more[a].item, x) ==>
               && In(origs[i].item, x)
               && more[a].branch == if In(incoming, x) then merge(origs[i].branch, branch) else origs[i].branch
    requires forall x :: In(origs[i].item, x) ==> InEntries(more, x)
    ensures MergedState(origs, i + 1, incoming, merge, branch, merged + more)
  {
    MoreApart(origs, i, incoming, merge, branch, merged, more);
    hide In, Valid, Overlap, PairwiseApart;
    var all, n := merged + more, |merged|;
    forall a | 0 <= a < |all| ensures Valid(all[a].item) {
      if a >= n { assert all[a] == more[a - n]; }
    }
    forall x, a | 0 <= a < |all| && In(all[a].item, x) ensures Right(origs, i + 1, incoming, merge, branch, all[a], x) {
      if a < n {
        assert all[a] == merged[a];
        RightGrows(origs, i, incoming, merge, branch, merged[a], x);
      } else {
        assert all[a] == more[a - n] && In(more[a - n].item, x);
        RightNew(origs, i, incoming, merge, branch, all[a], x);
      }
    }
    forall x | InFirst(origs, i + 1, x) ensures InEntries(all, x) {
      FirstStep(origs, i, x);
      if InFirst(origs, i, x) {
        var a :| 0 <= a < n && In(merged[a].item, x);
        assert all[a] == merged[a];
      } else {
        var a :| 0 <= a < |more| && In(more[a].item, x);
        assert all[n + a] == more[a];
      }
    }
  }

  lemma MoreApart<B>(origs: seq<Entry<B>>, i: nat, incoming: Item, merge: (B, B) -> B, branch: B,
                     merged: seq<Entry<B>>, more: seq<Entry<B>>)
    requires Admissible(origs, incoming) && i < |origs| && MergedState(origs, i, incoming, merge, branch, merged)
    requires AllValid(more) && PairwiseApart(more)
    requires forall x, a :: 0 <= a < |more| && In(more[a].item, x) ==> In(origs[i].item, x)
    ensures PairwiseApart(merged + more)
  {
    hide In, Valid, Overlap;
    var all, n := merged + more, |merged|;
    forall a, b | 0 <= a < b < |all| ensures !Overlap(all[a].item, all[b].item) {
      if b < n {
        assert all[a] == merged[a] && all[b] == merged[b];
      } else if a >= n {
        assert all[a] == more[a - n] && all[b] == more[b - n];
      } else {
        assert all[a] == merged[a] && all[b] == more[b - n];
        OverlapShares(merged[a].item, more[b - n].item);
        forall x | In(merged[a].item, x) ensures !In(more[b - n].item, x) {
          RightGrows(origs, i, incoming, merge, branch, merged[a], x);
          if In(origs[i].item, x) {
            NotInFirst(origs, i, x);
          }
        }
      }
    }
  }

  /** The item is kept whole. */
  lemma MissMerged<B>(origs: seq<Entry<B>>, i: nat, incoming: Item, merge: (B, B) -> B, branch: B,
                      merged: seq<Entry<B>>)
    requires Admissible(origs, incoming) && i < |origs| && MergedState(origs, i, incoming, merge, branch, merged)
    requires forall x :: In(origs[i].item, x) ==> !In(incoming, x)
    ensures MergedState(origs, i + 1, incoming, merge, branch, merged + [origs[i]])
  {
    hide In, Valid, Overlap, MergedState;
    forall x | In(origs[i].item, x) ensures InEntries([origs[i]], x) {
      assert In([origs[i]][0].item, x);
    }
    MergedGrows(origs, i, incoming, merge, branch, merged, [origs[i]]);
  }

  // ---- an existing item that meets one piece ---------------------------------------------

  function OptEntry<B>(part: Option<Item>, branch: B): seq<Entry<B>> {
    if part.Some? then [Entry(part.value, branch)] else []
  }

  function OptItem(part: Option<Item>): seq<Item> {
    if part.Some? then [part.value] else []
  }

  /** What an existing item becomes when a piece meets it. */
  function Shared<B>(orig: Entry<B>, piece: Item, merge: (B, B) -> B, branch: B): seq<Entry<B>> {
    var p := Intersect(orig.item, piece);
    OptEntry(p.inBoth, merge(orig.branch, branch)) + OptEntry(p.oursLeft, orig.branch)
    + OptEntry(p.oursRight, orig.branch)
  }

  /** What is left of the piece. */
  function Rest(orig: Item, piece: Item): seq<Item> {
    var p := Intersect(orig, piece);
    OptItem(p.theirsLeft) + OptItem(p.theirsRight)
  }

  function Replaced(pieces: seq<Item>, h: nat, rest: seq<Item>): seq<Item>
    requires h < |pieces|
  {
    pieces[..h] + rest + pieces[h + 1..]
  }

  /** The remainder of a piece: its points outside the item, cut at the item. */
  lemma RestMeans(o: Item, piece: Item)
    requires Valid(o) && Valid(piece) && Overlap(o, piece)
    ensures var rest := Rest(o, piece);
            && PiecesValid(rest) && |rest| <= 2
            && (forall x :: InSome(rest, x) <==> In(piece, x) && !In(o, x))
            && (forall a :: 0 <= a < |rest| ==> Le(piece.start, rest[a].start) && Le(rest[a].end, piece.end))
            && (|rest| == 2 ==> Lt(rest[0].end, o.start) && Lt(o.start, rest[1].start))
  {
    var p, rest := Intersect(o, piece), Rest(o, piece);
    IntersectSplits(o, piece, o.start);
    forall x ensures InSome(rest, x) <==> In(piece, x) && !In(o, x) {
      IntersectSplits(o, piece, x);
      RestPoint(p, rest, x);
      Linear();
      hide Intersect, Lt;
    }
    Linear();
    hide Intersect, Lt;
  }

  lemma RestPoint(p: Parts, rest: seq<Item>, x: Bound)
    requires rest == OptItem(p.theirsLeft) + OptItem(p.theirsRight)
    ensures InSome(rest, x) <==> Holds(p.theirsLeft, x) || Holds(p.theirsRight, x)
  {
    hide In;
    var l := |OptItem(p.theirsLeft)|;
    if Holds(p.theirsLeft, x) {
      assert In(rest[0], x);
    }
    if Holds(p.theirsRight, x) {
      assert In(rest[l], x);
    }
  }

  lemma ReplacedSome(pieces: seq<Item>, h: nat, rest: seq<Item>, x: Bound)
    requires h < |pieces|
    ensures InSome(Replaced(pieces, h, rest), x) <==>
              InSome(rest, x) || exists a :: 0 <= a < |pieces| && a != h && In(pieces[a], x)
  {
    hide In;
    var all, k := Replaced(pieces, h, rest), |rest|;
    if InSome(rest, x) {
      var a :| 0 <= a < |rest| && In(rest[a], x);
      assert all[h + a] == rest[a];
    }
    forall a | 0 <= a < |pieces| && a != h && In(pieces[a], x) ensures InSome(all, x) {
      assert if a < h then all[a] == pieces[a] else all[a - 1 + k] == pieces[a];
    }
    if InSome(all, x) {
      var a :| 0 <= a < |all| && In(all[a], x);
      if a < h {
        assert all[a] == pieces[a];
      } else if a < h + k {
        assert all[a] == rest[a - h];
      } else {
        assert all[a] == pieces[a - k + 1];
      }
    }
  }

  lemma HitPieces<B>(origs: seq<Entry<B>>, i: nat, incoming: Item, pieces: seq<Item>, h: nat)
    requires Admissible(origs, incoming) && i < |origs| && h < |pieces|
    requires PiecesState(origs, i, pieces) && PiecesCover(origs, i, incoming, pieces)
    requires Overlap(origs[i].item, pieces[h])
    requires forall a :: 0 <= a < |pieces| && a != h ==> !Overlap(origs[i].item, pieces[a])
    ensures PiecesCover(origs, i + 1, incoming, Replaced(pieces, h, Rest(origs[i].item, pieces[h])))
    ensures forall x :: In(origs[i].item, x) ==> (In(incoming, x) <==> In(pieces[h], x))
  {
    var o, rest := origs[i].item, Rest(origs[i].item, pieces[h]);
    hide In, Valid, Overlap, InFirst, Separated, Rest;
    RestMeans(o, pieces[h]);
    forall x ensures InFirst(origs, i + 1, x) <==> InFirst(origs, i, x) || In(o, x) {
      FirstStep(origs, i, x);
    }
    forall x, a | 0 <= a < |pieces| && a != h && In(pieces[a], x) ensures !In(o, x) {
      OverlapShares(o, pieces[a]);
    }
    forall x | In(o, x) ensures In(incoming, x) <==> In(pieces[h], x) {
      NotInFirst(origs, i, x);
      assert InSome(pieces, x) <==> In(incoming, x);
    }
    forall x ensures InSome(Replaced(pieces, h, rest), x) <==> In(incoming, x) && !InFirst(origs, i + 1, x) {
      ReplacedSome(pieces, h, rest, x);
      assert InSome(pieces, x) <==> In(incoming, x) && !InFirst(origs, i, x);
    }
  }

  /** Where a piece of the replaced list comes from. */
  function Source(h: nat, k: nat, a: nat): nat {
    if a < h then a else if a < h + k then h else a - k + 1
  }

  lemma ReplacedAt(pieces: seq<Item>, h: nat, rest: seq<Item>, a: nat)
    requires h < |pieces| && a < |Replaced(pieces, h, rest)|
    ensures var s := Source(h, |rest|, a);
            && s < |pieces|
            && Replaced(pieces, h, rest)[a] == if h <= a < h + |rest| then rest[a - h] else pieces[s]
  {
  }

  lemma HitState<B>(origs: seq<Entry<B>>, i: nat, pieces: seq<Item>, h: nat)
    requires AllValid(origs) && i < |origs| && h < |pieces| && PiecesState(origs, i, pieces)
    requires Overlap(origs[i].item, pieces[h])
    ensures PiecesState(origs, i + 1, Replaced(pieces, h, Rest(origs[i].item, pieces[h])))
  {
    var o, rest := origs[i].item, Rest(origs[i].item, pieces[h]);
    hide In, Valid, Overlap, Rest, Lt, Replaced, Between, InSome;
    RestMeans(o, pieces[h]);
    var all := Replaced(pieces, h, rest);
    forall a | 0 <= a < |all| ensures Valid(all[a]) {
      ReplacedAt(pieces, h, rest, a);
    }
    forall a, b | 0 <= a < b < |all| ensures Between(origs, i + 1, all[a], all[b]) {
      HitBetween(origs, i, pieces, h, rest, a, b);
    }
  }

  lemma HitBetween<B>(origs: seq<Entry<B>>, i: nat, pieces: seq<Item>, h: nat, rest: seq<Item>, a: nat, b: nat)
    requires i < |origs| && h < |pieces| && Separated(origs, i, pieces) && |rest| <= 2
    requires forall c :: 0 <= c < |rest| ==> Le(pieces[h].start, rest[c].start) && Le(rest[c].end, pieces[h].end)
    requires |rest| == 2 ==> Lt(rest[0].end, origs[i].item.start) && Lt(origs[i].item.start, rest[1].start)
    requires a < b < |Replaced(pieces, h, rest)|
    ensures Between(origs, i + 1, Replaced(pieces, h, rest)[a], Replaced(pieces, h, rest)[b])
  {
    ReplacedAt(pieces, h, rest, a);
    ReplacedAt(pieces, h, rest, b);
    var c, d := Source(h, |rest|, a), Source(h, |rest|, b);
    hide Lt, Replaced;
    if c < d {
      var x, y := Replaced(pieces, h, rest)[a], Replaced(pieces, h, rest)[b];
      assert Le(x.end, pieces[c].end) && Le(pieces[d].start, y.start);
      hide Between;
      assert Between(origs, i, pieces[c], pieces[d]);
      BetweenShrinks(origs, i, pieces[c], pieces[d], x, y);
    }
  }

  lemma BetweenShrinks<B>(origs: seq<Entry<B>>, i: nat, a: Item, b: Item, c: Item, d: Item)
    requires Between(origs, i, a, b) && Le(c.end, a.end) && Le(b.start, d.start)
    ensures Between(origs, i + 1, c, d)
  {
    Linear();
    hide Lt;
    var j :| 0 <= j < |origs| && j < i && Lt(a.end, origs[j].item.start) && Lt(origs[j].item.start, b.start);
    assert Lt(c.end, origs[j].item.start) && Lt(origs[j].item.start, d.start);
  }

  /** The parts of a hit item: each point of the item is in one of them, with the right
      branch. */
  lemma SharedMeans<B>(orig: Entry<B>, piece: Item, merge: (B, B) -> B, branch: B)
    requires Valid(orig.item) && Valid(piece) && Overlap(orig.item, piece)
    ensures var more := Shared(orig, piece, merge, branch);
            && AllValid(more) && PairwiseApart(more)
            && (forall x, a :: 0 <= a < |more| && In(more[a].item, x) ==>
                  && In(orig.item, x)
                  && more[a].branch == if In(piece, x) then merge(orig.branch, branch) else orig.branch)
            && (forall x :: In(orig.item, x) ==> InEntries(more, x))
  {
    var more := Shared(orig, piece, merge, branch);
    hide In, Valid, Overlap, Shared, InEntries;
    SharedValid(orig, piece, merge, branch);
    forall x, a | 0 <= a < |more| && In(more[a].item, x)
      ensures In(orig.item, x)
      ensures more[a].branch == if In(piece, x) then merge(orig.branch, branch) else orig.branch
    {
      SharedPoint(orig, piece, merge, branch, x);
    }
    forall x | In(orig.item, x) ensures InEntries(more, x) {
      SharedPoint(orig, piece, merge, branch, x);
    }
    forall a, b | 0 <= a < b < |more| ensures !Overlap(more[a].item, more[b].item) {
      OverlapShares(more[a].item, more[b].item);
      forall x | In(more[a].item, x) ensures !In(more[b].item, x) {
        SharedPoint(orig, piece, merge, branch, x);
      }
    }
  }

  lemma SharedValid<B>(orig: Entry<B>, piece: Item, merge: (B, B) -> B, branch: B)
    requires Valid(orig.item) && Valid(piece) && Overlap(orig.item, piece)
    ensures AllValid(Shared(orig, piece, merge, branch))
  {
    IntersectSplits(orig.item, piece, piece.start);
    hide Valid, Intersect;
  }

  lemma SharedPoint<B>(orig: Entry<B>, piece: Item, merge: (B, B) -> B, branch: B, x: Bound)
    requires Valid(orig.item) && Valid(piece) && Overlap(orig.item, piece)
    ensures var more := Shared(orig, piece, merge, branch);
            && (forall a :: 0 <= a < |more| && In(more[a].item, x) ==>
                  && In(orig.item, x)
                  && more[a].branch == if In(piece, x) then merge(orig.branch, branch) else orig.branch)
            && (In(orig.item, x) ==> InEntries(more, x))
            && (forall a, b :: 0 <= a < b < |more| ==> !(In(more[a].item, x) && In(more[b].item, x)))
  {
    var p, more := Intersect(orig.item, piece), Shared(orig, piece, merge, branch);
    IntersectSplits(orig.item, piece, x);
    OutsideSides(piece, x);
    SharedForm(p, orig, merge, branch);
    hide Intersect, In, Shared, OptEntry, Valid, Lt;
    var l := if p.oursLeft.Some? then 2 else 1;
    if In(orig.item, x) {
      assert In(more[if Holds(p.inBoth, x) then 0 else if Holds(p.oursLeft, x) then 1 else l].item, x);
    }
  }

  /** A point outside an interval is on one side of it, a point inside on neither. */
  lemma OutsideSides(i: Item, x: Bound)
    requires Valid(i)
    ensures In(i, x) <==> !Lt(x, i.start) && !Lt(i.end, x)
    ensures !(Lt(x, i.start) && Lt(i.end, x))
  {
    Linear();
    hide Lt;
  }

  /** The entries of a hit item, one by one. */
  lemma SharedForm<B>(p: Parts, orig: Entry<B>, merge: (B, B) -> B, branch: B)
    requires p.inBoth.Some?
    ensures var more := OptEntry(p.inBoth, merge(orig.branch, branch)) + OptEntry(p.oursLeft, orig.branch)
                        + OptEntry(p.oursRight, orig.branch);
            var l := if p.oursLeft.Some? then 2 else 1;
            && |more| == l + (if p.oursRight.Some? then 1 else 0)
            && more[0] == Entry(p.inBoth.value, merge(orig.branch, branch))
            && (p.oursLeft.Some? ==> more[1] == Entry(p.oursLeft.value, orig.branch))
            && (p.oursRight.Some? ==> more[l] == Entry(p.oursRight.value, orig.branch))
  {
  }

  lemma HitMerged<B>(origs: seq<Entry<B>>, i: nat, incoming: Item, merge: (B, B) -> B, branch: B, merged: seq<Entry<B>>,
                     piece: Item)
    requires Admissible(origs, incoming) && i < |origs| && MergedState(origs, i, incoming, merge, branch, merged)
    requires Valid(piece) && Overlap(origs[i].item, piece)
    requires forall x :: In(origs[i].item, x) ==> (In(incoming, x) <==> In(piece, x))
    ensures MergedState(origs, i + 1, incoming, merge, branch, merged + Shared(origs[i], piece, merge, branch))
  {
    hide In, Valid, Overlap, MergedState, Shared, PairwiseApart;
    assert Valid(origs[i].item);
    SharedMeans(origs[i], piece, merge, branch);
    MergedGrows(origs, i, incoming, merge, branch, merged, Shared(origs[i], piece, merge, branch));
  }

  // ---- the pieces that are left ----------------------------------------------------------

  function AsEntries<B>(pieces: seq<Item>, branch: B): (m: seq<Entry<B>>)
    ensures |m| == |pieces|
    ensures forall a :: 0 <= a < |m| ==> m[a] == Entry(pieces[a], branch)
  {
    seq(|pieces|, a requires 0 <= a < |pieces| => Entry(pieces[a], branch))
  }

  lemma SeparatedApart<B>(origs: seq<Entry<B>>, i: nat, pieces: seq<Item>, a: nat, b: nat)
    requires Separated(origs, i, pieces) && a < b < |pieces|
    ensures !Overlap(pieces[a], pieces[b])
  {
    assert Between(origs, i, pieces[a], pieces[b]);
    Linear();
    hide Lt;
  }

  lemma FinalApart<B>(origs: seq<Entry<B>>, incoming: Item, merge: (B, B) -> B, branch: B, merged: seq<Entry<B>>,
                      pieces: seq<Item>)
    requires MergedState(origs, |origs|, incoming, merge, branch, merged)
    requires PiecesState(origs, |origs|, pieces) && PiecesCover(origs, |origs|, incoming, pieces)
    ensures AllValid(merged + AsEntries(pieces, branch)) && PairwiseApart(merged + AsEntries(pieces, branch))
  {
    hide In, Valid, Overlap, Between;
    var all, n := merged + AsEntries(pieces, branch), |merged|;
    forall a | 0 <= a < |all| ensures Valid(all[a].item) {
      if a >= n { assert all[a].item == pieces[a - n]; }
    }
    forall a, b | 0 <= a < b < |all| ensures !Overlap(all[a].item, all[b].item) {
      if b < n {
        assert all[a] == merged[a] && all[b] == merged[b];
      } else if a >= n {
        assert all[a].item == pieces[a - n] && all[b].item == pieces[b - n];
        SeparatedApart(origs, |origs|, pieces, a - n, b - n);
      } else {
        assert all[a] == merged[a] && all[b].item == pieces[b - n];
        OverlapShares(merged[a].item, pieces[b - n]);
        forall x | In(merged[a].item, x) ensures !In(pieces[b - n], x) {
          RightGrows(origs, |origs|, incoming, merge, branch, merged[a], x);
          assert !InSome(pieces, x);
        }
      }
    }
  }

  lemma EntryInFirst<B>(origs: seq<Entry<B>>, i: nat, incoming: Item, merge: (B, B) -> B, branch: B,
                        merged: seq<Entry<B>>, a: nat, x: Bound)
    requires MergedState(origs, i, incoming, merge, branch, merged) && a < |merged|
    ensures In(merged[a].item, x) ==> InFirst(origs, i, x)
  {
    hide In, Valid, Overlap;
    if In(merged[a].item, x) {
      RightGrows(origs, i, incoming, merge, branch, merged[a], x);
    }
  }

  /** Every point finds what it should. */
  lemma FinalLookup<B>(origs: seq<Entry<B>>, incoming: Item, merge: (B, B) -> B, branch: B, merged: seq<Entry<B>>,
                       pieces: seq<Item>, x: Bound)
    requires Admissible(origs, incoming) && MergedState(origs, |origs|, incoming, merge, branch, merged)
    requires PiecesState(origs, |origs|, pieces) && PiecesCover(origs, |origs|, incoming, pieces)
    ensures Lookup(merged + AsEntries(pieces, branch), x) == Expected(origs, incoming, merge, branch, x)
  {
    hide In, Valid, Overlap, Between, Lookup;
    var all, n := merged + AsEntries(pieces, branch), |merged|;
    FinalApart(origs, incoming, merge, branch, merged, pieces);
    LookupMeans(origs, x);
    LookupMeans(all, x);
    if InFirst(origs, |origs|, x) {
      var a :| 0 <= a < n && In(merged[a].item, x);
      assert Right(origs, |origs|, incoming, merge, branch, merged[a], x);
      var j :| 0 <= j < |origs| && In(origs[j].item, x)
               && merged[a].branch == if In(incoming, x) then merge(origs[j].branch, branch) else origs[j].branch;
      LookupApart(origs, x, j);
      assert all[a] == merged[a];
      LookupApart(all, x, a);
    } else if In(incoming, x) {
      assert InSome(pieces, x);
      var a :| 0 <= a < |pieces| && In(pieces[a], x);
      assert all[n + a] == Entry(pieces[a], branch);
      LookupApart(all, x, n + a);
    } else {
      forall a | 0 <= a < |all| ensures !In(all[a].item, x) {
        if a < n {
          assert all[a] == merged[a];
          EntryInFirst(origs, |origs|, incoming, merge, branch, merged, a, x);
        } else {
          assert all[a].item == pieces[a - n];
          assert !InSome(pieces, x);
        }
      }
    }
  }

  // ---- the loops -------------------------------------------------------------------------

  /** Everything known between two existing items. */
  ghost predicate State<B>(origs: seq<Entry<B>>, i: nat, incoming: Item, merge: (B, B) -> B, branch: B,
                           merged: seq<Entry<B>>, pieces: seq<Item>)
  {
    && MergedState(origs, i, incoming, merge, branch, merged)
    && PiecesState(origs, i, pieces) && PiecesCover(origs, i, incoming, pieces)
  }

  lemma StateStart<B>(origs: seq<Entry<B>>, incoming: Item, merge: (B, B) -> B, branch: B)
    requires Admissible(origs, incoming)
    ensures State(origs, 0, incoming, merge, branch, [], [incoming])
  {
    hide In, Valid;
    forall x ensures InSome([incoming], x) <==> In(incoming, x) {
      assert [incoming][0] == incoming;
    }
  }

  lemma StateMiss<B>(origs: seq<Entry<B>>, i: nat, incoming: Item, merge: (B, B) -> B, branch: B,
                     merged: seq<Entry<B>>, pieces: seq<Item>)
    requires Admissible(origs, incoming) && i < |origs| && State(origs, i, incoming, merge, branch, merged, pieces)
    requires forall a :: 0 <= a < |pieces| ==> !Overlap(origs[i].item, pieces[a])
    ensures State(origs, i + 1, incoming, merge, branch, merged + [origs[i]], pieces)
  {
    hide In, Overlap, MergedState, PiecesState, PiecesCover, Admissible;
    MissPieces(origs, i, incoming, pieces);
    MissMerged(origs, i, incoming, merge, branch, merged);
  }

  lemma StateHit<B>(origs: seq<Entry<B>>, i: nat, incoming: Item, merge: (B, B) -> B, branch: B,
                    merged: seq<Entry<B>>, pieces: seq<Item>, h: nat)
    requires Admissible(origs, incoming) && i < |origs| && h < |pieces|
    requires State(origs, i, incoming, merge, branch, merged, pieces)
    requires Overlap(origs[i].item, pieces[h])
    requires forall a :: 0 <= a < |pieces| && a != h ==> !Overlap(origs[i].item, pieces[a])
    ensures State(origs, i + 1, incoming, merge, branch, merged + Shared(origs[i], pieces[h], merge, branch),
                  Replaced(pieces, h, Rest(origs[i].item, pieces[h])))
  {
    assert Valid(pieces[h]);
    assert AllValid(origs);
    hide In, Overlap, MergedState, PiecesState, PiecesCover, Admissible, Shared, Rest, Replaced, AllValid;
    HitPieces(origs, i, incoming, pieces, h);
    HitState(origs, i, pieces, h);
    HitMerged(origs, i, incoming, merge, branch, merged, pieces[h]);
  }

  lemma OnlyHit<B>(origs: seq<Entry<B>>, i: nat, incoming: Item, merge: (B, B) -> B, branch: B,
                   merged: seq<Entry<B>>, pieces: seq<Item>, h: nat)
    requires Admissible(origs, incoming) && i < |origs| && h < |pieces|
    requires State(origs, i, incoming, merge, branch, merged, pieces)
    requires Overlap(origs[i].item, pieces[h])
    ensures forall a :: 0 <= a < |pieces| && a != h ==> !Overlap(origs[i].item, pieces[a])
    ensures Valid(origs[i].item) && Valid(pieces[h])
  {
    hide Overlap, PiecesCover, MergedState, Valid;
    forall a | 0 <= a < |pieces| && a != h ensures !Overlap(origs[i].item, pieces[a]) {
      if h < a {
        OneHit(origs, i, pieces, h, a);
      } else if Overlap(origs[i].item, pieces[a]) {
        OneHit(origs, i, pieces, a, h);
      }
    }
  }

  lemma StateMerged<B>(origs: seq<Entry<B>>, i: nat, incoming: Item, merge: (B, B) -> B, branch: B,
                       merged: seq<Entry<B>>, pieces: seq<Item>)
    requires State(origs, i, incoming, merge, branch, merged, pieces)
    ensures AllValid(merged) && PairwiseApart(merged) && PiecesValid(pieces)
  {
    hide In, Overlap, Valid;
  }

  /** The pieces seen so far: none met the item and nothing changed, or one did. */
  ghost predicate Passing<B>(orig: Entry<B>, merge: (B, B) -> B, branch: B, merged: seq<Entry<B>>, pieces: seq<Item>,
                             c: nat, hit: bool, h: nat, m: seq<Entry<B>>, left: seq<Item>)
  {
    && c <= |pieces|
    && (forall a :: 0 <= a < c && !(hit && a == h) ==> !Overlap(orig.item, pieces[a]))
    && (!hit ==> m == merged && left == pieces[..c])
    && (hit ==>
          && h < c && Overlap(orig.item, pieces[h])
          && m == merged + Shared(orig, pieces[h], merge, branch)
          && left == pieces[..h] + Rest(orig.item, pieces[h]) + pieces[h + 1..c])
  }

  /** One existing item against all pieces of the new one. */
  method PassItem<B>(origs: seq<Entry<B>>, i: nat, merge: (B, B) -> B, branch: B, merged: seq<Entry<B>>,
                     pieces: seq<Item>, ghost incoming: Item)
    returns (m: seq<Entry<B>>, left: seq<Item>)
    requires i < |origs|
    ensures Admissible(origs, incoming) && State(origs, i, incoming, merge, branch, merged, pieces) ==>
              State(origs, i + 1, incoming, merge, branch, m, left)
  {
    hide *;
    ghost var fine := Admissible(origs, incoming) && State(origs, i, incoming, merge, branch, merged, pieces);
    var orig := origs[i];
    m, left := merged, [];
    var hit := false;
    ghost var h: nat := 0;
    PassingStart(orig, merge, branch, merged, pieces);
    var c := 0;
    while c < |pieces|
      invariant 0 <= c <= |pieces|
      invariant fine ==> Passing(orig, merge, branch, merged, pieces, c, hit, h, m, left)
    {
      var p := Intersect(orig.item, pieces[c]);
      ghost var before, kept := m, left;
      if fine {
        FindsPiece(origs, i, incoming, merge, branch, merged, pieces, c);
      }
      if p.inBoth.Some? {
        if fine {
          HitFresh(origs, i, incoming, merge, branch, merged, pieces, c);
          PassingFirst(origs, i, incoming, merge, branch, merged, pieces, c, hit, h, m, left);
        }
        m := InsertAll(m, OptEntry(p.inBoth, merge(orig.branch, branch)) + OptEntry(p.oursLeft, orig.branch)
                          + OptEntry(p.oursRight, orig.branch));
        left := left + (OptItem(p.theirsLeft) + OptItem(p.theirsRight));
        if fine {
          PassingHit(orig, merge, branch, merged, pieces, c, h, before, kept, m, left);
        }
        hit, h := true, c;
      } else {
        left := left + [pieces[c]];
        if fine {
          PassingMiss(orig, merge, branch, merged, pieces, c, hit, h, m, kept, left);
        }
      }
      c := c + 1;
    }
    ghost var passed := m;
    if !hit {
      m := InsertAll(m, [orig]);
    }
    if fine {
      PassingEnd(origs, i, incoming, merge, branch, merged, pieces, hit, h, passed, m, left);
    }
  }

  lemma PassingStart<B>(orig: Entry<B>, merge: (B, B) -> B, branch: B, merged: seq<Entry<B>>, pieces: seq<Item>)
    ensures Passing(orig, merge, branch, merged, pieces, 0, false, 0, merged, [])
  {
    hide Overlap, Shared, Rest;
  }

  lemma FindsPiece<B>(origs: seq<Entry<B>>, i: nat, incoming: Item, merge: (B, B) -> B, branch: B,
                      merged: seq<Entry<B>>, pieces: seq<Item>, c: nat)
    requires Admissible(origs, incoming) && i < |origs| && c < |pieces|
    requires State(origs, i, incoming, merge, branch, merged, pieces)
    ensures Intersect(origs[i].item, pieces[c]).inBoth.Some? <==> Overlap(origs[i].item, pieces[c])
  {
    hide *;
    StateMerged(origs, i, incoming, merge, branch, merged, pieces);
    StateValid(origs, i, incoming, pieces);
    PieceValid(pieces, c);
    IntersectFinds(origs[i].item, pieces[c]);
  }

  /** The parts of a hit item are apart from what is merged already. */
  lemma HitFresh<B>(origs: seq<Entry<B>>, i: nat, incoming: Item, merge: (B, B) -> B, branch: B,
                    merged: seq<Entry<B>>, pieces: seq<Item>, c: nat)
    requires Admissible(origs, incoming) && i < |origs| && c < |pieces| && Overlap(origs[i].item, pieces[c])
    requires State(origs, i, incoming, merge, branch, merged, pieces)
    ensures var p, orig := Intersect(origs[i].item, pieces[c]), origs[i];
            var all := merged + (OptEntry(p.inBoth, merge(orig.branch, branch)) + OptEntry(p.oursLeft, orig.branch)
                                 + OptEntry(p.oursRight, orig.branch));
            AllValid(all) && PairwiseApart(all)
  {
    hide *;
    OnlyHit(origs, i, incoming, merge, branch, merged, pieces, c);
    StateHit(origs, i, incoming, merge, branch, merged, pieces, c);
    StateMerged(origs, i + 1, incoming, merge, branch, merged + Shared(origs[i], pieces[c], merge, branch),
                Replaced(pieces, c, Rest(origs[i].item, pieces[c])));
    SharedIs(origs[i], pieces[c], merge, branch);
  }

  /** A piece that meets the item is the first one that does. */
  lemma PassingFirst<B>(origs: seq<Entry<B>>, i: nat, incoming: Item, merge: (B, B) -> B, branch: B,
                        merged: seq<Entry<B>>, pieces: seq<Item>, c: nat, hit: bool, h: nat,
                        m: seq<Entry<B>>, left: seq<Item>)
    requires Admissible(origs, incoming) && i < |origs| && c < |pieces| && Overlap(origs[i].item, pieces[c])
    requires State(origs, i, incoming, merge, branch, merged, pieces)
    requires Passing(origs[i], merge, branch, merged, pieces, c, hit, h, m, left)
    ensures !hit && m == merged && left == pieces[..c]
    ensures forall a :: 0 <= a < c ==> !Overlap(origs[i].item, pieces[a])
  {
    OnlyHit(origs, i, incoming, merge, branch, merged, pieces, c);
    hide Overlap, Shared, Rest, State, Admissible;
  }

  lemma PassingHit<B>(orig: Entry<B>, merge: (B, B) -> B, branch: B, merged: seq<Entry<B>>, pieces: seq<Item>,
                      c: nat, h: nat, before: seq<Entry<B>>, kept: seq<Item>, m: seq<Entry<B>>, left: seq<Item>)
    requires c < |pieces| && Overlap(orig.item, pieces[c]) && before == merged && kept == pieces[..c]
    requires forall a :: 0 <= a < c ==> !Overlap(orig.item, pieces[a])
    requires var p := Intersect(orig.item, pieces[c]);
             && m == before + (OptEntry(p.inBoth, merge(orig.branch, branch)) + OptEntry(p.oursLeft, orig.branch)
                               + OptEntry(p.oursRight, orig.branch))
             && left == kept + (OptItem(p.theirsLeft) + OptItem(p.theirsRight))
    ensures Passing(orig, merge, branch, merged, pieces, c + 1, true, c, m, left)
  {
    SharedIs(orig, pieces[c], merge, branch);
    RestIs(orig.item, pieces[c]);
    hide Overlap, Shared, Rest, Intersect, OptEntry, OptItem;
    assert pieces[c + 1..c + 1] == [];
    assert left == pieces[..c] + Rest(orig.item, pieces[c]) + pieces[c + 1..c + 1];
  }

  lemma PassingMiss<B>(orig: Entry<B>, merge: (B, B) -> B, branch: B, merged: seq<Entry<B>>, pieces: seq<Item>,
                       c: nat, hit: bool, h: nat, m: seq<Entry<B>>, kept: seq<Item>, left: seq<Item>)
    requires c < |pieces| && !Overlap(orig.item, pieces[c]) && left == kept + [pieces[c]]
    requires Passing(orig, merge, branch, merged, pieces, c, hit, h, m, kept)
    ensures Passing(orig, merge, branch, merged, pieces, c + 1, hit, h, m, left)
  {
    hide Overlap, Shared, Rest;
    if hit {
      assert pieces[h + 1..c + 1] == pieces[h + 1..c] + [pieces[c]];
    }
  }

  lemma PassingEnd<B>(origs: seq<Entry<B>>, i: nat, incoming: Item, merge: (B, B) -> B, branch: B,
                      merged: seq<Entry<B>>, pieces: seq<Item>, hit: bool, h: nat,
                      passed: seq<Entry<B>>, m: seq<Entry<B>>, left: seq<Item>)
    requires Admissible(origs, incoming) && i < |origs| && State(origs, i, incoming, merge, branch, merged, pieces)
    requires Passing(origs[i], merge, branch, merged, pieces, |pieces|, hit, h, passed, left)
    requires hit ==> m == passed
    requires !hit && AllValid(passed + [origs[i]]) && PairwiseApart(passed + [origs[i]]) ==> m == passed + [origs[i]]
    ensures State(origs, i + 1, incoming, merge, branch, m, left)
  {
    hide State, Admissible, Overlap, Shared, Rest, AllValid, PairwiseApart;
    if hit {
      StateHit(origs, i, incoming, merge, branch, merged, pieces, h);
      ReplacedIs(pieces, h, Rest(origs[i].item, pieces[h]));
    } else {
      StateMiss(origs, i, incoming, merge, branch, merged, pieces);
      StateMerged(origs, i + 1, incoming, merge, branch, merged + [origs[i]], pieces);
      assert pieces[..|pieces|] == pieces;
    }
  }

  lemma StateValid<B>(origs: seq<Entry<B>>, i: nat, incoming: Item, pieces: seq<Item>)
    requires Admissible(origs, incoming) && i < |origs|
    ensures Valid(origs[i].item)
  {
    hide Valid;
  }

  lemma PieceValid(pieces: seq<Item>, c: nat)
    requires PiecesValid(pieces) && c < |pieces|
    ensures Valid(pieces[c])
  {
    hide Valid;
  }

  lemma SharedIs<B>(orig: Entry<B>, piece: Item, merge: (B, B) -> B, branch: B)
    ensures var p := Intersect(orig.item, piece);
            Shared(orig, piece, merge, branch) ==
              OptEntry(p.inBoth, merge(orig.branch, branch)) + OptEntry(p.oursLeft, orig.branch)
              + OptEntry(p.oursRight, orig.branch)
  {
    hide Intersect;
  }

  lemma RestIs(orig: Item, piece: Item)
    ensures var p := Intersect(orig, piece); Rest(orig, piece) == OptItem(p.theirsLeft) + OptItem(p.theirsRight)
  {
    hide Intersect;
  }

  lemma ReplacedIs(pieces: seq<Item>, h: nat, rest: seq<Item>)
    requires h < |pieces|
    ensures Replaced(pieces, h, rest) == pieces[..h] + rest + pieces[h + 1..|pieces|]
  {
  }

  /** `merge_conditional_subquery_branches_with_new_at_query_item`: for existing items that
      are pairwise apart, the result is pairwise apart, and every point finds the merged
      branch where an existing item and the new one meet, the old branch elsewhere in the
      existing items, and the new branch in the rest of the new item. */
  method MergeBranches<B>(existing: Option<seq<Entry<B>>>, incoming: Item, merge: (B, B) -> B, branch: B)
    returns (m: seq<Entry<B>>)
    ensures var origs := if existing.Some? then existing.value else [];
            AllValid(origs) && PairwiseApart(origs) && Valid(incoming) ==>
              && AllValid(m) && PairwiseApart(m)
              && (forall x, j :: 0 <= j < |origs| && In(origs[j].item, x) && In(incoming, x) ==>
                    Lookup(m, x) == Some(merge(origs[j].branch, branch)))
              && (forall x, j :: 0 <= j < |origs| && In(origs[j].item, x) && !In(incoming, x) ==>
                    Lookup(m, x) == Some(origs[j].branch))
              && (forall x :: !InEntries(origs, x) ==> Lookup(m, x) == if In(incoming, x) then Some(branch) else None)
  {
    ghost var origs := if existing.Some? then existing.value else [];
    if existing.None? {
      m := [Entry(incoming, branch)];
      forall x ensures Lookup(m, x) == Expected([], incoming, merge, branch, x) {
        assert m[1..] == [];
      }
    } else {
      m := MergeExisting(existing.value, incoming, merge, branch);
    }
    if AllValid(origs) && PairwiseApart(origs) && Valid(incoming) {
      ExpectedMeans(origs, incoming, merge, branch);
    }
    hide *;
  }

  lemma ExpectedMeans<B>(origs: seq<Entry<B>>, incoming: Item, merge: (B, B) -> B, branch: B)
    requires AllValid(origs) && PairwiseApart(origs)
    ensures forall x, j :: 0 <= j < |origs| && In(origs[j].item, x) ==>
              Expected(origs, incoming, merge, branch, x) ==
                Some(if In(incoming, x) then merge(origs[j].branch, branch) else origs[j].branch)
    ensures forall x :: !InEntries(origs, x) ==>
              Expected(origs, incoming, merge, branch, x) == if In(incoming, x) then Some(branch) else None
  {
    hide In, Valid, Overlap, Lookup;
    forall x, j | 0 <= j < |origs| && In(origs[j].item, x) ensures Lookup(origs, x) == Some(origs[j].branch) {
      LookupApart(origs, x, j);
    }
    forall x | !InEntries(origs, x) ensures Lookup(origs, x) == None {
      LookupMeans(origs, x);
    }
  }

  method MergeExisting<B>(origs: seq<Entry<B>>, incoming: Item, merge: (B, B) -> B, branch: B)
    returns (m: seq<Entry<B>>)
    ensures AllValid(origs) && PairwiseApart(origs) && Valid(incoming) ==>
              && AllValid(m) && PairwiseApart(m)
              && forall x :: Lookup(m, x) == Expected(origs, incoming, merge, branch, x)
  {
    ghost var fine := Admissible(origs, incoming);
    assert fine <==> AllValid(origs) && PairwiseApart(origs) && Valid(incoming);
    hide *;
    if fine {
      StateStart(origs, incoming, merge, branch);
    }
    m := [];
    var pieces := [incoming];
    var i := 0;
    while i < |origs|
      invariant 0 <= i <= |origs| && (fine ==> State(origs, i, incoming, merge, branch, m, pieces))
    {
      m, pieces := PassItem(origs, i, merge, branch, m, pieces, incoming);
      i := i + 1;
    }
    if fine {
      forall x ensures Lookup(m + AsEntries(pieces, branch), x) == Expected(origs, incoming, merge, branch, x) {
        StateLookup(origs, incoming, merge, branch, m, pieces, x);
      }
      StateApart(origs, incoming, merge, branch, m, pieces);
    }
    m := InsertAll(m, AsEntries(pieces, branch));
  }

  lemma StateLookup<B>(origs: seq<Entry<B>>, incoming: Item, merge: (B, B) -> B, branch: B, merged: seq<Entry<B>>,
                       pieces: seq<Item>, x: Bound)
    requires Admissible(origs, incoming) && State(origs, |origs|, incoming, merge, branch, merged, pieces)
    ensures Lookup(merged + AsEntries(pieces, branch), x) == Expected(origs, incoming, merge, branch, x)
  {
    hide Admissible, MergedState, PiecesState, PiecesCover;
    FinalLookup(origs, incoming, merge, branch, merged, pieces, x);
  }

  lemma StateApart<B>(origs: seq<Entry<B>>, incoming: Item, merge: (B, B) -> B, branch: B, merged: seq<Entry<B>>,
                      pieces: seq<Item>)
    requires State(origs, |origs|, incoming, merge, branch, merged, pieces)
    ensures AllValid(merged + AsEntries(pieces, branch)) && PairwiseApart(merged + AsEntries(pieces, branch))
  {
    hide MergedState, PiecesState, PiecesCover;
    FinalApart(origs, incoming, merge, branch, merged, pieces);
  }
}
