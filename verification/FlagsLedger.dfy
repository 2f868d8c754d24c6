/** Runs of updates in which every smaller write carries the split of the flags stored at
    that moment: which writes are refused, and the books of the bytes the later epochs hold. */
module FlagsLedger {
  import opened Wrappers
  import opened Endian
  import opened EpochFlags
  import opened EpochSplit
  import opened FlagsCodec
  import opened FlagsUpdate

  /** A write of the element in the epoch of `flags`: larger, smaller or of the same size. */
  datatype Move =
    | Grow(flags: StorageFlags, replaced: nat, added: nat)
    | Shrink(flags: StorageFlags, replaced: nat, removed: nat)
    | Same(flags: StorageFlags, replaced: nat)

  /** A write brings single-epoch flags, and its byte counts are those of an update. */
  predicate Proper(move: Move) {
    && WellFormed(move.flags) && move.flags.Extra().None? && move.replaced > 0
    && (move.Grow? ==> 0 < move.added <= U32_MAX)
    && (move.Shrink? ==> 0 < move.removed <= U32_MAX - FLOOR)
  }

  /** The cost of a write over the flags `f`. */
  function CostOf(f: StorageFlags, move: Move): StorageCost {
    match move
    case Grow(_, replaced, added) => StorageCost(added, replaced, NoRemoval)
    case Shrink(_, replaced, removed) => StorageCost(0, replaced, ValueRemoval(f, removed))
    case Same(_, replaced) => StorageCost(0, replaced, NoRemoval)
  }

  /** A write in an earlier epoch than the first, or past 32 bits, cannot be booked. */
  predicate Bookable(f: StorageFlags, move: Move) {
    move.Same?
    || (f.base <= move.flags.base
        && (move.Grow? && f.base < move.flags.base ==>
              At(ExtraOf(f), move.flags.base) + move.added <= U32_MAX))
  }

  // ---- the books of one write ----------------------------------------------------------

  /** The bytes an accepted write books to a later epoch. */
  function Booked(f: StorageFlags, move: Move): nat {
    if move.Grow? && f.base < move.flags.base then move.added else 0
  }

  /** The bytes the later epochs pay; the base epoch pays the rest of the removal. */
  function Paid(f: StorageFlags, move: Move): nat {
    if move.Shrink? && f.base < move.flags.base then Min(move.removed, RemovableFrom(ExtraOf(f), 0, EPOCHS)) else 0
  }

  /** The bytes of epochs in `[lo, n)` that leave the map, never more than the floor each. */
  function DroppedFrom(m: EpochMap, r: nat, lo: nat, n: nat): nat
    decreases n - lo
  {
    if lo >= n then 0
    else (if lo in m && !Stays(m, r, n, lo) then Min(m[lo], FLOOR) else 0) + DroppedFrom(m, r, lo + 1, n)
  }

  function Dropped(f: StorageFlags, move: Move): nat {
    if move.Shrink? && f.base < move.flags.base then DroppedFrom(ExtraOf(f), move.removed, 0, EPOCHS) else 0
  }

  function Total(f: StorageFlags): nat {
    SumFrom(ExtraOf(f), 0, EPOCHS)
  }

  /** What a split removal of `r` bytes leaves of the later epochs. */
  ghost predicate LeftBySplit(m: EpochMap, after: EpochMap, r: nat, n: nat) {
    && (forall e: nat :: e in after <==> Stays(m, r, n, e))
    && (forall e :: e in after ==>
          e in m && PaidBy(m, r, n, e) <= m[e] && after[e] == m[e] - PaidBy(m, r, n, e))
  }

  /** Every epoch's bytes are what it keeps, what it pays and what is dropped with it. */
  lemma PaidOrKept(m: EpochMap, after: EpochMap, r: nat, n: nat, e: nat)
    requires LeftBySplit(m, after, r, n)
    ensures At(m, e) == At(after, e) + At(Charges(m, r, n), e)
                        + if e in m && !Stays(m, r, n, e) then Min(m[e], FLOOR) else 0
  {
    ChargeAt(m, r, e, n);
    assert e in after <==> Stays(m, r, n, e);
    hide RemovableFrom, Charges, LeftBySplit;
  }

  lemma {:induction false} BooksBalance(m: EpochMap, after: EpochMap, r: nat, lo: nat, n: nat)
    requires LeftBySplit(m, after, r, n)
    ensures SumFrom(m, lo, n) ==
              SumFrom(after, lo, n) + SumFrom(Charges(m, r, n), lo, n) + DroppedFrom(m, r, lo, n)
    decreases n - lo
  {
    hide Charges, Stays, LeftBySplit;
    if lo < n {
      BooksBalance(m, after, r, lo + 1, n);
      PaidOrKept(m, after, r, n, lo);
    }
  }

  // ---- one write -----------------------------------------------------------------------

  lemma {:induction false} SomeEntry(c: EpochMap, lo: nat, n: nat) returns (e: nat)
    requires SumFrom(c, lo, n) > 0
    ensures e in c && c[e] > 0
    decreases n - lo
  {
    if At(c, lo) > 0 {
      e := lo;
    } else {
      e := SomeEntry(c, lo + 1, n);
    }
  }

  /** The split of a removal is a removal. */
  lemma SplitIsRemoval(f: StorageFlags, r: nat)
    requires WellFormed(f) && r > 0
    ensures HasRemoval(ValueRemoval(f, r))
  {
    hide *;
    var c, e := Section(f, r);
    SectionIsRemoval(f.Payer(), c, e);
  }

  /** The one section of a split, and an entry of it. */
  lemma Section(f: StorageFlags, r: nat) returns (c: EpochMap, e: nat)
    requires WellFormed(f) && r > 0
    ensures ValueRemoval(f, r) == SectionedRemoval(map[f.Payer() := c])
    ensures e in c && c[e] > 0
  {
    if f.Extra().Some? {
      c := Sections(f.epochs, f.base, r, EPOCHS);
      hide Sections, SumFrom, RemovableFrom;
      Conservation(f.epochs, f.base, r, EPOCHS);
      e := SomeEntry(c, 0, EPOCHS);
    } else {
      c, e := map[f.base := r], f.base;
    }
  }

  lemma SectionIsRemoval(owner: Bytes, c: EpochMap, e: nat)
    requires e in c && c[e] > 0
    ensures HasRemoval(SectionedRemoval(map[owner := c]))
  {
    var sections := map[owner := c];
    assert owner in sections && sections[owner][e] != 0;
  }

  lemma MoveTransition(f: StorageFlags, move: Move)
    requires WellFormed(f) && Proper(move)
    ensures TransitionType(CostOf(f, move)) ==
              match move case Grow(_, _, _) => UpdateBigger case Shrink(_, _, _) => UpdateSmaller case _ => UpdateSame
  {
    if move.Shrink? {
      SplitIsRemoval(f, move.removed);
    }
    hide ValueRemoval, WellFormed;
  }

  /** The flags a write leads to. */
  function Moved(f: StorageFlags, move: Move): Result<StorageFlags, FlagsError> {
    match move
    case Grow(g, _, added) => CombineAdded(f, g, added, UseTheirs)
    case Shrink(g, _, removed) => CombineRemoved(f, g, ValueRemoval(f, removed), UseTheirs)
    case Same(_, _) => Ok(f)
  }

  /** A write in the first epoch leaves the later ones alone. */
  lemma SameBaseMoves(f: StorageFlags, move: Move)
    requires WellFormed(f) && Proper(move) && f.base == move.flags.base
    ensures Moved(f, move).Ok? && ExtraOf(Moved(f, move).value) == ExtraOf(f)
  {
    OwnerKept(f, move.flags, UseTheirs);
    hide WellFormed, CombineOwner, ValueRemoval;
  }

  lemma GrowMoves(f: StorageFlags, move: Move)
    requires WellFormed(f) && Proper(move) && move.Grow? && f.base < move.flags.base
    ensures Moved(f, move).Ok? <==> Bookable(f, move)
    ensures Moved(f, move).Ok? ==> Total(Moved(f, move).value) == Total(f) + move.added
  {
    AddedIsBooked(f, move.flags, move.added, UseTheirs);
    hide WellFormed, CombineAdded, SumFrom;
  }

  /** Flags without later epochs are charged to the base epoch alone. */
  lemma SingleShrinks(f: StorageFlags, move: Move)
    requires move.Shrink? && f.base < move.flags.base && f.Extra().None?
    ensures Moved(f, move) == Ok(f) && Paid(f, move) == 0 && Dropped(f, move) == 0
  {
    SingleStays(f, move.flags, ValueRemoval(f, move.removed), UseTheirs);
    NothingToPay(0, EPOCHS, move.removed);
    hide CombineHigherRemove, ValueRemoval, RemovableFrom;
  }

  lemma {:induction false} NothingToPay(lo: nat, n: nat, r: nat)
    ensures RemovableFrom(map[], lo, n) == 0 && DroppedFrom(map[], r, lo, n) == 0
    decreases n - lo
  {
    if lo < n {
      NothingToPay(lo + 1, n, r);
      hide Stays;
    }
  }

  lemma MultiShrinks(f: StorageFlags, move: Move)
    requires WellFormed(f) && Proper(move) && move.Shrink? && f.base < move.flags.base && f.Extra().Some?
    ensures Moved(f, move).Ok?
    ensures Total(f) == Total(Moved(f, move).value) + Paid(f, move) + Dropped(f, move)
  {
    var m := f.epochs;
    hide *;
    SplitExtra(f, move);
    EpochsInRange(f);
    BooksBalance(m, ExtraOf(Moved(f, move).value), move.removed, 0, EPOCHS);
    ChargesSum(m, move.removed, 0, EPOCHS);
    ShrinkBooks(f, move, Moved(f, move).value);
  }

  lemma ShrinkBooks(f: StorageFlags, move: Move, g: StorageFlags)
    requires move.Shrink? && f.base < move.flags.base && f.Extra().Some?
    ensures Total(f) == SumFrom(f.epochs, 0, EPOCHS) && Total(g) == SumFrom(ExtraOf(g), 0, EPOCHS)
    ensures Paid(f, move) == Min(move.removed, RemovableFrom(f.epochs, 0, EPOCHS))
    ensures Dropped(f, move) == DroppedFrom(f.epochs, move.removed, 0, EPOCHS)
  {
    hide SumFrom, RemovableFrom, DroppedFrom, Min;
  }

  lemma EpochsInRange(f: StorageFlags)
    requires WellFormed(f) && f.Extra().Some?
    ensures forall e :: e in f.epochs ==> e < EPOCHS
  {
  }

  lemma SplitExtra(f: StorageFlags, move: Move)
    requires WellFormed(f) && Proper(move) && move.Shrink? && f.base < move.flags.base && f.Extra().Some?
    ensures Moved(f, move).Ok?
    ensures LeftBySplit(f.epochs, ExtraOf(Moved(f, move).value), move.removed, EPOCHS)
  {
    var m := f.epochs;
    hide *;
    ProperFlags(move);
    SplitThenCombine(f, move.flags, move.removed, UseTheirs);
    ShrinkIs(f, move);
    LeftFrom(m, Moved(f, move).value, move.removed, EPOCHS);
  }

  lemma ProperFlags(move: Move)
    requires Proper(move)
    ensures WellFormed(move.flags) && move.flags.Extra().None?
  {
  }

  lemma ShrinkIs(f: StorageFlags, move: Move)
    requires move.Shrink?
    ensures Moved(f, move) == CombineRemoved(f, move.flags, ValueRemoval(f, move.removed), UseTheirs)
  {
  }

  lemma LeftFrom(m: EpochMap, g: StorageFlags, r: nat, n: nat)
    requires g.Extra().None? <==> forall e :: e in m ==> !Stays(m, r, n, e)
    requires g.Extra().Some? ==>
               && (forall e: nat :: e in g.epochs <==> Stays(m, r, n, e))
               && (forall e :: e in g.epochs ==> PaidBy(m, r, n, e) <= m[e] && g.epochs[e] == m[e] - PaidBy(m, r, n, e))
    ensures LeftBySplit(m, ExtraOf(g), r, n)
  {
    StaysIn(m, r, n);
    hide Stays, PaidBy;
  }

  lemma EarlierRefused(f: StorageFlags, move: Move)
    requires f.base > move.flags.base && !move.Same?
    ensures Moved(f, move).Err?
  {
    hide ValueRemoval;
  }

  /** One write: refused exactly when it cannot be booked; else the bytes of the later
      epochs change by what was booked, paid and dropped. */
  lemma MoveBooks(f: StorageFlags, move: Move)
    requires WellFormed(f) && Proper(move)
    ensures Moved(f, move).Ok? <==> Bookable(f, move)
    ensures Moved(f, move).Ok? ==>
              Total(Moved(f, move).value) + Paid(f, move) + Dropped(f, move) == Total(f) + Booked(f, move)
  {
    hide WellFormed, CombineAdded, CombineRemoved, ValueRemoval, SumFrom, RemovableFrom, DroppedFrom;
    if move.Same? {
      assert Moved(f, move) == Ok(f);
    } else if f.base == move.flags.base {
      SameBaseMoves(f, move);
    } else if f.base < move.flags.base {
      if move.Grow? {
        GrowMoves(f, move);
      } else if f.Extra().None? {
        SingleShrinks(f, move);
      } else {
        MultiShrinks(f, move);
      }
    } else {
      EarlierRefused(f, move);
    }
  }

  // ---- runs ----------------------------------------------------------------------------

  /** The flags after a write; a refused one changes nothing. */
  function MoveOn(f: StorageFlags, move: Move): StorageFlags {
    if Moved(f, move).Ok? then Moved(f, move).value else f
  }

  function MoveAll(f: StorageFlags, moves: seq<Move>): StorageFlags {
    if moves == [] then f else MoveOn(MoveAll(f, moves[..|moves| - 1]), moves[|moves| - 1])
  }

  /** The stored bytes after a write whose removal is the split of what they stand for. */
  function Rewrite(stored: Bytes, move: Move): Bytes {
    match Deserialize(stored)
    case Ok(Some(f)) => StoredAfter(stored, Step(CostOf(f, move), move.flags))
    case _ => stored
  }

  function RewriteAll(stored: Bytes, moves: seq<Move>): Bytes {
    if moves == [] then stored else Rewrite(RewriteAll(stored, moves[..|moves| - 1]), moves[|moves| - 1])
  }

  /** The books of a run: bytes booked, paid and dropped by its accepted writes. */
  datatype Books = Books(booked: nat, paid: nat, dropped: nat)

  function Post(books: Books, f: StorageFlags, move: Move): Books {
    if !Bookable(f, move) then books
    else Books(books.booked + Booked(f, move), books.paid + Paid(f, move), books.dropped + Dropped(f, move))
  }

  function PostAll(f: StorageFlags, moves: seq<Move>): Books {
    if moves == [] then Books(0, 0, 0)
    else
      var before := moves[..|moves| - 1];
      Post(PostAll(f, before), MoveAll(f, before), moves[|moves| - 1])
  }

  lemma MoveKeeps(f: StorageFlags, move: Move)
    requires WellFormed(f) && Proper(move)
    ensures WellFormed(MoveOn(f, move)) && MoveOn(f, move).base == f.base
  {
    hide WellFormed, CombineAdded, CombineRemoved, ValueRemoval;
    if Moved(f, move).Ok? {
      match move
      case Grow(g, _, added) => AddedKeeps(f, g, added, UseTheirs);
      case Shrink(g, _, removed) => RemovedKeeps(f, g, ValueRemoval(f, removed), UseTheirs);
      case Same(_, _) =>
    }
  }

  /** What an update does to the flags is what the write does. */
  lemma MoveIsUpdate(f: StorageFlags, move: Move)
    requires WellFormed(f) && Proper(move)
    ensures IsUpdate(CostOf(f, move)) && NextFlags(CostOf(f, move), f, move.flags) == Moved(f, move)
  {
    MoveTransition(f, move);
    hide WellFormed, CombineAdded, CombineRemoved, ValueRemoval, TransitionType;
  }

  lemma RewriteIsMove(f: StorageFlags, move: Move)
    requires WellFormed(f) && Proper(move)
    ensures Rewrite(Serialize(f), move) == Serialize(MoveOn(f, move))
  {
    WellFormedRoundTrip(f);
    WellFormedRoundTrip(move.flags);
    MoveIsUpdate(f, move);
    hide WellFormed, Deserialize, Serialize, IsUpdate, NextFlags, Moved, CostOf;
  }

  lemma PostBalances(books: Books, start: nat, f: StorageFlags, move: Move)
    requires WellFormed(f) && Proper(move)
    requires Total(f) + books.paid + books.dropped == start + books.booked
    ensures var next := Post(books, f, move);
            Total(MoveOn(f, move)) + next.paid + next.dropped == start + next.booked
  {
    MoveBooks(f, move);
    hide WellFormed, Proper, Bookable, Moved, Booked, Paid, Dropped, Total;
  }

  /** Over every run of writes the stored bytes stand for the flags of the run, which keep
      their base epoch, and the books balance: what the later epochs hold, have paid and have
      dropped is what they held at first and what was booked to them. */
  lemma {:induction false} RunBalances(f: StorageFlags, moves: seq<Move>)
    requires WellFormed(f) && forall j :: 0 <= j < |moves| ==> Proper(moves[j])
    ensures var g, books := MoveAll(f, moves), PostAll(f, moves);
            && WellFormed(g) && g.base == f.base
            && RewriteAll(Serialize(f), moves) == Serialize(g)
            && Total(g) + books.paid + books.dropped == Total(f) + books.booked
    decreases |moves|
  {
    hide WellFormed, Proper, Serialize, Total, MoveOn, Post, Rewrite;
    if moves != [] {
      var before, last := moves[..|moves| - 1], moves[|moves| - 1];
      RunBalances(f, before);
      var g := MoveAll(f, before);
      MoveKeeps(g, last);
      RewriteIsMove(g, last);
      PostBalances(PostAll(f, before), Total(f), g, last);
    }
  }

  // ---- runs without refusals -----------------------------------------------------------

  function Offered(moves: seq<Move>): nat {
    if moves == [] then 0
    else Offered(moves[..|moves| - 1]) + if moves[|moves| - 1].Grow? then moves[|moves| - 1].added else 0
  }

  lemma {:induction false} EntryInSum(c: EpochMap, e: nat, lo: nat, n: nat)
    requires lo <= e < n
    ensures At(c, e) <= SumFrom(c, lo, n)
    decreases n - lo
  {
    if lo < e {
      EntryInSum(c, e, lo + 1, n);
    }
  }

  lemma {:induction false} BookedIsOffered(f: StorageFlags, moves: seq<Move>)
    ensures PostAll(f, moves).booked <= Offered(moves)
    decreases |moves|
  {
    hide Paid, Dropped, Bookable, MoveAll;
    if moves != [] {
      BookedIsOffered(f, moves[..|moves| - 1]);
    }
  }

  /** While all bytes together stay within 32 bits, no write in or after the first epoch is
      refused, whatever was written, split and combined before it. */
  lemma NeverRefused(f: StorageFlags, moves: seq<Move>, move: Move)
    requires WellFormed(f) && Proper(move) && forall j :: 0 <= j < |moves| ==> Proper(moves[j])
    requires f.base <= move.flags.base && Total(f) + Offered(moves + [move]) <= U32_MAX
    ensures var g := MoveAll(f, moves);
            Updated(CostOf(g, move), Some(RewriteAll(Serialize(f), moves)), Serialize(move.flags)).Ok?
  {
    hide *;
    var g := MoveAll(f, moves);
    RunBalances(f, moves);
    BookedIsOffered(f, moves);
    OfferedNext(moves, move);
    StillBookable(g, move, Total(f) + Offered(moves));
    MoveBooks(g, move);
    UpdateAccepted(g, move);
  }

  lemma OfferedNext(moves: seq<Move>, move: Move)
    ensures Offered(moves + [move]) == Offered(moves) + if move.Grow? then move.added else 0
  {
    assert (moves + [move])[..|moves|] == moves;
  }

  lemma StillBookable(g: StorageFlags, move: Move, held: nat)
    requires Proper(move) && g.base <= move.flags.base && Total(g) <= held
    requires held + (if move.Grow? then move.added else 0) <= U32_MAX
    ensures Bookable(g, move)
  {
    EntryInSum(ExtraOf(g), move.flags.base, 0, EPOCHS);
    hide SumFrom;
  }

  lemma UpdateAccepted(g: StorageFlags, move: Move)
    requires WellFormed(g) && Proper(move) && Moved(g, move).Ok?
    ensures Updated(CostOf(g, move), Some(Serialize(g)), Serialize(move.flags)).Ok?
  {
    WellFormedRoundTrip(g);
    WellFormedRoundTrip(move.flags);
    MoveIsUpdate(g, move);
    hide WellFormed, Deserialize, Serialize, IsUpdate, NextFlags, Moved, CostOf, TransitionType;
  }
}
