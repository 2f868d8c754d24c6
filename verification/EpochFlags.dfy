/** Storage flags: the base epoch of an element, the bytes later epochs added to it, and
    optionally an owner; and how flags are combined when the element changes. */
module EpochFlags {
  import opened Wrappers
  import opened Endian

  const EPOCHS: nat := 0x1_0000
  const FLOOR: nat := 3
  const DEFAULT_OWNER: Bytes := Be(0, 32)

  type EpochMap = map<nat, nat>

  datatype StorageFlags =
    | SingleEpoch(base: nat)
    | MultiEpoch(base: nat, epochs: EpochMap)
    | SingleEpochOwned(base: nat, owner: Bytes)
    | MultiEpochOwned(base: nat, epochs: EpochMap, owner: Bytes)
  {
    function Owner(): Option<Bytes> {
      if SingleEpochOwned? || MultiEpochOwned? then Some(owner) else None
    }

    function Extra(): Option<EpochMap> {
      if MultiEpoch? || MultiEpochOwned? then Some(epochs) else None
    }

    /** The owner under whose name removals are booked. */
    function Payer(): Bytes {
      if Owner().Some? then Owner().value else DEFAULT_OWNER
    }
  }

  /** The four forms, by what they carry. */
  function Build(base: nat, extra: Option<EpochMap>, owner: Option<Bytes>): (f: StorageFlags)
    ensures f.base == base && f.Extra() == extra && f.Owner() == owner
  {
    match (extra, owner)
    case (None, None) => SingleEpoch(base)
    case (None, Some(o)) => SingleEpochOwned(base, o)
    case (Some(m), None) => MultiEpoch(base, m)
    case (Some(m), Some(o)) => MultiEpochOwned(base, m, o)
  }

  datatype Strategy = RaiseIssue | UseOurs | UseTheirs

  datatype FlagsError =
    | UnknownType
    | WrongSize
    | NoStorageAtEpoch
    | Overflow
    | RemovingFlags
    | DifferentOwners
    | DifferentBaseEpoch

  datatype Removed =
    | NoRemoval
    | BasicRemoval(bytes: nat)
    | SectionedRemoval(sections: map<Bytes, EpochMap>)

  /** In range, extra epochs after the base, and a multi-epoch form only with extra epochs. */
  predicate WellFormed(f: StorageFlags) {
    && f.base < EPOCHS
    && (f.Extra().Some? ==> f.epochs != map[] && Later(f.epochs, f.base))
    && (f.Owner().Some? ==> |f.owner| == 32)
  }

  predicate Later(m: EpochMap, base: nat) {
    forall e :: e in m ==> base < e < EPOCHS && m[e] <= U32_MAX
  }

  // ---- combining ---------------------------------------------------------------------

  /** `combine_owner_id` */
  function CombineOwner(ours: StorageFlags, theirs: StorageFlags, s: Strategy): Result<Option<Bytes>, FlagsError> {
    match (ours.Owner(), theirs.Owner())
    case (Some(a), Some(b)) =>
      if a == b then Ok(Some(a))
      else (match s
            case RaiseIssue => Err(DifferentOwners)
            case UseOurs => Ok(Some(a))
            case UseTheirs => Ok(Some(b)))
    case (Some(a), None) => Ok(Some(a))
    case (None, b) => Ok(b)
  }

  /** `combine_non_base_epoch_bytes`: the newer map overrides the older. */
  function CombineExtra(ours: StorageFlags, theirs: StorageFlags): Option<EpochMap> {
    match (ours.Extra(), theirs.Extra())
    case (Some(a), Some(b)) => Some(a + b)
    case (Some(a), None) => Some(a)
    case (None, b) => b
  }

  /** `combine_same_base_epoch` */
  function CombineSameBase(ours: StorageFlags, theirs: StorageFlags, s: Strategy): Result<StorageFlags, FlagsError> {
    match CombineOwner(ours, theirs, s)
    case Err(e) => Err(e)
    case Ok(owner) => Ok(Build(ours.base, CombineExtra(ours, theirs), owner))
  }

  function ExtraOrEmpty(ours: StorageFlags, theirs: StorageFlags): EpochMap {
    match CombineExtra(ours, theirs)
    case None => map[]
    case Some(m) => m
  }

  /** `combine_with_higher_base_epoch` */
  function CombineHigherAdd(ours: StorageFlags, theirs: StorageFlags, added: nat, s: Strategy)
    : Result<StorageFlags, FlagsError>
  {
    match CombineOwner(ours, theirs, s)
    case Err(e) => Err(e)
    case Ok(owner) =>
      var m := ExtraOrEmpty(ours, theirs);
      var bytes := (if theirs.base in m then m[theirs.base] else 0) + added;
      if theirs.base in m && bytes > U32_MAX then Err(Overflow)
      else Ok(Build(ours.base, Some(m[theirs.base := bytes]), owner))
  }

  /** `combine_added_bytes` */
  function CombineAdded(ours: StorageFlags, theirs: StorageFlags, added: nat, s: Strategy)
    : Result<StorageFlags, FlagsError>
  {
    if ours.base == theirs.base then CombineSameBase(ours, theirs, s)
    else if ours.base < theirs.base then CombineHigherAdd(ours, theirs, added, s)
    else Err(DifferentBaseEpoch)
  }

  /** A removal fits: every charged extra epoch has the bytes it is charged for. */
  predicate Fits(m: EpochMap, charges: EpochMap, base: nat) {
    forall e :: e in charges && e != base ==> e in m && charges[e] <= m[e]
  }

  /** What an epoch keeps after its charge. */
  function Keeps(m: EpochMap, charges: EpochMap, base: nat, e: nat): nat
    requires e in m
  {
    if e in charges && e != base then (if charges[e] <= m[e] then m[e] - charges[e] else 0) else m[e]
  }

  /** An epoch that was not charged stays; a charged one stays above the floor. */
  predicate Survives(m: EpochMap, charges: EpochMap, base: nat, e: nat) {
    e in m && (e in charges && e != base ==> Keeps(m, charges, base, e) > FLOOR)
  }

  function AfterRemoval(m: EpochMap, charges: EpochMap, base: nat): EpochMap {
    map e | e in m && Survives(m, charges, base, e) :: Keeps(m, charges, base, e)
  }

  /** An epoch is charged that holds nothing, or less than its charge. */
  predicate Refuses(m: EpochMap, charges: EpochMap, base: nat, error: FlagsError) {
    if error == NoStorageAtEpoch then exists e :: e in charges && e != base && e !in m
    else error == Overflow && exists e :: e in charges && e != base && e in m && m[e] < charges[e]
  }

  /** The loop over the charged epochs, in no particular order, and the removal of the
      epochs that fell to the floor. */
  method RemoveCharges(m: EpochMap, charges: EpochMap, base: nat) returns (r: Result<EpochMap, FlagsError>)
    ensures r.Ok? <==> Fits(m, charges, base)
    ensures r.Ok? ==> r.value == AfterRemoval(m, charges, base)
    ensures r.Err? ==> Refuses(m, charges, base, r.error)
  {
    hide *;
    var epochs: EpochMap, gone: set<nat> := m, {};
    var todo := charges.Keys;
    RemovalStart(m, charges, base);
    while todo != {}
      invariant Removing(m, charges, base, todo, epochs, gone)
      decreases |todo|
    {
      var e :| e in todo;
      RemovalStep(m, charges, base, todo, epochs, gone, e);
      todo := todo - {e};
      if e != base {
        if e !in epochs {
          return Err(NoStorageAtEpoch);
        }
        if epochs[e] < charges[e] {
          return Err(Overflow);
        }
        var desired := epochs[e] - charges[e];
        if desired <= FLOOR {
          gone := gone + {e};
        } else {
          epochs := epochs[e := desired];
        }
      }
    }
    RemovalEnd(m, charges, base, epochs, gone);
    r := Ok(epochs - gone);
  }

  /** The epochs not in `todo` are done: none was refused, the ones at the floor are set
      aside in `gone`, the others keep what is left of them. */
  ghost predicate Removing(m: EpochMap, charges: EpochMap, base: nat, todo: set<nat>, epochs: EpochMap,
                           gone: set<nat>)
  {
    && todo <= charges.Keys && epochs.Keys == m.Keys && gone <= m.Keys
    && (forall e :: e in charges && e !in todo && e != base ==> e in m && charges[e] <= m[e])
    && (forall e :: e in m ==>
          (e in gone <==> e in charges && e !in todo && e != base && m[e] <= charges[e] + FLOOR))
    && (forall e :: e in m && e !in gone ==>
          epochs[e] == if e in todo then m[e] else Keeps(m, charges, base, e))
  }

  lemma RemovalStart(m: EpochMap, charges: EpochMap, base: nat)
    ensures Removing(m, charges, base, charges.Keys, m, {})
  {
  }

  lemma RemovalStep(m: EpochMap, charges: EpochMap, base: nat, todo: set<nat>, epochs: EpochMap, gone: set<nat>,
                    e: nat)
    requires Removing(m, charges, base, todo, epochs, gone) && e in todo
    ensures e in charges
    ensures var rest := todo - {e};
            if e == base then Removing(m, charges, base, rest, epochs, gone)
            else if e !in epochs then !Fits(m, charges, base) && Refuses(m, charges, base, NoStorageAtEpoch)
            else if epochs[e] < charges[e] then !Fits(m, charges, base) && Refuses(m, charges, base, Overflow)
            else if epochs[e] - charges[e] <= FLOOR then Removing(m, charges, base, rest, epochs, gone + {e})
            else Removing(m, charges, base, rest, epochs[e := epochs[e] - charges[e]], gone)
  {
    assert e in m ==> epochs[e] == m[e];
  }

  lemma RemovalEnd(m: EpochMap, charges: EpochMap, base: nat, epochs: EpochMap, gone: set<nat>)
    requires Removing(m, charges, base, {}, epochs, gone)
    ensures Fits(m, charges, base) && epochs - gone == AfterRemoval(m, charges, base)
  {
  }

  /** `combine_with_higher_base_epoch_remove_bytes` */
  function CombineHigherRemove(ours: StorageFlags, theirs: StorageFlags, removed: Removed, s: Strategy)
    : Result<StorageFlags, FlagsError>
  {
    if ours.Extra().None? then Ok(ours)
    else match CombineOwner(ours, theirs, s)
      case Err(e) => Err(e)
      case Ok(owner) =>
        var m := ExtraOrEmpty(ours, theirs);
        if !removed.SectionedRemoval? then Ok(Collapse(ours.base, m, owner))
        else if |removed.sections| > 1 || ours.Payer() !in removed.sections then Err(DifferentOwners)
        else
          var charges := removed.sections[ours.Payer()];
          if Fits(m, charges, ours.base) then Ok(Collapse(ours.base, AfterRemoval(m, charges, ours.base), owner))
          else if Refuses(m, charges, ours.base, NoStorageAtEpoch) then Err(NoStorageAtEpoch)
          else Err(Overflow)
  }

  /** Without extra epochs the flags fall back to the single-epoch form. */
  function Collapse(base: nat, m: EpochMap, owner: Option<Bytes>): StorageFlags {
    Build(base, if m == map[] then None else Some(m), owner)
  }

  /** `combine_removed_bytes` */
  function CombineRemoved(ours: StorageFlags, theirs: StorageFlags, removed: Removed, s: Strategy)
    : Result<StorageFlags, FlagsError>
  {
    if ours.base == theirs.base then CombineSameBase(ours, theirs, s)
    else if ours.base < theirs.base then CombineHigherRemove(ours, theirs, removed, s)
    else Err(DifferentBaseEpoch)
  }

  // ---- what combining keeps ------------------------------------------------------------

  lemma OwnerKept(ours: StorageFlags, theirs: StorageFlags, s: Strategy)
    requires WellFormed(ours) && WellFormed(theirs)
    ensures CombineOwner(ours, theirs, s).Err? <==>
              ours.Owner().Some? && theirs.Owner().Some? && ours.owner != theirs.owner && s == RaiseIssue
    ensures CombineOwner(ours, theirs, s).Ok? ==>
              var o := CombineOwner(ours, theirs, s).value; o.Some? ==> |o.value| == 32
  {
  }

  /** Who owns combined flags. With two different owners the strategy decides; removing bytes
      from single-epoch flags in a later epoch never changes the owner. */
  lemma OwnerAfter(ours: StorageFlags, theirs: StorageFlags, added: nat, removed: Removed, s: Strategy)
    ensures CombineAdded(ours, theirs, added, s).Ok? ==>
              CombinedOwner(ours, theirs, s, CombineAdded(ours, theirs, added, s).value.Owner())
    ensures CombineRemoved(ours, theirs, removed, s).Ok? ==>
              var owner := CombineRemoved(ours, theirs, removed, s).value.Owner();
              if ours.base < theirs.base && ours.Extra().None? then owner == ours.Owner()
              else CombinedOwner(ours, theirs, s, owner)
  {
    OwnerOf(ours, theirs, s);
    hide CombineExtra, ExtraOrEmpty, AfterRemoval, Fits, CombineOwner, CombinedOwner;
  }

  lemma OwnerOf(ours: StorageFlags, theirs: StorageFlags, s: Strategy)
    ensures CombineOwner(ours, theirs, s).Ok? ==>
              CombinedOwner(ours, theirs, s, CombineOwner(ours, theirs, s).value)
  {
  }

  predicate CombinedOwner(ours: StorageFlags, theirs: StorageFlags, s: Strategy, owner: Option<Bytes>) {
    var first, second := if s == UseTheirs then theirs.Owner() else ours.Owner(),
                         if s == UseTheirs then ours.Owner() else theirs.Owner();
    && owner == (if first.Some? then first else second)
    && (s == RaiseIssue && first.Some? && second.Some? ==> first == second)
  }

  /** Flags of one base epoch: the newer bytes of an epoch replace the older ones. */
  lemma NewerBytesWin(ours: StorageFlags, theirs: StorageFlags, s: Strategy, e: nat)
    requires CombineSameBase(ours, theirs, s).Ok?
    ensures var f := CombineSameBase(ours, theirs, s).value;
            var a, b := ours.Extra(), theirs.Extra();
            && (f.Extra().Some? <==> a.Some? || b.Some?)
            && (f.Extra().Some? ==>
                  && (e in f.epochs <==> (a.Some? && e in a.value) || (b.Some? && e in b.value))
                  && (b.Some? && e in b.value ==> f.epochs[e] == b.value[e])
                  && (!(b.Some? && e in b.value) && a.Some? && e in a.value ==> f.epochs[e] == a.value[e]))
  {
    hide CombineOwner;
  }

  lemma ExtraKept(ours: StorageFlags, theirs: StorageFlags)
    requires WellFormed(ours) && WellFormed(theirs) && ours.base <= theirs.base
    ensures Later(ExtraOrEmpty(ours, theirs), ours.base)
    ensures CombineExtra(ours, theirs).Some? ==> CombineExtra(ours, theirs).value != map[]
    ensures ours.Extra().Some? ==> ExtraOrEmpty(ours, theirs) != map[]
  {
    if ours.Extra().Some? && theirs.Extra().Some? {
      var k :| k in ours.epochs;
      assert k in ours.epochs + theirs.epochs;
    }
  }

  lemma SameBaseKeeps(ours: StorageFlags, theirs: StorageFlags, s: Strategy)
    requires WellFormed(ours) && WellFormed(theirs) && ours.base == theirs.base
    requires CombineSameBase(ours, theirs, s).Ok?
    ensures var f := CombineSameBase(ours, theirs, s).value; f.base == ours.base && WellFormed(f)
  {
    OwnerKept(ours, theirs, s);
    ExtraKept(ours, theirs);
    hide CombineOwner, CombineExtra;
  }

  lemma HigherAddKeeps(ours: StorageFlags, theirs: StorageFlags, added: nat, s: Strategy)
    requires WellFormed(ours) && WellFormed(theirs) && ours.base < theirs.base && added <= U32_MAX
    requires CombineHigherAdd(ours, theirs, added, s).Ok?
    ensures var f := CombineHigherAdd(ours, theirs, added, s).value; f.base == ours.base && WellFormed(f)
  {
    OwnerKept(ours, theirs, s);
    ExtraKept(ours, theirs);
    hide CombineOwner, ExtraOrEmpty;
  }

  /** Adding bytes keeps the base epoch and well-formedness. */
  lemma AddedKeeps(ours: StorageFlags, theirs: StorageFlags, added: nat, s: Strategy)
    requires WellFormed(ours) && WellFormed(theirs) && added <= U32_MAX
    requires CombineAdded(ours, theirs, added, s).Ok?
    ensures var f := CombineAdded(ours, theirs, added, s).value; f.base == ours.base && WellFormed(f)
  {
    hide WellFormed, CombineSameBase, CombineHigherAdd;
    if ours.base == theirs.base {
      SameBaseKeeps(ours, theirs, s);
    } else {
      HigherAddKeeps(ours, theirs, added, s);
    }
  }

  lemma CollapseKeeps(base: nat, m: EpochMap, owner: Option<Bytes>)
    requires base < EPOCHS && Later(m, base) && (owner.Some? ==> |owner.value| == 32)
    ensures Collapse(base, m, owner).base == base && WellFormed(Collapse(base, m, owner))
  {
  }

  lemma AfterRemovalLater(m: EpochMap, charges: EpochMap, base: nat)
    requires Later(m, base)
    ensures Later(AfterRemoval(m, charges, base), base)
  {
  }

  lemma HigherRemoveKeeps(ours: StorageFlags, theirs: StorageFlags, removed: Removed, s: Strategy)
    requires WellFormed(ours) && WellFormed(theirs) && ours.base < theirs.base && ours.Extra().Some?
    requires CombineHigherRemove(ours, theirs, removed, s).Ok?
    ensures var f := CombineHigherRemove(ours, theirs, removed, s).value; f.base == ours.base && WellFormed(f)
  {
    OwnerKept(ours, theirs, s);
    ExtraKept(ours, theirs);
    assert ours.base < EPOCHS;
    var owner, m := CombineOwner(ours, theirs, s).value, ExtraOrEmpty(ours, theirs);
    hide Collapse, Later, AfterRemoval, CombineOwner, ExtraOrEmpty, WellFormed, Fits, Build;
    if removed.SectionedRemoval? {
      var charges := removed.sections[ours.Payer()];
      AfterRemovalLater(m, charges, ours.base);
      CollapseKeeps(ours.base, AfterRemoval(m, charges, ours.base), owner);
    } else {
      CollapseKeeps(ours.base, m, owner);
    }
  }

  /** Removing bytes keeps the base epoch and well-formedness. */
  lemma RemovedKeeps(ours: StorageFlags, theirs: StorageFlags, removed: Removed, s: Strategy)
    requires WellFormed(ours) && WellFormed(theirs)
    requires CombineRemoved(ours, theirs, removed, s).Ok?
    ensures var f := CombineRemoved(ours, theirs, removed, s).value; f.base == ours.base && WellFormed(f)
  {
    SingleStays(ours, theirs, removed, s);
    hide WellFormed, CombineSameBase, CombineHigherRemove;
    if ours.base == theirs.base {
      SameBaseKeeps(ours, theirs, s);
    } else if ours.Extra().Some? {
      HigherRemoveKeeps(ours, theirs, removed, s);
    }
  }

  lemma SingleStays(ours: StorageFlags, theirs: StorageFlags, removed: Removed, s: Strategy)
    ensures ours.Extra().None? ==> CombineHigherRemove(ours, theirs, removed, s) == Ok(ours)
  {
  }

  /** The same result, up to the order in which the charged epochs are met: with a missing
      epoch and one that holds too little, either error may come first. */
  predicate Agrees(r: Result<StorageFlags, FlagsError>, spec: Result<StorageFlags, FlagsError>) {
    r == spec || (r == Err(Overflow) && spec == Err(NoStorageAtEpoch))
  }

  /** `combine_with_higher_base_epoch_remove_bytes` with its loop. */
  method RemoveBytes(ours: StorageFlags, theirs: StorageFlags, removed: Removed, s: Strategy)
    returns (r: Result<StorageFlags, FlagsError>)
    ensures Agrees(r, CombineHigherRemove(ours, theirs, removed, s))
  {
    if ours.SingleEpoch? || ours.SingleEpochOwned? {
      return Ok(ours);
    }
    var owner := CombineOwner(ours, theirs, s);
    if owner.Err? {
      return Err(owner.error);
    }
    var epochs := ExtraOrEmpty(ours, theirs);
    if removed.SectionedRemoval? {
      if |removed.sections| > 1 {
        return Err(DifferentOwners);
      }
      if ours.Payer() !in removed.sections {
        return Err(DifferentOwners);
      }
      hide Fits, AfterRemoval;
      var left := RemoveCharges(epochs, removed.sections[ours.Payer()], ours.base);
      if left.Err? {
        return Err(left.error);
      }
      epochs := left.value;
    }
    r := Ok(Collapse(ours.base, epochs, owner.value));
  }
}
