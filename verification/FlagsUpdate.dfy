/** Updating the stored flags of an element when the element changes, and what every run
    of such updates keeps. */
module FlagsUpdate {
  import opened Wrappers
  import opened Endian
  import opened EpochFlags
  import opened EpochSplit
  import opened FlagsCodec

  datatype StorageCost = StorageCost(added: nat, replaced: nat, removed: Removed)

  datatype Transition = InsertNew | UpdateBigger | UpdateSmaller | UpdateSame | Replace | Delete | NoChange

  /** `has_removal` */
  predicate HasRemoval(removed: Removed) {
    match removed
    case NoRemoval => false
    case BasicRemoval(bytes) => bytes != 0
    case SectionedRemoval(sections) =>
      exists id :: id in sections && exists e :: e in sections[id] && sections[id][e] != 0
  }

  /** `transition_type` */
  function TransitionType(cost: StorageCost): Transition {
    if cost.added > 0 then
      if HasRemoval(cost.removed) then Replace else if cost.replaced > 0 then UpdateBigger else InsertNew
    else if HasRemoval(cost.removed) then
      if cost.replaced > 0 then UpdateSmaller else Delete
    else if cost.replaced > 0 then UpdateSame else NoChange
  }

  predicate IsUpdate(cost: StorageCost) {
    TransitionType(cost) in {UpdateBigger, UpdateSmaller, UpdateSame}
  }

  /** The flags an update of `ours` by `theirs` leads to. */
  function NextFlags(cost: StorageCost, ours: StorageFlags, theirs: StorageFlags): Result<StorageFlags, FlagsError>
    requires IsUpdate(cost)
  {
    match TransitionType(cost)
    case UpdateBigger => CombineAdded(ours, theirs, cost.added, UseTheirs)
    case UpdateSmaller => CombineRemoved(ours, theirs, cost.removed, UseTheirs)
    case _ => Ok(ours)
  }

  /** `update_element_flags`: whether the new flags were replaced, and what they become. */
  function Updated(cost: StorageCost, oldFlags: Option<Bytes>, newFlags: Bytes): Result<(bool, Bytes), FlagsError> {
    if oldFlags.None? then Ok((false, newFlags))
    else match (Deserialize(oldFlags.value), Deserialize(newFlags))
      case (Err(e), _) => Err(e)
      case (Ok(_), Err(e)) => Err(e)
      case (Ok(_), Ok(None)) => Err(RemovingFlags)
      case (Ok(None), Ok(Some(_))) => Err(RemovingFlags)
      case (Ok(Some(f)), Ok(Some(g))) =>
        if !IsUpdate(cost) then Ok((false, newFlags))
        else match NextFlags(cost, f, g)
          case Err(e) => Err(e)
          case Ok(next) => Ok((TransitionType(cost) == UpdateSame || Serialize(next) != newFlags, Serialize(next)))
  }

  /** The flag bytes of an element about to be written. */
  class ElementFlags {
    var bytes: Bytes

    constructor (bytes: Bytes)
      ensures this.bytes == bytes
    {
      this.bytes := bytes;
    }

    /** `update_element_flags`: an error leaves the bytes alone. */
    method Update(cost: StorageCost, oldFlags: Option<Bytes>) returns (r: Result<bool, FlagsError>)
      modifies this
      ensures r.Ok? <==> Updated(cost, oldFlags, old(bytes)).Ok?
      ensures r.Ok? ==> Updated(cost, oldFlags, old(bytes)) == Ok((r.value, bytes))
      ensures r.Err? ==>
                && bytes == old(bytes)
                && (Updated(cost, oldFlags, old(bytes)) == Err(r.error)
                    || (r.error == Overflow && Updated(cost, oldFlags, old(bytes)) == Err(NoStorageAtEpoch)))
    {
      hide Deserialize, Serialize, CombineAdded, CombineHigherRemove, CombineSameBase, HasRemoval;
      if oldFlags.None? {
        return Ok(false);
      }
      var maybeOld := DeserializeFlags(oldFlags.value);
      if maybeOld.Err? {
        return Err(maybeOld.error);
      }
      var maybeNew := DeserializeFlags(bytes);
      if maybeNew.Err? {
        return Err(maybeNew.error);
      }
      if maybeNew.value.None? || maybeOld.value.None? {
        return Err(RemovingFlags);
      }
      var ours, theirs := maybeOld.value.value, maybeNew.value.value;
      match TransitionType(cost) {
        case UpdateBigger =>
          var combined := CombineAdded(ours, theirs, cost.added, UseTheirs);
          r := Store(combined);
        case UpdateSmaller =>
          var combined := CombineRemovedBytes(ours, theirs, cost.removed, UseTheirs);
          r := Store(combined);
        case UpdateSame =>
          bytes := Serialize(ours);
          r := Ok(true);
        case _ =>
          r := Ok(false);
      }
    }

    /** Writes the combined flags unless they are the bytes already there. */
    method Store(combined: Result<StorageFlags, FlagsError>) returns (r: Result<bool, FlagsError>)
      modifies this
      ensures combined.Err? ==> r == Err(combined.error) && bytes == old(bytes)
      ensures combined.Ok? ==> bytes == Serialize(combined.value) && r == Ok(bytes != old(bytes))
    {
      if combined.Err? {
        return Err(combined.error);
      }
      var flags := Serialize(combined.value);
      if flags == bytes {
        return Ok(false);
      }
      bytes := flags;
      r := Ok(true);
    }
  }

  /** `combine_removed_bytes` with the loop of the higher-base case. */
  method CombineRemovedBytes(ours: StorageFlags, theirs: StorageFlags, removed: Removed, s: Strategy)
    returns (r: Result<StorageFlags, FlagsError>)
    ensures Agrees(r, CombineRemoved(ours, theirs, removed, s))
  {
    hide CombineSameBase, CombineHigherRemove;
    if ours.base == theirs.base {
      r := CombineSameBase(ours, theirs, s);
    } else if ours.base < theirs.base {
      r := RemoveBytes(ours, theirs, removed, s);
    } else {
      r := Err(DifferentBaseEpoch);
    }
  }

  /** `split_removal_bytes`; `Ok(None)` when the split overflows. */
  method SplitRemovalBytes(flags: Bytes, removedKey: nat, removedValue: nat)
    returns (r: Result<Option<(Removed, Removed)>, FlagsError>)
    ensures Deserialize(flags).Err? ==> r == Err(Deserialize(flags).error)
    ensures Deserialize(flags) == Ok(None) ==>
              r == Ok(Some((BasicRemoval(removedKey), BasicRemoval(removedValue))))
    ensures Deserialize(flags).Ok? && Deserialize(flags).value.Some? ==>
              var f := Deserialize(flags).value.value;
              r == if f.Extra().Some? && f.epochs != map[] && removedValue > 0xFFFF_FFFC then Ok(None)
                   else Ok(Some((SingleRemoval(removedKey, f), ValueRemoval(f, removedValue))))
  {
    hide Deserialize, ValueRemoval, SingleRemoval;
    var f := DeserializeFlags(flags);
    if f.Err? {
      return Err(f.error);
    }
    if f.value.None? {
      return Ok(Some((BasicRemoval(removedKey), BasicRemoval(removedValue))));
    }
    if f.value.value.Extra().Some? {
      DecodedInRange(flags, f.value.value);
    }
    var split := SplitStorageRemovedBytes(f.value.value, removedKey, removedValue);
    r := Ok(split);
  }

  /** The returned flag says whether the bytes were replaced: always by a same-size update,
      else exactly when the combined flags differ from the new ones. Costs that are no
      update and elements without old flags keep the new bytes. */
  lemma UpdateReports(cost: StorageCost, oldFlags: Option<Bytes>, newFlags: Bytes)
    requires Updated(cost, oldFlags, newFlags).Ok?
    ensures var (changed, bytes) := Updated(cost, oldFlags, newFlags).value;
            && (!changed ==> bytes == newFlags)
            && (changed && TransitionType(cost) != UpdateSame ==> bytes != newFlags)
            && (oldFlags.Some? && TransitionType(cost) == UpdateSame ==> changed)
            && (oldFlags.None? || !IsUpdate(cost) ==> !changed)
  {
    hide Deserialize, Serialize, NextFlags, TransitionType;
  }

  // ---- runs ------------------------------------------------------------------------------

  /** One update of a stored element: the cost of the write and the flags it brings. */
  datatype Step = Step(cost: StorageCost, flags: StorageFlags)

  predicate Admissible(step: Step) {
    IsUpdate(step.cost) && step.cost.added <= U32_MAX && WellFormed(step.flags)
  }

  /** The stored bytes after one step; a refused step changes nothing. */
  function StoredAfter(stored: Bytes, step: Step): Bytes {
    match Updated(step.cost, Some(stored), Serialize(step.flags))
    case Err(_) => stored
    case Ok((_, bytes)) => bytes
  }

  function StoredAfterAll(stored: Bytes, steps: seq<Step>): Bytes {
    if steps == [] then stored
    else StoredAfter(StoredAfterAll(stored, steps[..|steps| - 1]), steps[|steps| - 1])
  }

  /** Stored bytes that stand for well-formed flags with this base epoch. */
  ghost predicate Stands(stored: Bytes, base: nat) {
    exists f :: StandsFor(stored, f, base)
  }

  ghost predicate StandsFor(stored: Bytes, f: StorageFlags, base: nat) {
    && WellFormed(f) && f.base == base
    && stored == Serialize(f) && Deserialize(stored) == Ok(Some(f))
    && |stored| == SerializedSize(f)
  }

  lemma SerializedStands(f: StorageFlags)
    requires WellFormed(f)
    ensures StandsFor(Serialize(f), f, f.base)
  {
    WellFormedRoundTrip(f);
    hide Deserialize, Serialize, SerializedSize;
    SizeIsLength(f);
  }

  lemma NextKeeps(cost: StorageCost, f: StorageFlags, g: StorageFlags)
    requires IsUpdate(cost) && cost.added <= U32_MAX && WellFormed(f) && WellFormed(g)
    requires NextFlags(cost, f, g).Ok?
    ensures NextFlags(cost, f, g).value.base == f.base && WellFormed(NextFlags(cost, f, g).value)
  {
    hide WellFormed, CombineAdded, CombineRemoved, TransitionType;
    match TransitionType(cost)
    case UpdateBigger => AddedKeeps(f, g, cost.added, UseTheirs);
    case UpdateSmaller => RemovedKeeps(f, g, cost.removed, UseTheirs);
    case _ =>
  }

  lemma StepKeeps(stored: Bytes, f: StorageFlags, step: Step, base: nat)
    requires StandsFor(stored, f, base) && Admissible(step)
    ensures Stands(StoredAfter(stored, step), base)
  {
    var g, cost := step.flags, step.cost;
    WellFormedRoundTrip(g);
    hide WellFormed, Deserialize, Serialize, NextFlags, SerializedSize, IsUpdate;
    if NextFlags(cost, f, g).Ok? {
      var next := NextFlags(cost, f, g).value;
      NextKeeps(cost, f, g);
      SerializedStands(next);
      assert StandsFor(StoredAfter(stored, step), next, base);
    } else {
      assert StandsFor(StoredAfter(stored, step), f, base);
    }
  }

  /** Over every run of bigger, smaller and same-size updates the stored bytes stand for
      well-formed flags with the base epoch they started with: the extra epochs stay after
      it, a multi-epoch form has epochs, the bytes are read back as the same flags, and
      their number is the announced size. */
  lemma {:induction false} RunKeeps(f: StorageFlags, steps: seq<Step>)
    requires WellFormed(f) && forall j :: 0 <= j < |steps| ==> Admissible(steps[j])
    ensures Stands(StoredAfterAll(Serialize(f), steps), f.base)
    decreases |steps|
  {
    hide WellFormed, Serialize, StoredAfter, Admissible, StandsFor;
    if steps == [] {
      SerializedStands(f);
    } else {
      var init := steps[..|steps| - 1];
      RunKeeps(f, init);
      var before := StoredAfterAll(Serialize(f), init);
      var g :| StandsFor(before, g, f.base);
      StepKeeps(before, g, steps[|steps| - 1], f.base);
    }
  }

  /** A smaller update by a removal that was split from the stored flags, in a later
      epoch, is never refused. */
  lemma SplitIsAccepted(f: StorageFlags, g: StorageFlags, cost: StorageCost, r: nat)
    requires WellFormed(f) && WellFormed(g) && f.Extra().Some? && g.Extra().None? && f.base < g.base
    requires TransitionType(cost) == UpdateSmaller && cost.removed == ValueRemoval(f, r)
    ensures Updated(cost, Some(Serialize(f)), Serialize(g)).Ok?
  {
    hide *;
    WellFormedRoundTrip(f);
    WellFormedRoundTrip(g);
    SplitThenCombine(f, g, r, UseTheirs);
    SmallerAccepted(cost, f, g);
  }

  lemma SmallerAccepted(cost: StorageCost, f: StorageFlags, g: StorageFlags)
    requires Deserialize(Serialize(f)) == Ok(Some(f)) && Deserialize(Serialize(g)) == Ok(Some(g))
    requires TransitionType(cost) == UpdateSmaller && CombineRemoved(f, g, cost.removed, UseTheirs).Ok?
    ensures Updated(cost, Some(Serialize(f)), Serialize(g)).Ok?
  {
    hide Deserialize, Serialize, TransitionType, CombineRemoved;
  }
}
