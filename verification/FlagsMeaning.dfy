/** What combining and updating flags mean, for all flags, costs and bytes: which bytes each
    epoch is left with, who owns the result, and which error refuses what. */
module FlagsMeaning {
  import opened Wrappers
  import opened Endian
  import opened EpochFlags
  import opened FlagsCodec
  import opened FlagsUpdate
  import opened Layout

  // ---- combining -----------------------------------------------------------------------

  /** The bytes an extra epoch holds. */
  function Held(f: StorageFlags, e: nat): Option<nat> {
    if f.Extra().Some? && e in f.epochs then Some(f.epochs[e]) else None
  }

  /** The newer flags' bytes for an epoch, or else the older ones'. */
  function Latest(ours: StorageFlags, theirs: StorageFlags, e: nat): Option<nat> {
    if Held(theirs, e).Some? then Held(theirs, e) else Held(ours, e)
  }

  /** Two owners that the strategy does not reconcile. */
  predicate Clash(ours: StorageFlags, theirs: StorageFlags, s: Strategy) {
    ours.Owner().Some? && theirs.Owner().Some? && ours.owner != theirs.owner && s == RaiseIssue
  }

  function Count(bytes: Option<nat>): nat {
    if bytes.Some? then bytes.value else 0
  }

  lemma LatestIs(ours: StorageFlags, theirs: StorageFlags)
    ensures forall e :: e in ExtraOrEmpty(ours, theirs) <==> Latest(ours, theirs, e).Some?
    ensures forall e :: e in ExtraOrEmpty(ours, theirs) ==>
              ExtraOrEmpty(ours, theirs)[e] == Latest(ours, theirs, e).value
    ensures CombineExtra(ours, theirs).Some? <==> ours.Extra().Some? || theirs.Extra().Some?
  {
  }

  lemma OwnersClash(ours: StorageFlags, theirs: StorageFlags, s: Strategy)
    ensures CombineOwner(ours, theirs, s) == Err(DifferentOwners) <==> Clash(ours, theirs, s)
    ensures CombineOwner(ours, theirs, s).Ok? <==> !Clash(ours, theirs, s)
  {
  }

  /** Added bytes: flags of an earlier epoch are refused, then owners that clash, then a 32-bit
      overflow. In the same epoch the newer bytes replace the older ones; in a later one they
      do too, and the added bytes are booked to that epoch on top. */
  lemma AddedExactly(ours: StorageFlags, theirs: StorageFlags, added: nat, s: Strategy)
    ensures var r := CombineAdded(ours, theirs, added, s);
            var later := ours.base < theirs.base;
            var now := Latest(ours, theirs, theirs.base);
            if theirs.base < ours.base then r == Err(DifferentBaseEpoch)
            else if Clash(ours, theirs, s) then r == Err(DifferentOwners)
            else if later && now.Some? && now.value + added > U32_MAX then r == Err(Overflow)
            else
              && r.Ok? && r.value.base == ours.base
              && (r.value.Extra().Some? <==> later || ours.Extra().Some? || theirs.Extra().Some?)
              && forall e :: Held(r.value, e) ==
                   if later && e == theirs.base then Some(Count(now) + added) else Latest(ours, theirs, e)
  {
    hide *;
    OwnersClash(ours, theirs, s);
    AddedCases(ours, theirs, added, s);
    if ours.base == theirs.base {
      SameBaseExactly(ours, theirs, s);
    } else if ours.base < theirs.base && !Clash(ours, theirs, s) {
      HigherAddExactly(ours, theirs, added, s);
    }
  }

  lemma AddedCases(ours: StorageFlags, theirs: StorageFlags, added: nat, s: Strategy)
    ensures theirs.base < ours.base ==> CombineAdded(ours, theirs, added, s) == Err(DifferentBaseEpoch)
    ensures theirs.base == ours.base ==> CombineAdded(ours, theirs, added, s) == CombineSameBase(ours, theirs, s)
    ensures theirs.base > ours.base && CombineOwner(ours, theirs, s).Err? ==>
              CombineAdded(ours, theirs, added, s) == Err(CombineOwner(ours, theirs, s).error)
  {
    hide CombineSameBase, CombineOwner, ExtraOrEmpty;
  }

  lemma HigherAddExactly(ours: StorageFlags, theirs: StorageFlags, added: nat, s: Strategy)
    requires ours.base < theirs.base && CombineOwner(ours, theirs, s).Ok?
    ensures var r := CombineAdded(ours, theirs, added, s);
            var now := Latest(ours, theirs, theirs.base);
            if now.Some? && now.value + added > U32_MAX then r == Err(Overflow)
            else
              && r.Ok? && r.value.base == ours.base && r.value.Extra().Some?
              && forall e :: Held(r.value, e) ==
                   if e == theirs.base then Some(Count(now) + added) else Latest(ours, theirs, e)
  {
    LatestIs(ours, theirs);
    hide CombineOwner, ExtraOrEmpty, Latest;
  }

  lemma SameBaseExactly(ours: StorageFlags, theirs: StorageFlags, s: Strategy)
    ensures var r := CombineSameBase(ours, theirs, s);
            if Clash(ours, theirs, s) then r == Err(DifferentOwners)
            else
              && r.Ok? && r.value.base == ours.base
              && (r.value.Extra().Some? <==> ours.Extra().Some? || theirs.Extra().Some?)
              && forall e :: Held(r.value, e) == Latest(ours, theirs, e)
  {
    OwnersClash(ours, theirs, s);
    hide CombineOwner;
  }

  /** What a removal leaves of an epoch: the bytes not charged, unless three or fewer are left. */
  function Left(bytes: Option<nat>, charges: EpochMap, base: nat, e: nat): Option<nat> {
    if bytes.None? || e !in charges || e == base then bytes
    else if bytes.value > charges[e] + 3 then Some(bytes.value - charges[e])
    else None
  }

  /** The charges of a removal for these flags: one section at most, and the owner's. */
  predicate OwnSection(ours: StorageFlags, removed: Removed) {
    removed.SectionedRemoval? ==> |removed.sections| <= 1 && ours.Payer() in removed.sections
  }

  function ChargesOf(ours: StorageFlags, removed: Removed): EpochMap {
    if removed.SectionedRemoval? && ours.Payer() in removed.sections then removed.sections[ours.Payer()] else map[]
  }

  /** Removed bytes in a later epoch. Flags without extra epochs stay as they are. Owners that
      clash and sections of another owner are refused, then a charge to an epoch that holds
      nothing, then one to an epoch that holds too little. Else every epoch is left with what
      it was not charged for, and the single-epoch form results when none is left. */
  lemma RemovedExactly(ours: StorageFlags, theirs: StorageFlags, removed: Removed, s: Strategy)
    requires ours.base < theirs.base && ours.Extra().Some?
    ensures var r := CombineRemoved(ours, theirs, removed, s);
            var charges := ChargesOf(ours, removed);
            if Clash(ours, theirs, s) || !OwnSection(ours, removed) then r == Err(DifferentOwners)
            else if exists e :: e in charges && e != ours.base && Latest(ours, theirs, e).None? then
              r == Err(NoStorageAtEpoch)
            else if exists e :: e in charges && e != ours.base && Count(Latest(ours, theirs, e)) < charges[e] then
              r == Err(Overflow)
            else
              && r.Ok? && r.value.base == ours.base
              && (forall e :: Held(r.value, e) == Left(Latest(ours, theirs, e), charges, ours.base, e))
              && (r.value.Extra().None? <==> forall e :: Held(r.value, e).None?)
  {
    hide *;
    var m, charges := ExtraOrEmpty(ours, theirs), ChargesOf(ours, removed);
    OwnersClash(ours, theirs, s);
    LatestIs(ours, theirs);
    RemovalIs(m, charges, ours.base);
    HigherRemoveIs(ours, theirs, removed, s);
    ChargedLatest(ours, theirs, charges);
    if !Clash(ours, theirs, s) {
      CollapseHolds(ours.base, AfterRemoval(m, charges, ours.base), CombineOwner(ours, theirs, s).value);
    }
  }

  lemma HigherRemoveIs(ours: StorageFlags, theirs: StorageFlags, removed: Removed, s: Strategy)
    requires ours.base < theirs.base && ours.Extra().Some?
    ensures var m, charges := ExtraOrEmpty(ours, theirs), ChargesOf(ours, removed);
            var owner := CombineOwner(ours, theirs, s);
            CombineRemoved(ours, theirs, removed, s) ==
              if owner.Err? then Err(owner.error)
              else if !OwnSection(ours, removed) then Err(DifferentOwners)
              else if Fits(m, charges, ours.base) then
                Ok(Collapse(ours.base, AfterRemoval(m, charges, ours.base), owner.value))
              else if Refuses(m, charges, ours.base, NoStorageAtEpoch) then Err(NoStorageAtEpoch)
              else Err(Overflow)
  {
    NoCharges(ExtraOrEmpty(ours, theirs), ours.base);
    hide CombineOwner, ExtraOrEmpty, Fits, AfterRemoval, StorageFlags.Payer, Collapse, Refuses;
  }

  /** The charges, seen from the epochs' bytes. */
  lemma ChargedLatest(ours: StorageFlags, theirs: StorageFlags, charges: EpochMap)
    ensures var m := ExtraOrEmpty(ours, theirs);
            && ((exists e :: e in charges && e != ours.base && e !in m) <==>
                  exists e :: e in charges && e != ours.base && Latest(ours, theirs, e).None?)
            && (!(exists e :: e in charges && e != ours.base && e !in m) ==>
                  ((exists e :: e in charges && e != ours.base && e in m && m[e] < charges[e]) <==>
                     exists e :: e in charges && e != ours.base && Count(Latest(ours, theirs, e)) < charges[e]))
  {
    LatestIs(ours, theirs);
    hide ExtraOrEmpty, Latest;
  }

  lemma RemovalIs(m: EpochMap, charges: EpochMap, base: nat)
    ensures Fits(m, charges, base) <==>
              && !(exists e :: e in charges && e != base && e !in m)
              && !(exists e :: e in charges && e != base && e in m && m[e] < charges[e])
    ensures Refuses(m, charges, base, NoStorageAtEpoch) <==> exists e :: e in charges && e != base && e !in m
    ensures Fits(m, charges, base) ==>
              var after := AfterRemoval(m, charges, base);
              forall e :: (if e in after then Some(after[e]) else None)
                       == Left(if e in m then Some(m[e]) else None, charges, base, e)
  {
  }

  lemma NoCharges(m: EpochMap, base: nat)
    ensures AfterRemoval(m, map[], base) == m && Fits(m, map[], base)
  {
  }

  lemma CollapseHolds(base: nat, m: EpochMap, owner: Option<Bytes>)
    ensures var f := Collapse(base, m, owner);
            && f.base == base
            && (forall e :: Held(f, e) == if e in m then Some(m[e]) else None)
            && (f.Extra().None? <==> forall e :: Held(f, e).None?)
  {
    var f := Collapse(base, m, owner);
    if m != map[] {
      var k :| k in m;
      assert Held(f, k).Some?;
    }
  }

  /** Removed bytes in another epoch: an earlier one is refused, the same one combines. */
  lemma RemovedElsewhere(ours: StorageFlags, theirs: StorageFlags, removed: Removed, s: Strategy)
    ensures theirs.base < ours.base ==> CombineRemoved(ours, theirs, removed, s) == Err(DifferentBaseEpoch)
    ensures theirs.base == ours.base ==>
              CombineRemoved(ours, theirs, removed, s) == CombineSameBase(ours, theirs, s)
    ensures theirs.base > ours.base && ours.Extra().None? ==>
              CombineRemoved(ours, theirs, removed, s) == Ok(ours)
  {
    hide CombineSameBase;
  }

  // ---- transitions ---------------------------------------------------------------------

  /** The sum of the values of a map, in any order. */
  ghost function Sum(m: EpochMap): nat
    decreases |m|
  {
    if m == map[] then 0
    else
      var e :| e in m;
      m[e] + Sum(m - {e})
  }

  ghost function SectionsSum(sections: map<Bytes, EpochMap>): nat
    decreases |sections|
  {
    if sections == map[] then 0
    else
      var id :| id in sections;
      Sum(sections[id]) + SectionsSum(sections - {id})
  }

  /** `total_removed_bytes`, before it is cut to 32 bits */
  ghost function TotalRemoved(removed: Removed): nat {
    match removed
    case NoRemoval => 0
    case BasicRemoval(bytes) => bytes
    case SectionedRemoval(sections) => SectionsSum(sections)
  }

  lemma {:induction false} SumPositive(m: EpochMap)
    ensures Sum(m) > 0 <==> Charging(m)
    decreases |m|
  {
    if m != map[] {
      forall e | e in m ensures Sum(m - {e}) > 0 <==> exists f :: f in m && f != e && m[f] != 0 {
        SumPositive(m - {e});
        assert forall f :: f in m - {e} <==> f in m && f != e;
      }
      var e :| e in m && Sum(m) == m[e] + Sum(m - {e});
    }
  }

  predicate Charging(m: EpochMap) {
    exists e :: e in m && m[e] != 0
  }

  lemma {:induction false} SectionsPositive(sections: map<Bytes, EpochMap>)
    ensures SectionsSum(sections) > 0 <==> exists id :: id in sections && Charging(sections[id])
    decreases |sections|
  {
    hide Charging, Sum;
    if sections != map[] {
      forall id | id in sections
        ensures Sum(sections[id]) > 0 <==> Charging(sections[id])
        ensures SectionsSum(sections - {id}) > 0 <==> exists k :: k in sections && k != id && Charging(sections[k])
      {
        SumPositive(sections[id]);
        SectionsPositive(sections - {id});
        assert forall k :: k in sections - {id} <==> k in sections && k != id;
      }
      var id :| id in sections && SectionsSum(sections) == Sum(sections[id]) + SectionsSum(sections - {id});
    }
  }

  /** A removal is one when its bytes add up to something. */
  lemma RemovalIsTotal(removed: Removed)
    ensures HasRemoval(removed) <==> TotalRemoved(removed) > 0
  {
    if removed.SectionedRemoval? {
      SectionsPositive(removed.sections);
      var sections := removed.sections;
      forall id | id in sections
        ensures Charging(sections[id]) <==> exists e :: e in sections[id] && sections[id][e] != 0
      {
      }
    }
    hide SectionsSum;
  }

  /** A write that replaces bytes and does not both add and remove some. */
  ghost predicate Updates(cost: StorageCost) {
    cost.replaced > 0 && !(cost.added > 0 && TotalRemoved(cost.removed) > 0)
  }

  /** The transition of every cost, by what was added, replaced and removed. */
  lemma TransitionMeans(cost: StorageCost)
    ensures var t, removed := TransitionType(cost), TotalRemoved(cost.removed);
            && (IsUpdate(cost) <==> Updates(cost))
            && (t == UpdateBigger <==> Updates(cost) && cost.added > 0)
            && (t == UpdateSmaller <==> Updates(cost) && removed > 0)
            && (t == UpdateSame <==> Updates(cost) && cost.added == 0 && removed == 0)
            && (t == Replace <==> cost.added > 0 && removed > 0)
            && (t == InsertNew <==> cost.added > 0 && removed == 0 && cost.replaced == 0)
            && (t == Delete <==> cost.added == 0 && removed > 0 && cost.replaced == 0)
            && (t == NoChange <==> cost.added == 0 && removed == 0 && cost.replaced == 0)
  {
    RemovalIsTotal(cost.removed);
    hide HasRemoval, TotalRemoved;
  }

  // ---- updates -------------------------------------------------------------------------

  /** Flags that were read can be written, and are read back. */
  lemma ReadIsEncodable(data: Bytes, f: StorageFlags)
    requires Deserialize(data) == Ok(Some(f))
    ensures Encodable(f) && (f.Extra().Some? ==> f.epochs != map[])
  {
    hide DecodeEntries;
    assert data != [];
    FlagsRefused(data);
    if data[0] == 1 {
      EntriesEncodable(data[3..], map[]);
    } else if data[0] == 3 {
      EntriesEncodable(data[35..], map[]);
    }
  }

  lemma {:induction false} EntriesEncodable(rest: Bytes, acc: EpochMap)
    requires forall e :: e in acc ==> e < EPOCHS && acc[e] <= U32_MAX
    ensures var m := DecodeEntries(rest, acc);
            m.Some? ==>
              && (forall e :: e in m.value ==> e < EPOCHS && m.value[e] <= U32_MAX)
              && (|rest| > 2 || acc != map[] ==> m.value != map[])
    decreases |rest|
  {
    hide VarDecode;
    if |rest| > 2 && VarDecode(rest[2..]).Some? {
      var d := VarDecode(rest[2..]).value;
      Width2();
      assert FromBe(rest[..2]) < Pow256(2);
      var next := acc[FromBe(rest[..2]) := d.value];
      assert FromBe(rest[..2]) in next;
      EntriesEncodable(rest[2 + d.used..], next);
    }
  }

  /** The flags an update leads to are read back from the bytes it leaves. */
  lemma NextIsRead(cost: StorageCost, f: StorageFlags, g: StorageFlags)
    requires IsUpdate(cost) && cost.added <= U32_MAX && NextFlags(cost, f, g).Ok?
    requires Encodable(f) && (f.Extra().Some? ==> f.epochs != map[])
    requires Encodable(g) && (g.Extra().Some? ==> g.epochs != map[])
    ensures Deserialize(Serialize(NextFlags(cost, f, g).value)) == Ok(Some(NextFlags(cost, f, g).value))
  {
    hide *;
    NextEncodable(cost, f, g);
    RoundTrip(NextFlags(cost, f, g).value);
  }

  lemma NextEncodable(cost: StorageCost, f: StorageFlags, g: StorageFlags)
    requires IsUpdate(cost) && cost.added <= U32_MAX && NextFlags(cost, f, g).Ok?
    requires Encodable(f) && (f.Extra().Some? ==> f.epochs != map[])
    requires Encodable(g) && (g.Extra().Some? ==> g.epochs != map[])
    ensures var next := NextFlags(cost, f, g).value;
            Encodable(next) && !(next.Extra().Some? && next.epochs == map[])
  {
    hide TransitionType, CombineAdded, CombineRemoved, Encodable;
    match TransitionType(cost)
    case UpdateBigger => AddedEncodable(f, g, cost.added);
    case UpdateSmaller => RemovedEncodable(f, g, cost.removed);
    case _ =>
  }

  lemma SameBaseEncodable(f: StorageFlags, g: StorageFlags)
    requires CombineSameBase(f, g, UseTheirs).Ok?
    requires Encodable(f) && (f.Extra().Some? ==> f.epochs != map[])
    requires Encodable(g) && (g.Extra().Some? ==> g.epochs != map[])
    ensures var next := CombineSameBase(f, g, UseTheirs).value;
            Encodable(next) && (next.Extra().Some? ==> next.epochs != map[])
  {
    if f.Extra().Some? && g.Extra().Some? {
      var k :| k in f.epochs;
      assert k in f.epochs + g.epochs;
    }
  }

  lemma AddedEncodable(f: StorageFlags, g: StorageFlags, added: nat)
    requires CombineAdded(f, g, added, UseTheirs).Ok? && added <= U32_MAX
    requires Encodable(f) && (f.Extra().Some? ==> f.epochs != map[])
    requires Encodable(g) && (g.Extra().Some? ==> g.epochs != map[])
    ensures var next := CombineAdded(f, g, added, UseTheirs).value;
            Encodable(next) && (next.Extra().Some? ==> next.epochs != map[])
  {
    if f.base == g.base {
      hide CombineSameBase, Encodable;
      SameBaseEncodable(f, g);
    } else {
      MergedEncodable(f, g);
      hide ExtraOrEmpty;
      var next := CombineAdded(f, g, added, UseTheirs).value;
      assert g.base in next.epochs;
    }
  }

  lemma MergedEncodable(f: StorageFlags, g: StorageFlags)
    requires Encodable(f) && Encodable(g)
    ensures forall e :: e in ExtraOrEmpty(f, g) ==> e < EPOCHS && ExtraOrEmpty(f, g)[e] <= U32_MAX
  {
  }

  lemma RemovedEncodable(f: StorageFlags, g: StorageFlags, removed: Removed)
    requires CombineRemoved(f, g, removed, UseTheirs).Ok?
    requires Encodable(f) && (f.Extra().Some? ==> f.epochs != map[])
    requires Encodable(g) && (g.Extra().Some? ==> g.epochs != map[])
    ensures var next := CombineRemoved(f, g, removed, UseTheirs).value;
            Encodable(next) && (next.Extra().Some? ==> next.epochs != map[])
  {
    if f.base == g.base {
      hide CombineSameBase, Encodable;
      SameBaseEncodable(f, g);
    } else if f.Extra().Some? {
      MergedEncodable(f, g);
      HigherRemoveIs(f, g, removed, UseTheirs);
      LeftEncodable(ExtraOrEmpty(f, g), ChargesOf(f, removed), f.base);
      hide CombineRemoved, ExtraOrEmpty, AfterRemoval, Fits, OwnSection, Refuses, ChargesOf;
    }
  }

  lemma LeftEncodable(m: EpochMap, charges: EpochMap, base: nat)
    requires forall e :: e in m ==> e < EPOCHS && m[e] <= U32_MAX
    ensures var after := AfterRemoval(m, charges, base);
            forall e :: e in after ==> e < EPOCHS && after[e] <= U32_MAX
  {
  }

  /** Who owns the flags after an update of `f` by `g`: the new owner where there is one, and
      the old owner when nothing was added or removed, or when bytes were removed in a later
      epoch from flags without extra epochs. */
  ghost function OwnerThen(cost: StorageCost, f: StorageFlags, g: StorageFlags): Option<Bytes> {
    if g.Owner().None? || (cost.added == 0 && TotalRemoved(cost.removed) == 0)
       || (cost.added == 0 && f.base < g.base && f.Extra().None?)
    then f.Owner() else g.Owner()
  }

  lemma OwnerOfNext(cost: StorageCost, f: StorageFlags, g: StorageFlags)
    requires IsUpdate(cost) && NextFlags(cost, f, g).Ok?
    ensures NextFlags(cost, f, g).value.Owner() == OwnerThen(cost, f, g)
    ensures NextFlags(cost, f, g).value.base == f.base
  {
    TransitionMeans(cost);
    OwnerAfter(f, g, cost.added, cost.removed, UseTheirs);
    AddedExactly(f, g, cost.added, UseTheirs);
    BaseStays(f, g, cost.removed);
    hide CombineAdded, CombineRemoved, TransitionType, TotalRemoved;
  }

  lemma BaseStays(f: StorageFlags, g: StorageFlags, removed: Removed)
    ensures CombineRemoved(f, g, removed, UseTheirs).Ok? ==>
              CombineRemoved(f, g, removed, UseTheirs).value.base == f.base
  {
    hide CombineOwner, ExtraOrEmpty, CombineExtra, AfterRemoval, Fits, Refuses, StorageFlags.Payer;
  }

  /** An update of an element whose old and new bytes are flags. A write that is no update
      keeps the new bytes and reports no change; a same-size update restores the old flags.
      A bigger one combines with the added bytes, a smaller one with the removed bytes; what
      it leaves is read back as the combined flags, with the old base epoch and the owner of
      `OwnerThen`, and a change is reported when the bytes differ from the new ones. */
  lemma UpdateMeans(cost: StorageCost, oldFlags: Bytes, newFlags: Bytes, f: StorageFlags, g: StorageFlags)
    requires Deserialize(oldFlags) == Ok(Some(f)) && Deserialize(newFlags) == Ok(Some(g)) && cost.added <= U32_MAX
    ensures var r := Updated(cost, Some(oldFlags), newFlags);
            var removed := TotalRemoved(cost.removed);
            && (!Updates(cost) ==> r == Ok((false, newFlags)))
            && (Updates(cost) ==>
                  var next := if cost.added > 0 then CombineAdded(f, g, cost.added, UseTheirs)
                              else if removed > 0 then CombineRemoved(f, g, cost.removed, UseTheirs)
                              else Ok(f);
                  if next.Err? then r == Err(next.error)
                  else
                    && r.Ok?
                    && Deserialize(r.value.1) == Ok(Some(next.value))
                    && next.value.base == f.base && next.value.Owner() == OwnerThen(cost, f, g)
                    && (r.value.0 <==> r.value.1 != newFlags || (cost.added == 0 && removed == 0)))
  {
    hide *;
    TransitionMeans(cost);
    UpdatedIs(cost, oldFlags, newFlags, f, g);
    if IsUpdate(cost) {
      NextIs(cost, f, g);
      if NextFlags(cost, f, g).Ok? {
        ReadIsEncodable(oldFlags, f);
        ReadIsEncodable(newFlags, g);
        NextIsRead(cost, f, g);
        OwnerOfNext(cost, f, g);
      }
    }
  }

  lemma UpdatedIs(cost: StorageCost, oldFlags: Bytes, newFlags: Bytes, f: StorageFlags, g: StorageFlags)
    requires Deserialize(oldFlags) == Ok(Some(f)) && Deserialize(newFlags) == Ok(Some(g))
    ensures !IsUpdate(cost) ==> Updated(cost, Some(oldFlags), newFlags) == Ok((false, newFlags))
    ensures IsUpdate(cost) ==>
              var next := NextFlags(cost, f, g);
              Updated(cost, Some(oldFlags), newFlags) ==
                if next.Err? then Err(next.error)
                else Ok((TransitionType(cost) == UpdateSame || Serialize(next.value) != newFlags,
                         Serialize(next.value)))
  {
    hide Deserialize, Serialize, NextFlags, TransitionType, IsUpdate;
  }

  lemma NextIs(cost: StorageCost, f: StorageFlags, g: StorageFlags)
    requires IsUpdate(cost)
    ensures NextFlags(cost, f, g) ==
              match TransitionType(cost)
              case UpdateBigger => CombineAdded(f, g, cost.added, UseTheirs)
              case UpdateSmaller => CombineRemoved(f, g, cost.removed, UseTheirs)
              case _ => Ok(f)
  {
    hide CombineAdded, CombineRemoved, TransitionType;
  }

  /** Without old flags the new bytes are kept, whatever they are. Otherwise bytes that are
      no flags are refused with the error of reading them, the old ones first, and empty
      bytes on either side as a removal of flags. */
  lemma UpdateRefused(cost: StorageCost, oldFlags: Bytes, newFlags: Bytes)
    ensures Updated(cost, None, newFlags) == Ok((false, newFlags))
    ensures Deserialize(oldFlags).Err? ==>
              Updated(cost, Some(oldFlags), newFlags) == Err(Deserialize(oldFlags).error)
    ensures Deserialize(oldFlags).Ok? && Deserialize(newFlags).Err? ==>
              Updated(cost, Some(oldFlags), newFlags) == Err(Deserialize(newFlags).error)
    ensures Deserialize(oldFlags).Ok? && Deserialize(newFlags).Ok? && (oldFlags == [] || newFlags == []) ==>
              Updated(cost, Some(oldFlags), newFlags) == Err(RemovingFlags)
  {
    hide DeserializeSome, Serialize, NextFlags, TransitionType;
  }
}
