/** Removing bytes from flags: the newest epochs pay first, each down to a floor, and the
    base epoch pays the rest; and combining such a removal back into the flags. */
module EpochSplit {
  import opened Wrappers
  import opened Endian
  import opened EpochFlags

  // ---- ascending keys ----------------------------------------------------------------

  /** The keys of `m` below `n`, ascending: the order in which the map is iterated. */
  function KeysBelow(m: EpochMap, n: nat): (ks: seq<nat>)
    ensures forall j :: 0 <= j < |ks| ==> ks[j] in m && ks[j] < n
    ensures forall a, b :: 0 <= a < b < |ks| ==> ks[a] < ks[b]
    ensures forall e :: e in m && e < n ==> e in ks
  {
    if n == 0 then [] else KeysBelow(m, n - 1) + if n - 1 in m then [n - 1] else []
  }

  /** Between two neighbours of an ascending key list there is no key. */
  lemma NoKeyBetween(m: EpochMap, n: nat, i: nat, e: nat)
    requires i <= |KeysBelow(m, n)| && e < n
    requires i > 0 ==> KeysBelow(m, n)[i - 1] < e
    requires i < |KeysBelow(m, n)| ==> e < KeysBelow(m, n)[i]
    ensures e !in m
  {
    var ks := KeysBelow(m, n);
    hide KeysBelow;
    forall j | 0 <= j < |ks| ensures ks[j] != e {
      if j < i {
        assert ks[j] <= ks[i - 1];
      } else {
        assert ks[i] <= ks[j];
      }
    }
    assert e !in ks;
  }

  // ---- what each epoch can pay -------------------------------------------------------

  function Removable(bytes: nat): nat {
    if bytes > FLOOR then bytes - FLOOR else 0
  }

  function At(m: EpochMap, e: nat): nat {
    if e in m then m[e] else 0
  }

  /** What the epochs in `[lo, n)` can pay together. */
  function RemovableFrom(m: EpochMap, lo: nat, n: nat): nat
    decreases n - lo
  {
    if lo >= n then 0 else Removable(At(m, lo)) + RemovableFrom(m, lo + 1, n)
  }

  function Min(a: nat, b: nat): nat {
    if a < b then a else b
  }

  /** What epoch `e` pays of `r` bytes: what the later epochs leave, down to its floor. */
  function Charge(m: EpochMap, r: nat, n: nat, e: nat): nat
    requires r > RemovableFrom(m, e + 1, n)
  {
    Min(Removable(At(m, e)), r - RemovableFrom(m, e + 1, n))
  }

  /** The extra epochs asked to pay: those the later ones leave something for. */
  predicate Asked(m: EpochMap, r: nat, n: nat, e: nat) {
    e in m && r > RemovableFrom(m, e + 1, n)
  }

  function Charges(m: EpochMap, r: nat, n: nat): EpochMap {
    map e | e in m && Asked(m, r, n, e) :: Charge(m, r, n, e)
  }

  /** The removal map: the charges, and the base epoch for what is left. */
  function Sections(m: EpochMap, base: nat, r: nat, n: nat): EpochMap {
    var rest := RemovableFrom(m, 0, n);
    if r > rest then Charges(m, r, n)[base := r - rest] else Charges(m, r, n)
  }

  lemma {:induction false} SkipGap(m: EpochMap, lo: nat, hi: nat, n: nat)
    requires lo <= hi <= n && forall e :: lo <= e < hi ==> e !in m
    ensures RemovableFrom(m, lo, n) == RemovableFrom(m, hi, n)
    decreases hi - lo
  {
    if lo < hi {
      SkipGap(m, lo + 1, hi, n);
    }
  }

  lemma {:induction false} RemovableShrinks(m: EpochMap, lo: nat, hi: nat, n: nat)
    requires lo <= hi
    ensures RemovableFrom(m, hi, n) <= RemovableFrom(m, lo, n)
    decreases hi - lo
  {
    if lo < hi {
      RemovableShrinks(m, lo + 1, hi, n);
    }
  }

  // ---- the loop ----------------------------------------------------------------------

  /** Where the loop stands: the lowest epoch visited so far. */
  function Frontier(ks: seq<nat>, i: nat, n: nat): nat
    requires i <= |ks|
  {
    if i == |ks| then n else ks[i]
  }

  function LeftAfter(m: EpochMap, r: nat, n: nat, cur: nat): nat {
    var paid := RemovableFrom(m, cur, n);
    if r > paid then r - paid else 0
  }

  /** The charges of the epochs from `cur` on. */
  function ChargesFrom(m: EpochMap, r: nat, n: nat, cur: nat): EpochMap {
    map e | e in m && cur <= e && Asked(m, r, n, e) :: Charge(m, r, n, e)
  }

  ghost predicate InSplit(m: EpochMap, r: nat, n: nat, i: nat, left: nat, charges: EpochMap) {
    var ks := KeysBelow(m, n);
    && i <= |ks|
    && left == LeftAfter(m, r, n, Frontier(ks, i, n))
    && charges == ChargesFrom(m, r, n, Frontier(ks, i, n))
  }

  lemma SplitStart(m: EpochMap, r: nat, n: nat)
    requires forall e :: e in m ==> e < n
    ensures InSplit(m, r, n, |KeysBelow(m, n)|, r, map[])
  {
    hide KeysBelow;
    assert RemovableFrom(m, n, n) == 0;
    assert ChargesFrom(m, r, n, n) == map[];
  }

  lemma LeftNext(m: EpochMap, r: nat, n: nat, e: nat, cur: nat)
    requires e in m && e < cur <= n && (forall f :: e < f < cur ==> f !in m) && LeftAfter(m, r, n, cur) > 0
    ensures r > RemovableFrom(m, e + 1, n) && LeftAfter(m, r, n, cur) == r - RemovableFrom(m, e + 1, n)
    ensures LeftAfter(m, r, n, e) == LeftAfter(m, r, n, cur) - Min(Removable(m[e]), LeftAfter(m, r, n, cur))
  {
    SkipGap(m, e + 1, cur, n);
    assert RemovableFrom(m, e, n) == Removable(m[e]) + RemovableFrom(m, e + 1, n);
    hide RemovableFrom;
  }

  lemma ChargesNext(m: EpochMap, r: nat, n: nat, e: nat, cur: nat)
    requires e in m && e < cur && (forall f :: e < f < cur ==> f !in m) && Asked(m, r, n, e)
    ensures ChargesFrom(m, r, n, e) == ChargesFrom(m, r, n, cur)[e := Charge(m, r, n, e)]
  {
    hide RemovableFrom, Charge;
  }

  /** What the loop sees at the next key. */
  lemma SplitNext(m: EpochMap, r: nat, n: nat, i: nat, left: nat, charges: EpochMap)
    requires InSplit(m, r, n, i, left, charges) && i > 0 && left > 0
    ensures var e := KeysBelow(m, n)[i - 1];
            && e in m
            && InSplit(m, r, n, i - 1, left - Min(Removable(m[e]), left), charges[e := Min(Removable(m[e]), left)])
  {
    var ks := KeysBelow(m, n);
    hide KeysBelow, LeftAfter, ChargesFrom, Removable;
    var e, cur := ks[i - 1], Frontier(ks, i, n);
    assert e < cur <= n;
    forall f | e < f < cur ensures f !in m {
      NoKeyBetween(m, n, i, f);
    }
    LeftNext(m, r, n, e, cur);
    ChargesNext(m, r, n, e, cur);
    assert At(m, e) == m[e];
  }

  /** The loop ends with nothing left or with every epoch visited. */
  lemma SplitEnd(m: EpochMap, r: nat, n: nat, i: nat, left: nat, charges: EpochMap)
    requires InSplit(m, r, n, i, left, charges) && (i == 0 || left == 0)
    requires forall e :: e in m ==> e < n
    ensures charges == Charges(m, r, n)
    ensures left == LeftAfter(m, r, n, 0)
  {
    var ks := KeysBelow(m, n);
    hide KeysBelow, Charge;
    var cur := Frontier(ks, i, n);
    RemovableShrinks(m, 0, cur, n);
    if i == 0 {
      forall f | 0 <= f < cur ensures f !in m {
        NoKeyBetween(m, n, 0, f);
      }
      SkipGap(m, 0, cur, n);
    }
    NoneBefore(m, r, n, cur, i == 0);
    hide RemovableFrom;
  }

  lemma NotAskedBefore(m: EpochMap, r: nat, n: nat, cur: nat, e: nat)
    requires e < cur && LeftAfter(m, r, n, cur) == 0
    ensures !Asked(m, r, n, e)
  {
    RemovableShrinks(m, e + 1, cur, n);
    hide RemovableFrom;
  }

  lemma NoneBefore(m: EpochMap, r: nat, n: nat, cur: nat, all: bool)
    requires if all then forall f :: 0 <= f < cur ==> f !in m else LeftAfter(m, r, n, cur) == 0
    ensures Charges(m, r, n) == ChargesFrom(m, r, n, cur)
  {
    hide RemovableFrom, Charge, LeftAfter;
    forall e: nat | e in m && e < cur ensures !Asked(m, r, n, e) {
      if !all {
        NotAskedBefore(m, r, n, cur, e);
      }
    }
    hide Asked;
  }

  /** `sectioned_storage_removal`; nothing when the 32-bit addition in its comparison overflows. */
  method SectionedStorageRemoval(removed: nat, base: nat, epochs: EpochMap, n: nat)
    returns (sections: Option<EpochMap>)
    requires forall e :: e in epochs ==> e < n
    ensures sections == if removed > U32_MAX - FLOOR && epochs != map[] then None
                        else Some(Sections(epochs, base, removed, n))
  {
    hide Charges, KeysBelow, RemovableFrom, InSplit;
    var bytesLeft: nat := removed;
    var charges: EpochMap := map[];
    var ks := KeysBelow(epochs, n);
    var i: nat := |ks|;
    assert epochs != map[] ==> ks != [] by {
      assert forall e :: e in epochs ==> e in ks;
    }
    SplitStart(epochs, removed, n);
    while bytesLeft > 0 && i > 0
      invariant i <= |ks| && InSplit(epochs, removed, n, i, bytesLeft, charges)
      invariant if i < |ks| then removed <= U32_MAX - FLOOR else bytesLeft == removed
    {
      SplitNext(epochs, removed, n, i, bytesLeft, charges);
      var e := ks[i - 1];
      if bytesLeft > U32_MAX - FLOOR {
        return None;
      }
      i := i - 1;
      if epochs[e] <= bytesLeft + FLOOR {
        var removable := if epochs[e] > FLOOR then epochs[e] - FLOOR else 0;
        charges := charges[e := removable];
        bytesLeft := bytesLeft - removable;
      } else {
        charges := charges[e := bytesLeft];
        bytesLeft := 0;
      }
    }
    SplitEnd(epochs, removed, n, i, bytesLeft, charges);
    if bytesLeft > 0 {
      charges := charges[base := bytesLeft];
    }
    sections := Some(charges);
  }

  /** `single_storage_removal` */
  function SingleRemoval(removed: nat, f: StorageFlags): Removed {
    if removed == 0 then NoRemoval else SectionedRemoval(map[f.Payer() := map[f.base := removed]])
  }

  /** The removal of value bytes. */
  function ValueRemoval(f: StorageFlags, removed: nat): Removed {
    if removed == 0 then NoRemoval
    else if f.Extra().None? then SingleRemoval(removed, f)
    else SectionedRemoval(map[f.Payer() := Sections(f.epochs, f.base, removed, EPOCHS)])
  }

  /** `split_storage_removed_bytes` */
  method SplitStorageRemovedBytes(f: StorageFlags, removedKey: nat, removedValue: nat)
    returns (r: Option<(Removed, Removed)>)
    requires f.Extra().Some? ==> forall e :: e in f.epochs ==> e < EPOCHS
    ensures r.None? <==> f.Extra().Some? && f.epochs != map[] && removedValue > 0xFFFF_FFFC
    ensures r.Some? ==> r.value == (SingleRemoval(removedKey, f), ValueRemoval(f, removedValue))
  {
    hide Sections;
    var key := SingleRemoval(removedKey, f);
    if removedValue == 0 || f.Extra().None? {
      return Some((key, SingleRemoval(removedValue, f)));
    }
    var sections := SectionedStorageRemoval(removedValue, f.base, f.epochs, EPOCHS);
    r := if sections.None? then None
         else Some((key, SectionedRemoval(map[f.Payer() := sections.value])));
  }

  // ---- conservation and order --------------------------------------------------------

  /** Sum of the entries of `c` in `[lo, n)`. */
  function SumFrom(c: EpochMap, lo: nat, n: nat): nat
    decreases n - lo
  {
    if lo >= n then 0 else At(c, lo) + SumFrom(c, lo + 1, n)
  }

  lemma {:induction false} SumUpdate(c: EpochMap, e: nat, x: nat, lo: nat, n: nat)
    requires e < n
    ensures SumFrom(c[e := x], lo, n) == SumFrom(c, lo, n) + (if lo <= e then x - At(c, e) else 0)
    decreases n - lo
  {
    if lo < n {
      SumUpdate(c, e, x, lo + 1, n);
    }
  }

  lemma {:induction false} ChargesSum(m: EpochMap, r: nat, lo: nat, n: nat)
    requires forall e :: e in m ==> e < n
    ensures SumFrom(Charges(m, r, n), lo, n) == Min(r, RemovableFrom(m, lo, n))
    decreases n - lo
  {
    if lo < n {
      ChargesSum(m, r, lo + 1, n);
      ChargeAt(m, r, lo, n);
      hide Charges;
    }
  }

  lemma ChargeAt(m: EpochMap, r: nat, e: nat, n: nat)
    ensures At(Charges(m, r, n), e) ==
              if r > RemovableFrom(m, e + 1, n) then Min(Removable(At(m, e)), r - RemovableFrom(m, e + 1, n)) else 0
  {
    hide RemovableFrom;
  }

  /** The charges of one removal add up to the removed bytes, unless the base epoch is
      itself among the extra epochs, has something to pay, and also pays the rest. */
  lemma Conservation(m: EpochMap, base: nat, r: nat, n: nat)
    requires base < n && forall e :: e in m ==> e < n
    ensures SumFrom(Sections(m, base, r, n), 0, n) == r <==>
              !(base in m && m[base] > FLOOR && r > RemovableFrom(m, 0, n))
  {
    ChargesSum(m, r, 0, n);
    if r > RemovableFrom(m, 0, n) {
      ChargeAt(m, r, base, n);
      RemovableShrinks(m, 0, base, n);
      assert RemovableFrom(m, base, n) == Removable(At(m, base)) + RemovableFrom(m, base + 1, n);
      hide RemovableFrom, Charges;
      SumUpdate(Charges(m, r, n), base, r - RemovableFrom(m, 0, n), 0, n);
    }
  }

  /** A base epoch that is also an extra epoch loses its own charge. */
  lemma BaseAmongExtras()
    ensures SumFrom(Sections(map[0 := 10], 0, 20, 1), 0, 1) == 13
  {
    var m: EpochMap := map[0 := 10];
    assert RemovableFrom(m, 1, 1) == 0 && RemovableFrom(m, 0, 1) == 7;
    assert Sections(m, 0, 20, 1)[0] == 13;
    assert SumFrom(Sections(m, 0, 20, 1), 1, 1) == 0;
  }

  /** No extra epoch is charged below its floor: what it pays is at most what it holds
      above the floor, and only the base epoch pays without such a bound. */
  lemma FloorKept(m: EpochMap, base: nat, r: nat, n: nat, e: nat)
    requires base !in m && e in Sections(m, base, r, n)
    ensures e != base ==> e in m && Sections(m, base, r, n)[e] <= Removable(m[e])
    ensures e == base ==> r > RemovableFrom(m, 0, n) && Sections(m, base, r, n)[e] == r - RemovableFrom(m, 0, n)
  {
    hide RemovableFrom;
  }

  /** A charge to one epoch means every later extra epoch paid down to its floor. */
  lemma NewestFirst(m: EpochMap, base: nat, r: nat, n: nat, e: nat, later: nat)
    requires base < n && (forall f :: f in m ==> base < f < n)
    requires e in Sections(m, base, r, n) && Sections(m, base, r, n)[e] > 0
    requires later in m && e < later
    ensures later in Sections(m, base, r, n)
    ensures Sections(m, base, r, n)[later] == Removable(m[later])
    ensures e in m || e == base
  {
    hide *;
    ChargedMeans(m, base, r, n, e);
    RemovableShrinks(m, 0, e + 1, n);
    RemovableShrinks(m, e + 1, later, n);
    FullyCharged(m, base, r, n, later);
  }

  /** An entry of the removal map is the base epoch's, or one the later epochs left bytes for. */
  lemma ChargedMeans(m: EpochMap, base: nat, r: nat, n: nat, e: nat)
    requires e in Sections(m, base, r, n)
    ensures (e in m && r > RemovableFrom(m, e + 1, n)) || (e == base && r > RemovableFrom(m, 0, n))
  {
    hide RemovableFrom;
  }

  /** An epoch pays down to its floor when bytes are left for the one before it. */
  lemma FullyCharged(m: EpochMap, base: nat, r: nat, n: nat, e: nat)
    requires e in m && base < e < n && r > RemovableFrom(m, e, n)
    ensures e in Sections(m, base, r, n) && Sections(m, base, r, n)[e] == Removable(m[e])
  {
    assert RemovableFrom(m, e, n) == Removable(At(m, e)) + RemovableFrom(m, e + 1, n);
    hide RemovableFrom;
  }

  // ---- split, then combine -----------------------------------------------------------

  /** An extra epoch stays in the map when it is not asked, or keeps more than its floor. */
  predicate Stays(m: EpochMap, r: nat, n: nat, e: nat) {
    var above := RemovableFrom(m, e + 1, n);
    e in m && (r <= above || r - above < Removable(m[e]))
  }

  function PaidBy(m: EpochMap, r: nat, n: nat, e: nat): nat {
    var above := RemovableFrom(m, e + 1, n);
    if r <= above then 0 else r - above
  }

  lemma SurvivorsStay(m: EpochMap, base: nat, r: nat, n: nat, e: nat)
    requires base !in m && e in m
    ensures var c := Sections(m, base, r, n);
            && Fits(m, c, base)
            && (Survives(m, c, base, e) <==> Stays(m, r, n, e))
            && (Stays(m, r, n, e) ==> PaidBy(m, r, n, e) <= m[e] && Keeps(m, c, base, e) == m[e] - PaidBy(m, r, n, e))
  {
    hide RemovableFrom;
  }

  /** The removal a split produced can always be combined back: the base epoch stays,
      every surviving epoch keeps its bytes minus what it paid, and the flags fall back to
      the single-epoch form exactly when no epoch survives. */
  lemma SplitThenCombine(ours: StorageFlags, theirs: StorageFlags, r: nat, s: Strategy)
    requires WellFormed(ours) && WellFormed(theirs) && ours.Extra().Some? && theirs.Extra().None?
    requires ours.base < theirs.base && s != RaiseIssue
    ensures CombineRemoved(ours, theirs, ValueRemoval(ours, r), s).Ok?
    ensures var f := CombineRemoved(ours, theirs, ValueRemoval(ours, r), s).value;
            && f.base == ours.base
            && (f.Extra().None? <==> forall e :: e in ours.epochs ==> !Stays(ours.epochs, r, EPOCHS, e))
            && (f.Extra().Some? ==>
                  && (forall e: nat :: e in f.epochs <==> Stays(ours.epochs, r, EPOCHS, e))
                  && (forall e :: e in f.epochs ==>
                        PaidBy(ours.epochs, r, EPOCHS, e) <= ours.epochs[e]
                        && f.epochs[e] == ours.epochs[e] - PaidBy(ours.epochs, r, EPOCHS, e)))
  {
    var m, base := ours.epochs, ours.base;
    hide *;
    EpochsApart(ours);
    OwnerKept(ours, theirs, s);
    var owner := CombineOwner(ours, theirs, s).value;
    var c := Sections(m, base, r, EPOCHS);
    SplitResult(m, base, r, EPOCHS);
    if r > 0 {
      RemovalIs(ours, r);
      CombinedForm(ours, theirs, c, s);
      CollapseMeans(base, AfterRemoval(m, c, base), owner);
      SurvivorsOf(m, r, EPOCHS, AfterRemoval(m, c, base), Collapse(base, AfterRemoval(m, c, base), owner));
    } else {
      UncombinedForm(ours, theirs, s);
      CollapseMeans(base, m, owner);
      NothingPaid(m, EPOCHS);
      SurvivorsOf(m, r, EPOCHS, m, Collapse(base, m, owner));
    }
  }

  lemma SurvivorsOf(m: EpochMap, r: nat, n: nat, after: EpochMap, f: StorageFlags)
    requires f.Extra().None? <==> after == map[]
    requires f.Extra().Some? ==> f.epochs == after
    requires forall e: nat :: e in after <==> Stays(m, r, n, e)
    requires forall e :: e in after ==> e in m && PaidBy(m, r, n, e) <= m[e] && after[e] == m[e] - PaidBy(m, r, n, e)
    ensures f.Extra().None? <==> forall e :: e in m ==> !Stays(m, r, n, e)
    ensures f.Extra().Some? ==>
              && (forall e: nat :: e in f.epochs <==> Stays(m, r, n, e))
              && (forall e :: e in f.epochs ==> PaidBy(m, r, n, e) <= m[e] && f.epochs[e] == m[e] - PaidBy(m, r, n, e))
  {
    hide Stays, PaidBy;
    if after != map[] {
      var k :| k in after;
      assert k in m && Stays(m, r, n, k);
    }
  }

  lemma EpochsApart(f: StorageFlags)
    requires WellFormed(f) && f.Extra().Some?
    ensures f.base !in f.epochs && f.epochs != map[]
  {
  }

  lemma RemovalIs(f: StorageFlags, r: nat)
    requires f.Extra().Some? && r > 0
    ensures ValueRemoval(f, r) == SectionedRemoval(map[f.Payer() := Sections(f.epochs, f.base, r, EPOCHS)])
  {
    hide Sections;
  }

  lemma NothingPaid(m: EpochMap, n: nat)
    ensures forall e :: e in m ==> Stays(m, 0, n, e) && PaidBy(m, 0, n, e) == 0
    ensures forall e: nat :: Stays(m, 0, n, e) ==> e in m
  {
    hide RemovableFrom;
  }

  lemma CollapseMeans(base: nat, m: EpochMap, owner: Option<Bytes>)
    ensures var f := Collapse(base, m, owner);
            && f.base == base
            && (f.Extra().None? <==> m == map[])
            && (f.Extra().Some? ==> f.epochs == m)
  {
  }

  lemma SplitResult(m: EpochMap, base: nat, r: nat, n: nat)
    requires base !in m && m != map[]
    ensures var c := Sections(m, base, r, n);
            var after := AfterRemoval(m, c, base);
            && Fits(m, c, base)
            && (forall e: nat :: e in after <==> Stays(m, r, n, e))
            && (forall e :: e in after ==>
                  PaidBy(m, r, n, e) <= m[e] && after[e] == m[e] - PaidBy(m, r, n, e))
  {
    var c := Sections(m, base, r, n);
    forall e | e in m
      ensures Fits(m, c, base) && (Survives(m, c, base, e) <==> Stays(m, r, n, e))
      ensures Stays(m, r, n, e) ==> PaidBy(m, r, n, e) <= m[e] && Keeps(m, c, base, e) == m[e] - PaidBy(m, r, n, e)
    {
      SurvivorsStay(m, base, r, n, e);
    }
    var k :| k in m;
    assert Fits(m, c, base);
    StaysIn(m, r, n);
    hide Survives, Stays, PaidBy, Keeps, Sections, Fits;
  }

  lemma StaysIn(m: EpochMap, r: nat, n: nat)
    ensures forall e: nat :: Stays(m, r, n, e) ==> e in m
  {
    hide RemovableFrom;
  }

  lemma UncombinedForm(ours: StorageFlags, theirs: StorageFlags, s: Strategy)
    requires ours.Extra().Some? && theirs.Extra().None? && ours.base < theirs.base
    requires CombineOwner(ours, theirs, s).Ok?
    ensures CombineRemoved(ours, theirs, ValueRemoval(ours, 0), s) ==
              Ok(Collapse(ours.base, ours.epochs, CombineOwner(ours, theirs, s).value))
  {
    hide CombineOwner, Collapse;
  }

  lemma CombinedForm(ours: StorageFlags, theirs: StorageFlags, c: EpochMap, s: Strategy)
    requires ours.Extra().Some? && theirs.Extra().None? && ours.base < theirs.base
    requires CombineOwner(ours, theirs, s).Ok? && Fits(ours.epochs, c, ours.base)
    ensures CombineRemoved(ours, theirs, SectionedRemoval(map[ours.Payer() := c]), s) ==
              Ok(Collapse(ours.base, AfterRemoval(ours.epochs, c, ours.base), CombineOwner(ours, theirs, s).value))
  {
    hide Fits, AfterRemoval, CombineOwner, Collapse;
  }

  // ---- adding bytes ----------------------------------------------------------------------

  lemma {:induction false} SumOfEmpty(lo: nat, n: nat)
    ensures SumFrom(map[], lo, n) == 0
    decreases n - lo
  {
    if lo < n {
      SumOfEmpty(lo + 1, n);
    }
  }

  function ExtraOf(f: StorageFlags): EpochMap {
    if f.Extra().Some? then f.epochs else map[]
  }

  /** Bytes added in a later epoch are booked to that epoch and to no other, so the extra
      epochs together gain exactly the added bytes; only a 32-bit overflow is refused. */
  lemma AddedIsBooked(ours: StorageFlags, theirs: StorageFlags, added: nat, s: Strategy)
    requires WellFormed(ours) && WellFormed(theirs) && theirs.Extra().None?
    requires ours.base < theirs.base && s != RaiseIssue && added <= U32_MAX
    ensures CombineAdded(ours, theirs, added, s).Err? <==> At(ExtraOf(ours), theirs.base) + added > U32_MAX
    ensures CombineAdded(ours, theirs, added, s).Ok? ==>
              var f := CombineAdded(ours, theirs, added, s).value;
              && (forall e :: At(ExtraOf(f), e) == At(ExtraOf(ours), e) + if e == theirs.base then added else 0)
              && SumFrom(ExtraOf(f), 0, EPOCHS) == SumFrom(ExtraOf(ours), 0, EPOCHS) + added
  {
    hide *;
    var m, e := ExtraOf(ours), theirs.base;
    OwnerKept(ours, theirs, s);
    EpochInRange(theirs);
    AddedForm(ours, theirs, added, s);
    BookedAt(m, e, added);
    SumUpdate(m, e, At(m, e) + added, 0, EPOCHS);
  }

  lemma EpochInRange(f: StorageFlags)
    requires WellFormed(f)
    ensures f.base < EPOCHS
  {
  }

  lemma BookedAt(m: EpochMap, e: nat, added: nat)
    ensures forall f :: At(m[e := At(m, e) + added], f) == At(m, f) + if f == e then added else 0
  {
  }

  lemma AddedForm(ours: StorageFlags, theirs: StorageFlags, added: nat, s: Strategy)
    requires theirs.Extra().None? && ours.base < theirs.base && CombineOwner(ours, theirs, s).Ok? && added <= U32_MAX
    ensures var m := ExtraOf(ours);
            var bytes := At(m, theirs.base) + added;
            var r := CombineAdded(ours, theirs, added, s);
            && (r.Err? <==> bytes > U32_MAX)
            && (r.Ok? ==> ExtraOf(r.value) == m[theirs.base := bytes])
  {
    hide CombineOwner;
    assert ExtraOrEmpty(ours, theirs) == ExtraOf(ours);
  }

  // ---- who is charged ----------------------------------------------------------------------

  /** The removal that charges one epoch of one owner. */
  function Charged(owner: Bytes, epoch: nat, bytes: nat): Removed {
    SectionedRemoval(map[owner := map[epoch := bytes]])
  }

  /** The two removals of a split. Nothing is charged for no bytes. Key bytes, and the value
      bytes of flags without extra epochs, are charged to the base epoch. Everything goes
      under the owner, or under 32 zero bytes without one. The entries of the value part add
      up to the removed bytes, under the condition of `Conservation`. */
  lemma SplitCharges(f: StorageFlags, removedKey: nat, removedValue: nat)
    requires f.base < EPOCHS && (f.Extra().Some? ==> forall e :: e in f.epochs ==> e < EPOCHS)
    ensures var owner := if f.Owner().Some? then f.owner else seq(32, _ => 0);
            var key, value := SingleRemoval(removedKey, f), ValueRemoval(f, removedValue);
            && key == (if removedKey == 0 then NoRemoval else Charged(owner, f.base, removedKey))
            && (removedValue == 0 ==> value == NoRemoval)
            && (removedValue > 0 && f.Extra().None? ==> value == Charged(owner, f.base, removedValue))
            && (removedValue > 0 ==> value.SectionedRemoval? && value.sections.Keys == {owner})
            && (removedValue > 0 && f.Extra().Some? ==>
                  (SumFrom(value.sections[owner], 0, EPOCHS) == removedValue <==>
                     !(f.base in f.epochs && f.epochs[f.base] > 3
                       && removedValue > RemovableFrom(f.epochs, 0, EPOCHS))))
  {
    PayerIs(f);
    hide Sections, SumFrom, RemovableFrom, StorageFlags.Payer;
    if removedValue > 0 && f.Extra().Some? {
      Conservation(f.epochs, f.base, removedValue, EPOCHS);
    }
  }

  lemma PayerIs(f: StorageFlags)
    ensures f.Payer() == if f.Owner().Some? then f.owner else seq(32, _ => 0)
  {
    ZeroBytes(32);
  }
}
