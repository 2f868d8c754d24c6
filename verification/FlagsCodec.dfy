/** The byte form of storage flags: a type byte, the owner, the base epoch, and per extra
    epoch two bytes and a base-128 integer. */
module FlagsCodec {
  import opened Wrappers
  import opened Endian
  import opened EpochFlags
  import opened EpochSplit

  // ---- base-128 integers -------------------------------------------------------------

  function VarEncode(n: nat): (b: Bytes)
    ensures |b| > 0
  {
    if n < 128 then [n] else [128 + n % 128] + VarEncode(n / 128)
  }

  datatype Decoded = Decoded(value: nat, used: nat)

  /** The integer at the front of `src`, after `i` bytes of it. The tenth byte is the last
      one allowed, and only its lowest bit fits. */
  function VarAt(src: Bytes, i: nat): (r: Option<Decoded>)
    ensures r.Some? ==> 0 < r.value.used <= |src|
    decreases |src|
  {
    if src == [] then None
    else if src[0] < 128 then Some(Decoded(if i < 9 then src[0] else src[0] % 2, 1))
    else if i >= 9 then None
    else match VarAt(src[1..], i + 1)
      case None => None
      case Some(d) => Some(Decoded(src[0] - 128 + 128 * d.value, d.used + 1))
  }

  /** `u32::decode_var` */
  function VarDecode(src: Bytes): (r: Option<Decoded>)
    ensures r.Some? ==> 0 < r.value.used <= |src| && r.value.value <= U32_MAX
  {
    match VarAt(src, 0)
    case None => None
    case Some(d) => if d.value > U32_MAX then None else Some(d)
  }

  lemma {:induction false} VarRoundTripAt(n: nat, rest: Bytes, i: nat)
    requires i + |VarEncode(n)| <= 9
    ensures VarAt(VarEncode(n) + rest, i) == Some(Decoded(n, |VarEncode(n)|))
    decreases n
  {
    if n >= 128 {
      var tail := VarEncode(n / 128);
      assert (VarEncode(n) + rest)[1..] == tail + rest;
      VarRoundTripAt(n / 128, rest, i + 1);
    }
  }

  function Pow128(k: nat): nat {
    if k == 0 then 1 else 128 * Pow128(k - 1)
  }

  lemma {:induction false} VarLength(n: nat, k: nat)
    requires n < Pow128(k) && k > 0
    ensures |VarEncode(n)| <= k
    decreases n
  {
    if n >= 128 {
      VarLength(n / 128, k - 1);
    }
  }

  /** Every 32-bit value is read back, whatever follows it. */
  lemma VarRoundTrip(n: nat, rest: Bytes)
    requires n <= U32_MAX
    ensures VarDecode(VarEncode(n) + rest) == Some(Decoded(n, |VarEncode(n)|))
  {
    assert Pow128(1) == 128 && Pow128(2) == 0x4000 && Pow128(3) == 0x20_0000;
    assert Pow128(4) == 0x1000_0000 && Pow128(5) == 0x8_0000_0000;
    VarLength(n, 5);
    VarRoundTripAt(n, rest, 0);
  }

  // ---- serialization -------------------------------------------------------------------

  function TypeByte(f: StorageFlags): byte {
    match f
    case SingleEpoch(_) => 0
    case MultiEpoch(_, _) => 1
    case SingleEpochOwned(_, _) => 2
    case MultiEpochOwned(_, _, _) => 3
  }

  function EncodeEntry(m: EpochMap, e: nat): Bytes {
    Be(e, 2) + VarEncode(At(m, e))
  }

  function EncodeEntries(m: EpochMap, ks: seq<nat>): Bytes {
    if ks == [] then [] else EncodeEntry(m, ks[0]) + EncodeEntries(m, ks[1..])
  }

  function OwnerBytes(f: StorageFlags): Bytes {
    if f.Owner().Some? then f.owner else []
  }

  function EpochBytes(f: StorageFlags): Bytes {
    if f.Extra().Some? then EncodeEntries(f.epochs, KeysBelow(f.epochs, EPOCHS)) else []
  }

  /** `serialize` */
  function Serialize(f: StorageFlags): Bytes {
    [TypeByte(f)] + OwnerBytes(f) + Be(f.base, 2) + EpochBytes(f)
  }

  function EntriesSize(m: EpochMap, ks: seq<nat>): nat {
    if ks == [] then 0 else 2 + |VarEncode(At(m, ks[0]))| + EntriesSize(m, ks[1..])
  }

  /** `serialized_size` */
  function SerializedSize(f: StorageFlags): nat {
    3 + (if f.Owner().Some? then 32 else 0)
    + (if f.Extra().Some? then EntriesSize(f.epochs, KeysBelow(f.epochs, EPOCHS)) else 0)
  }

  lemma {:induction false} EntriesLength(m: EpochMap, ks: seq<nat>)
    ensures |EncodeEntries(m, ks)| == EntriesSize(m, ks)
    ensures |EncodeEntries(m, ks)| >= 3 * |ks|
  {
    if ks != [] {
      EntriesLength(m, ks[1..]);
    }
  }

  /** The announced size is the length of the bytes. */
  lemma SizeIsLength(f: StorageFlags)
    requires f.Owner().Some? ==> |f.owner| == 32
    ensures |Serialize(f)| == SerializedSize(f)
  {
    hide KeysBelow, EncodeEntries;
    if f.Extra().Some? {
      EntriesLength(f.epochs, KeysBelow(f.epochs, EPOCHS));
    }
  }

  // ---- deserialization -----------------------------------------------------------------

  /** The entries of `rest`, added to `acc`; one or two bytes at the end are ignored. */
  function DecodeEntries(rest: Bytes, acc: EpochMap): Option<EpochMap>
    decreases |rest|
  {
    if |rest| <= 2 then Some(acc)
    else match VarDecode(rest[2..])
      case None => None
      case Some(d) => DecodeEntries(rest[2 + d.used..], acc[FromBe(rest[..2]) := d.value])
  }

  /** The loop of the two multi-epoch deserializers, from `offset` on. */
  method ReadEntries(data: Bytes, start: nat) returns (r: Option<EpochMap>)
    requires start <= |data|
    ensures r == DecodeEntries(data[start..], map[])
  {
    hide VarDecode;
    var offset := start;
    var epochs: EpochMap := map[];
    while offset + 2 < |data|
      invariant start <= offset <= |data|
      invariant DecodeEntries(data[offset..], epochs) == DecodeEntries(data[start..], map[])
    {
      ghost var rest := data[offset..];
      var epoch := FromBe(data[offset..offset + 2]);
      assert rest[..2] == data[offset..offset + 2] && rest[2..] == data[offset + 2..];
      offset := offset + 2;
      var decoded := VarDecode(data[offset..]);
      if decoded.None? {
        return None;
      }
      offset := offset + decoded.value.used;
      assert rest[2 + decoded.value.used..] == data[offset..];
      epochs := epochs[epoch := decoded.value.value];
    }
    r := Some(epochs);
  }

  /** `deserialize` on non-empty data */
  function DeserializeSome(data: Bytes): Result<StorageFlags, FlagsError>
    requires data != []
  {
    if data[0] == 0 then
      if |data| != 3 then Err(WrongSize) else Ok(SingleEpoch(FromBe(data[1..3])))
    else if data[0] == 1 then
      if |data| < 6 then Err(WrongSize)
      else match DecodeEntries(data[3..], map[])
        case None => Err(WrongSize)
        case Some(m) => Ok(MultiEpoch(FromBe(data[1..3]), m))
    else if data[0] == 2 then
      if |data| != 35 then Err(WrongSize) else Ok(SingleEpochOwned(FromBe(data[33..35]), data[1..33]))
    else if data[0] == 3 then
      if |data| < 38 then Err(WrongSize)
      else match DecodeEntries(data[35..], map[])
        case None => Err(WrongSize)
        case Some(m) => Ok(MultiEpochOwned(FromBe(data[33..35]), m, data[1..33]))
    else Err(UnknownType)
  }

  /** `deserialize` */
  function Deserialize(data: Bytes): Result<Option<StorageFlags>, FlagsError> {
    if data == [] then Ok(None)
    else match DeserializeSome(data)
      case Err(e) => Err(e)
      case Ok(f) => Ok(Some(f))
  }

  /** `deserialize`, with the loops */
  method DeserializeFlags(data: Bytes) returns (r: Result<Option<StorageFlags>, FlagsError>)
    ensures r == Deserialize(data)
  {
    hide DecodeEntries;
    if |data| == 0 {
      return Ok(None);
    }
    if data[0] == 0 {
      return if |data| != 3 then Err(WrongSize) else Ok(Some(SingleEpoch(FromBe(data[1..3]))));
    }
    if data[0] == 2 {
      return if |data| != 35 then Err(WrongSize) else Ok(Some(SingleEpochOwned(FromBe(data[33..35]), data[1..33])));
    }
    if data[0] == 1 {
      if |data| < 6 {
        return Err(WrongSize);
      }
      var epochs := ReadEntries(data, 3);
      return if epochs.None? then Err(WrongSize) else Ok(Some(MultiEpoch(FromBe(data[1..3]), epochs.value)));
    }
    if data[0] == 3 {
      if |data| < 38 {
        return Err(WrongSize);
      }
      var epochs := ReadEntries(data, 35);
      return if epochs.None? then Err(WrongSize)
             else Ok(Some(MultiEpochOwned(FromBe(data[33..35]), epochs.value, data[1..33])));
    }
    r := Err(UnknownType);
  }

  lemma {:induction false} EntriesInRange(rest: Bytes, acc: EpochMap)
    requires forall e :: e in acc ==> e < EPOCHS
    ensures var m := DecodeEntries(rest, acc); m.Some? ==> forall e :: e in m.value ==> e < EPOCHS
    decreases |rest|
  {
    hide VarDecode;
    if |rest| > 2 && VarDecode(rest[2..]).Some? {
      var d := VarDecode(rest[2..]).value;
      Width2();
      assert FromBe(rest[..2]) < Pow256(2);
      EntriesInRange(rest[2 + d.used..], acc[FromBe(rest[..2]) := d.value]);
    }
  }

  /** Whatever is read, its epochs are two-byte numbers. */
  lemma DecodedInRange(data: Bytes, f: StorageFlags)
    requires Deserialize(data) == Ok(Some(f)) && f.Extra().Some?
    ensures forall e :: e in f.epochs ==> e < EPOCHS
  {
    hide DecodeEntries;
    if data[0] == 1 {
      EntriesInRange(data[3..], map[]);
    } else {
      EntriesInRange(data[35..], map[]);
      assert DeserializeSome(data) == Ok(f);
      assert DecodeEntries(data[35..], map[]) == Some(f.epochs);
    }
  }

  // ---- round trip ------------------------------------------------------------------------

  /** `acc` extended by the entries of `m` at `ks`. */
  function Extend(acc: EpochMap, m: EpochMap, ks: seq<nat>): (r: EpochMap)
    ensures forall e :: e in r <==> e in acc || e in ks
    ensures forall e :: e in r ==> r[e] == if e in ks then At(m, e) else acc[e]
    decreases |ks|
  {
    if ks == [] then acc else Extend(acc[ks[0] := At(m, ks[0])], m, ks[1..])
  }

  lemma {:induction false} EntriesRoundTrip(m: EpochMap, ks: seq<nat>, acc: EpochMap)
    requires forall j :: 0 <= j < |ks| ==> ks[j] < EPOCHS && At(m, ks[j]) <= U32_MAX
    ensures DecodeEntries(EncodeEntries(m, ks), acc) == Some(Extend(acc, m, ks))
    decreases |ks|
  {
    if ks != [] {
      var e, tail := ks[0], EncodeEntries(m, ks[1..]);
      EntryFront(m, e, tail);
      EntriesRoundTrip(m, ks[1..], acc[e := At(m, e)]);
    }
  }

  lemma Width2()
    ensures Pow256(2) == EPOCHS
  {
    assert Pow256(1) == 256;
  }

  lemma EntryFront(m: EpochMap, e: nat, tail: Bytes)
    requires e < EPOCHS && At(m, e) <= U32_MAX
    ensures var rest := EncodeEntry(m, e) + tail;
            var v := VarEncode(At(m, e));
            && |rest| > 2 && FromBe(rest[..2]) == e
            && VarDecode(rest[2..]) == Some(Decoded(At(m, e), |v|))
            && rest[2 + |v|..] == tail
  {
    var v := VarEncode(At(m, e));
    var rest := EncodeEntry(m, e) + tail;
    hide VarEncode, VarDecode, Be, FromBe;
    assert rest[..2] == Be(e, 2) && rest[2..] == v + tail;
    Width2();
    FromBeOfBe(e, 2);
    VarRoundTrip(At(m, e), tail);
  }

  lemma ExtendAll(m: EpochMap, n: nat)
    requires forall e :: e in m ==> e < n
    ensures Extend(map[], m, KeysBelow(m, n)) == m
  {
    hide KeysBelow, Extend;
  }

  /** Fields in range, whatever the extra epochs are. */
  predicate Encodable(f: StorageFlags) {
    && f.base < EPOCHS
    && (f.Owner().Some? ==> |f.owner| == 32)
    && (f.Extra().Some? ==> forall e :: e in f.epochs ==> e < EPOCHS && f.epochs[e] <= U32_MAX)
  }

  lemma EpochsRoundTrip(m: EpochMap)
    requires forall e :: e in m ==> e < EPOCHS && m[e] <= U32_MAX
    ensures DecodeEntries(EncodeEntries(m, KeysBelow(m, EPOCHS)), map[]) == Some(m)
  {
    hide KeysBelow, DecodeEntries, EncodeEntries, Extend;
    EntriesRoundTrip(m, KeysBelow(m, EPOCHS), map[]);
    ExtendAll(m, EPOCHS);
  }

  lemma EpochsPresent(m: EpochMap)
    requires forall e :: e in m ==> e < EPOCHS
    ensures |EncodeEntries(m, KeysBelow(m, EPOCHS))| >= 3 <==> m != map[]
  {
    var ks := KeysBelow(m, EPOCHS);
    hide KeysBelow, EncodeEntries;
    EntriesLength(m, ks);
    if m != map[] {
      var e :| e in m;
      assert e in ks;
    } else {
      NoKeys(EPOCHS);
      NoEntries(m);
    }
  }

  lemma {:induction false} NoKeys(n: nat)
    ensures KeysBelow(map[], n) == []
  {
    if n > 0 {
      NoKeys(n - 1);
    }
  }

  lemma NoEntries(m: EpochMap)
    ensures EncodeEntries(m, []) == []
  {
  }

  /** Where the parts of the bytes lie. */
  lemma PlainParts(t: byte, base: nat, entries: Bytes)
    requires base < EPOCHS
    ensures var data := [t] + [] + Be(base, 2) + entries;
            |data| == 3 + |entries| && data[0] == t && FromBe(data[1..3]) == base && data[3..] == entries
  {
    Width2();
    FromBeOfBe(base, 2);
    hide Be, FromBe;
    var data := [t] + [] + Be(base, 2) + entries;
    assert data[1..3] == Be(base, 2) && data[3..] == entries;
  }

  lemma OwnedParts(t: byte, owner: Bytes, base: nat, entries: Bytes)
    requires base < EPOCHS && |owner| == 32
    ensures var data := [t] + owner + Be(base, 2) + entries;
            && |data| == 35 + |entries| && data[0] == t && data[1..33] == owner
            && FromBe(data[33..35]) == base && data[35..] == entries
  {
    Width2();
    FromBeOfBe(base, 2);
    hide Be, FromBe;
    var data := [t] + owner + Be(base, 2) + entries;
    assert data[1..33] == owner && data[33..35] == Be(base, 2) && data[35..] == entries;
  }

  /** Reading back what was written gives the same flags, except for a multi-epoch form
      without epochs, which is too short to be read. */
  lemma RoundTrip(f: StorageFlags)
    requires Encodable(f)
    ensures Deserialize(Serialize(f)) == Ok(Some(f)) <==> !(f.Extra().Some? && f.epochs == map[])
  {
    hide DecodeEntries, EncodeEntries, KeysBelow, Be, FromBe;
    if f.Extra().Some? {
      EpochsRoundTrip(f.epochs);
      EpochsPresent(f.epochs);
    }
    if f.Owner().Some? {
      OwnedParts(TypeByte(f), f.owner, f.base, EpochBytes(f));
    } else {
      PlainParts(TypeByte(f), f.base, EpochBytes(f));
    }
  }

  /** Well-formed flags are always read back. */
  lemma WellFormedRoundTrip(f: StorageFlags)
    requires WellFormed(f)
    ensures Deserialize(Serialize(f)) == Ok(Some(f)) && Serialize(f) != []
  {
    hide Deserialize, EpochBytes, OwnerBytes;
    RoundTrip(f);
  }
}
