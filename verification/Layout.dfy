/** The byte layouts written out: which byte is at which place, in which order the parts
    come, and which inputs are refused with which error. */
module Layout {
  import opened Wrappers
  import opened Endian
  import opened Framing
  import opened EpochFlags
  import opened EpochSplit
  import opened FlagsCodec
  import opened Positions
  import opened MerkleProof
  import NodeCodec
  import NodeStorage
  import ChunkBlob
  import ChunkIds

  // ---- integers ------------------------------------------------------------------------

  /** Two and four bytes, the most significant first. */
  function Word2(n: nat): Bytes {
    [n / 0x100 % 0x100, n % 0x100]
  }

  function Word4(n: nat): Bytes {
    [n / 0x100_0000 % 0x100, n / 0x1_0000 % 0x100, n / 0x100 % 0x100, n % 0x100]
  }

  function Number(high: nat, low: nat): nat {
    256 * high + low
  }

  lemma BeIsWord2(n: nat)
    ensures Be(n, 2) == Word2(n)
  {
    assert Be(n / 256, 1) == [n / 256 % 256] by {
      assert Be(n / 256 / 256, 0) == [];
    }
  }

  lemma BeIsWord4(n: nat)
    ensures Be(n, 4) == Word4(n)
  {
    BeIsWord2(n / 0x1_0000);
    assert n / 256 / 256 == n / 0x1_0000;
    assert Be(n, 4) == Be(n / 256 / 256, 2) + [n / 256 % 256] + [n % 256];
    assert n / 0x1_0000 / 0x100 == n / 0x100_0000;
  }

  /** Of any number of bytes the first counts most. */
  lemma {:induction false} BigEndian(x: byte, rest: Bytes)
    ensures FromBe([x] + rest) == x * Pow256(|rest|) + FromBe(rest)
    decreases |rest|
  {
    var all := [x] + rest;
    if rest == [] {
      assert all[..0] == [];
    } else {
      var init := rest[..|rest| - 1];
      assert all[..|rest|] == [x] + init;
      BigEndian(x, init);
      assert Pow256(|rest|) == 256 * Pow256(|init|);
      assert 256 * (x * Pow256(|init|)) == x * (256 * Pow256(|init|));
    }
  }

  /** The base-128 digits of a string, the least significant first. */
  function VarValue(b: Bytes): nat {
    if b == [] then 0 else VarValue(b[..|b| - 1]) + (b[|b| - 1] % 128) * Pow128(|b| - 1)
  }

  lemma {:induction false} VarValueFirst(x: byte, rest: Bytes)
    ensures VarValue([x] + rest) == x % 128 + 128 * VarValue(rest)
    decreases |rest|
  {
    var all := [x] + rest;
    if rest == [] {
      assert all[..0] == [] && VarValue([]) == 0 && Pow128(0) == 1;
    } else {
      var init, d := rest[..|rest| - 1], rest[|rest| - 1] % 128;
      assert all[..|rest|] == [x] + init;
      VarValueFirst(x, init);
      assert Pow128(|rest|) == 128 * Pow128(|init|);
      assert d * (128 * Pow128(|init|)) == 128 * (d * Pow128(|init|));
    }
  }

  /** All bytes but the last have the top bit set. */
  predicate Continued(b: Bytes) {
    b != [] && b[|b| - 1] < 128 && forall i :: 0 <= i < |b| - 1 ==> b[i] >= 128
  }

  /** The written integer: its digits from the least significant on, every byte but the last
      marked, and no byte more than needed. */
  lemma {:induction false} VarLayout(n: nat)
    ensures Continued(VarEncode(n)) && VarValue(VarEncode(n)) == n
    ensures |VarEncode(n)| > 1 ==> VarEncode(n)[|VarEncode(n)| - 1] > 0
    decreases n
  {
    hide *;
    if n < 128 {
      SmallVar(n);
    } else {
      var first: byte, tail := 128 + n % 128, VarEncode(n / 128);
      LargeVar(n);
      VarLayout(n / 128);
      VarValueFirst(first, tail);
      ContinuedBy(first, tail);
    }
  }

  lemma SmallVar(n: nat)
    requires n < 128
    ensures VarEncode(n) == [n] && Continued([n]) && VarValue([n]) == n
  {
    VarValueFirst(n, []);
    assert [n] + [] == [n] && VarValue([]) == 0;
  }

  lemma LargeVar(n: nat)
    requires n >= 128
    ensures VarEncode(n) == [128 + n % 128] + VarEncode(n / 128)
    ensures |VarEncode(n / 128)| == 1 ==> VarEncode(n / 128)[0] > 0
  {
    OneByte(n / 128);
  }

  lemma ContinuedBy(x: byte, b: Bytes)
    requires x >= 128 && Continued(b)
    ensures Continued([x] + b)
  {
  }

  lemma OneByte(n: nat)
    ensures |VarEncode(n)| == 1 ==> VarEncode(n) == [n]
  {
  }

  /** Reading takes the bytes up to the first unmarked one and gives their digits' value,
      whether or not it was written with as few bytes as possible. */
  lemma {:induction false} VarReads(b: Bytes, rest: Bytes, i: nat)
    requires Continued(b) && i + |b| <= 9
    ensures VarAt(b + rest, i) == Some(Decoded(VarValue(b), |b|))
    decreases |b|
  {
    VarValueFirst(b[0], b[1..]);
    assert b == [b[0]] + b[1..];
    VarUnfold(b, rest, i);
    hide *;
    if |b| > 1 {
      VarReads(b[1..], rest, i + 1);
    }
  }

  lemma VarUnfold(b: Bytes, rest: Bytes, i: nat)
    requires Continued(b) && i + |b| <= 9
    ensures VarValue([]) == 0
    ensures |b| == 1 ==> b[1..] == [] && b[0] < 128 && VarAt(b + rest, i) == Some(Decoded(b[0], 1))
    ensures |b| > 1 ==>
              && Continued(b[1..]) && b[0] >= 128
              && var d := VarAt(b[1..] + rest, i + 1);
                 VarAt(b + rest, i) ==
                   if d.None? then None else Some(Decoded(b[0] - 128 + 128 * d.value.value, d.value.used + 1))
  {
    assert (b + rest)[1..] == b[1..] + rest;
  }

  /** The 32-bit reading: the value when it fits. */
  lemma VarDecodes(b: Bytes, rest: Bytes)
    requires Continued(b) && |b| <= 9
    ensures VarDecode(b + rest) == if VarValue(b) <= 0xFFFF_FFFF then Some(Decoded(VarValue(b), |b|)) else None
  {
    VarReads(b, rest, 0);
    hide VarAt, VarValue;
  }

  /** Ten marked bytes, or an end before an unmarked one, are no integer. */
  lemma {:induction false} VarRefused(src: Bytes, i: nat)
    requires i <= 9 && forall j :: 0 <= j < |src| && i + j <= 9 ==> src[j] >= 128
    ensures VarAt(src, i) == None
    decreases |src|
  {
    if src != [] && i < 9 {
      VarRefused(src[1..], i + 1);
    }
  }

  // ---- storage flags -------------------------------------------------------------------

  /** The fixed part of the flags' bytes. */
  lemma FlagsLayout(f: StorageFlags)
    requires Encodable(f)
    ensures f.SingleEpoch? ==> Serialize(f) == [0] + Word2(f.base)
    ensures f.MultiEpoch? ==> Serialize(f) == [1] + Word2(f.base) + EpochBytes(f)
    ensures f.SingleEpochOwned? ==> Serialize(f) == [2] + f.owner + Word2(f.base)
    ensures f.MultiEpochOwned? ==> Serialize(f) == [3] + f.owner + Word2(f.base) + EpochBytes(f)
  {
    BeIsWord2(f.base);
    hide Be, Word2, EncodeEntries, KeysBelow;
    assert [TypeByte(f)] + [] == [TypeByte(f)];
  }

  function Before(m: EpochMap, k: nat): EpochMap {
    map e | e in m && e < k :: m[e]
  }

  function From(m: EpochMap, k: nat): EpochMap {
    map e | e in m && e >= k :: m[e]
  }

  function MapBytes(m: EpochMap): Bytes {
    EpochBytes(MultiEpoch(0, m))
  }

  /** The epochs come in ascending order: the bytes of the earlier ones, then of the later. */
  lemma EpochsAscend(m: EpochMap, k: nat)
    ensures MapBytes(m) == MapBytes(Before(m, k)) + MapBytes(From(m, k))
  {
    hide EncodeEntries;
    var a, b := Before(m, k), From(m, k);
    KeysSplit(m, k, EPOCHS);
    EntriesConcat(m, KeysBelow(a, EPOCHS), KeysBelow(b, EPOCHS));
    EntriesSame(m, a, KeysBelow(a, EPOCHS));
    EntriesSame(m, b, KeysBelow(b, EPOCHS));
  }

  lemma {:induction false} KeysSplit(m: EpochMap, k: nat, n: nat)
    ensures KeysBelow(m, n) == KeysBelow(Before(m, k), n) + KeysBelow(From(m, k), n)
    ensures n <= k ==> KeysBelow(From(m, k), n) == []
  {
    hide *;
    if n == 0 {
      KeysStep(m, n);
      KeysStep(Before(m, k), n);
      KeysStep(From(m, k), n);
    } else {
      KeysSplit(m, k, n - 1);
      Parted(m, k, n - 1);
      KeysRejoin(m, Before(m, k), From(m, k), n - 1);
    }
  }

  lemma KeysRejoin(m: EpochMap, a: EpochMap, b: EpochMap, e: nat)
    requires KeysBelow(m, e) == KeysBelow(a, e) + KeysBelow(b, e)
    requires (e in m <==> e in a || e in b) && !(e in a && e in b) && (e in a ==> KeysBelow(b, e) == [])
    ensures KeysBelow(m, e + 1) == KeysBelow(a, e + 1) + KeysBelow(b, e + 1)
    ensures e !in b && KeysBelow(b, e) == [] ==> KeysBelow(b, e + 1) == []
  {
    hide *;
    KeysStep(m, e + 1);
    KeysStep(a, e + 1);
    KeysStep(b, e + 1);
    Rejoin(KeysBelow(a, e), KeysBelow(b, e), e, e in a, e in b);
  }

  lemma Rejoin(a: seq<nat>, b: seq<nat>, e: nat, first: bool, second: bool)
    requires !(first && second) && (first ==> b == [])
    ensures (a + b) + (if first || second then [e] else []) ==
              (a + if first then [e] else []) + (b + if second then [e] else [])
  {
  }

  lemma KeysStep(m: EpochMap, n: nat)
    ensures n == 0 ==> KeysBelow(m, n) == []
    ensures n > 0 ==> KeysBelow(m, n) == KeysBelow(m, n - 1) + if n - 1 in m then [n - 1] else []
  {
  }

  lemma Parted(m: EpochMap, k: nat, e: nat)
    ensures e in Before(m, k) <==> e in m && e < k
    ensures e in From(m, k) <==> e in m && e >= k
  {
  }

  lemma {:induction false} EntriesConcat(m: EpochMap, a: seq<nat>, b: seq<nat>)
    ensures EncodeEntries(m, a + b) == EncodeEntries(m, a) + EncodeEntries(m, b)
    decreases |a|
  {
    hide EncodeEntry;
    if a == [] {
      assert a + b == b;
    } else {
      assert (a + b)[1..] == a[1..] + b;
      EntriesConcat(m, a[1..], b);
    }
  }

  lemma {:induction false} EntriesSame(m: EpochMap, w: EpochMap, ks: seq<nat>)
    requires forall j :: 0 <= j < |ks| ==> At(m, ks[j]) == At(w, ks[j])
    ensures EncodeEntries(m, ks) == EncodeEntries(w, ks)
    decreases |ks|
  {
    if ks != [] {
      EntriesSame(m, w, ks[1..]);
    }
  }

  /** One epoch: its number in two bytes, then its bytes as a base-128 integer. */
  lemma OneEpoch(e: nat, n: nat)
    requires e < EPOCHS
    ensures MapBytes(map[e := n]) == Word2(e) + VarEncode(n)
  {
    BeIsWord2(e);
    OneKey(e, n, EPOCHS);
    hide KeysBelow, VarEncode, Be, Word2;
    var m: EpochMap := map[e := n];
    assert EncodeEntries(m, [e]) == EncodeEntry(m, e) + EncodeEntries(m, []);
  }

  lemma {:induction false} OneKey(e: nat, n: nat, k: nat)
    ensures KeysBelow(map[e := n], k) == if e < k then [e] else []
  {
    if k > 0 {
      OneKey(e, n, k - 1);
    }
  }

  lemma NoEpoch()
    ensures MapBytes(map[]) == []
  {
    hide KeysBelow;
    NoKeys(EPOCHS);
  }

  // ---- reading flags -------------------------------------------------------------------

  datatype Written = Written(epoch: nat, bytes: nat)

  /** Entries in any order, with repetitions. */
  function Entered(es: seq<Written>): Bytes {
    if es == [] then [] else Be(es[0].epoch, 2) + VarEncode(es[0].bytes) + Entered(es[1..])
  }

  function LastWins(es: seq<Written>, acc: EpochMap): EpochMap {
    if es == [] then acc else LastWins(es[1..], acc[es[0].epoch := es[0].bytes])
  }

  /** Any list of entries is read, a later entry replacing an earlier one of its epoch; one
      or two bytes after the last entry are ignored. */
  lemma {:induction false} EntriesRead(es: seq<Written>, tail: Bytes, acc: EpochMap)
    requires |tail| <= 2 && forall j :: 0 <= j < |es| ==> es[j].epoch < EPOCHS && es[j].bytes <= U32_MAX
    ensures DecodeEntries(Entered(es) + tail, acc) == Some(LastWins(es, acc))
    decreases |es|
  {
    hide *;
    if es == [] {
      NothingEntered(tail, acc);
    } else {
      var e, n, rest := es[0].epoch, es[0].bytes, Entered(es[1..]) + tail;
      EntriesRead(es[1..], tail, acc[e := n]);
      FirstEntered(es, tail, acc);
      FirstRead(e, n, rest, acc);
    }
  }

  lemma NothingEntered(tail: Bytes, acc: EpochMap)
    requires |tail| <= 2
    ensures DecodeEntries(Entered([]) + tail, acc) == Some(LastWins([], acc))
  {
    assert Entered([]) + tail == tail;
  }

  lemma FirstEntered(es: seq<Written>, tail: Bytes, acc: EpochMap)
    requires es != []
    ensures Entered(es) + tail == Be(es[0].epoch, 2) + VarEncode(es[0].bytes) + (Entered(es[1..]) + tail)
    ensures LastWins(es, acc) == LastWins(es[1..], acc[es[0].epoch := es[0].bytes])
  {
    hide Be, VarEncode;
  }

  lemma FirstRead(e: nat, n: nat, rest: Bytes, acc: EpochMap)
    requires e < EPOCHS && n <= U32_MAX
    ensures DecodeEntries(Be(e, 2) + VarEncode(n) + rest, acc) == DecodeEntries(rest, acc[e := n])
  {
    var m: EpochMap := map[e := n];
    EntryFront(m, e, rest);
    assert EncodeEntry(m, e) == Be(e, 2) + VarEncode(n);
    hide Be, VarEncode, VarDecode, FromBe, EncodeEntry;
  }

  /** An entry whose integer cannot be read makes the whole list unreadable. */
  lemma {:induction false} EntriesBroken(es: seq<Written>, epoch: Bytes, broken: Bytes, acc: EpochMap)
    requires |epoch| == 2 && broken != [] && VarDecode(broken) == None
    requires forall j :: 0 <= j < |es| ==> es[j].epoch < EPOCHS && es[j].bytes <= U32_MAX
    ensures DecodeEntries(Entered(es) + (epoch + broken), acc) == None
    decreases |es|
  {
    hide *;
    if es == [] {
      BrokenFirst(epoch, broken, acc);
    } else {
      var e, n := es[0].epoch, es[0].bytes;
      EntriesBroken(es[1..], epoch, broken, acc[e := n]);
      FirstEntered(es, epoch + broken, acc);
      FirstRead(e, n, Entered(es[1..]) + (epoch + broken), acc);
    }
  }

  lemma BrokenFirst(epoch: Bytes, broken: Bytes, acc: EpochMap)
    requires |epoch| == 2 && broken != [] && VarDecode(broken) == None
    ensures DecodeEntries(Entered([]) + (epoch + broken), acc) == None
  {
    hide VarDecode;
    assert Entered([]) + (epoch + broken) == epoch + broken && (epoch + broken)[2..] == broken;
  }

  /** Which bytes are no flags, and why. */
  lemma FlagsRefused(data: Bytes)
    requires data != []
    ensures Deserialize(data) == Err(UnknownType) <==> data[0] > 3
    ensures Deserialize(data).Err? && data[0] <= 3 ==> Deserialize(data) == Err(WrongSize)
    ensures data[0] == 0 ==>
              Deserialize(data) ==
                if |data| == 3 then Ok(Some(SingleEpoch(Number(data[1], data[2])))) else Err(WrongSize)
    ensures data[0] == 2 ==>
              Deserialize(data) ==
                if |data| == 35 then Ok(Some(SingleEpochOwned(Number(data[33], data[34]), data[1..33])))
                else Err(WrongSize)
    ensures data[0] == 1 ==>
              Deserialize(data) ==
                if |data| >= 6 && DecodeEntries(data[3..], map[]).Some?
                then Ok(Some(MultiEpoch(Number(data[1], data[2]), DecodeEntries(data[3..], map[]).value)))
                else Err(WrongSize)
    ensures data[0] == 3 ==>
              Deserialize(data) ==
                if |data| >= 38 && DecodeEntries(data[35..], map[]).Some?
                then Ok(Some(MultiEpochOwned(Number(data[33], data[34]), DecodeEntries(data[35..], map[]).value,
                                             data[1..33])))
                else Err(WrongSize)
  {
    hide DecodeEntries, FromBe;
    if |data| >= 3 {
      TwoBytes(data, 1);
    }
    if |data| >= 35 {
      TwoBytes(data, 33);
    }
  }

  lemma TwoBytes(data: Bytes, i: nat)
    requires i + 2 <= |data|
    ensures FromBe(data[i..i + 2]) == Number(data[i], data[i + 1])
  {
    var b := data[i..i + 2];
    assert b[..1] == [data[i]] && [data[i]][..0] == [];
    assert FromBe([data[i]]) == data[i];
  }

  // ---- stored nodes --------------------------------------------------------------------

  /** An internal node is a zero byte and its hash; a leaf is its kind, its hash, the length
      of its value in four bytes, and the value. */
  lemma NodeLayout(n: NodeCodec.MmrNode)
    ensures n.value.None? ==> NodeCodec.Serialize(n) == Ok([0] + n.hash)
    ensures n.value.Some? ==>
              var v := n.value.value;
              NodeCodec.Serialize(n) ==
                if |v| > 0xFFFF_FFFF then Err(InvalidData)
                else Ok((if n.isDataLeaf then [2] else [1]) + n.hash + Word4(|v|) + v)
  {
    if n.value.Some? {
      BeIsWord4(|n.value.value|);
    }
    hide Be, Word4;
  }

  /** Every refusal of stored bytes is one of invalid data. */
  lemma NodeRefused(leafHash: Bytes -> Bytes, data: Bytes)
    ensures NodeCodec.Deserialize(leafHash, data).Err? ==> NodeCodec.Deserialize(leafHash, data) == Err(InvalidData)
  {
    hide FromBe;
  }

  // ---- node keys -----------------------------------------------------------------------

  /** Every key starts with a set bit, which keeps it apart from the two-byte keys and other
      data, and the rest of the word is the position; only four-byte keys have a limit. */
  lemma KeyLayout(pos: u64, size: NodeStorage.KeySize)
    ensures NodeStorage.NodeKey(pos, size).Err? <==> size.U32Key? && pos >= 0x8000_0000
    ensures NodeStorage.NodeKey(pos, size).Err? ==> NodeStorage.NodeKey(pos, size) == Err(InvalidInput)
    ensures NodeStorage.NodeKey(pos, size).Ok? ==>
              var key := NodeStorage.NodeKey(pos, size).value;
              && |key| == (if size.U32Key? then 4 else 8)
              && key[0] >= 128
              && FromBe([key[0] - 128] + key[1..]) == pos % 0x8000_0000_0000_0000
    ensures NodeStorage.KeyLimit(size) == if size.U32Key? then 0x8000_0000 else 0x8000_0000_0000_0000
  {
    KeyIs(pos, size);
    hide Be, FromBe, NodeStorage.NodeKey, Pow256;
    if NodeStorage.NodeKey(pos, size).Ok? {
      var key := NodeStorage.NodeKey(pos, size).value;
      if size.U32Key? {
        Width3();
        TopByte(key, pos + 0x8000_0000, 0x100_0000);
      } else {
        Width7();
        TopByte(key, pos % 0x8000_0000_0000_0000 + 0x8000_0000_0000_0000, 0x100_0000_0000_0000);
      }
    }
  }

  lemma KeyIs(pos: u64, size: NodeStorage.KeySize)
    ensures NodeStorage.NodeKey(pos, size).Err? <==> size.U32Key? && pos >= 0x8000_0000
    ensures NodeStorage.NodeKey(pos, size).Err? ==> NodeStorage.NodeKey(pos, size) == Err(InvalidInput)
    ensures NodeStorage.NodeKey(pos, size).Ok? ==>
              var key := NodeStorage.NodeKey(pos, size).value;
              if size.U32Key? then |key| == 4 && FromBe(key) == pos + 0x8000_0000 && pos < 0x8000_0000
              else |key| == 8 && FromBe(key) == pos % 0x8000_0000_0000_0000 + 0x8000_0000_0000_0000
  {
    Width4();
    Width8();
    if size.U32Key? && pos < 0x8000_0000 {
      FromBeOfBe(pos + 0x8000_0000, 4);
    } else if size.U64Key? {
      FromBeOfBe(NodeStorage.SetTopBit(pos), 8);
    }
    hide Be, FromBe, Pow256;
  }

  lemma Width3()
    ensures Pow256(3) == 0x100_0000
  {
    assert Pow256(1) == 256 && Pow256(2) == 0x1_0000;
  }

  lemma Width7()
    ensures Pow256(7) == 0x100_0000_0000_0000
  {
    Width8();
    assert Pow256(8) == 256 * Pow256(7);
  }

  lemma TopByte(key: Bytes, word: nat, w: nat)
    requires key != [] && w == Pow256(|key| - 1) && FromBe(key) == word && 128 * w <= word
    ensures key[0] >= 128 && FromBe([key[0] - 128] + key[1..]) == word - 128 * w
  {
    hide FromBe, Pow256;
    var x: nat := key[0];
    BigEndian(key[0], key[1..]);
    assert key == [key[0]] + key[1..];
    Leading(x, FromBe(key[1..]), w);
    BigEndian(x - 128, key[1..]);
  }

  lemma Leading(x: nat, r: nat, w: nat)
    requires r < w && 128 * w <= x * w + r
    ensures x >= 128 && (x - 128) * w == x * w - 128 * w
  {
    assert x < 128 ==> x * w <= 127 * w;
  }

  // ---- chunk blobs ---------------------------------------------------------------------

  /** Entries one after the other, each behind its length in four bytes. */
  function Prefixed(es: seq<Bytes>): Bytes {
    if es == [] then [] else Prefixed(es[..|es| - 1]) + Word4(|es[|es| - 1]|) + es[|es| - 1]
  }

  /** Entries one after the other. */
  function Joined(es: seq<Bytes>): Bytes {
    if es == [] then [] else Joined(es[..|es| - 1]) + es[|es| - 1]
  }

  lemma {:induction false} FramesPrefixed(es: seq<Bytes>)
    ensures Frames(es) == Prefixed(es)
    decreases |es|
  {
    if es != [] {
      var init, last := es[..|es| - 1], es[|es| - 1];
      FramesPrefixed(init);
      FramesAppend(init, last);
      BeIsWord4(|last|);
      hide Be, Word4, Frames;
      assert es == init + [last];
      assert Prefixed(init) + (Word4(|last|) + last) == Prefixed(init) + Word4(|last|) + last;
    }
  }

  lemma {:induction false} ConcatJoined(es: seq<Bytes>)
    ensures ChunkBlob.Concat(es) == Joined(es)
    decreases |es|
  {
    if es != [] {
      var init, last := es[..|es| - 1], es[|es| - 1];
      ConcatJoined(init);
      ChunkBlob.ConcatAppend(init, last);
      assert es == init + [last];
    }
  }

  /** Entries of one length go behind their number and length, others behind their own
      lengths; too many entries of one length, or an entry that is too long, are refused. */
  lemma BlobLayout(es: seq<Bytes>)
    ensures var same := forall j :: 0 <= j < |es| ==> |es[j]| == |es[0]|;
            var long := exists j :: 0 <= j < |es| && |es[j]| > 0xFFFF_FFFF;
            ChunkBlob.Serialize(es) ==
              if es == [] then Ok([])
              else if long || (same && |es| > 0xFFFF_FFFF) then Err(ChunkBlob.InvalidInput)
              else if same then Ok([1] + Word4(|es|) + Word4(|es[0]|) + Joined(es))
              else Ok([0] + Prefixed(es))
  {
    FramesPrefixed(es);
    ConcatJoined(es);
    if es != [] {
      BeIsWord4(|es|);
      BeIsWord4(|es[0]|);
    }
    hide Be, Word4, Frames, Prefixed, Joined, ChunkBlob.Concat;
  }

  /** Exactly the blobs of these two layouts with at most 2^20 entries are accepted. */
  lemma BlobAccepted(blob: Bytes)
    requires ChunkBlob.Deserialize(blob).Ok?
    ensures var es := ChunkBlob.Deserialize(blob).value;
            && |es| <= 0x10_0000
            && (blob == []
                || blob == [0] + Prefixed(es)
                || exists size: nat :: size <= 0xFFFF_FFFF && FixedBlob(blob, es, size))
  {
    hide *;
    BlobCases(blob);
    if blob != [] && blob[0] == 0 {
      VariableAccepted(blob[1..], ChunkBlob.MAX_ENTRIES);
      FramesPrefixed(ChunkBlob.Deserialize(blob).value);
      assert blob == [blob[0]] + blob[1..];
    } else if blob != [] {
      FixedAccepted(blob[1..]);
      var size := FromBe(blob[1..][4..8]);
      FixedIs(blob, ChunkBlob.Deserialize(blob).value, size);
    }
  }

  predicate FixedBlob(blob: Bytes, es: seq<Bytes>, size: nat) {
    blob == [1] + Word4(|es|) + Word4(size) + Joined(es) && forall e :: e in es ==> |e| == size
  }

  lemma BlobCases(blob: Bytes)
    ensures blob == [] ==> ChunkBlob.Deserialize(blob) == Ok([])
    ensures blob != [] && blob[0] == 0 ==>
              var es := ChunkBlob.UnframeUpTo(blob[1..], ChunkBlob.MAX_ENTRIES);
              ChunkBlob.Deserialize(blob) == if es.None? then Err(ChunkBlob.CorruptedData) else Ok(es.value)
    ensures blob != [] && blob[0] == 1 ==> ChunkBlob.Deserialize(blob) == ChunkBlob.DeserializeFixed(blob[1..])
    ensures blob != [] && blob[0] > 1 ==> ChunkBlob.Deserialize(blob) == Err(ChunkBlob.CorruptedData)
    ensures ChunkBlob.MAX_ENTRIES == 0x10_0000
  {
    hide ChunkBlob.UnframeUpTo, ChunkBlob.DeserializeFixed;
  }

  lemma {:induction false} VariableAccepted(data: Bytes, limit: nat)
    requires ChunkBlob.UnframeUpTo(data, limit).Some?
    ensures var es := ChunkBlob.UnframeUpTo(data, limit).value; |es| <= limit && Frames(es) == data
    decreases limit
  {
    if data != [] {
      FrameOfTake(data);
      var t := TakeFrame(data).value;
      VariableAccepted(t.rest, limit - 1);
      var es := ChunkBlob.UnframeUpTo(data, limit).value;
      assert es[0] == t.frame && es[1..] == ChunkBlob.UnframeUpTo(t.rest, limit - 1).value;
    }
  }

  lemma {:induction false} CutJoined(payload: Bytes, size: nat, count: nat)
    requires ChunkBlob.Cut(payload, size, count).Some?
    ensures var es := ChunkBlob.Cut(payload, size, count).value;
            |es| == count && ChunkBlob.Concat(es) == payload && forall e :: e in es ==> |e| == size
    decreases count
  {
    if count > 0 {
      CutJoined(payload[size..], size, count - 1);
      var es := ChunkBlob.Cut(payload, size, count).value;
      assert es[1..] == ChunkBlob.Cut(payload[size..], size, count - 1).value;
      assert payload == payload[..size] + payload[size..];
    }
  }

  lemma FixedAccepted(data: Bytes)
    requires ChunkBlob.DeserializeFixed(data).Ok?
    ensures var es := ChunkBlob.DeserializeFixed(data).value;
            && |data| >= 8 && |es| <= ChunkBlob.MAX_ENTRIES && FromBe(data[4..8]) <= 0xFFFF_FFFF
            && data == Be(|es|, 4) + Be(FromBe(data[4..8]), 4) + ChunkBlob.Concat(es)
            && forall e :: e in es ==> |e| == FromBe(data[4..8])
  {
    hide *;
    FixedParts(data);
    BeOfFromBe(data[..4]);
    BeOfFromBe(data[4..8]);
    CutJoined(data[8..], FromBe(data[4..8]), FromBe(data[..4]));
    assert data == data[..4] + data[4..8] + data[8..];
  }

  lemma FixedParts(data: Bytes)
    requires ChunkBlob.DeserializeFixed(data).Ok?
    ensures |data| >= 8 && FromBe(data[..4]) <= ChunkBlob.MAX_ENTRIES && FromBe(data[4..8]) <= 0xFFFF_FFFF
    ensures ChunkBlob.Cut(data[8..], FromBe(data[4..8]), FromBe(data[..4])) ==
              Some(ChunkBlob.DeserializeFixed(data).value)
  {
    U32Bound(data[4..8]);
    hide FromBe, ChunkBlob.Cut;
  }

  lemma FixedIs(blob: Bytes, es: seq<Bytes>, size: nat)
    requires blob != [] && blob[0] == 1 && blob[1..] == Be(|es|, 4) + Be(size, 4) + ChunkBlob.Concat(es)
    requires forall e :: e in es ==> |e| == size
    ensures FixedBlob(blob, es, size)
  {
    BeIsWord4(|es|);
    BeIsWord4(size);
    ConcatJoined(es);
    FirstAndRest(blob, Be(|es|, 4), Be(size, 4), ChunkBlob.Concat(es));
    hide Be, Word4, Joined, ChunkBlob.Concat;
  }

  lemma FirstAndRest(blob: Bytes, a: Bytes, b: Bytes, c: Bytes)
    requires blob != [] && blob[1..] == a + b + c
    ensures blob == [blob[0]] + a + b + c
  {
    assert blob == [blob[0]] + blob[1..];
  }

  lemma BlobRefused(blob: Bytes)
    ensures ChunkBlob.Deserialize(blob).Err? ==> ChunkBlob.Deserialize(blob) == Err(ChunkBlob.CorruptedData)
  {
    hide FromBe, ChunkBlob.Cut, ChunkBlob.UnframeUpTo;
  }

  // ---- chunk identifiers ---------------------------------------------------------------

  /** The application hash stands for the root chunk. */
  lemma RootChunk(appHash: Bytes)
    requires |appHash| == 32
    ensures ChunkIds.Decode(appHash, appHash) == Ok(ChunkIds.ChunkId(seq(32, _ => 0), None, ChunkIds.NormalTree, []))
  {
    ZeroBytes(32);
  }

  /** The bytes of the tree types. */
  lemma TreeBytes(t: ChunkIds.TreeType)
    ensures ChunkIds.Discriminant(t) ==
              match t
              case NormalTree => 0 case SumTree => 1 case BigSumTree => 2 case CountTree => 3
              case CountSumTree => 4 case ProvableCountTree => 5 case ProvableCountSumTree => 6
              case CommitmentTree(_) => 7 case MmrTree => 8 case BulkAppendTree(_) => 9 case DenseTree(_) => 10
  {
  }

  lemma TreeOfByte(b: byte)
    ensures ChunkIds.FromDiscriminant(b) == Err(ChunkIds.UnknownTreeType) <==> b > 10
    ensures ChunkIds.FromDiscriminant(b).Ok? ==>
              ChunkIds.Discriminant(ChunkIds.FromDiscriminant(b).value) == b
  {
  }

  /** Nested byte strings: their number in four bytes, then each behind its length. */
  lemma PackLayout(es: seq<Bytes>)
    ensures ChunkIds.Pack(es) ==
              if |es| > 0xFFFF_FFFF || exists j :: 0 <= j < |es| && |es[j]| > 0xFFFF_FFFF
              then Err(ChunkIds.InternalError)
              else Ok(Word4(|es|) + Prefixed(es))
  {
    FramesPrefixed(es);
    BeIsWord4(|es|);
    hide Be, Word4, Frames, Prefixed;
  }

  /** An identifier: prefix, key length in two bytes, key, tree type, nested identifiers. */
  lemma ChunkIdLayout(id: ChunkIds.ChunkId)
    ensures var key := if id.rootKey.Some? then id.rootKey.value else [];
            var packed := ChunkIds.Pack(id.nested);
            ChunkIds.Encode(id) ==
              if |key| > 0xFFFF || packed.Err? then Err(ChunkIds.InternalError)
              else Ok(id.prefix + Word2(|key|) + key + [ChunkIds.Discriminant(id.tree)] + packed.value)
  {
    BeIsWord2(|ChunkIds.KeyBytes(id)|);
    hide Be, Word2, Frames, ChunkIds.Discriminant;
  }

  /** Whatever is accepted, other than the application hash, encodes to itself. */
  lemma EncodeOfDecode(data: Bytes, appHash: Bytes)
    requires ChunkIds.Decode(data, appHash).Ok? && data != appHash
    ensures ChunkIds.Encode(ChunkIds.Decode(data, appHash).value) == Ok(data)
  {
    hide *;
    DecodeParts(data, appHash);
    var id, n := ChunkIds.Decode(data, appHash).value, FromBe(data[32..34]);
    ChunkIds.PackOfUnpack(data[35 + n..]);
    TreeOfByte(data[34 + n]);
    BeOfFromBe(data[32..34]);
    EncodeParts(id);
    assert data == data[..32] + data[32..34] + data[34..34 + n] + [data[34 + n]] + data[35 + n..];
  }

  lemma DecodeParts(data: Bytes, appHash: Bytes)
    requires ChunkIds.Decode(data, appHash).Ok? && data != appHash
    ensures var id := ChunkIds.Decode(data, appHash).value;
            var n := FromBe(data[32..34]);
            && |data| >= 35 + n && n <= 0xFFFF && id.prefix == data[..32]
            && ChunkIds.KeyBytes(id) == data[34..34 + n]
            && ChunkIds.FromDiscriminant(data[34 + n]) == Ok(id.tree)
            && ChunkIds.Unpack(data[35 + n..]) == Ok(id.nested)
  {
    assert Pow256(1) == 256 && Pow256(2) == 0x1_0000;
    assert FromBe(data[32..34]) < Pow256(2);
    hide FromBe, ChunkIds.FromDiscriminant, ChunkIds.Unpack;
  }

  lemma EncodeParts(id: ChunkIds.ChunkId)
    requires ChunkIds.Pack(id.nested).Ok? && |ChunkIds.KeyBytes(id)| <= 0xFFFF
    ensures ChunkIds.Encode(id) ==
              Ok(id.prefix + Be(|ChunkIds.KeyBytes(id)|, 2) + ChunkIds.KeyBytes(id)
                 + [ChunkIds.Discriminant(id.tree)] + ChunkIds.Pack(id.nested).value)
  {
    hide ChunkIds.Pack, ChunkIds.Discriminant, Be;
  }

  /** Why an identifier is refused: an unknown tree type, or else corrupted data. */
  lemma DecodeRefused(data: Bytes, appHash: Bytes)
    requires ChunkIds.Decode(data, appHash).Err?
    ensures ChunkIds.Decode(data, appHash) ==
              if |data| >= 34 && |data| > 34 + Number(data[32], data[33]) && data[34 + Number(data[32], data[33])] > 10
              then Err(ChunkIds.UnknownTreeType)
              else Err(ChunkIds.CorruptedData)
  {
    if |data| >= 34 {
      TwoBytes(data, 32);
      if |data| > 34 + Number(data[32], data[33]) {
        TreeOfByte(data[34 + Number(data[32], data[33])]);
      }
    }
    UnpackRefused(if |data| > 34 && |data| > 34 + FromBe(data[32..34]) then data[35 + FromBe(data[32..34])..] else []);
    hide FromBe, ChunkIds.FromDiscriminant, ChunkIds.Unpack;
  }

  lemma UnpackRefused(data: Bytes)
    ensures ChunkIds.Unpack(data).Err? ==> ChunkIds.Unpack(data) == Err(ChunkIds.CorruptedData)
  {
    hide FromBe, ChunkIds.UnframeCounted;
  }
}
