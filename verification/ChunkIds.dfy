/** Nested byte strings and global chunk identifiers, as state sync exchanges them. */
module ChunkIds {
  import opened Wrappers
  import opened Endian
  import opened Framing

  datatype SyncError = InternalError | CorruptedData | UnknownTreeType

  // ---- nested byte strings ---------------------------------------------------------------

  /** `pack_nested_bytes` */
  function Pack(es: seq<Bytes>): Result<Bytes, SyncError> {
    if |es| > U32_MAX || !ShortEnough(es) then Err(InternalError) else Ok(Be(|es|, 4) + Frames(es))
  }

  /** Exactly `n` frames and nothing after them. */
  function UnframeCounted(data: Bytes, n: nat): Option<seq<Bytes>>
    decreases n
  {
    if n == 0 then (if data == [] then Some([]) else None)
    else match TakeFrame(data)
      case None => None
      case Some(t) =>
        match UnframeCounted(t.rest, n - 1)
        case None => None
        case Some(rest) => Some([t.frame] + rest)
  }

  /** `unpack_nested_bytes` */
  function Unpack(data: Bytes): Result<seq<Bytes>, SyncError> {
    if |data| < 4 || FromBe(data[..4]) > (|data| - 4) / 4 then Err(CorruptedData)
    else match UnframeCounted(data[4..], FromBe(data[..4]))
      case None => Err(CorruptedData)
      case Some(es) => Ok(es)
  }

  /** `pack_nested_bytes` with its loop */
  method PackNestedBytes(es: seq<Bytes>) returns (r: Result<Bytes, SyncError>)
    ensures r == Pack(es)
  {
    hide *;
    PackUnfold(es);
    if |es| > U32_MAX {
      return Err(InternalError);
    }
    var packed := Be(|es|, 4);
    var i := 0;
    PackStart(es);
    while i < |es|
      invariant 0 <= i <= |es| && PackedTo(es, i, packed)
    {
      PackNext(es, i, packed);
      if |es[i]| > U32_MAX {
        return Err(InternalError);
      }
      packed := packed + Be(|es[i]|, 4);
      packed := packed + es[i];
      i := i + 1;
    }
    PackEnd(es, packed);
    r := Ok(packed);
  }

  lemma PackUnfold(es: seq<Bytes>)
    ensures Pack(es) ==
              if |es| > U32_MAX || !ShortEnough(es) then Err(InternalError) else Ok(Be(|es|, 4) + Frames(es))
  {
    hide ShortEnough, Frames, Be;
  }

  predicate PackedTo(es: seq<Bytes>, i: nat, packed: Bytes) {
    i <= |es| && ShortEnough(es[..i]) && packed == Be(|es|, 4) + Frames(es[..i])
  }

  lemma PackStart(es: seq<Bytes>)
    ensures PackedTo(es, 0, Be(|es|, 4))
  {
    hide Be;
    assert es[..0] == [] && Be(|es|, 4) + [] == Be(|es|, 4);
  }

  lemma PackNext(es: seq<Bytes>, i: nat, packed: Bytes)
    requires i < |es| && PackedTo(es, i, packed)
    ensures if |es[i]| > U32_MAX then !ShortEnough(es) else PackedTo(es, i + 1, packed + Be(|es[i]|, 4) + es[i])
  {
    hide Be, Frames;
    FramesAppend(es[..i], es[i]);
    assert es[..i + 1] == es[..i] + [es[i]];
  }

  lemma PackEnd(es: seq<Bytes>, packed: Bytes)
    requires PackedTo(es, |es|, packed)
    ensures ShortEnough(es) && packed == Be(|es|, 4) + Frames(es)
  {
    hide Be, Frames;
    assert es[..|es|] == es;
  }

  /** `unpack_nested_bytes` with its loop */
  method UnpackNestedBytes(data: Bytes) returns (r: Result<seq<Bytes>, SyncError>)
    ensures r == Unpack(data)
  {
    hide FromBe, UnframeCounted, TakeFrame, Onto;
    if |data| < 4 {
      return Err(CorruptedData);
    }
    var n := FromBe(data[..4]);
    if n > (|data| - 4) / 4 {
      return Err(CorruptedData);
    }
    var nested: seq<Bytes> := [];
    var index := 4;
    var i := 0;
    ghost var total := UnframeCounted(data[4..], n);
    OntoNothing(total);
    while i < n
      invariant 0 <= i <= n && 4 <= index <= |data|
      invariant Onto(nested, UnframeCounted(data[index..], n - i)) == total
    {
      CountedStep(data, index, n - i, nested);
      if index + 4 > |data| {
        return Err(CorruptedData);
      }
      var length := FromBe(data[index..index + 4]);
      index := index + 4;
      var end := index + length;
      if end > |data| {
        return Err(CorruptedData);
      }
      nested := nested + [data[index..end]];
      index := end;
      i := i + 1;
    }
    CountedEnd(data, index, nested);
    if index != |data| {
      return Err(CorruptedData);
    }
    r := Ok(nested);
  }

  /** One frame of the counted loop: cut short, or taken and the rest to come. */
  lemma CountedStep(data: Bytes, index: nat, n: nat, nested: seq<Bytes>)
    requires index <= |data| && n > 0
    ensures var rest := Onto(nested, UnframeCounted(data[index..], n));
            if index + 4 > |data| then rest == None
            else
              var end := index + 4 + FromBe(data[index..index + 4]);
              if end > |data| then rest == None
              else rest == Onto(nested + [data[index + 4..end]], UnframeCounted(data[end..], n - 1))
  {
    hide FromBe;
    if index + 4 <= |data| {
      var length := FromBe(data[index..index + 4]);
      var end := index + 4 + length;
      assert data[index..][..4] == data[index..index + 4];
      if end <= |data| {
        assert data[index..][4..4 + length] == data[index + 4..end] && data[index..][4 + length..] == data[end..];
        OntoStep(nested, data[index + 4..end], UnframeCounted(data[end..], n - 1));
      }
    }
  }

  lemma CountedEnd(data: Bytes, index: nat, nested: seq<Bytes>)
    requires index <= |data|
    ensures Onto(nested, UnframeCounted(data[index..], 0)) == if index == |data| then Some(nested) else None
  {
    assert nested + [] == nested;
  }

  lemma {:induction false} UnframeOfFrames(es: seq<Bytes>)
    requires ShortEnough(es)
    ensures UnframeCounted(Frames(es), |es|) == Some(es)
  {
    if es != [] {
      UnframeOfFrames(es[1..]);
      TakeOfFrame(es[0], Frames(es[1..]));
      assert es == [es[0]] + es[1..];
    }
  }

  lemma {:induction false} FramesOfUnframe(data: Bytes, n: nat)
    requires UnframeCounted(data, n).Some?
    ensures var es := UnframeCounted(data, n).value; |es| == n && ShortEnough(es) && Frames(es) == data
    decreases n
  {
    if n > 0 {
      FrameOfTake(data);
      FramesOfUnframe(TakeFrame(data).value.rest, n - 1);
      var es := UnframeCounted(data, n).value;
      assert es[1..] == UnframeCounted(TakeFrame(data).value.rest, n - 1).value;
    }
  }

  /** Unpacking undoes packing. */
  lemma UnpackOfPack(es: seq<Bytes>)
    requires Pack(es).Ok?
    ensures Unpack(Pack(es).value) == Ok(es)
  {
    U32RoundTrip(|es|);
    hide Be, FromBe, UnframeCounted, Frames;
    var data := Pack(es).value;
    assert data[..4] == Be(|es|, 4) && data[4..] == Frames(es);
    FramesLength(es);
    UnframeOfFrames(es);
  }

  /** Whatever is accepted packs to itself. */
  lemma PackOfUnpack(data: Bytes)
    requires Unpack(data).Ok?
    ensures Pack(Unpack(data).value) == Ok(data)
  {
    BeOfFromBe(data[..4]);
    U32Bound(data[..4]);
    hide Be, FromBe, UnframeCounted, Frames;
    FramesOfUnframe(data[4..], FromBe(data[..4]));
    assert data == data[..4] + data[4..];
  }

  // ---- global chunk identifiers --------------------------------------------------------

  /** The tree types, three of them with a parameter. */
  datatype TreeType =
    | NormalTree
    | SumTree
    | BigSumTree
    | CountTree
    | CountSumTree
    | ProvableCountTree
    | ProvableCountSumTree
    | CommitmentTree(param: byte)
    | MmrTree
    | BulkAppendTree(param: byte)
    | DenseTree(param: byte)

  /** `discriminant` */
  function Discriminant(t: TreeType): byte {
    match t
    case NormalTree => 0
    case SumTree => 1
    case BigSumTree => 2
    case CountTree => 3
    case CountSumTree => 4
    case ProvableCountTree => 5
    case ProvableCountSumTree => 6
    case CommitmentTree(_) => 7
    case MmrTree => 8
    case BulkAppendTree(_) => 9
    case DenseTree(_) => 10
  }

  /** `try_from`: the parameter is not part of the byte. */
  function FromDiscriminant(b: byte): Result<TreeType, SyncError> {
    if b == 0 then Ok(NormalTree)
    else if b == 1 then Ok(SumTree)
    else if b == 2 then Ok(BigSumTree)
    else if b == 3 then Ok(CountTree)
    else if b == 4 then Ok(CountSumTree)
    else if b == 5 then Ok(ProvableCountTree)
    else if b == 6 then Ok(ProvableCountSumTree)
    else if b == 7 then Ok(CommitmentTree(0))
    else if b == 8 then Ok(MmrTree)
    else if b == 9 then Ok(BulkAppendTree(0))
    else if b == 10 then Ok(DenseTree(0))
    else Err(UnknownTreeType)
  }

  /** The type with its parameter forgotten. */
  function Plain(t: TreeType): TreeType {
    match t
    case CommitmentTree(_) => CommitmentTree(0)
    case BulkAppendTree(_) => BulkAppendTree(0)
    case DenseTree(_) => DenseTree(0)
    case _ => t
  }

  lemma DiscriminantRoundTrip(t: TreeType)
    ensures FromDiscriminant(Discriminant(t)) == Ok(Plain(t))
  {
  }

  datatype ChunkId = ChunkId(prefix: Bytes, rootKey: Option<Bytes>, tree: TreeType, nested: seq<Bytes>)

  const U16_MAX: nat := 0xFFFF

  function KeyBytes(id: ChunkId): Bytes {
    if id.rootKey.Some? then id.rootKey.value else []
  }

  /** `encode_global_chunk_id` */
  function Encode(id: ChunkId): Result<Bytes, SyncError> {
    if |KeyBytes(id)| > U16_MAX then Err(InternalError)
    else match Pack(id.nested)
      case Err(e) => Err(e)
      case Ok(packed) =>
        Ok(id.prefix + Be(|KeyBytes(id)|, 2) + KeyBytes(id) + [Discriminant(id.tree)] + packed)
  }

  /** What the application hash itself stands for. */
  const ROOT_CHUNK: ChunkId := ChunkId(Be(0, 32), None, NormalTree, [])

  /** `decode_global_chunk_id` */
  function Decode(data: Bytes, appHash: Bytes): Result<ChunkId, SyncError> {
    if |data| < 32 then Err(CorruptedData)
    else if data == appHash then Ok(ROOT_CHUNK)
    else if |data| < 34 then Err(CorruptedData)
    else
      var keyLength := FromBe(data[32..34]);
      if |data| < 34 + keyLength + 1 then Err(CorruptedData)
      else
        var key := data[34..34 + keyLength];
        match FromDiscriminant(data[34 + keyLength])
        case Err(e) => Err(e)
        case Ok(tree) =>
          match Unpack(data[34 + keyLength + 1..])
          case Err(e) => Err(e)
          case Ok(nested) => Ok(ChunkId(data[..32], if key == [] then None else Some(key), tree, nested))
  }

  lemma EncodedParts(prefix: Bytes, key: Bytes, tree: byte, packed: Bytes)
    requires |prefix| == 32 && |key| <= U16_MAX
    ensures var data := prefix + Be(|key|, 2) + key + [tree] + packed;
            && |data| == 35 + |key| + |packed| && data[..32] == prefix && FromBe(data[32..34]) == |key|
            && data[34..34 + |key|] == key && data[34 + |key|] == tree && data[34 + |key| + 1..] == packed
  {
    assert Pow256(1) == 256 && Pow256(2) == 65536;
    FromBeOfBe(|key|, 2);
    hide Be, FromBe;
    var data := prefix + Be(|key|, 2) + key + [tree] + packed;
    assert data[32..34] == Be(|key|, 2);
    assert data[34..34 + |key|] == key;
    assert data[34 + |key| + 1..] == packed;
  }

  /** What an encoded identifier decodes to: an empty root key is read as absent and the
      parameter of the tree type is lost. */
  lemma DecodeOfEncode(id: ChunkId, appHash: Bytes)
    requires |id.prefix| == 32 && Encode(id).Ok? && Encode(id).value != appHash
    ensures Decode(Encode(id).value, appHash) ==
              Ok(ChunkId(id.prefix, if KeyBytes(id) == [] then None else id.rootKey, Plain(id.tree), id.nested))
  {
    var packed := Pack(id.nested).value;
    EncodedParts(id.prefix, KeyBytes(id), Discriminant(id.tree), packed);
    UnpackOfPack(id.nested);
    DiscriminantRoundTrip(id.tree);
    hide Pack, Unpack, Be, FromBe, Discriminant, FromDiscriminant, Plain;
  }

  /** Decoding undoes encoding exactly for identifiers without an empty root key and with
      a tree type whose parameter is zero or absent; no 32-byte application hash interferes. */
  lemma ChunkIdRoundTrip(id: ChunkId, appHash: Bytes)
    requires |id.prefix| == 32 && Encode(id).Ok? && |appHash| == 32
    ensures Decode(Encode(id).value, appHash) == Ok(id) <==> id.rootKey != Some([]) && Plain(id.tree) == id.tree
  {
    EncodedLength(id);
    hide Encode, Decode, Plain;
    DecodeOfEncode(id, appHash);
  }

  lemma EncodedLength(id: ChunkId)
    requires |id.prefix| == 32 && Encode(id).Ok?
    ensures |Encode(id).value| > 32
  {
    hide Pack, Be;
  }
}
