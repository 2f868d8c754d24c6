/** The byte form of a stored node. The leaf hash function is a parameter. */
module NodeCodec {
  import opened Wrappers
  import opened Endian
  import opened MerkleProof

  datatype MmrNode = MmrNode(hash: Bytes, value: Option<Bytes>, isDataLeaf: bool)

  /** The nodes the constructors build: a plain leaf carries the hash of its value. */
  predicate WellFormed(leafHash: Bytes -> Bytes, n: MmrNode) {
    && |n.hash| == 32
    && match n.value
       case None => !n.isDataLeaf
       case Some(v) => |v| <= U32_MAX && (n.isDataLeaf || n.hash == leafHash(v))
  }

  function SerializedSize(n: MmrNode): nat {
    match n.value
    case None => 33
    case Some(v) => 37 + |v|
  }

  function Serialize(n: MmrNode): Result<Bytes, Error> {
    match n.value
    case None => Ok([0] + n.hash)
    case Some(v) =>
      if |v| > U32_MAX then Err(InvalidData)
      else Ok([if n.isDataLeaf then 2 else 1] + n.hash + Be(|v|, 4) + v)
  }

  function Deserialize(leafHash: Bytes -> Bytes, data: Bytes): Result<MmrNode, Error> {
    if |data| < 33 then Err(InvalidData)
    else
      var flag, hash := data[0], data[1..33];
      if flag == 0 then
        if |data| != 33 then Err(InvalidData) else Ok(MmrNode(hash, None, false))
      else if flag == 1 || flag == 2 then
        if |data| < 37 then Err(InvalidData)
        else
          var length := FromBe(data[33..37]);
          if |data| != 37 + length then Err(InvalidData)
          else
            var value := data[37..37 + length];
            if flag == 1 && hash != leafHash(value) then Err(InvalidData)
            else Ok(MmrNode(hash, Some(value), flag == 2))
      else Err(InvalidData)
  }

  lemma SerializedLength(n: MmrNode)
    requires |n.hash| == 32 && Serialize(n).Ok?
    ensures |Serialize(n).value| == SerializedSize(n)
  {
  }

  /** Where the four parts of a valued node lie. */
  lemma Parts(flag: byte, hash: Bytes, length: Bytes, value: Bytes)
    requires |hash| == 32 && |length| == 4
    ensures var data := [flag] + hash + length + value;
            && |data| == 37 + |value| && data[0] == flag && data[1..33] == hash
            && data[33..37] == length && data[37..] == value
  {
  }

  /** Decoding undoes encoding exactly for the nodes the constructors build. */
  lemma DecodeOfEncode(leafHash: Bytes -> Bytes, n: MmrNode)
    requires |n.hash| == 32 && Serialize(n).Ok?
    ensures Deserialize(leafHash, Serialize(n).value) == Ok(n) <==> WellFormed(leafHash, n)
  {
    match n.value
    case None =>
      assert ([0] + n.hash)[1..33] == n.hash;
    case Some(v) =>
      var flag: byte := if n.isDataLeaf then 2 else 1;
      Parts(flag, n.hash, Be(|v|, 4), v);
      U32RoundTrip(|v|);
      var data := Serialize(n).value;
      assert data[37..37 + |v|] == data[37..];
  }

  /** Every accepted byte string is the encoding of the node it decodes to. */
  lemma EncodeOfDecode(leafHash: Bytes -> Bytes, data: Bytes)
    requires Deserialize(leafHash, data).Ok?
    ensures WellFormed(leafHash, Deserialize(leafHash, data).value)
    ensures Serialize(Deserialize(leafHash, data).value) == Ok(data)
  {
    if data[0] == 0 {
      assert data == [0] + data[1..33];
    } else {
      U32Bound(data[33..37]);
      BeOfFromBe(data[33..37]);
      assert data[37..37 + FromBe(data[33..37])] == data[37..];
      assert data == [data[0]] + data[1..33] + data[33..37] + data[37..];
    }
  }
}
