/** The storage adapter: nodes under position keys in a key/value context. */
module NodeStorage {
  import opened Wrappers
  import opened Endian
  import opened Positions
  import opened MerkleProof
  import opened NodeCodec

  datatype KeySize = U32Key | U64Key

  const TAG32: nat := 0x8000_0000
  const TAG64: nat := 0x8000_0000_0000_0000

  /** Setting the top bit of a 64-bit word. */
  function SetTopBit(pos: u64): (r: u64)
    ensures r >= TAG64
  {
    if pos < TAG64 then pos + TAG64 else pos
  }

  /** `mmr_node_key_sized` */
  function NodeKey(pos: u64, size: KeySize): Result<Bytes, Error> {
    match size
    case U32Key => if pos >= TAG32 then Err(InvalidInput) else Ok(Be(pos + TAG32, 4))
    case U64Key => Ok(Be(SetTopBit(pos), 8))
  }

  /** Positions below this bound have their own key. */
  function KeyLimit(size: KeySize): nat {
    if size == U32Key then TAG32 else TAG64
  }

  /** Two positions share a key only at the same size, and then only when they are equal
      or differ by the top bit. */
  lemma KeysCollide(p: u64, ps: KeySize, q: u64, qs: KeySize)
    requires NodeKey(p, ps).Ok? && NodeKey(q, qs).Ok?
    ensures NodeKey(p, ps) == NodeKey(q, qs) <==>
              ps == qs && (p == q || (ps == U64Key && (p == q + TAG64 || q == p + TAG64)))
  {
    Width4();
    Width8();
    if ps == qs == U32Key {
      FromBeOfBe(p + TAG32, 4);
      FromBeOfBe(q + TAG32, 4);
    } else if ps == qs == U64Key {
      FromBeOfBe(SetTopBit(p), 8);
      FromBeOfBe(SetTopBit(q), 8);
    } else {
      assert |NodeKey(p, ps).value| != |NodeKey(q, qs).value|;
    }
  }

  lemma KeysApart(p: u64, q: u64, size: KeySize)
    requires p != q && p < KeyLimit(size) && q < KeyLimit(size)
    ensures NodeKey(p, size).Ok? && NodeKey(q, size).Ok? && NodeKey(p, size) != NodeKey(q, size)
  {
    KeysCollide(p, size, q, size);
  }

  datatype Found = Found(node: MmrNode) | Missing

  class MmrStore {
    const size: KeySize
    const leafHash: Bytes -> Bytes
    var data: map<Bytes, Bytes>

    constructor (size: KeySize, leafHash: Bytes -> Bytes)
      ensures this.size == size && this.leafHash == leafHash && data == map[]
    {
      this.size := size;
      this.leafHash := leafHash;
      data := map[];
    }

    /** What a read that reaches the context returns. */
    function Reads(pos: u64): Result<Found, Error>
      reads this
    {
      match NodeKey(pos, size)
      case Err(e) => Err(e)
      case Ok(key) =>
        if key !in data then Ok(Missing)
        else match Deserialize(leafHash, data[key])
          case Err(_) => Err(StoreError)
          case Ok(n) => Ok(Found(n))
    }

    /** `element_at_position`; `reachable` says whether the context can be read. */
    method ElementAtPosition(pos: u64, reachable: bool) returns (r: Result<Found, Error>)
      ensures reachable ==> r == Reads(pos)
      ensures !reachable ==> r.Err?
      ensures r.Err? ==> r.error == if size.U32Key? && pos >= 0x8000_0000 then InvalidInput else StoreError
    {
      var key := NodeKey(pos, size);
      if key.Err? {
        return Err(key.error);
      }
      if !reachable {
        return Err(StoreError);
      }
      if key.value !in data {
        return Ok(Missing);
      }
      var node := Deserialize(leafHash, data[key.value]);
      r := if node.Err? then Err(StoreError) else Ok(Found(node.value));
    }

    /** One write. */
    method PutNode(pos: u64, node: MmrNode, accepts: bool) returns (r: Result<bool, Error>)
      modifies this
      ensures r.Err? ==> data == old(data) && forall q: u64 :: Reads(q) == old(Reads(q))
      ensures r.Ok? <==> NodeKey(pos, size).Ok? && Serialize(node).Ok? && accepts
      ensures r.Ok? && WellFormed(leafHash, node) ==> Reads(pos) == Ok(Found(node))
      ensures pos < KeyLimit(size) ==>
                forall q: u64 :: q < KeyLimit(size) && q != pos ==> Reads(q) == old(Reads(q))
    {
      var key := NodeKey(pos, size);
      if key.Err? {
        return Err(key.error);
      }
      var bytes := Serialize(node);
      if bytes.Err? || !accepts {
        return Err(StoreError);
      }
      data := data[key.value := bytes.value];
      if WellFormed(leafHash, node) {
        DecodeOfEncode(leafHash, node);
      }
      forall q: u64 | pos < KeyLimit(size) && q < KeyLimit(size) && q != pos ensures Reads(q) == old(Reads(q)) {
        KeysApart(pos, q, size);
      }
      r := Ok(true);
    }

    /** `append`: the nodes go to consecutive positions; a failed write stops after the
        nodes before it. `accepts` says which positions the context takes. Below the key
        limit every written node is read back and no other position is disturbed. */
    method Append(pos: u64, elems: seq<MmrNode>, accepts: nat -> bool) returns (r: Result<bool, Error>, ghost done: nat)
      requires pos + |elems| <= U64_MAX + 1
      modifies this
      ensures done <= |elems| && (r.Ok? <==> done == |elems|)
      ensures forall i :: 0 <= i < done ==> Takes(pos + i, elems[i], accepts)
      ensures done < |elems| ==> !Takes(pos + done, elems[done], accepts)
      ensures pos + done <= KeyLimit(size) ==>
                && (forall i :: 0 <= i < done && WellFormed(leafHash, elems[i]) ==>
                      Reads(pos + i) == Ok(Found(elems[i])))
                && (forall q: u64 :: q < KeyLimit(size) && !(pos <= q < pos + done) ==> Reads(q) == old(Reads(q)))
    {
      hide Reads, Deserialize, Serialize, NodeKey, WellFormed, KeyLimit;
      var i := 0;
      done := 0;
      while i < |elems|
        invariant 0 <= i <= |elems| && done == i
        invariant forall j :: 0 <= j < i ==> Takes(pos + j, elems[j], accepts)
        invariant pos + i <= KeyLimit(size) ==>
                    && (forall j :: 0 <= j < i && WellFormed(leafHash, elems[j]) ==>
                          Reads(pos + j) == Ok(Found(elems[j])))
                    && (forall q: u64 :: q < KeyLimit(size) && !(pos <= q < pos + i) ==> Reads(q) == old(Reads(q)))
      {
        var put := PutNode(pos + i, elems[i], accepts(pos + i));
        if put.Err? {
          return Err(put.error), i;
        }
        i := i + 1;
        done := i;
      }
      r := Ok(true);
    }

    predicate Takes(pos: u64, node: MmrNode, accepts: nat -> bool) {
      NodeKey(pos, size).Ok? && Serialize(node).Ok? && accepts(pos)
    }
  }
}
