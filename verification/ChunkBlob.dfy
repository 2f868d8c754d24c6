/** Chunk blobs: a list of entries in a fixed-size or a length-prefixed format. */
module ChunkBlob {
  import opened Wrappers
  import opened Endian
  import opened Framing

  const MAX_ENTRIES: nat := 0x10_0000

  datatype ChunkError = InvalidInput | CorruptedData

  predicate SameLength(entries: seq<Bytes>) {
    forall j :: 0 <= j < |entries| ==> |entries[j]| == |entries[0]|
  }

  function Concat(entries: seq<Bytes>): Bytes {
    if entries == [] then [] else entries[0] + Concat(entries[1..])
  }

  /** `serialize_chunk_blob` */
  function Serialize(entries: seq<Bytes>): Result<Bytes, ChunkError> {
    if entries == [] then Ok([])
    else if SameLength(entries) then
      if |entries| > U32_MAX || |entries[0]| > U32_MAX then Err(InvalidInput)
      else Ok([1] + Be(|entries|, 4) + Be(|entries[0]|, 4) + Concat(entries))
    else if ShortEnough(entries) then Ok([0] + Frames(entries))
    else Err(InvalidInput)
  }

  /** The payload cut into `count` entries of `size` bytes. */
  function Cut(payload: Bytes, size: nat, count: nat): Option<seq<Bytes>>
    decreases count
  {
    if count == 0 then (if payload == [] then Some([]) else None)
    else if |payload| < size then None
    else match Cut(payload[size..], size, count - 1)
      case None => None
      case Some(rest) => Some([payload[..size]] + rest)
  }

  function DeserializeFixed(data: Bytes): Result<seq<Bytes>, ChunkError> {
    if |data| < 8 then Err(CorruptedData)
    else
      var count, size := FromBe(data[..4]), FromBe(data[4..8]);
      if count > MAX_ENTRIES then Err(CorruptedData)
      else match Cut(data[8..], size, count)
        case None => Err(CorruptedData)
        case Some(entries) => Ok(entries)
  }

  /** All frames of the data, at most `limit` of them. */
  function UnframeUpTo(data: Bytes, limit: nat): Option<seq<Bytes>>
    decreases limit
  {
    if data == [] then Some([])
    else if limit == 0 then None
    else match TakeFrame(data)
      case None => None
      case Some(t) =>
        match UnframeUpTo(t.rest, limit - 1)
        case None => None
        case Some(rest) => Some([t.frame] + rest)
  }

  /** `deserialize_chunk_blob` */
  function Deserialize(blob: Bytes): Result<seq<Bytes>, ChunkError> {
    if blob == [] then Ok([])
    else if blob[0] == 1 then DeserializeFixed(blob[1..])
    else if blob[0] == 0 then
      match UnframeUpTo(blob[1..], MAX_ENTRIES)
      case None => Err(CorruptedData)
      case Some(entries) => Ok(entries)
    else Err(CorruptedData)
  }

  // ---- the loops -----------------------------------------------------------------------

  lemma {:induction false} ConcatAppend(entries: seq<Bytes>, e: Bytes)
    ensures Concat(entries + [e]) == Concat(entries) + e
  {
    if entries == [] {
      assert entries + [e] == [e] && [e][1..] == [];
    } else {
      assert (entries + [e])[1..] == entries[1..] + [e];
      ConcatAppend(entries[1..], e);
    }
  }

  method AllSameLength(entries: seq<Bytes>) returns (same: bool)
    requires entries != []
    ensures same <==> SameLength(entries)
  {
    var i := 0;
    while i < |entries|
      invariant 0 <= i <= |entries|
      invariant forall j :: 0 <= j < i ==> |entries[j]| == |entries[0]|
    {
      if |entries[i]| != |entries[0]| {
        return false;
      }
      i := i + 1;
    }
    same := true;
  }

  /** `serialize_chunk_blob` with its loops */
  method SerializeChunkBlob(entries: seq<Bytes>) returns (r: Result<Bytes, ChunkError>)
    ensures r == Serialize(entries)
  {
    hide Concat, Frames, SameLength;
    if |entries| == 0 {
      return Ok([]);
    }
    var same := AllSameLength(entries);
    if same {
      if |entries| > U32_MAX || |entries[0]| > U32_MAX {
        return Err(InvalidInput);
      }
      var header := [1] + Be(|entries|, 4) + Be(|entries[0]|, 4);
      var body := ConcatAll(entries);
      return Ok(header + body);
    }
    r := FrameAll(entries);
  }

  method ConcatAll(entries: seq<Bytes>) returns (body: Bytes)
    ensures body == Concat(entries)
  {
    body := [];
    var i := 0;
    while i < |entries|
      invariant 0 <= i <= |entries| && body == Concat(entries[..i])
    {
      ConcatAppend(entries[..i], entries[i]);
      assert entries[..i + 1] == entries[..i] + [entries[i]];
      body := body + entries[i];
      i := i + 1;
    }
    assert entries[..i] == entries;
  }

  method FrameAll(entries: seq<Bytes>) returns (r: Result<Bytes, ChunkError>)
    ensures r == if ShortEnough(entries) then Ok([0] + Frames(entries)) else Err(InvalidInput)
  {
    var blob := [0];
    var i := 0;
    assert entries[..0] == [];
    while i < |entries|
      invariant 0 <= i <= |entries| && blob == [0] + Frames(entries[..i])
      invariant ShortEnough(entries[..i])
    {
      if |entries[i]| > U32_MAX {
        return Err(InvalidInput);
      }
      FramesAppend(entries[..i], entries[i]);
      assert entries[..i + 1] == entries[..i] + [entries[i]];
      blob := blob + Be(|entries[i]|, 4);
      blob := blob + entries[i];
      i := i + 1;
    }
    assert entries[..i] == entries;
    r := Ok(blob);
  }

  lemma {:induction false} CutLength(payload: Bytes, size: nat, count: nat)
    ensures Cut(payload, size, count).Some? <==> |payload| == count * size
    decreases count
  {
    if count > 0 {
      assert count * size == size + (count - 1) * size;
      if |payload| >= size {
        CutLength(payload[size..], size, count - 1);
      } else {
        assert (count - 1) * size >= 0;
      }
    }
  }

  method DeserializeFixedLoop(data: Bytes) returns (r: Result<seq<Bytes>, ChunkError>)
    ensures r == DeserializeFixed(data)
  {
    hide FromBe, Cut;
    if |data| < 8 {
      return Err(CorruptedData);
    }
    var count, size := FromBe(data[..4]), FromBe(data[4..8]);
    if count > MAX_ENTRIES {
      return Err(CorruptedData);
    }
    var payload := data[8..];
    CutLength(payload, size, count);
    if |payload| != count * size {
      return Err(CorruptedData);
    }
    var entries: seq<Bytes> := [];
    var i := 0;
    assert payload[0..] == payload;
    OntoNothing(Cut(payload, size, count));
    while i < count
      invariant 0 <= i <= count && i * size <= |payload|
      invariant Onto(entries, Cut(payload[i * size..], size, count - i)) == Cut(payload, size, count)
    {
      var start := i * size;
      EntryFits(i, size, count);
      CutStep(payload, start, size, count - i);
      OntoStep(entries, payload[start..start + size], Cut(payload[start + size..], size, count - i - 1));
      entries := entries + [payload[start..start + size]];
      i := i + 1;
    }
    CutNothing(payload[i * size..], size);
    assert entries + [] == entries;
    r := Ok(entries);
  }

  lemma CutNothing(payload: Bytes, size: nat)
    ensures Cut(payload, size, 0) == if payload == [] then Some([]) else None
  {
  }

  lemma EntryFits(i: nat, size: nat, count: nat)
    requires i < count
    ensures i * size + size == (i + 1) * size <= count * size
  {
    assert count * size == (i + 1) * size + (count - i - 1) * size;
    assert (count - i - 1) * size >= 0;
  }

  lemma CutStep(payload: Bytes, start: nat, size: nat, count: nat)
    requires 0 < count && start + size <= |payload|
    ensures Cut(payload[start..], size, count) ==
              match Cut(payload[start + size..], size, count - 1)
              case None => None
              case Some(rest) => Some([payload[start..start + size]] + rest)
  {
    assert payload[start..][..size] == payload[start..start + size];
    assert payload[start..][size..] == payload[start + size..];
  }

  method DeserializeVariableLoop(data: Bytes) returns (r: Result<seq<Bytes>, ChunkError>)
    ensures r == match UnframeUpTo(data, MAX_ENTRIES)
                 case None => Err(CorruptedData)
                 case Some(entries) => Ok(entries)
  {
    hide FromBe, UnframeUpTo, TakeFrame;
    var entries: seq<Bytes> := [];
    var offset := 0;
    assert data[0..] == data;
    OntoNothing(UnframeUpTo(data, MAX_ENTRIES));
    while offset < |data|
      invariant 0 <= offset <= |data| && |entries| <= MAX_ENTRIES
      invariant Onto(entries, UnframeUpTo(data[offset..], MAX_ENTRIES - |entries|)) == UnframeUpTo(data, MAX_ENTRIES)
      decreases |data| - offset
    {
      UnframeStep(data[offset..], MAX_ENTRIES - |entries|);
      if |entries| >= MAX_ENTRIES {
        return Err(CorruptedData);
      }
      TakeAt(data, offset);
      if offset + 4 > |data| {
        return Err(CorruptedData);
      }
      var length := FromBe(data[offset..offset + 4]);
      offset := offset + 4;
      if offset + length > |data| {
        return Err(CorruptedData);
      }
      OntoStep(entries, data[offset..offset + length],
               UnframeUpTo(data[offset + length..], MAX_ENTRIES - |entries| - 1));
      entries := entries + [data[offset..offset + length]];
      offset := offset + length;
    }
    UnframeStep(data[offset..], MAX_ENTRIES - |entries|);
    assert entries + [] == entries;
    r := Ok(entries);
  }

  lemma UnframeStep(data: Bytes, limit: nat)
    ensures data == [] ==> UnframeUpTo(data, limit) == Some([])
    ensures data != [] && (limit == 0 || TakeFrame(data).None?) ==> UnframeUpTo(data, limit) == None
    ensures data != [] && limit > 0 && TakeFrame(data).Some? ==>
              var t := TakeFrame(data).value;
              var rest := UnframeUpTo(t.rest, limit - 1);
              UnframeUpTo(data, limit) == if rest.None? then None else Some([t.frame] + rest.value)
  {
  }

  /** `deserialize_chunk_blob` with its loops */
  method DeserializeChunkBlob(blob: Bytes) returns (r: Result<seq<Bytes>, ChunkError>)
    ensures r == Deserialize(blob)
  {
    hide DeserializeFixed, UnframeUpTo;
    if |blob| == 0 {
      return Ok([]);
    }
    if blob[0] == 1 {
      r := DeserializeFixedLoop(blob[1..]);
    } else if blob[0] == 0 {
      r := DeserializeVariableLoop(blob[1..]);
    } else {
      r := Err(CorruptedData);
    }
  }

  // ---- round trip ------------------------------------------------------------------------

  lemma {:induction false} CutOfConcat(entries: seq<Bytes>, size: nat)
    requires forall j :: 0 <= j < |entries| ==> |entries[j]| == size
    ensures Cut(Concat(entries), size, |entries|) == Some(entries)
  {
    if entries != [] {
      CutOfConcat(entries[1..], size);
      assert Concat(entries)[..size] == entries[0] && Concat(entries)[size..] == Concat(entries[1..]);
      assert entries == [entries[0]] + entries[1..];
    }
  }

  lemma {:induction false} UnframeOfFrames(es: seq<Bytes>, limit: nat)
    requires ShortEnough(es)
    ensures UnframeUpTo(Frames(es), limit) == if |es| <= limit then Some(es) else None
    decreases |es|
  {
    if es != [] && limit > 0 {
      UnframeOfFrames(es[1..], limit - 1);
      TakeOfFrame(es[0], Frames(es[1..]));
      assert es == [es[0]] + es[1..];
    }
  }

  lemma FixedRoundTrip(entries: seq<Bytes>)
    requires entries != [] && SameLength(entries) && |entries| <= U32_MAX && |entries[0]| <= U32_MAX
    ensures DeserializeFixed(Be(|entries|, 4) + Be(|entries[0]|, 4) + Concat(entries)) ==
              if |entries| <= MAX_ENTRIES then Ok(entries) else Err(CorruptedData)
  {
    var size, body := |entries[0]|, Concat(entries);
    U32RoundTrip(|entries|);
    U32RoundTrip(size);
    CutOfConcat(entries, size);
    hide Be, FromBe, Cut, Concat;
    var data := Be(|entries|, 4) + Be(size, 4) + body;
    assert data[..4] == Be(|entries|, 4) && data[4..8] == Be(size, 4) && data[8..] == body;
  }

  /** Whatever could be serialized is read back exactly when it has at most 2^20 entries,
      in both formats. */
  lemma RoundTrip(entries: seq<Bytes>)
    requires Serialize(entries).Ok?
    ensures Deserialize(Serialize(entries).value) ==
              if |entries| <= 0x10_0000 then Ok(entries) else Err(CorruptedData)
  {
    hide DeserializeFixed, UnframeUpTo, Concat, Frames, Be;
    if entries != [] && SameLength(entries) {
      FixedRoundTrip(entries);
      var body := Be(|entries|, 4) + Be(|entries[0]|, 4) + Concat(entries);
      assert Serialize(entries).value == [1] + body && ([1] + body)[1..] == body;
    } else if entries != [] {
      UnframeOfFrames(entries, MAX_ENTRIES);
      assert ([0] + Frames(entries))[1..] == Frames(entries);
    }
  }

  lemma {:induction false} Lengths(entries: seq<Bytes>, size: nat)
    requires forall j :: 0 <= j < |entries| ==> |entries[j]| == size
    ensures |Frames(entries)| == |Concat(entries)| + 4 * |entries|
  {
    if entries != [] {
      Lengths(entries[1..], size);
    }
  }

  /** For entries of equal length the fixed format is the shorter one, or as short, exactly
      from two entries on; a single entry would be shorter with its length in front. */
  lemma FixedIsShorter(entries: seq<Bytes>)
    requires entries != [] && SameLength(entries) && Serialize(entries).Ok?
    ensures |Serialize(entries).value| <= |[0] + Frames(entries)| <==> |entries| >= 2
  {
    Lengths(entries, |entries[0]|);
    hide Frames, Concat, Be;
  }
}
