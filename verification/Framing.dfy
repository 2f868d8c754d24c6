/** Byte strings behind a four-byte length. */
module Framing {
  import opened Wrappers
  import opened Endian

  function Frame(e: Bytes): Bytes { Be(|e|, 4) + e }

  function Frames(es: seq<Bytes>): Bytes {
    if es == [] then [] else Frame(es[0]) + Frames(es[1..])
  }

  predicate ShortEnough(es: seq<Bytes>) {
    forall j :: 0 <= j < |es| ==> |es[j]| <= U32_MAX
  }

  datatype Taken = Taken(frame: Bytes, rest: Bytes)

  /** The first frame, when the data holds all of it. */
  function TakeFrame(data: Bytes): (r: Option<Taken>)
    ensures r.Some? ==> |r.value.rest| < |data|
  {
    if |data| < 4 then None
    else
      var length := FromBe(data[..4]);
      if 4 + length > |data| then None else Some(Taken(data[4..4 + length], data[4 + length..]))
  }

  /** The first frame of what starts at `offset`. */
  lemma TakeAt(data: Bytes, offset: nat)
    requires offset <= |data|
    ensures offset + 4 > |data| ==> TakeFrame(data[offset..]) == None
    ensures offset + 4 <= |data| ==>
              var end := offset + 4 + FromBe(data[offset..offset + 4]);
              TakeFrame(data[offset..]) ==
                if end > |data| then None else Some(Taken(data[offset + 4..end], data[end..]))
  {
    hide FromBe;
    if offset + 4 <= |data| {
      assert data[offset..][..4] == data[offset..offset + 4];
      var length := FromBe(data[offset..offset + 4]);
      if offset + 4 + length <= |data| {
        assert data[offset..][4..4 + length] == data[offset + 4..offset + 4 + length];
        assert data[offset..][4 + length..] == data[offset + 4 + length..];
      }
    }
  }

  lemma TakeOfFrame(e: Bytes, rest: Bytes)
    requires |e| <= U32_MAX
    ensures TakeFrame(Frame(e) + rest) == Some(Taken(e, rest))
  {
    U32RoundTrip(|e|);
    hide Be, FromBe;
    var data := Frame(e) + rest;
    assert data[..4] == Be(|e|, 4);
    assert data[4..4 + |e|] == e && data[4 + |e|..] == rest;
  }

  lemma FrameOfTake(data: Bytes)
    requires TakeFrame(data).Some?
    ensures var t := TakeFrame(data).value; data == Frame(t.frame) + t.rest && |t.frame| <= U32_MAX
  {
    BeOfFromBe(data[..4]);
    U32Bound(data[..4]);
    hide Be, FromBe;
    var length := FromBe(data[..4]);
    assert data == data[..4] + data[4..4 + length] + data[4 + length..];
  }

  lemma {:induction false} FramesAppend(es: seq<Bytes>, e: Bytes)
    ensures Frames(es + [e]) == Frames(es) + Frame(e)
  {
    if es == [] {
      assert es + [e] == [e] && [e][1..] == [];
    } else {
      assert (es + [e])[1..] == es[1..] + [e];
      FramesAppend(es[1..], e);
    }
  }

  lemma {:induction false} FramesLength(es: seq<Bytes>)
    ensures |Frames(es)| >= 4 * |es|
  {
    if es != [] {
      FramesLength(es[1..]);
    }
  }

  /** Entries read so far, and the ones still to be read. */
  function Onto(done: seq<Bytes>, rest: Option<seq<Bytes>>): Option<seq<Bytes>> {
    if rest.None? then None else Some(done + rest.value)
  }

  lemma OntoStep(done: seq<Bytes>, e: Bytes, rest: Option<seq<Bytes>>)
    ensures Onto(done + [e], rest) == if rest.None? then None else Onto(done, Some([e] + rest.value))
  {
    if rest.Some? {
      assert done + [e] + rest.value == done + ([e] + rest.value);
    }
  }

  lemma OntoNothing(rest: Option<seq<Bytes>>)
    ensures Onto([], rest) == rest
  {
    if rest.Some? {
      assert [] + rest.value == rest.value;
    }
  }
}
