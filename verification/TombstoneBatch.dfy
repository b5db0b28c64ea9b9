/**
 Batches of tombstone messages (src/qos/deletion.rs): a four-byte count, then
 each message behind a four-byte length.
 */
module TombstoneBatch {
  import opened Wrappers
  import opened Bytes
  import opened TombstoneCodec

  const TWO_32: nat := 0x1_0000_0000

  function Frame(m: Message): seq<Byte> {
    BeBytes(|Encode(m)|, 4) + Encode(m)
  }

  function Frames(ms: seq<Message>): seq<Byte> {
    if ms == [] then [] else Frame(ms[0]) + Frames(ms[1..])
  }

  function EncodeBatch(ms: seq<Message>): seq<Byte> {
    BeBytes(|ms|, 4) + Frames(ms)
  }

  method EncodeMessages(ms: seq<Message>) returns (buf: seq<Byte>)
    ensures buf == EncodeBatch(ms)
  {
    hide Encode, BeBytes, Frames;
    buf := BeBytes(|ms|, 4);
    NoFrames();
    assert ms[..0] == [];
    for i := 0 to |ms|
      invariant buf == BeBytes(|ms|, 4) + Frames(ms[..i])
    {
      var encoded := EncodeMessage(ms[i]);
      buf := buf + BeBytes(|encoded|, 4);
      buf := buf + encoded;
      assert ms[..i + 1] == ms[..i] + [ms[i]];
      FramesSnoc(ms[..i], ms[i]);
    }
    assert ms[..|ms|] == ms;
  }

  lemma NoFrames()
    ensures Frames([]) == []
  {
  }

  lemma {:induction false} FramesSnoc(ms: seq<Message>, m: Message)
    ensures Frames(ms + [m]) == Frames(ms) + Frame(m)
  {
    hide Frame;
    if ms == [] {
      assert ([] + [m])[1..] == [];
    } else {
      FramesSnoc(ms[1..], m);
      assert (ms + [m])[1..] == ms[1..] + [m];
    }
  }

  // --- Decoding ---

  /** One frame at `pos`: the message it holds and the position after it. */
  function ReadFrame(bytes: seq<Byte>, pos: nat): Result<(Message, nat), DecodeError> {
    if |bytes| < pos + 4 then Err(TooShort) else
      var len := BeValue(bytes[pos..pos + 4]);
      if |bytes| < pos + 4 + len then Err(TooShort) else
        var m :- Decode(bytes[pos + 4..pos + 4 + len]);
        Ok((m, pos + 4 + len))
  }

  function ReadFrames(bytes: seq<Byte>, pos: nat, count: nat): Result<seq<Message>, DecodeError>
    decreases count
  {
    if count == 0 then Ok([]) else
      var (m, p) :- ReadFrame(bytes, pos);
      var ms :- ReadFrames(bytes, p, count - 1);
      Ok([m] + ms)
  }

  function DecodeBatch(bytes: seq<Byte>): Result<seq<Message>, DecodeError> {
    if |bytes| < 4 then Err(TooShort) else ReadFrames(bytes, 4, BeValue(bytes[..4]))
  }

  method DecodeMessages(bytes: seq<Byte>) returns (r: Result<seq<Message>, DecodeError>)
    ensures r == DecodeBatch(bytes)
  {
    hide Decode;
    if |bytes| < 4 {
      return Err(TooShort);
    }
    var count := BeValue(bytes[..4]);
    var pos: nat := 4;
    var ms: seq<Message> := [];
    ghost var all := ReadFrames(bytes, 4, count);
    PrependNone(all);
    for i := 0 to count
      invariant all == Prepend(ms, ReadFrames(bytes, pos, count - i))
    {
      if |bytes| < pos + 4 {
        return Err(TooShort);
      }
      var len := BeValue(bytes[pos..pos + 4]);
      if |bytes| < pos + 4 + len {
        return Err(TooShort);
      }
      var m := DecodeMessage(bytes[pos + 4..pos + 4 + len]);
      if m.Err? {
        return Err(m.error);
      }
      PrependStep(ms, m.value, ReadFrames(bytes, pos + 4 + len, count - i - 1));
      ms := ms + [m.value];
      pos := pos + 4 + len;
    }
    assert ms + [] == ms;
    return Ok(ms);
  }

  function Prepend(ms: seq<Message>, r: Result<seq<Message>, DecodeError>): Result<seq<Message>, DecodeError> {
    if r.Ok? then Ok(ms + r.value) else r
  }

  lemma PrependNone(r: Result<seq<Message>, DecodeError>)
    ensures Prepend([], r) == r
  {
    if r.Ok? {
      assert [] + r.value == r.value;
    }
  }

  lemma PrependStep(ms: seq<Message>, m: Message, r: Result<seq<Message>, DecodeError>)
    ensures Prepend(ms, Prepend([m], r)) == Prepend(ms + [m], r)
  {
    if r.Ok? {
      assert ms + ([m] + r.value) == (ms + [m]) + r.value;
    }
  }

  // --- Laws ---

  predicate AllShort(ms: seq<Message>) {
    forall i :: 0 <= i < |ms| ==> Short(ms[i])
  }

  function NormalAll(ms: seq<Message>): (r: seq<Message>)
    ensures |r| == |ms|
    ensures forall i :: 0 <= i < |ms| ==> r[i] == Normal(ms[i])
  {
    if ms == [] then [] else [Normal(ms[0])] + NormalAll(ms[1..])
  }

  lemma ShortFits(m: Message)
    requires Short(m)
    ensures |Encode(m)| < TWO_32
  {
  }

  lemma ReadFrameAt(bytes: seq<Byte>, pos: nat, m: Message)
    requires Short(m) && At(bytes, pos, Frame(m))
    ensures ReadFrame(bytes, pos) == Ok((Normal(m), pos + |Frame(m)|))
  {
    hide Encode, Decode;
    ShortFits(m);
    Pow256Values();
    BeValueOfBytes(|Encode(m)|, 4);
    AtConcat(bytes, pos, BeBytes(|Encode(m)|, 4), Encode(m));
    DecodePrefix(Encode(m), m);
  }

  lemma {:induction false} ReadFramesAt(bytes: seq<Byte>, pos: nat, ms: seq<Message>)
    requires AllShort(ms) && At(bytes, pos, Frames(ms))
    ensures ReadFrames(bytes, pos, |ms|) == Ok(NormalAll(ms))
    decreases |ms|
  {
    hide Short, At, Frame, ReadFrame;
    if ms != [] {
      AtConcat(bytes, pos, Frame(ms[0]), Frames(ms[1..]));
      ReadFrameAt(bytes, pos, ms[0]);
      ReadFramesAt(bytes, pos + |Frame(ms[0])|, ms[1..]);
    }
  }

  /** What a batch decodes to: as many messages as announced, each canonical. */
  lemma {:induction false} FramesRead(bytes: seq<Byte>, pos: nat, count: nat)
    requires ReadFrames(bytes, pos, count).Ok?
    ensures |ReadFrames(bytes, pos, count).value| == count
    ensures AllShort(ReadFrames(bytes, pos, count).value)
    decreases count
  {
    hide Short, Decode;
    if count > 0 {
      var (m, p) := ReadFrame(bytes, pos).value;
      FramesRead(bytes, p, count - 1);
      FrameRead(bytes, pos);
    }
  }

  lemma FrameRead(bytes: seq<Byte>, pos: nat)
    requires ReadFrame(bytes, pos).Ok?
    ensures Canonical(ReadFrame(bytes, pos).value.0) && Short(ReadFrame(bytes, pos).value.0)
  {
    hide Decode;
    var len := BeValue(bytes[pos..pos + 4]);
    EncodeDecoded(bytes[pos + 4..pos + 4 + len]);
  }

  /** A batch round-trips, to normal forms, exactly when its count fits four bytes and every message is short. */
  lemma BatchRoundTripIff(ms: seq<Message>)
    ensures DecodeBatch(EncodeBatch(ms)) == Ok(NormalAll(ms)) <==> |ms| < TWO_32 && AllShort(ms)
  {
    hide Frames, ReadFrames, BeBytes, Short;
    var bytes := EncodeBatch(ms);
    assert bytes[..4] == BeBytes(|ms|, 4);
    Pow256Values();
    if |ms| < TWO_32 && AllShort(ms) {
      BeValueOfBytes(|ms|, 4);
      assert At(bytes, 4, Frames(ms));
      ReadFramesAt(bytes, 4, ms);
    }
    if DecodeBatch(bytes) == Ok(NormalAll(ms)) {
      BeBytesOfValue(bytes[..4]);
      FramesRead(bytes, 4, BeValue(bytes[..4]));
      forall i | 0 <= i < |ms| ensures Short(ms[i]) {
        ShortNormal(ms[i]);
      }
    }
  }

  lemma ShortNormal(m: Message)
    ensures Short(Normal(m)) <==> Short(m)
  {
  }

  // --- Re-encoding what was decoded ---

  /** The two-byte length at `pos`, or zero past the end. */
  function LengthAt(bytes: seq<Byte>, pos: nat): nat {
    if pos + 2 <= |bytes| then BeValue(bytes[pos..pos + 2]) else 0
  }

  /** The length of a message at `pos`, from its four length fields: two strings, two numbers, two strings, one byte. */
  function WalkedLength(bytes: seq<Byte>, pos: nat): nat {
    var collection := LengthAt(bytes, pos);
    var documentId := LengthAt(bytes, pos + 2 + collection);
    var deletedBy := LengthAt(bytes, pos + 20 + collection + documentId);
    var reason := LengthAt(bytes, pos + 22 + collection + documentId + deletedBy);
    25 + collection + documentId + deletedBy + reason
  }

  /** Every announced length is what the length fields of its message come to, with no slack. */
  predicate Exact(bytes: seq<Byte>, pos: nat, count: nat)
    decreases count
  {
    count == 0
    || (&& pos + 4 <= |bytes|
        && var len := BeValue(bytes[pos..pos + 4]);
           len == WalkedLength(bytes, pos + 4) && Exact(bytes, pos + 4 + len, count - 1))
  }

  lemma ReadTextLength(body: seq<Byte>, pos: nat)
    requires ReadText(body, pos).Ok?
    ensures var (t, p) := ReadText(body, pos).value;
            |Field(t)| == 2 + LengthAt(body, pos) && p == pos + |Field(t)| && p <= |body|
  {
  }

  /** What decodes is as long as its length fields say. */
  lemma DecodedLength(body: seq<Byte>)
    requires Decode(body).Ok?
    ensures |Encode(Decode(body).value)| == WalkedLength(body, 0) <= |body|
  {
    hide ReadText, LengthAt, Field, IsUtf8;
    var p1 := ReadText(body, 0).value.1;
    var p2 := ReadText(body, p1).value.1;
    var p5 := ReadText(body, p2 + 16).value.1;
    ReadTextLength(body, 0);
    ReadTextLength(body, p1);
    ReadTextLength(body, p2 + 16);
    ReadTextLength(body, p5);
    ReasonKept(ReadText(body, p5).value.0);
  }

  lemma ReasonKept(t: Text)
    ensures ReasonText(ReasonOf(t)) == t
  {
  }

  lemma WalkInFrame(bytes: seq<Byte>, pos: nat, len: nat)
    requires pos + len <= |bytes| && WalkedLength(bytes[pos..pos + len], 0) <= len
    ensures WalkedLength(bytes, pos) == WalkedLength(bytes[pos..pos + len], 0)
  {
    hide LengthAt;
    var body := bytes[pos..pos + len];
    var l1 := LengthAt(body, 0);
    LengthInFrame(bytes, pos, len, 0);
    var l2 := LengthAt(body, 2 + l1);
    LengthInFrame(bytes, pos, len, 2 + l1);
    var l3 := LengthAt(body, 20 + l1 + l2);
    LengthInFrame(bytes, pos, len, 20 + l1 + l2);
    LengthInFrame(bytes, pos, len, 22 + l1 + l2 + l3);
  }

  lemma LengthInFrame(bytes: seq<Byte>, pos: nat, len: nat, k: nat)
    requires pos + len <= |bytes| && k + 2 <= len
    ensures LengthAt(bytes, pos + k) == LengthAt(bytes[pos..pos + len], k)
  {
    var body := bytes[pos..pos + len];
    assert body[k] == bytes[pos + k] && body[k + 1] == bytes[pos + k + 1];
    assert body[k..k + 2] == [body[k], body[k + 1]] == bytes[pos + k..pos + k + 2];
  }

  /** Decoding ignores slack inside a frame, so re-encoding gives back the input's start exactly when there is none. */
  lemma ReencodeBatchIff(bytes: seq<Byte>)
    requires DecodeBatch(bytes).Ok?
    ensures EncodeBatch(DecodeBatch(bytes).value) <= bytes <==> Exact(bytes, 4, BeValue(bytes[..4]))
  {
    hide Frames, ReadFrames, BeBytes, Exact;
    var count := BeValue(bytes[..4]);
    var ms := DecodeBatch(bytes).value;
    FramesRead(bytes, 4, count);
    BeBytesOfValue(bytes[..4]);
    AtStart(bytes, EncodeBatch(ms));
    AtConcat(bytes, 0, BeBytes(count, 4), Frames(ms));
    assert bytes[0..4] == bytes[..4];
    FramesAtIff(bytes, 4, count);
  }

  lemma {:induction false} FramesAtIff(bytes: seq<Byte>, pos: nat, count: nat)
    requires ReadFrames(bytes, pos, count).Ok?
    requires pos <= |bytes|
    ensures At(bytes, pos, Frames(ReadFrames(bytes, pos, count).value)) <==> Exact(bytes, pos, count)
    decreases count
  {
    hide At, Frame, ReadFrame, WalkedLength, BeValue;
    if count == 0 {
      AtEmpty(bytes, pos);
    } else {
      var (m, p) := ReadFrame(bytes, pos).value;
      var ms := ReadFrames(bytes, p, count - 1).value;
      assert ([m] + ms)[1..] == ms;
      AtConcat(bytes, pos, Frame(m), Frames(ms));
      FrameAtIff(bytes, pos);
      FramesAtIff(bytes, p, count - 1);
    }
  }

  lemma AtEmpty(bytes: seq<Byte>, pos: nat)
    requires pos <= |bytes|
    ensures At(bytes, pos, [])
  {
  }

  lemma FrameAtIff(bytes: seq<Byte>, pos: nat)
    requires ReadFrame(bytes, pos).Ok?
    ensures var (m, p) := ReadFrame(bytes, pos).value;
            && pos + 4 <= p <= |bytes| && p == pos + 4 + BeValue(bytes[pos..pos + 4])
            && (At(bytes, pos, Frame(m)) <==> p == pos + |Frame(m)|)
            && (p == pos + |Frame(m)| <==> BeValue(bytes[pos..pos + 4]) == WalkedLength(bytes, pos + 4))
  {
    hide Encode, Decode, Short, WalkedLength;
    var (m, p) := ReadFrame(bytes, pos).value;
    var len := BeValue(bytes[pos..pos + 4]);
    var body := bytes[pos + 4..pos + 4 + len];
    EncodeDecoded(body);
    DecodedLength(body);
    WalkInFrame(bytes, pos + 4, len);
    FrameRead(bytes, pos);
    ShortFits(m);
    Pow256Values();
    BeBytesOfValue(bytes[pos..pos + 4]);
    BeValueOfBytes(|Encode(m)|, 4);
    AtConcat(bytes, pos, BeBytes(|Encode(m)|, 4), Encode(m));
    if len == |Encode(m)| {
      assert body == Encode(m);
    }
  }

  /** A frame padded by one byte decodes to its message all the same, and does not re-encode to its own start. */
  lemma PaddedFrame(m: Message, pad: Byte)
    requires Canonical(m)
    ensures var bytes := BeBytes(1, 4) + BeBytes(|Encode(m)| + 1, 4) + Encode(m) + [pad];
            DecodeBatch(bytes) == Ok([m]) && !(EncodeBatch([m]) <= bytes)
  {
    hide Encode, Decode, Canonical, BeBytes;
    var e := Encode(m);
    var bytes := BeBytes(1, 4) + BeBytes(|e| + 1, 4) + e + [pad];
    CanonicalIsShort(m);
    SmallMessage(m);
    Pow256Values();
    BeValueOfBytes(1, 4);
    BeValueOfBytes(|e| + 1, 4);
    assert bytes[..4] == BeBytes(1, 4) && bytes[4..8] == BeBytes(|e| + 1, 4) && bytes[8..8 + |e| + 1] == e + [pad];
    DecodePrefix(e + [pad], m);
    assert ReadFrame(bytes, 4) == Ok((m, 8 + |e| + 1));
    OneFrame(bytes, m, 8 + |e| + 1);
    ReencodeBatchIff(bytes);
  }

  lemma OneFrame(bytes: seq<Byte>, m: Message, p: nat)
    requires ReadFrame(bytes, 4) == Ok((m, p))
    ensures ReadFrames(bytes, 4, 1) == Ok([m])
    ensures Exact(bytes, 4, 1) <==> p == 4 + |Frame(m)|
  {
    hide ReadFrame, Frame, At, WalkedLength, BeValue;
    FrameAtIff(bytes, 4);
    assert Exact(bytes, p, 0);
    assert ReadFrames(bytes, p, 0) == Ok([]);
    assert [m] + [] == [m];
  }

  lemma SmallMessage(m: Message)
    requires Short(m)
    ensures |Encode(m)| + 1 < TWO_32
  {
  }
}
