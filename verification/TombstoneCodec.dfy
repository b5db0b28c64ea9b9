/**
 The wire format of tombstone messages and of batches of them
 (src/qos/deletion.rs).
 */
module TombstoneCodec {
  import opened Wrappers
  import opened Bytes

  datatype PropagationDirection = Bidirectional | UpOnly | DownOnly | SystemWide

  /** `deletedAt` is in nanoseconds relative to the Unix epoch, and may precede it. */
  datatype Tombstone = Tombstone(
    documentId: Text, collection: Text, deletedAt: int, deletedBy: Text, lamport: U64, reason: Option<Text>)

  datatype Message = Message(tombstone: Tombstone, direction: PropagationDirection)

  datatype DecodeError = TooShort | InvalidUtf8 | InvalidDirection

  // --- Encoding ---

  const NANOS_PER_MILLI := 1_000_000

  /** Whole milliseconds since the epoch in 64 bits; times before the epoch count as the epoch. */
  function Millis(deletedAt: int): U64 {
    if deletedAt < 0 then 0 else (deletedAt / NANOS_PER_MILLI) % 0x1_0000_0000_0000_0000
  }

  function DirectionByte(d: PropagationDirection): Byte {
    match d
    case Bidirectional => 0
    case UpOnly => 1
    case DownOnly => 2
    case SystemWide => 3
  }

  /** Length in two bytes (truncated, as the cast does), then the bytes. */
  function Field(t: Text): seq<Byte> {
    BeBytes(|t|, 2) + t
  }

  function ReasonText(reason: Option<Text>): Text {
    if reason.Some? then reason.value else []
  }

  function Encode(m: Message): seq<Byte> {
    Field(m.tombstone.collection)
    + Field(m.tombstone.documentId)
    + BeBytes(Millis(m.tombstone.deletedAt), 8)
    + BeBytes(m.tombstone.lamport, 8)
    + Field(m.tombstone.deletedBy)
    + Field(ReasonText(m.tombstone.reason))
    + [DirectionByte(m.direction)]
  }

  method EncodeMessage(m: Message) returns (buf: seq<Byte>)
    ensures buf == Encode(m)
  {
    hide Field, BeBytes;
    buf := AppendField([], m.tombstone.collection);
    assert buf == Field(m.tombstone.collection);
    buf := AppendField(buf, m.tombstone.documentId);
    buf := buf + BeBytes(Millis(m.tombstone.deletedAt), 8);
    buf := buf + BeBytes(m.tombstone.lamport, 8);
    buf := AppendField(buf, m.tombstone.deletedBy);
    buf := AppendReason(buf, m.tombstone.reason);
    buf := buf + [DirectionByte(m.direction)];
  }

  method AppendField(buf: seq<Byte>, t: Text) returns (out: seq<Byte>)
    ensures out == buf + Field(t)
  {
    out := buf + BeBytes(|t|, 2);
    out := out + t;
  }

  method AppendReason(buf: seq<Byte>, reason: Option<Text>) returns (out: seq<Byte>)
    ensures out == buf + Field(ReasonText(reason))
  {
    match reason {
      case Some(text) =>
        out := AppendField(buf, text);
      case None =>
        assert Field([]) == BeBytes(0, 2);
        out := buf + BeBytes(0, 2);
    }
  }

  // --- Decoding ---

  /** A length-prefixed string at `pos`, and the position after it. */
  function ReadText(bytes: seq<Byte>, pos: nat): Result<(Text, nat), DecodeError> {
    if |bytes| < pos + 2 then Err(TooShort) else
      var len := BeValue(bytes[pos..pos + 2]);
      if |bytes| < pos + 2 + len then Err(TooShort)
      else if !IsUtf8(bytes[pos + 2..pos + 2 + len]) then Err(InvalidUtf8)
      else Ok((bytes[pos + 2..pos + 2 + len], pos + 2 + len))
  }

  function ReadU64(bytes: seq<Byte>, pos: nat): Result<(U64, nat), DecodeError> {
    if |bytes| < pos + 8 then Err(TooShort) else
      BeBytesOfValue(bytes[pos..pos + 8]);
      Pow256Values();
      Ok((BeValue(bytes[pos..pos + 8]), pos + 8))
  }

  function ReadDirection(bytes: seq<Byte>, pos: nat): Result<PropagationDirection, DecodeError> {
    if |bytes| < pos + 1 then Err(TooShort)
    else if bytes[pos] == 0 then Ok(Bidirectional)
    else if bytes[pos] == 1 then Ok(UpOnly)
    else if bytes[pos] == 2 then Ok(DownOnly)
    else if bytes[pos] == 3 then Ok(SystemWide)
    else Err(InvalidDirection)
  }

  /** A reason of length zero stands for no reason. */
  function ReasonOf(t: Text): Option<Text> {
    if t == [] then None else Some(t)
  }

  function Decode(bytes: seq<Byte>): Result<Message, DecodeError> {
    var (collection, p1) :- ReadText(bytes, 0);
    var (documentId, p2) :- ReadText(bytes, p1);
    var (millis, p3) :- ReadU64(bytes, p2);
    var (lamport, p4) :- ReadU64(bytes, p3);
    var (deletedBy, p5) :- ReadText(bytes, p4);
    var (reason, p6) :- ReadText(bytes, p5);
    var direction :- ReadDirection(bytes, p6);
    Ok(Message(
        Tombstone(documentId, collection, millis * NANOS_PER_MILLI, deletedBy, lamport, ReasonOf(reason)),
        direction))
  }

  /** The cursor as the source moves it, with its early returns. */
  method DecodeMessage(bytes: seq<Byte>) returns (r: Result<Message, DecodeError>)
    ensures r == Decode(bytes)
  {
    var pos := 0;
    var collection: Text, documentId: Text, deletedBy: Text, reason: Text := [], [], [], [];
    var millis: U64, lamport: U64 := 0, 0;

    var text := ReadText(bytes, pos);
    if text.Err? { return Err(text.error); }
    collection, pos := text.value.0, text.value.1;

    text := ReadText(bytes, pos);
    if text.Err? { return Err(text.error); }
    documentId, pos := text.value.0, text.value.1;

    if |bytes| < pos + 8 { return Err(TooShort); }
    millis := ReadU64(bytes, pos).value.0;
    pos := pos + 8;

    if |bytes| < pos + 8 { return Err(TooShort); }
    lamport := ReadU64(bytes, pos).value.0;
    pos := pos + 8;

    text := ReadText(bytes, pos);
    if text.Err? { return Err(text.error); }
    deletedBy, pos := text.value.0, text.value.1;

    text := ReadText(bytes, pos);
    if text.Err? { return Err(text.error); }
    reason, pos := text.value.0, text.value.1;

    var direction := ReadDirection(bytes, pos);
    if direction.Err? { return Err(direction.error); }
    var tombstone := Tombstone(documentId, collection, millis * NANOS_PER_MILLI, deletedBy, lamport, ReasonOf(reason));
    return Ok(Message(tombstone, direction.value));
  }

  // --- Laws of one message ---

  predicate Short(m: Message) {
    && |m.tombstone.collection| < 0x1_0000
    && |m.tombstone.documentId| < 0x1_0000
    && |m.tombstone.deletedBy| < 0x1_0000
    && |ReasonText(m.tombstone.reason)| < 0x1_0000
  }

  /** What survives the wire: times in whole 64-bit milliseconds, and an empty reason is none. */
  function Normal(m: Message): Message {
    m.(tombstone := m.tombstone.(
         deletedAt := Millis(m.tombstone.deletedAt) * NANOS_PER_MILLI,
         reason := ReasonOf(ReasonText(m.tombstone.reason))))
  }

  predicate Canonical(m: Message) {
    Short(m) && Normal(m) == m
  }

  lemma ReadTextAt(bytes: seq<Byte>, pos: nat, t: Text)
    requires |t| < 0x1_0000 && At(bytes, pos, Field(t))
    ensures ReadText(bytes, pos) == Ok((t, pos + |Field(t)|))
  {
    Pow256Values();
    BeValueOfBytes(|t|, 2);
    AtConcat(bytes, pos, BeBytes(|t|, 2), t);
  }

  lemma ReadTextInverse(bytes: seq<Byte>, pos: nat)
    ensures ReadText(bytes, pos).Ok? ==>
              var (t, p) := ReadText(bytes, pos).value;
              |t| < 0x1_0000 && At(bytes, pos, Field(t)) && p == pos + |Field(t)|
  {
    if ReadText(bytes, pos).Ok? {
      var (t, p) := ReadText(bytes, pos).value;
      Pow256Values();
      BeBytesOfValue(bytes[pos..pos + 2]);
      AtConcat(bytes, pos, BeBytes(|t|, 2), t);
    }
  }

  lemma ReadU64At(bytes: seq<Byte>, pos: nat, n: U64)
    requires At(bytes, pos, BeBytes(n, 8))
    ensures ReadU64(bytes, pos) == Ok((n, pos + 8))
  {
    Pow256Values();
    BeValueOfBytes(n, 8);
  }

  lemma ReadU64Inverse(bytes: seq<Byte>, pos: nat)
    ensures ReadU64(bytes, pos).Ok? ==>
              var (n, p) := ReadU64(bytes, pos).value; At(bytes, pos, BeBytes(n, 8)) && p == pos + 8
  {
    if ReadU64(bytes, pos).Ok? {
      BeBytesOfValue(bytes[pos..pos + 8]);
    }
  }

  /** The positions of the seven parts of an encoded message. */
  ghost predicate Laid(bytes: seq<Byte>, m: Message) {
    var t := m.tombstone;
    var p1 := |Field(t.collection)|;
    var p2 := p1 + |Field(t.documentId)|;
    var p5 := p2 + 16 + |Field(t.deletedBy)|;
    && At(bytes, 0, Field(t.collection))
    && At(bytes, p1, Field(t.documentId))
    && At(bytes, p2, BeBytes(Millis(t.deletedAt), 8))
    && At(bytes, p2 + 8, BeBytes(t.lamport, 8))
    && At(bytes, p2 + 16, Field(t.deletedBy))
    && At(bytes, p5, Field(ReasonText(t.reason)))
    && At(bytes, p5 + |Field(ReasonText(t.reason))|, [DirectionByte(m.direction)])
  }

  lemma LaidIffPrefix(bytes: seq<Byte>, m: Message)
    ensures Laid(bytes, m) <==> Encode(m) <= bytes
  {
    hide At, Field;
    var t := m.tombstone;
    var e1 := Field(t.collection);
    var e2 := e1 + Field(t.documentId);
    var e3 := e2 + BeBytes(Millis(t.deletedAt), 8);
    var e4 := e3 + BeBytes(t.lamport, 8);
    var e5 := e4 + Field(t.deletedBy);
    var e6 := e5 + Field(ReasonText(t.reason));
    AtStart(bytes, Encode(m));
    AtConcat(bytes, 0, e6, [DirectionByte(m.direction)]);
    AtConcat(bytes, 0, e5, Field(ReasonText(t.reason)));
    AtConcat(bytes, 0, e4, Field(t.deletedBy));
    AtConcat(bytes, 0, e3, BeBytes(t.lamport, 8));
    AtConcat(bytes, 0, e2, BeBytes(Millis(t.deletedAt), 8));
    AtConcat(bytes, 0, e1, Field(t.documentId));
  }

  /** Decoding reads back whatever an encoding starts, whatever follows it. */
  lemma DecodePrefix(bytes: seq<Byte>, m: Message)
    requires Short(m) && Encode(m) <= bytes
    ensures Decode(bytes) == Ok(Normal(m))
  {
    hide At, Field, ReadText, ReadU64, Encode;
    var t := m.tombstone;
    LaidIffPrefix(bytes, m);
    ReadTextAt(bytes, 0, t.collection);
    var p1 := |Field(t.collection)|;
    ReadTextAt(bytes, p1, t.documentId);
    var p2 := p1 + |Field(t.documentId)|;
    ReadU64At(bytes, p2, Millis(t.deletedAt));
    ReadU64At(bytes, p2 + 8, t.lamport);
    ReadTextAt(bytes, p2 + 16, t.deletedBy);
    var p5 := p2 + 16 + |Field(t.deletedBy)|;
    ReadTextAt(bytes, p5, ReasonText(t.reason));
    ReadDirectionAt(bytes, p5 + |Field(ReasonText(t.reason))|, m.direction);
  }

  lemma ReadDirectionAt(bytes: seq<Byte>, pos: nat, d: PropagationDirection)
    ensures ReadDirection(bytes, pos) == Ok(d) <==> At(bytes, pos, [DirectionByte(d)])
  {
    if pos + 1 <= |bytes| {
      assert bytes[pos..pos + 1] == [bytes[pos]];
    }
  }

  /** What decodes starts with the canonical encoding of the result. */
  lemma EncodeDecoded(bytes: seq<Byte>)
    ensures Decode(bytes).Ok? ==> Canonical(Decode(bytes).value) && Encode(Decode(bytes).value) <= bytes
  {
    hide Encode, Laid, Canonical;
    if Decode(bytes).Ok? {
      DecodedIsLaid(bytes);
      LaidIffPrefix(bytes, Decode(bytes).value);
    }
  }

  lemma DecodedIsLaid(bytes: seq<Byte>)
    requires Decode(bytes).Ok?
    ensures Canonical(Decode(bytes).value) && Laid(bytes, Decode(bytes).value)
  {
    hide At, Field, ReadText, ReadU64, ReadDirection, Millis;
    var m := Decode(bytes).value;
    var (collection, p1) := ReadText(bytes, 0).value;
    var (documentId, p2) := ReadText(bytes, p1).value;
    var (millis, p3) := ReadU64(bytes, p2).value;
    var (lamport, p4) := ReadU64(bytes, p3).value;
    var (deletedBy, p5) := ReadText(bytes, p4).value;
    var (reason, p6) := ReadText(bytes, p5).value;
    ReadTextInverse(bytes, 0);
    ReadTextInverse(bytes, p1);
    ReadU64Inverse(bytes, p2);
    ReadU64Inverse(bytes, p3);
    ReadTextInverse(bytes, p4);
    ReadTextInverse(bytes, p5);
    ReadDirectionAt(bytes, p6, m.direction);
    MillisOfWhole(millis);
    assert ReasonText(m.tombstone.reason) == reason;
  }

  lemma MillisOfWhole(millis: U64)
    ensures Millis(millis * NANOS_PER_MILLI) == millis
  {
  }

  /** The round trip yields the normal form of a message exactly when its four strings fit a two-byte length. */
  lemma RoundTripIff(m: Message)
    ensures Decode(Encode(m)) == Ok(Normal(m)) <==> Short(m)
  {
    hide Encode, Decode;
    if Short(m) {
      DecodePrefix(Encode(m), m);
    }
    EncodeDecoded(Encode(m));
  }

  /** Tombstone "d" of collection "c", deleted by "b" at 1.5 seconds, Lamport time 258, reason "r", byte by byte. */
  lemma KnownMessage(direction: PropagationDirection)
    ensures IsUtf8([98]) && IsUtf8([99]) && IsUtf8([100]) && IsUtf8([114])
    ensures Encode(Message(Tombstone([100], [99], 1_500_000_000, [98], 258, Some([114])), direction))
         == [0, 1, 99] + [0, 1, 100] + [0, 0, 0, 0, 0, 0, 5, 220] + [0, 0, 0, 0, 0, 0, 1, 2] + [0, 1, 98] + [0, 1, 114]
            + [match direction case Bidirectional => 0 case UpOnly => 1 case DownOnly => 2 case SystemWide => 3]
  {
    hide IsUtf8, BeBytes, Field;
    KnownBytes();
    OneLetter(98);
    OneLetter(99);
    OneLetter(100);
    OneLetter(114);
  }

  lemma OneLetter(b: Byte)
    requires b <= 0x7F
    ensures IsUtf8([b]) && Field([b]) == [0, 1, b]
  {
    AsciiIsText([b]);
    KnownBytes();
  }

  /** A collection name of 65536 letters does not come back. */
  lemma LongNameIsLost()
    ensures var m := Message(Tombstone([], Letters(0x1_0000), 0, [], 0, None), Bidirectional);
            Decode(Encode(m)) != Ok(Normal(m))
  {
    hide Decode, Encode, Normal;
    RoundTripIff(Message(Tombstone([], Letters(0x1_0000), 0, [], 0, None), Bidirectional));
  }

  /** An encoding with any other direction byte is refused for its direction. */
  lemma WrongDirection(m: Message, b: Byte)
    requires Short(m) && b >= 4
    ensures |Encode(m)| > 0 && Decode(Encode(m)[..|Encode(m)| - 1] + [b]) == Err(InvalidDirection)
  {
    hide At, Field, ReadText, ReadU64, Encode;
    var t, e := m.tombstone, Encode(m);
    LaidIffPrefix(e, m);
    var p1 := |Field(t.collection)|;
    var p2 := p1 + |Field(t.documentId)|;
    var p5 := p2 + 16 + |Field(t.deletedBy)|;
    var p6 := p5 + |Field(ReasonText(t.reason))|;
    EncodedLength(m);
    var bytes := e[..p6] + [b];
    AtStart(bytes, e[..p6]);
    Kept(e, bytes, p6, 0, Field(t.collection));
    Kept(e, bytes, p6, p1, Field(t.documentId));
    Kept(e, bytes, p6, p2, BeBytes(Millis(t.deletedAt), 8));
    Kept(e, bytes, p6, p2 + 8, BeBytes(t.lamport, 8));
    Kept(e, bytes, p6, p2 + 16, Field(t.deletedBy));
    Kept(e, bytes, p6, p5, Field(ReasonText(t.reason)));
    ReadTextAt(bytes, 0, t.collection);
    ReadTextAt(bytes, p1, t.documentId);
    ReadU64At(bytes, p2, Millis(t.deletedAt));
    ReadU64At(bytes, p2 + 8, t.lamport);
    ReadTextAt(bytes, p2 + 16, t.deletedBy);
    ReadTextAt(bytes, p5, ReasonText(t.reason));
  }

  lemma EncodedLength(m: Message)
    ensures var t := m.tombstone;
            |Encode(m)| == |Field(t.collection)| + |Field(t.documentId)| + 16 + |Field(t.deletedBy)|
                           + |Field(ReasonText(t.reason))| + 1
  {
    hide Field, BeBytes;
  }

  /** What stands before a cut stands there after it. */
  lemma Kept(bytes: seq<Byte>, other: seq<Byte>, cut: nat, pos: nat, s: seq<Byte>)
    requires At(bytes, pos, s) && pos + |s| <= cut <= |bytes| && cut <= |other| && other[..cut] == bytes[..cut]
    ensures At(other, pos, s)
  {
    AtTake(bytes, cut, pos, s);
    AtTake(other, cut, pos, s);
  }

  /** A first string that is not UTF-8 is refused as such, whatever follows. */
  lemma WrongText(s: seq<Byte>, rest: seq<Byte>)
    requires |s| < 0x1_0000 && !IsUtf8(s)
    ensures Decode(BeBytes(|s|, 2) + s + rest) == Err(InvalidUtf8)
  {
    hide IsUtf8, BeBytes;
    var bytes := BeBytes(|s|, 2) + s + rest;
    Pow256Values();
    BeValueOfBytes(|s|, 2);
    assert bytes[0..2] == BeBytes(|s|, 2) && bytes[2..2 + |s|] == s;
  }

  /** The inputs that decode are exactly those that start with the encoding of a canonical message. */
  lemma DecodesIff(bytes: seq<Byte>)
    ensures Decode(bytes).Ok? <==> exists m: Message :: Canonical(m) && Encode(m) <= bytes
  {
    hide Encode, Decode, Canonical;
    EncodeDecoded(bytes);
    forall m: Message | Canonical(m) && Encode(m) <= bytes ensures Decode(bytes).Ok? {
      CanonicalIsShort(m);
      DecodePrefix(bytes, m);
    }
  }

  lemma CanonicalIsShort(m: Message)
    requires Canonical(m)
    ensures Short(m) && Normal(m) == m
  {
  }

  // --- Truncation ---

  lemma ReadTextTruncated(full: seq<Byte>, k: nat, pos: nat, t: Text)
    requires |t| < 0x1_0000 && At(full, pos, Field(t)) && pos <= k <= |full|
    ensures ReadText(full[..k], pos)
         == if pos + |Field(t)| <= k then Ok((t, pos + |Field(t)|)) else Err(TooShort)
  {
    if pos + |Field(t)| <= k {
      AtTake(full, k, pos, Field(t));
      ReadTextAt(full[..k], pos, t);
    } else if pos + 2 <= k {
      Pow256Values();
      BeValueOfBytes(|t|, 2);
      AtConcat(full, pos, BeBytes(|t|, 2), t);
      assert full[..k][pos..pos + 2] == full[pos..pos + 2];
    }
  }

  lemma ReadU64Truncated(full: seq<Byte>, k: nat, pos: nat, n: U64)
    requires At(full, pos, BeBytes(n, 8)) && pos <= k <= |full|
    ensures ReadU64(full[..k], pos) == if pos + 8 <= k then Ok((n, pos + 8)) else Err(TooShort)
  {
    if pos + 8 <= k {
      AtTake(full, k, pos, BeBytes(n, 8));
      ReadU64At(full[..k], pos, n);
    }
  }

  /** Every strict prefix of an encoding is rejected as too short, never as malformed. */
  lemma TruncationIsTooShort(m: Message, k: nat)
    requires Short(m) && k < |Encode(m)|
    ensures Decode(Encode(m)[..k]) == Err(TooShort)
  {
    hide At, Field, ReadText, ReadU64;
    var full := Encode(m);
    var t := m.tombstone;
    LaidIffPrefix(full, m);
    var p1 := |Field(t.collection)|;
    var p2 := p1 + |Field(t.documentId)|;
    var p5 := p2 + 16 + |Field(t.deletedBy)|;
    ReadTextTruncated(full, k, 0, t.collection);
    if p1 <= k { ReadTextTruncated(full, k, p1, t.documentId); }
    if p2 <= k { ReadU64Truncated(full, k, p2, Millis(t.deletedAt)); }
    if p2 + 8 <= k { ReadU64Truncated(full, k, p2 + 8, t.lamport); }
    if p2 + 16 <= k { ReadTextTruncated(full, k, p2 + 16, t.deletedBy); }
    if p5 <= k { ReadTextTruncated(full, k, p5, ReasonText(t.reason)); }
  }
}
