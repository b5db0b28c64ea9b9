/**
 Mesh certificates (src/security/certificate.rs): their wire format, the bytes
 that are signed, and the validity window.
 */
module CertificateCodec {
  import opened Wrappers
  import opened Bytes

  type Key = k: seq<Byte> | |k| == 32 witness seq(32, _ => 0)

  type Signature = s: seq<Byte> | |s| == 64 witness seq(64, _ => 0)

  datatype MeshTier = Enterprise | Regional | Tactical | Edge {
    function ToByte(): Byte {
      match this
      case Enterprise => 0
      case Regional => 1
      case Tactical => 2
      case Edge => 3
    }

    static function FromByte(b: Byte): Option<MeshTier> {
      if b == 0 then Some(Enterprise)
      else if b == 1 then Some(Regional)
      else if b == 2 then Some(Tactical)
      else if b == 3 then Some(Edge)
      else None
    }
  }

  /** Ed25519 verification (section 5.1.7 of RFC 8032), kept abstract: issuer key, signed bytes, signature. */
  type Verifier = (Key, seq<Byte>, Signature) -> bool

  datatype Certificate = Certificate(
    subject: Key, meshId: Text, nodeId: Text, tier: MeshTier, permissions: Byte,
    issuedAt: U64, expiresAt: U64, issuer: Key, signature: Signature)
  {
    predicate IsRoot() {
      subject == issuer
    }

    /** Inside the validity window; an expiry of zero means none. */
    predicate IsValid(now: U64) {
      now >= issuedAt && (expiresAt == 0 || now < expiresAt)
    }

    /** The ENROLL bit, 0b0000_0100. */
    predicate MayEnroll() {
      (permissions / 4) % 2 == 1
    }

    predicate Verifies(verifier: Verifier) {
      verifier(issuer, Signable(this), signature)
    }
  }

  /** The third bit is set: it outweighs the two below it. */
  predicate EnrollBit(permissions: Byte) {
    permissions % 8 >= 4
  }

  /** Of the eight bits, the third alone decides whether a certificate may enroll others. */
  lemma MayEnrollIff(c: Certificate, hi: nat, e: nat, lo: nat)
    requires hi < 32 && e < 2 && lo < 4 && c.permissions == 8 * hi + 4 * e + lo
    ensures c.MayEnroll() <==> e == 1
    ensures EnrollBit(c.permissions) <==> e == 1
  {
    assert c.permissions / 4 == 2 * hi + e;
  }

  lemma MayEnrollIsBit(c: Certificate)
    ensures c.MayEnroll() <==> EnrollBit(c.permissions)
  {
    var hi, e, lo := c.permissions / 8, (c.permissions / 4) % 2, c.permissions % 4;
    MayEnrollIff(c, hi, e, lo);
  }

  // --- Encoding ---

  /** Everything but the signature. The two lengths are truncated to a byte, as the casts do. */
  function Signable(c: Certificate): seq<Byte> {
    c.subject
    + [|c.meshId| % 256] + c.meshId
    + [|c.nodeId| % 256] + c.nodeId
    + [c.tier.ToByte()] + [c.permissions]
    + LeBytes(c.issuedAt, 8) + LeBytes(c.expiresAt, 8)
    + c.issuer
  }

  function Encode(c: Certificate): seq<Byte> {
    Signable(c) + c.signature
  }

  /** The buffer as the source grows it. */
  method EncodeCertificate(c: Certificate) returns (buf: seq<Byte>)
    ensures buf == Encode(c)
  {
    buf := c.subject;
    buf := buf + [|c.meshId| % 256];
    buf := buf + c.meshId;
    buf := buf + [|c.nodeId| % 256];
    buf := buf + c.nodeId;
    buf := buf + [c.tier.ToByte()];
    buf := buf + [c.permissions];
    buf := buf + LeBytes(c.issuedAt, 8);
    buf := buf + LeBytes(c.expiresAt, 8);
    buf := buf + c.issuer;
    buf := buf + c.signature;
  }

  // --- Decoding ---

  datatype CertificateError =
    | CertificateTooShort
    | TruncatedAtMeshId
    | InvalidMeshId
    | TruncatedAtNodeId
    | InvalidNodeId
    | InvalidTier

  const MIN_SIZE: nat := 148

  /** The size of everything after the node id. */
  const TRAILER: nat := 1 + 1 + 8 + 8 + 32 + 64

  function ReadLe64(data: seq<Byte>, pos: nat): U64
    requires pos + 8 <= |data|
  {
    LeBytesOfValue(data[pos..pos + 8]);
    Pow256Values();
    LeValue(data[pos..pos + 8])
  }

  function Decode(data: seq<Byte>): Result<Certificate, CertificateError> {
    if |data| < MIN_SIZE then Err(CertificateTooShort) else
      var meshLen: nat := data[32];
      var p := 33 + meshLen;
      if p >= |data| then Err(TruncatedAtMeshId)
      else if !IsUtf8(data[33..p]) then Err(InvalidMeshId)
      else
        var nodeLen: nat := data[p];
        var q := p + 1 + nodeLen;
        if q + TRAILER > |data| then Err(TruncatedAtNodeId)
        else if !IsUtf8(data[p + 1..q]) then Err(InvalidNodeId)
        else match MeshTier.FromByte(data[q])
          case None => Err(InvalidTier)
          case Some(tier) =>
            Ok(Certificate(data[0..32], data[33..p], data[p + 1..q], tier, data[q + 1],
                           ReadLe64(data, q + 2), ReadLe64(data, q + 10),
                           data[q + 18..q + 50], data[q + 50..q + 114]))
  }

  /** The cursor as the source moves it, with its early returns. */
  method DecodeCertificate(data: seq<Byte>) returns (r: Result<Certificate, CertificateError>)
    ensures r == Decode(data)
  {
    hide IsUtf8, LeValue;
    if |data| < MIN_SIZE {
      return Err(CertificateTooShort);
    }
    var pos: nat := 0;
    var subject: Key := data[pos..pos + 32];
    pos := pos + 32;
    var meshLen: nat := data[pos];
    pos := pos + 1;
    if pos + meshLen >= |data| {
      return Err(TruncatedAtMeshId);
    }
    if !IsUtf8(data[pos..pos + meshLen]) {
      return Err(InvalidMeshId);
    }
    var meshId: Text := data[pos..pos + meshLen];
    pos := pos + meshLen;
    var nodeLen: nat := data[pos];
    pos := pos + 1;
    if pos + nodeLen + 1 + 1 + 8 + 8 + 32 + 64 > |data| {
      return Err(TruncatedAtNodeId);
    }
    if !IsUtf8(data[pos..pos + nodeLen]) {
      return Err(InvalidNodeId);
    }
    var nodeId: Text := data[pos..pos + nodeLen];
    pos := pos + nodeLen;
    var tier := MeshTier.FromByte(data[pos]);
    if tier.None? {
      return Err(InvalidTier);
    }
    pos := pos + 1;
    var permissions := data[pos];
    pos := pos + 1;
    var issuedAt := ReadLe64(data, pos);
    pos := pos + 8;
    var expiresAt := ReadLe64(data, pos);
    pos := pos + 8;
    var issuer: Key := data[pos..pos + 32];
    pos := pos + 32;
    var signature: Signature := data[pos..pos + 64];
    return Ok(Certificate(subject, meshId, nodeId, tier.value, permissions, issuedAt, expiresAt, issuer, signature));
  }

  // --- Laws ---

  /** The identifiers fit their one-byte lengths. */
  predicate Short(c: Certificate) {
    |c.meshId| < 256 && |c.nodeId| < 256
  }

  /** The positions of the parts of an encoded certificate. */
  ghost predicate Laid(data: seq<Byte>, c: Certificate) {
    var p := 33 + |c.meshId|;
    var q := p + 1 + |c.nodeId|;
    && At(data, 0, c.subject)
    && At(data, 32, [|c.meshId| % 256])
    && At(data, 33, c.meshId)
    && At(data, p, [|c.nodeId| % 256])
    && At(data, p + 1, c.nodeId)
    && At(data, q, [c.tier.ToByte()])
    && At(data, q + 1, [c.permissions])
    && At(data, q + 2, LeBytes(c.issuedAt, 8))
    && At(data, q + 10, LeBytes(c.expiresAt, 8))
    && At(data, q + 18, c.issuer)
    && At(data, q + 50, c.signature)
  }

  lemma LaidIffPrefix(data: seq<Byte>, c: Certificate)
    ensures Laid(data, c) <==> Encode(c) <= data
    ensures |Encode(c)| == MIN_SIZE + |c.meshId| + |c.nodeId|
  {
    hide At, LeBytes;
    var e1: seq<Byte> := c.subject;
    var e2 := e1 + [|c.meshId| % 256];
    var e3 := e2 + c.meshId;
    var e4 := e3 + [|c.nodeId| % 256];
    var e5 := e4 + c.nodeId;
    var e6 := e5 + [c.tier.ToByte()];
    var e7 := e6 + [c.permissions];
    var e8 := e7 + LeBytes(c.issuedAt, 8);
    var e9 := e8 + LeBytes(c.expiresAt, 8);
    var e10 := e9 + c.issuer;
    AtStart(data, Encode(c));
    AtConcat(data, 0, e10, c.signature);
    AtConcat(data, 0, e9, c.issuer);
    AtConcat(data, 0, e8, LeBytes(c.expiresAt, 8));
    AtConcat(data, 0, e7, LeBytes(c.issuedAt, 8));
    AtConcat(data, 0, e6, [c.permissions]);
    AtConcat(data, 0, e5, [c.tier.ToByte()]);
    AtConcat(data, 0, e4, c.nodeId);
    AtConcat(data, 0, e3, [|c.nodeId| % 256]);
    AtConcat(data, 0, e2, c.meshId);
    AtConcat(data, 0, e1, [|c.meshId| % 256]);
  }

  lemma ByteAt(data: seq<Byte>, pos: nat, b: Byte)
    ensures At(data, pos, [b]) <==> pos < |data| && data[pos] == b
  {
    if pos < |data| {
      assert data[pos..pos + 1] == [data[pos]];
    }
  }

  lemma Le64At(data: seq<Byte>, pos: nat, n: U64)
    ensures At(data, pos, LeBytes(n, 8)) <==> pos + 8 <= |data| && ReadLe64(data, pos) == n
  {
    Pow256Values();
    LeValueOfBytes(n, 8);
    if pos + 8 <= |data| {
      LeBytesOfValue(data[pos..pos + 8]);
    }
  }

  lemma TierBytes(tier: MeshTier, b: Byte)
    ensures MeshTier.FromByte(b) == Some(tier) <==> b == tier.ToByte()
  {
  }

  lemma LaidDecodes(data: seq<Byte>, c: Certificate)
    requires Short(c) && Laid(data, c)
    ensures Decode(data) == Ok(c)
  {
    hide LeBytes, ReadLe64, IsUtf8;
    var p := 33 + |c.meshId|;
    var q := p + 1 + |c.nodeId|;
    ByteAt(data, 32, |c.meshId| % 256);
    ByteAt(data, p, |c.nodeId| % 256);
    ByteAt(data, q, c.tier.ToByte());
    ByteAt(data, q + 1, c.permissions);
    Le64At(data, q + 2, c.issuedAt);
    Le64At(data, q + 10, c.expiresAt);
    TierBytes(c.tier, data[q]);
  }

  lemma DecodedIsLaid(data: seq<Byte>)
    requires Decode(data).Ok?
    ensures Short(Decode(data).value) && Laid(data, Decode(data).value)
  {
    hide LeBytes, ReadLe64, IsUtf8;
    var c := Decode(data).value;
    var p := 33 + |c.meshId|;
    var q := p + 1 + |c.nodeId|;
    ByteAt(data, 32, |c.meshId| % 256);
    ByteAt(data, p, |c.nodeId| % 256);
    ByteAt(data, q, c.tier.ToByte());
    ByteAt(data, q + 1, c.permissions);
    Le64At(data, q + 2, c.issuedAt);
    Le64At(data, q + 10, c.expiresAt);
    TierBytes(c.tier, data[q]);
  }

  /** The inputs that decode to a certificate are exactly those that start with its encoding; longer identifiers never survive. */
  lemma DecodeIffPrefix(data: seq<Byte>, c: Certificate)
    ensures Decode(data) == Ok(c) <==> Short(c) && Encode(c) <= data
  {
    hide Decode, Encode, Laid, Short;
    LaidIffPrefix(data, c);
    if Decode(data).Ok? { DecodedIsLaid(data); }
    if Short(c) && Laid(data, c) { LaidDecodes(data, c); }
  }

  lemma RoundTripIff(c: Certificate)
    ensures Decode(Encode(c)) == Ok(c) <==> Short(c)
  {
    hide Decode, Encode, Short;
    DecodeIffPrefix(Encode(c), c);
  }

  /** Mesh "m", node "n", permissions 5, issued at 258, expiring at 65536, byte by byte between the two keys. */
  lemma KnownCertificate(key: Key, issuer: Key, tier: MeshTier, signature: Signature)
    ensures IsUtf8([109]) && IsUtf8([110])
    ensures Encode(Certificate(key, [109], [110], tier, 5, 258, 65536, issuer, signature))
         == key
            + [1] + [109] + [1] + [110]
            + [match tier case Enterprise => 0 case Regional => 1 case Tactical => 2 case Edge => 3] + [5]
            + [2, 1, 0, 0, 0, 0, 0, 0] + [0, 0, 1, 0, 0, 0, 0, 0]
            + issuer + signature
  {
    AsciiIsText([109]);
    AsciiIsText([110]);
    hide IsUtf8, LeBytes;
    KnownBytes();
  }

  /** An encoding with any other tier byte is refused for its tier. */
  lemma WrongTier(c: Certificate, tier: Byte)
    requires Short(c) && tier >= 4
    ensures |Encode(c)| == MIN_SIZE + |c.meshId| + |c.nodeId|
    ensures Decode(Encode(c)[34 + |c.meshId| + |c.nodeId| := tier]) == Err(InvalidTier)
  {
    hide Encode, IsUtf8;
    LaidIffPrefix(Encode(c), c);
    var q := 34 + |c.meshId| + |c.nodeId|;
    var data, wrong := Encode(c), Encode(c)[q := tier];
    var p := 33 + |c.meshId|;
    assert wrong[33..p] == data[33..p] && wrong[p + 1..q] == data[p + 1..q];
    LaidDecodes(data, c);
  }

  /** A node id of 256 letters does not come back. */
  lemma LongNodeIdIsLost(key: Key, signature: Signature)
    ensures var c := Certificate(key, [], Letters(256), Tactical, 0, 0, 0, key, signature);
            Decode(Encode(c)) != Ok(c)
  {
    hide Decode, Encode;
    RoundTripIff(Certificate(key, [], Letters(256), Tactical, 0, 0, 0, key, signature));
  }

  /** No strict prefix of an encoding decodes. */
  lemma TruncationFails(c: Certificate, k: nat)
    requires Short(c) && k < |Encode(c)|
    ensures Decode(Encode(c)[..k]).Err?
  {
    hide Decode, Encode, Short;
    var data := Encode(c)[..k];
    if Decode(data).Ok? {
      var d := Decode(data).value;
      DecodeIffPrefix(data, d);
      assert Encode(d) <= Encode(c);
      DecodeIffPrefix(Encode(c), d);
      DecodeIffPrefix(Encode(c), c);
    }
  }

  /** The signed bytes of a short certificate belong to no other: they determine every field but the signature. */
  lemma SignableInjective(c: Certificate, d: Certificate)
    requires Short(d) && Signable(c) == Signable(d)
    ensures Short(c) && c.(signature := d.signature) == d
  {
    hide Decode, Signable;
    SameLengths(c, d);
    var c' := c.(signature := d.signature);
    SignableIgnoresSignature(c, d.signature);
    DecodeIffPrefix(Encode(d), d);
    DecodeIffPrefix(Encode(d), c');
  }

  /** Equal signed bytes have equal first lengths modulo 256, and equal lengths in all; with a short side that leaves one choice. */
  lemma SameLengths(c: Certificate, d: Certificate)
    requires Short(d) && Signable(c) == Signable(d)
    ensures |c.meshId| == |d.meshId| && |c.nodeId| == |d.nodeId|
  {
    hide Signable;
    SignableShape(c);
    SignableShape(d);
  }

  lemma SignableShape(c: Certificate)
    ensures |Signable(c)| == 84 + |c.meshId| + |c.nodeId| && Signable(c)[32] == |c.meshId| % 256
  {
  }

  /** Two certificates, neither of them short, with the same signed bytes: a zero byte passes for a length on either side. */
  lemma LongIdsCollide(key: Key, signature: Signature)
    ensures IsUtf8([0] + Letters(255)) && IsUtf8(Letters(255) + [0])
    ensures var c := Certificate(key, [0] + Letters(255), [], Tactical, 0, 0, 0, key, signature);
            var d := Certificate(key, [], Letters(255) + [0], Tactical, 0, 0, 0, key, signature);
            c != d && Signable(c) == Signable(d)
  {
    hide IsUtf8, LeBytes;
    AsciiIsText([]);
    AsciiIsText([0] + Letters(255));
    AsciiIsText(Letters(255) + [0]);
    var c := Certificate(key, [0] + Letters(255), [], Tactical, 0, 0, 0, key, signature);
    var d := Certificate(key, [], Letters(255) + [0], Tactical, 0, 0, 0, key, signature);
    assert [0] + ([0] + Letters(255)) + [0] + [] == [0] + [] + [0] + (Letters(255) + [0]);
  }

  lemma SignableIgnoresSignature(c: Certificate, s: Signature)
    ensures Signable(c.(signature := s)) == Signable(c)
  {
  }

  /** What decodes verifies exactly when the signature at the end of its encoding covers the rest. */
  lemma DecodedVerifiesIff(verifier: Verifier, data: seq<Byte>)
    requires Decode(data).Ok?
    ensures var c := Decode(data).value;
            var n := MIN_SIZE + |c.meshId| + |c.nodeId|;
            && n <= |data|
            && c.signature == data[n - 64..n]
            && (c.Verifies(verifier) <==> verifier(c.issuer, data[..n - 64], data[n - 64..n]))
  {
    hide Decode, Signable;
    var c := Decode(data).value;
    DecodeIffPrefix(data, c);
    LaidIffPrefix(data, c);
    var n := |Encode(c)|;
    assert Encode(c) == data[..n];
    assert data[..n][..n - 64] == data[..n - 64] && data[..n][n - 64..] == data[n - 64..n];
    assert Encode(c)[..n - 64] == Signable(c) && Encode(c)[n - 64..] == c.signature;
  }
}
