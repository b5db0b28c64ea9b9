/**
 Byte strings as the wire codecs see them: fixed-width integers in both byte
 orders, UTF-8 text, and what it means for one string to stand at a position of
 another.
 */
module Bytes {
  type Byte = b: nat | b < 256

  type U64 = n: nat | n < 0x1_0000_0000_0000_0000

  function Pow256(k: nat): (p: nat)
    ensures p >= 1
  {
    if k == 0 then 1 else 256 * Pow256(k - 1)
  }

  lemma Pow256Values()
    ensures Pow256(1) == 256 && Pow256(2) == 0x1_0000 && Pow256(4) == 0x1_0000_0000
    ensures Pow256(8) == 0x1_0000_0000_0000_0000
  {
  }

  // --- Big-endian integers ---

  /** The `k` low-order bytes of `n`, most significant first. */
  function BeBytes(n: nat, k: nat): (b: seq<Byte>)
    ensures |b| == k
  {
    if k == 0 then [] else BeBytes(n / 256, k - 1) + [n % 256]
  }

  function BeValue(b: seq<Byte>): nat {
    if b == [] then 0 else 256 * BeValue(b[..|b| - 1]) + b[|b| - 1]
  }

  lemma {:induction false} BeValueOfBytes(n: nat, k: nat)
    requires n < Pow256(k)
    ensures BeValue(BeBytes(n, k)) == n
  {
    if k > 0 {
      BeValueOfBytes(n / 256, k - 1);
      assert BeBytes(n, k)[..k - 1] == BeBytes(n / 256, k - 1);
    }
  }

  lemma {:induction false} BeBytesOfValue(b: seq<Byte>)
    ensures BeValue(b) < Pow256(|b|)
    ensures BeBytes(BeValue(b), |b|) == b
  {
    if b != [] {
      var t := b[..|b| - 1];
      BeBytesOfValue(t);
      assert BeValue(b) / 256 == BeValue(t);
      assert b == t + [b[|b| - 1]];
    }
  }

  // --- Little-endian integers ---

  function LeBytes(n: nat, k: nat): (b: seq<Byte>)
    ensures |b| == k
  {
    if k == 0 then [] else [n % 256] + LeBytes(n / 256, k - 1)
  }

  function LeValue(b: seq<Byte>): nat {
    if b == [] then 0 else b[0] + 256 * LeValue(b[1..])
  }

  lemma {:induction false} LeValueOfBytes(n: nat, k: nat)
    requires n < Pow256(k)
    ensures LeValue(LeBytes(n, k)) == n
  {
    if k > 0 {
      LeValueOfBytes(n / 256, k - 1);
    }
  }

  lemma {:induction false} LeBytesOfValue(b: seq<Byte>)
    ensures LeValue(b) < Pow256(|b|)
    ensures LeBytes(LeValue(b), |b|) == b
  {
    if b != [] {
      LeBytesOfValue(b[1..]);
      assert LeValue(b) / 256 == LeValue(b[1..]);
      assert b == [b[0]] + b[1..];
    }
  }

  /** Some numbers, byte by byte. */
  lemma KnownBytes()
    ensures BeBytes(1, 2) == [0, 1]
    ensures BeBytes(1500, 8) == [0, 0, 0, 0, 0, 0, 5, 220]
    ensures BeBytes(258, 8) == [0, 0, 0, 0, 0, 0, 1, 2]
    ensures LeBytes(258, 8) == [2, 1, 0, 0, 0, 0, 0, 0]
    ensures LeBytes(65536, 8) == [0, 0, 1, 0, 0, 0, 0, 0]
  {
    hide BeBytes, LeBytes;
    ZeroBytes(1);
    ZeroBytes(5);
    ZeroBytes(6);
    BytesStep(0, 1, 1);
    BytesStep(0, 5, 6);
    BytesStep(5, 220, 7);
    BytesStep(0, 1, 6);
    BytesStep(1, 2, 7);
    BytesStep(0, 1, 5);
    BytesStep(1, 0, 6);
    BytesStep(256, 0, 7);
  }

  lemma BytesStep(n: nat, b: Byte, k: nat)
    ensures BeBytes(256 * n + b, k + 1) == BeBytes(n, k) + [b]
    ensures LeBytes(256 * n + b, k + 1) == [b] + LeBytes(n, k)
  {
    assert (256 * n + b) / 256 == n && (256 * n + b) % 256 == b;
  }

  lemma {:induction false} ZeroBytes(k: nat)
    ensures BeBytes(0, k) == LeBytes(0, k) == seq(k, _ => 0)
  {
    if k > 0 {
      ZeroBytes(k - 1);
    }
  }

  // --- UTF-8 text (section 4 of RFC 3629) ---

  predicate Tail(b: Byte) { 0x80 <= b <= 0xBF }

  /** The length of the character starting `b`, or 0 if none does. */
  function CharLength(b: seq<Byte>): (n: nat)
    ensures n <= |b|
  {
    if |b| >= 1 && b[0] <= 0x7F then 1
    else if |b| >= 2 && 0xC2 <= b[0] <= 0xDF && Tail(b[1]) then 2
    else if |b| >= 3 && b[0] == 0xE0 && 0xA0 <= b[1] <= 0xBF && Tail(b[2]) then 3
    else if |b| >= 3 && (0xE1 <= b[0] <= 0xEC || 0xEE <= b[0] <= 0xEF) && Tail(b[1]) && Tail(b[2]) then 3
    else if |b| >= 3 && b[0] == 0xED && 0x80 <= b[1] <= 0x9F && Tail(b[2]) then 3
    else if |b| >= 4 && b[0] == 0xF0 && 0x90 <= b[1] <= 0xBF && Tail(b[2]) && Tail(b[3]) then 4
    else if |b| >= 4 && 0xF1 <= b[0] <= 0xF3 && Tail(b[1]) && Tail(b[2]) && Tail(b[3]) then 4
    else if |b| >= 4 && b[0] == 0xF4 && 0x80 <= b[1] <= 0x8F && Tail(b[2]) && Tail(b[3]) then 4
    else 0
  }

  predicate IsUtf8(b: seq<Byte>) {
    b == [] || (CharLength(b) > 0 && IsUtf8(b[CharLength(b)..]))
  }

  /** The bytes of a string. */
  type Text = b: seq<Byte> | IsUtf8(b)

  /** Bytes below 128 are characters of their own. */
  lemma {:induction false} AsciiIsText(s: seq<Byte>)
    requires forall i :: 0 <= i < |s| ==> s[i] <= 0x7F
    ensures IsUtf8(s)
  {
    if s != [] {
      AsciiIsText(s[1..]);
    }
  }

  /** As many letters "a". */
  function Letters(n: nat): (t: Text)
    ensures |t| == n
  {
    var s: seq<Byte> := seq(n, _ => 97);
    AsciiIsText(s);
    s
  }

  // --- Positions ---

  /** `s` stands at position `pos` of `bytes`. */
  predicate At(bytes: seq<Byte>, pos: nat, s: seq<Byte>) {
    pos + |s| <= |bytes| && bytes[pos..pos + |s|] == s
  }

  lemma AtConcat(bytes: seq<Byte>, pos: nat, s: seq<Byte>, t: seq<Byte>)
    ensures At(bytes, pos, s + t) <==> At(bytes, pos, s) && At(bytes, pos + |s|, t)
  {
    if pos + |s| + |t| <= |bytes| {
      var u := bytes[pos..pos + |s| + |t|];
      assert u[..|s|] == bytes[pos..pos + |s|];
      assert u[|s|..] == bytes[pos + |s|..pos + |s| + |t|];
      assert u == u[..|s|] + u[|s|..];
      assert (s + t)[..|s|] == s && (s + t)[|s|..] == t;
    }
  }

  lemma AtStart(bytes: seq<Byte>, s: seq<Byte>)
    ensures At(bytes, 0, s) <==> s <= bytes
  {
  }

  /** Truncating after `s` leaves it in place. */
  lemma AtTake(bytes: seq<Byte>, k: nat, pos: nat, s: seq<Byte>)
    requires k <= |bytes|
    ensures At(bytes[..k], pos, s) <==> At(bytes, pos, s) && pos + |s| <= k
  {
    if pos + |s| <= k {
      assert bytes[..k][pos..pos + |s|] == bytes[pos..pos + |s|];
    }
  }
}
