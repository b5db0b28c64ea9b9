/**
 The geohash codec (src/geohash.rs), over exact reals: encoding a coordinate,
 decoding a hash to the centre of its cell and the half-widths of that cell,
 and stepping to a neighbouring cell by re-encoding a shifted centre.
 */
module Geohash {
  import opened Wrappers
  import opened Arithmetic
  import opened Morton

  datatype GeohashError =
    | InvalidHashCharacter(c: char)
    | InvalidCoordinateRange(lon: real, lat: real)
    | InvalidLength(len: nat)
    | InvalidHash

  datatype Direction = N | NE | E | SE | S | SW | W | NW {
    /** The step in latitude and in longitude, in cells. */
    function ToTuple(): (int, int) {
      match this
      case SW => (-1, -1)
      case S => (-1, 0)
      case SE => (-1, 1)
      case W => (0, -1)
      case E => (0, 1)
      case NW => (1, -1)
      case N => (1, 0)
      case NE => (1, 1)
    }

    function Opposite(): Direction {
      match this
      case N => S
      case NE => SW
      case E => W
      case SE => NW
      case S => N
      case SW => NE
      case W => E
      case NW => SE
    }
  }

  const TWO_32: nat := 0x1_0000_0000
  const TWO_64: nat := 0x1_0000_0000_0000_0000
  const MAX_LENGTH: nat := 12

  // --- Base 32 ---

  const BASE32_CODES: string := "0123456789bcdefghjkmnpqrstuvwxyz"
  const NOT_A_DIGIT: nat := 0xff

  /** The 256-entry decoding table: a digit, or `NOT_A_DIGIT`. */
  function Decoder(c: char): nat {
    if '0' <= c <= '9' then (c - '0') as nat
    else if 'b' <= c <= 'h' then (c - 'b') as nat + 10
    else if 'j' <= c <= 'k' then (c - 'j') as nat + 17
    else if 'm' <= c <= 'n' then (c - 'm') as nat + 19
    else if 'p' <= c <= 'z' then (c - 'p') as nat + 21
    else NOT_A_DIGIT
  }

  predicate AllDigits(h: string) {
    forall k :: 0 <= k < |h| ==> Decoder(h[k]) != NOT_A_DIGIT
  }

  /** The strings that name a cell. */
  predicate ValidHash(h: string) {
    1 <= |h| <= MAX_LENGTH && AllDigits(h)
  }

  // --- Encoding ---

  /**
   Bits 20 to 51 of the binary64 representation of `v`: the top 32 bits of its
   fraction. At 2.0 the exponent moves up and the fraction restarts at zero.
   */
  function FractionBits(v: real): (x: nat)
    requires 1.0 <= v <= 2.0
    ensures x < TWO_32
  {
    if v == 2.0 then 0 else
      var x := ((v - 1.0) * TWO_32 as real).Floor;
      FloorBetween((v - 1.0) * TWO_32 as real, 0, TWO_32);
      x
  }

  /** The 64-bit word of the interleaved halves, as a number. */
  function InterleavedBits(lat32: nat, lon32: nat): nat
    requires lat32 < TWO_32 && lon32 < TWO_32
  {
    WordFits32(lat32);
    WordFits32(lon32);
    Value(Interleave(Word(lat32), Word(lon32)), 64)
  }

  /** The leading `len` base-32 digits of a 64-bit word. */
  function Digits(w: nat, len: nat): (h: string)
    requires len <= MAX_LENGTH
    ensures |h| == len
  {
    seq(len, j requires 0 <= j < len => BASE32_CODES[ShiftRight(w, 59 - 5 * j) % 32])
  }

  predicate InRange(lon: real, lat: real) {
    -180.0 <= lon <= 180.0 && -90.0 <= lat <= 90.0
  }

  function Encode(lon: real, lat: real, len: nat): Result<string, GeohashError> {
    if !InRange(lon, lat) then Err(InvalidCoordinateRange(lon, lat))
    else if !(1 <= len <= MAX_LENGTH) then Err(InvalidLength(len))
    else
      var lat32 := FractionBits(lat / 180.0 + 1.5);
      var lon32 := FractionBits(lon / 360.0 + 1.5);
      Ok(Digits(InterleavedBits(lat32, lon32), len))
  }

  method EncodeHash(lon: real, lat: real, len: nat) returns (r: Result<string, GeohashError>)
    ensures r == Encode(lon, lat, len)
  {
    if !(-180.0 <= lon <= 180.0) || !(-90.0 <= lat <= 90.0) {
      return Err(InvalidCoordinateRange(lon, lat));
    }
    if !(1 <= len <= MAX_LENGTH) {
      return Err(InvalidLength(len));
    }
    var lat32 := FractionBits(lat / 180.0 + 1.5);
    var lon32 := FractionBits(lon / 360.0 + 1.5);
    InterleavedIsMorton(lat32, lon32);
    var out := EncodeDigits(InterleavedBits(lat32, lon32), len);
    return Ok(out);
  }

  /** The loop that peels base-32 digits off the top of a 64-bit word. */
  method EncodeDigits(w: nat, len: nat) returns (out: string)
    requires w < TWO_64 && len <= MAX_LENGTH
    ensures out == Digits(w, len)
  {
    hide Pow2, ShiftRight;
    var interleaved := w;
    out := "";
    EncodeStart(w);
    for k := 0 to len
      invariant out == Digits(w, k)
      invariant interleaved == Remaining(w, k)
    {
      EncodeStep(w, k);
      var code := ShiftRight(interleaved, 59) % 32;
      out := out + [BASE32_CODES[code]];
      interleaved := interleaved * 32 % TWO_64;
      assert out == Digits(w, k + 1);
    }
  }

  /** What is left of the word after `k` digits, shifted to the top. */
  function Remaining(w: nat, k: nat): nat
    requires k <= MAX_LENGTH
  {
    (w % Pow2(64 - 5 * k)) * Pow2(5 * k)
  }

  lemma EncodeStart(w: nat)
    requires w < TWO_64
    ensures Remaining(w, 0) == w
  {
    Pow2Values();
  }

  /** One turn of the encoding loop: the top five bits come off and the rest moves up. */
  lemma EncodeStep(w: nat, k: nat)
    requires k < MAX_LENGTH
    ensures ShiftRight(Remaining(w, k), 59) % 32 == ShiftRight(w, 59 - 5 * k) % 32
    ensures Remaining(w, k) * 32 % TWO_64 == Remaining(w, k + 1)
  {
    hide Pow2, ShiftRight;
    var a, d := Pow2(5 * k), Pow2(59 - 5 * k);
    ShiftRightIsDiv(Remaining(w, k), 59);
    ShiftRightIsDiv(w, 59 - 5 * k);
    Pow2Values();
    Pow2Add(5, 59 - 5 * k);
    Pow2Add(5, 5 * k);
    Pow2Add(5 * k, 59 - 5 * k);
    Pow2Add(5, 59);
    DigitStep(w, a, d);
  }

  lemma DigitStep(w: nat, a: nat, d: nat)
    requires a > 0 && d > 0
    ensures a * d > 0 && 32 * (a * d) > 0 && 32 * d > 0
    ensures ((w % (32 * d)) * a / (a * d)) % 32 == (w / d) % 32
    ensures (w % (32 * d)) * a * 32 % (32 * (a * d)) == (w % d) * (32 * a)
  {
    var q, s := w / d, w % d;
    var e, c := q / 32, q % 32;
    assert w == e * (32 * d) + (c * d + s) by {
      assert w == q * d + s;
      assert q * d == (32 * e + c) * d == e * (32 * d) + c * d;
    }
    assert c * d + s < 32 * d by { MulMonotone(c, 31, d); }
    ModUnique(w, 32 * d, e, c * d + s);
    var x := (c * d + s) * a;
    assert x == c * (a * d) + s * a;
    assert s * a < a * d by { MulMonotone(s, d - 1, a); assert (d - 1) * a == a * d - a; }
    ModUnique(x, a * d, c, s * a);
    assert x * 32 == c * (32 * (a * d)) + s * (32 * a);
    assert s * (32 * a) == 32 * (s * a);
    ModUnique(x * 32, 32 * (a * d), c, s * (32 * a));
  }

  // --- Decoding ---

  /** The centre of a cell and the half-widths of the cell. */
  datatype Area = Area(lon: real, lat: real, lonErr: real, latErr: real)

  /** The number a string of base-32 digits denotes. */
  function CodeOf(h: string): nat
    requires AllDigits(h)
  {
    if h == "" then 0 else 32 * CodeOf(h[..|h| - 1]) + Decoder(h[|h| - 1])
  }

  function FirstBad(h: string): Option<char> {
    if h == "" then None
    else if Decoder(h[0]) == NOT_A_DIGIT then Some(h[0])
    else FirstBad(h[1..])
  }

  function DecodeRange(x: nat, r: real): real {
    2.0 * r * (x as real / TWO_32 as real) - r
  }

  function LatBits(len: nat): nat { 5 * len / 2 }

  function LonBits(len: nat): nat { 5 * len - 5 * len / 2 }

  /** The two 32-bit coordinates packed in a 64-bit word. */
  function SplitBits(w: nat): (nat, nat) {
    var (x, y) := Deinterleave(Word(w));
    (Value(x, 32), Value(y, 32))
  }

  function AreaOf(intHash: nat, len: nat): Area
    requires len <= MAX_LENGTH
  {
    var (latInt, lonInt) := SplitBits(intHash * Pow2(64 - 5 * len));
    var lat := DecodeRange(latInt, 90.0);
    var lon := DecodeRange(lonInt, 180.0);
    var latErr := 180.0 / Pow2(LatBits(len)) as real;
    var lonErr := 360.0 / Pow2(LonBits(len)) as real;
    Area(lon + lonErr / 2.0, lat + latErr / 2.0, lonErr / 2.0, latErr / 2.0)
  }

  function Decode(h: string): Result<Area, GeohashError> {
    if |h| > MAX_LENGTH then Err(InvalidHash)
    else match FirstBad(h)
      case Some(c) => Err(InvalidHashCharacter(c))
      case None => NoBadDigit(h); Ok(AreaOf(CodeOf(h), |h|))
  }

  lemma {:induction false} NoBadDigit(h: string)
    ensures FirstBad(h).None? <==> AllDigits(h)
  {
    if h != "" {
      NoBadDigit(h[1..]);
      assert forall k :: 0 < k < |h| ==> h[k] == h[1..][k - 1];
    }
  }

  lemma {:induction false} FirstBadAt(h: string, k: nat)
    requires k < |h| && AllDigits(h[..k]) && Decoder(h[k]) == NOT_A_DIGIT
    ensures FirstBad(h) == Some(h[k])
  {
    if k > 0 {
      assert h[..k][0] == h[0];
      assert h[1..][..k - 1] == h[..k][1..];
      FirstBadAt(h[1..], k - 1);
    }
  }

  method DecodeHash(h: string) returns (r: Result<Area, GeohashError>)
    ensures r == Decode(h)
  {
    if |h| > MAX_LENGTH {
      return Err(InvalidHash);
    }
    var intHash := 0;
    for k := 0 to |h|
      invariant AllDigits(h[..k])
      invariant intHash == CodeOf(h[..k])
    {
      var val := Decoder(h[k]);
      if val == NOT_A_DIGIT {
        FirstBadAt(h, k);
        return Err(InvalidHashCharacter(h[k]));
      }
      assert h[..k + 1][..k] == h[..k];
      intHash := intHash * 32 + val;
    }
    assert h[..|h|] == h;
    NoBadDigit(h);
    return Ok(AreaOf(intHash, |h|));
  }

  // --- Neighbours ---

  /** The least non-negative remainder. */
  function RemEuclid(x: real, m: real): real
    requires m > 0.0
  {
    x - m * (x / m).Floor as real
  }

  function Abs(x: real): real { if x < 0.0 then -x else x }

  function Neighbor(h: string, d: Direction): Result<string, GeohashError> {
    var a :- Decode(h);
    var (dlat, dlon) := d.ToTuple();
    var lon := RemEuclid((a.lon + 2.0 * Abs(a.lonErr) * dlon as real) + 180.0, 360.0) - 180.0;
    var lat := RemEuclid((a.lat + 2.0 * Abs(a.latErr) * dlat as real) + 90.0, 180.0) - 90.0;
    Encode(lon, lat, |h|)
  }

  // --- What the bits mean ---

  lemma InterleavedIsMorton(lat32: nat, lon32: nat)
    requires lat32 < TWO_32 && lon32 < TWO_32
    ensures InterleavedBits(lat32, lon32) == MortonCode(lat32, lon32) < TWO_64
  {
    hide Word, Interleave, Value, MortonCode, Pow2;
    Pow2Values();
    MortonFits(lat32, lon32, 32);
    InterleaveIsMorton(lat32, lon32);
    ValueWord(MortonCode(lat32, lon32), 64);
  }

  lemma SplitIsBits(m: nat)
    requires m < TWO_64
    ensures SplitBits(m) == (EvenBits(m), OddBits(m))
  {
    hide Word, Deinterleave, Value, EvenBits, OddBits, Pow2;
    Pow2Values();
    DeinterleaveIsBits(m);
    ValueWord(EvenBits(m), 32);
    ValueWord(OddBits(m), 32);
  }
}
