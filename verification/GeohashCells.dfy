/**
 What a geohash means. Hashes of length n name the cells of a grid with
 2^LatBits(n) rows and 2^LonBits(n) columns; encoding finds the cell of a point,
 decoding returns its centre, and stepping to a neighbour moves by one cell on
 the torus obtained by gluing opposite edges of the grid.
 */
module GeohashCells {
  import opened Wrappers
  import opened Arithmetic
  import opened Morton
  import opened Geohash

  datatype Cell = Cell(row: nat, col: nat)

  function Rows(len: nat): nat { Pow2(LatBits(len)) }

  function Cols(len: nat): nat { Pow2(LonBits(len)) }

  predicate OnGrid(c: Cell, len: nat) {
    c.row < Rows(len) && c.col < Cols(len)
  }

  /**
   The leading 5 * len bits of the interleaved word of a cell. The topmost bit is
   always a longitude bit, so with an odd number of bits the lowest one is too.
   */
  function CellCode(c: Cell, len: nat): nat {
    if len % 2 == 0 then MortonCode(c.row, c.col) else MortonCode(c.col, c.row)
  }

  function CodeCell(code: nat, len: nat): Cell {
    if len % 2 == 0 then Cell(EvenBits(code), OddBits(code)) else Cell(OddBits(code), EvenBits(code))
  }

  /** The cell a hash names. */
  function CellOf(h: string): Cell
    requires AllDigits(h)
  {
    CodeCell(CodeOf(h), |h|)
  }

  /** The hash that names a cell. */
  function HashOf(c: Cell, len: nat): (h: string)
    requires len <= MAX_LENGTH
    ensures |h| == len
  {
    Digits(CellCode(c, len) * Pow2(64 - 5 * len), len)
  }

  // --- Digits ---

  lemma DecoderInvertsCodes(i: nat, c: char)
    ensures i < 32 ==> Decoder(BASE32_CODES[i]) == i
    ensures Decoder(c) != NOT_A_DIGIT ==> Decoder(c) < 32 && BASE32_CODES[Decoder(c)] == c
  {
  }

  lemma DigitsAreDigits(w: nat, len: nat)
    requires len <= MAX_LENGTH
    ensures AllDigits(Digits(w, len))
  {
    hide ShiftRight, Decoder;
    forall k | 0 <= k < len ensures Decoder(Digits(w, len)[k]) != NOT_A_DIGIT {
      DecoderInvertsCodes(ShiftRight(w, 59 - 5 * k) % 32, '0');
    }
  }

  lemma CodeSnoc(t: string, c: char)
    requires AllDigits(t) && Decoder(c) != NOT_A_DIGIT
    ensures AllDigits(t + [c]) && CodeOf(t + [c]) == 32 * CodeOf(t) + Decoder(c)
    ensures Decoder(c) < 32
  {
    hide Decoder;
    DecoderInvertsCodes(0, c);
    assert (t + [c])[..|t|] == t;
  }

  lemma {:induction false} CodeOfDigits(w: nat, len: nat)
    requires w < TWO_64 && len <= MAX_LENGTH
    ensures AllDigits(Digits(w, len))
    ensures CodeOf(Digits(w, len)) == ShiftRight(w, 64 - 5 * len)
  {
    hide Decoder, AllDigits, CodeOf, ShiftRight;
    DigitsAreDigits(w, len);
    if len == 0 {
      Pow2Values();
      ShiftRightIsDiv(w, 64);
      assert Digits(w, 0) == "";
      NoDigits();
    } else {
      var q := ShiftRight(w, 64 - 5 * len);
      var t, c := Digits(w, len - 1), BASE32_CODES[q % 32];
      CodeOfDigits(w, len - 1);
      assert Digits(w, len) == t + [c];
      DecoderInvertsCodes(q % 32, '0');
      CodeSnoc(t, c);
      ShiftRightAdd(w, 64 - 5 * len, 5);
      ShiftRightIsDiv(q, 5);
      Pow2Values();
    }
  }

  lemma NoDigits()
    ensures AllDigits("") && CodeOf("") == 0
  {
  }

  lemma {:induction false} CodeFits(h: string)
    requires AllDigits(h)
    ensures CodeOf(h) < Pow2(5 * |h|)
  {
    hide Decoder, Pow2, CodeOf;
    Pow2Values();
    NoDigits();
    if h != "" {
      var t, c := h[..|h| - 1], h[|h| - 1];
      assert h == t + [c];
      CodeFits(t);
      CodeSnoc(t, c);
      Pow2Add(5, 5 * |t|);
    }
  }

  /** Strings of digits of one length are determined by the number they denote. */
  lemma {:induction false} CodeInjective(g: string, h: string)
    requires AllDigits(g) && AllDigits(h) && |g| == |h|
    requires CodeOf(g) == CodeOf(h)
    ensures g == h
  {
    hide Decoder, CodeOf;
    if g != "" {
      var k := |g| - 1;
      assert g == g[..k] + [g[k]] && h == h[..k] + [h[k]];
      CodeSnoc(g[..k], g[k]);
      CodeSnoc(h[..k], h[k]);
      CodeInjective(g[..k], h[..k]);
      DecoderInvertsCodes(0, g[k]);
      DecoderInvertsCodes(0, h[k]);
    }
  }

  // --- Hashes and cells ---

  lemma {:induction false} CodeCellBijection(len: nat, code: nat, c: Cell)
    requires len <= MAX_LENGTH
    ensures CellCode(CodeCell(code, len), len) == code
    ensures CodeCell(CellCode(c, len), len) == c
    ensures code < Pow2(5 * len) ==> OnGrid(CodeCell(code, len), len)
    ensures OnGrid(c, len) ==> CellCode(c, len) < Pow2(5 * len)
  {
    hide MortonCode, EvenBits, OddBits, Pow2;
    MortonOfBits(code);
    if len % 2 == 0 {
      BitsOfMorton(c.row, c.col);
    } else {
      BitsOfMorton(c.col, c.row);
    }
    if code < Pow2(5 * len) { GridOfCode(code, len); }
    if OnGrid(c, len) { CodeOfGrid(c, len); }
  }

  lemma {:induction false} GridOfCode(code: nat, len: nat)
    requires len <= MAX_LENGTH && code < Pow2(5 * len)
    ensures OnGrid(CodeCell(code, len), len)
  {
    hide EvenBits, OddBits, Pow2;
    var k := LatBits(len);
    if len % 2 == 0 {
      BitsFit(code, k);
    } else {
      // With an odd number of bits the row uses one bit fewer than the column.
      Pow2Values();
      Pow2Add(1, 2 * k);
      Pow2Add(2, 2 * k);
      BitsFit(code, k + 1);
      OddIsEvenOfHalf(code);
      BitsFit(code / 2, k);
    }
  }

  lemma {:induction false} OddIsEvenOfHalf(m: nat)
    ensures OddBits(m) == EvenBits(m / 2)
  {
    if m > 0 {
      OddIsEvenOfHalf(m / 4);
      var r, p, q := m / 4, m % 2, (m / 2) % 2;
      assert m / 2 == q + 2 * (r % 2) + 4 * (r / 2);
      BitsStep(r / 2, q, r % 2);
      BitsStep(r, p, q);
    }
  }

  lemma {:induction false} CodeOfGrid(c: Cell, len: nat)
    requires len <= MAX_LENGTH && OnGrid(c, len)
    ensures CellCode(c, len) < Pow2(5 * len)
  {
    hide MortonCode, Pow2;
    var k := LatBits(len);
    if len % 2 == 0 {
      MortonFits(c.row, c.col, k);
    } else {
      Pow2Values();
      Pow2Add(1, 2 * k);
      Pow2Add(1, k);
      MortonHalf(c.col, c.row);
      assert c.col / 2 < Pow2(k);
      MortonFits(c.row, c.col / 2, k);
    }
  }

  /** Hashes of a length and cells of its grid correspond one to one. */
  lemma HashCellBijection(h: string, c: Cell, len: nat)
    requires 1 <= len <= MAX_LENGTH
    ensures AllDigits(h) && |h| == len ==> OnGrid(CellOf(h), len) && HashOf(CellOf(h), len) == h
    ensures OnGrid(c, len) ==> AllDigits(HashOf(c, len)) && CellOf(HashOf(c, len)) == c
  {
    hide *;
    if OnGrid(c, len) {
      HashOfCell(c, len);
    }
    if AllDigits(h) && |h| == len {
      CellOfHash(h);
    }
  }

  lemma HashOfCell(c: Cell, len: nat)
    requires 1 <= len <= MAX_LENGTH && OnGrid(c, len)
    ensures AllDigits(HashOf(c, len))
    ensures CodeOf(HashOf(c, len)) == CellCode(c, len)
    ensures CellOf(HashOf(c, len)) == c
  {
    hide Pow2, CellCode, CodeCell, CodeOf, Digits, AllDigits;
    var m := CellCode(c, len);
    CodeCellBijection(len, 0, c);
    ScaledFits(m, len);
    CodeOfDigits(m * Pow2(64 - 5 * len), len);
  }

  lemma ScaledFits(m: nat, len: nat)
    requires len <= MAX_LENGTH && m < Pow2(5 * len)
    ensures m * Pow2(64 - 5 * len) < TWO_64
    ensures ShiftRight(m * Pow2(64 - 5 * len), 64 - 5 * len) == m
  {
    hide Pow2;
    var d := Pow2(64 - 5 * len);
    Pow2Values();
    Pow2Add(5 * len, 64 - 5 * len);
    MulMonotone(m, Pow2(5 * len) - 1, d);
    assert (Pow2(5 * len) - 1) * d == TWO_64 - d;
    ModUnique(m * d, d, m, 0);
    ShiftRightIsDiv(m * d, 64 - 5 * len);
  }

  lemma CellOfHash(h: string)
    requires AllDigits(h) && 1 <= |h| <= MAX_LENGTH
    ensures OnGrid(CellOf(h), |h|)
    ensures HashOf(CellOf(h), |h|) == h
  {
    hide Pow2, CellCode, CodeCell, CodeOf, Digits, AllDigits;
    CodeFits(h);
    CodeCellBijection(|h|, CodeOf(h), Cell(0, 0));
    HashOfCell(CellOf(h), |h|);
    CodeInjective(HashOf(CellOf(h), |h|), h);
  }

  // --- The cell of a point ---

  /** Which of `n` equal parts of the unit interval holds `t`; the right end belongs to the first part. */
  function Part(t: real, n: nat): (i: nat)
    requires 0.0 <= t <= 1.0 && n > 0
    ensures i < n
  {
    if t == 1.0 then 0 else
      RealMulMonotone(0.0, t, n as real);
      RealMulStrict(t, 1.0, n as real);
      assert 0.0 <= t * n as real < n as real;
      FloorBetween(t * n as real, 0, n);
      (t * n as real).Floor
  }

  function PointCell(lon: real, lat: real, len: nat): Cell
    requires InRange(lon, lat)
  {
    Cell(Part(lat / 180.0 + 0.5, Rows(len)), Part(lon / 360.0 + 0.5, Cols(len)))
  }

  lemma FractionPart(t: real, bits: nat)
    requires 0.0 <= t <= 1.0 && bits <= 32
    ensures ShiftRight(FractionBits(t + 1.0), 32 - bits) == Part(t, Pow2(bits))
  {
    hide Pow2;
    Pow2Values();
    Pow2Add(bits, 32 - bits);
    ShiftRightIsDiv(FractionBits(t + 1.0), 32 - bits);
    FractionPartOf(t, Pow2(bits), Pow2(32 - bits));
  }

  lemma FractionPartOf(t: real, n: nat, k: nat)
    requires 0.0 <= t <= 1.0 && n > 0 && k > 0 && n * k == TWO_32
    ensures FractionBits(t + 1.0) / k == Part(t, n)
  {
    if t < 1.0 {
      FloorDiv(t, n, k);
      assert (t + 1.0) - 1.0 == t;
    }
  }

  /** The cell whose row and column are the leading bits of the two coordinates. */
  function LeadingCell(lat32: nat, lon32: nat, len: nat): Cell
    requires len <= MAX_LENGTH
  {
    Cell(ShiftRight(lat32, 32 - LatBits(len)), ShiftRight(lon32, 32 - LonBits(len)))
  }

  /** The leading bits of the interleaved word are those of the leading bits of each coordinate. */
  lemma {:induction false} TopBits(lat32: nat, lon32: nat, len: nat)
    requires 1 <= len <= MAX_LENGTH
    ensures ShiftRight(MortonCode(lat32, lon32), 64 - 5 * len) == CellCode(LeadingCell(lat32, lon32, len), len)
  {
    hide MortonCode, ShiftRight;
    var k := 32 - LonBits(len);
    MortonShift(lat32, lon32, k);
    if len % 2 == 1 {
      var m := MortonCode(lat32, lon32);
      ShiftRightAdd(m, 2 * k, 1);
      ShiftRightAdd(lat32, k, 1);
      ShiftRightIsDiv(ShiftRight(m, 2 * k), 1);
      ShiftRightIsDiv(ShiftRight(lat32, k), 1);
      Pow2Values();
      MortonHalf(ShiftRight(lat32, k), ShiftRight(lon32, k));
    }
  }

  lemma DigitsNameCell(lat32: nat, lon32: nat, len: nat)
    requires lat32 < TWO_32 && lon32 < TWO_32 && 1 <= len <= MAX_LENGTH
    requires OnGrid(LeadingCell(lat32, lon32, len), len)
    ensures Digits(InterleavedBits(lat32, lon32), len) == HashOf(LeadingCell(lat32, lon32, len), len)
  {
    hide *;
    var c := LeadingCell(lat32, lon32, len);
    var w := InterleavedBits(lat32, lon32);
    InterleavedIsMorton(lat32, lon32);
    CodeOfDigits(w, len);
    TopBits(lat32, lon32, len);
    HashOfCell(c, len);
    CodeInjective(Digits(w, len), HashOf(c, len));
  }

  /** Encoding names the cell that holds the point, and fails only outside the coordinate range or on a bad length. */
  lemma EncodeFindsCell(lon: real, lat: real, len: nat)
    ensures Encode(lon, lat, len).Ok? <==> InRange(lon, lat) && 1 <= len <= MAX_LENGTH
    ensures Encode(lon, lat, len).Ok? ==>
              && OnGrid(PointCell(lon, lat, len), len)
              && Encode(lon, lat, len).value == HashOf(PointCell(lon, lat, len), len)
  {
    hide Pow2, InterleavedBits, Digits, FractionBits, Part, HashOf;
    if InRange(lon, lat) && 1 <= len <= MAX_LENGTH {
      FractionPart(lat / 180.0 + 0.5, LatBits(len));
      FractionPart(lon / 360.0 + 0.5, LonBits(len));
      DigitsNameCell(FractionBits(lat / 180.0 + 1.5), FractionBits(lon / 360.0 + 1.5), len);
    }
  }

  // --- The centre of a cell ---

  /** The middle of the i-th of `n` equal parts of an interval of the given length starting at `lo`. */
  function Middle(i: int, n: nat, lo: real, length: real): real
    requires n > 0
  {
    lo + length * ((i as real + 0.5) / n as real)
  }

  function CellArea(c: Cell, len: nat): Area {
    var rows, cols := Rows(len), Cols(len);
    Area(Middle(c.col, cols, -180.0, 360.0), Middle(c.row, rows, -90.0, 180.0),
         180.0 / cols as real, 90.0 / rows as real)
  }

  lemma {:induction false} SplitScaled(m: nat, k: nat)
    ensures EvenBits(m * Pow2(2 * k)) == EvenBits(m) * Pow2(k)
    ensures OddBits(m * Pow2(2 * k)) == OddBits(m) * Pow2(k)
  {
    hide EvenBits, OddBits, Pow2;
    Pow2Values();
    if k == 0 {
      assert Pow2(0) == 1 by { Pow2Add(0, 1); }
    } else {
      SplitScaled(m, k - 1);
      Pow2Add(2, 2 * (k - 1));
      Pow2Add(1, k - 1);
      var r := m * Pow2(2 * (k - 1));
      assert m * Pow2(2 * k) == 4 * r;
      BitsStep(r, 0, 0);
      assert EvenBits(m) * Pow2(k) == 2 * (EvenBits(m) * Pow2(k - 1));
      assert OddBits(m) * Pow2(k) == 2 * (OddBits(m) * Pow2(k - 1));
    }
  }

  lemma {:induction false} SplitDoubled(m: nat)
    ensures EvenBits(2 * m) == 2 * OddBits(m)
    ensures OddBits(2 * m) == EvenBits(m)
  {
    hide EvenBits, OddBits;
    OddIsEvenOfHalf(m);
    OddIsEvenOfHalf(2 * m);
    var q, r := m % 2, m / 2;
    assert 2 * m == 0 + 2 * q + 4 * r;
    BitsStep(r, 0, q);
  }

  /** Scaling a code back to 64 bits puts the row and the column at the top of their halves. */
  lemma {:induction false} SplitOfCode(code: nat, len: nat)
    requires 1 <= len <= MAX_LENGTH && code < Pow2(5 * len)
    ensures var c := CodeCell(code, len);
            SplitBits(code * Pow2(64 - 5 * len))
            == (c.row * Pow2(32 - LatBits(len)), c.col * Pow2(32 - LonBits(len)))
  {
    hide EvenBits, OddBits, Pow2, SplitBits;
    var k := 32 - LonBits(len);
    ScaledFits(code, len);
    SplitIsBits(code * Pow2(64 - 5 * len));
    if len % 2 == 0 {
      assert 64 - 5 * len == 2 * k;
      SplitScaled(code, k);
    } else {
      assert 64 - 5 * len == 2 * k + 1 && 32 - LatBits(len) == k + 1;
      Pow2Values();
      Pow2Add(1, 2 * k);
      Pow2Add(1, k);
      SplitOddScaled(code, k, Pow2(k), Pow2(2 * k));
    }
  }

  lemma SplitOddScaled(m: nat, k: nat, a: nat, b: nat)
    requires a == Pow2(k) && b == Pow2(2 * k)
    ensures EvenBits(m * (2 * b)) == OddBits(m) * (2 * a)
    ensures OddBits(m * (2 * b)) == EvenBits(m) * a
  {
    hide EvenBits, OddBits, Pow2;
    assert m * (2 * b) == (2 * m) * b;
    SplitScaled(2 * m, k);
    SplitDoubled(m);
    assert (2 * OddBits(m)) * a == OddBits(m) * (2 * a);
  }

  lemma RangeOfScaled(i: nat, bits: nat, r: real)
    requires bits <= 32
    ensures DecodeRange(i * Pow2(32 - bits), r) == 2.0 * r * (i as real / Pow2(bits) as real) - r
  {
    hide Pow2;
    Pow2Values();
    Pow2Add(bits, 32 - bits);
    var k, n := Pow2(32 - bits) as real, Pow2(bits) as real;
    assert (i * Pow2(32 - bits)) as real == i as real * k;
    assert TWO_32 as real == n * k;
    assert (i as real * k) / (n * k) == i as real / n;
  }

  /** Decoding a hash yields the centre and half-widths of its cell, and fails exactly on what names no cell. */
  lemma DecodeIsCentre(h: string)
    ensures Decode(h).Ok? <==> |h| <= MAX_LENGTH && AllDigits(h)
    ensures ValidHash(h) ==> Decode(h) == Ok(CellArea(CellOf(h), |h|))
  {
    hide CodeOf, Pow2, SplitBits, EvenBits, OddBits, DecodeRange;
    NoBadDigit(h);
    if ValidHash(h) {
      var len := |h|;
      var c := CellOf(h);
      CodeFits(h);
      SplitOfCode(CodeOf(h), len);
      RangeOfScaled(c.row, LatBits(len), 90.0);
      RangeOfScaled(c.col, LonBits(len), 180.0);
      CentreSum(c.row, Rows(len), 90.0);
      CentreSum(c.col, Cols(len), 180.0);
    }
  }

  lemma CentreSum(i: nat, n: nat, r: real)
    requires n > 0
    ensures 2.0 * r * (i as real / n as real) - r + (2.0 * r / n as real) / 2.0 == Middle(i, n, -r, 2.0 * r)
    ensures (2.0 * r / n as real) / 2.0 == r / n as real
  {
    var x := 1.0 / n as real;
    assert i as real / n as real == i as real * x;
    assert 2.0 * r / n as real == 2.0 * r * x;
    assert r / n as real == r * x;
    assert (i as real + 0.5) / n as real == (i as real + 0.5) * x;
  }
}
