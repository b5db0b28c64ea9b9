/**
 Bit interleaving by magic masks (src/geohash.rs), on 64-bit words, and the
 arithmetic it computes: `MortonCode` weaves two naturals one bit at a time.
 */
module Morton {
  import opened Arithmetic

  /** A 32-bit quantity held in a 64-bit word. */
  type Word32 = w: bv64 | w <= 0xffff_ffff

  function Spread(x: Word32): bv64 {
    var v: bv64 := x;
    var v := (v | (v << 16)) & 0x0000ffff0000ffff;
    var v := (v | (v << 8)) & 0x00ff00ff00ff00ff;
    var v := (v | (v << 4)) & 0x0f0f0f0f0f0f0f0f;
    var v := (v | (v << 2)) & 0x3333333333333333;
    var v := (v | (v << 1)) & 0x5555555555555555;
    v
  }

  function Interleave(x: Word32, y: Word32): bv64 {
    Spread(x) | (Spread(y) << 1)
  }

  function Squash(x: bv64): Word32 {
    var v := x & 0x5555555555555555;
    var v := (v | (v >> 1)) & 0x3333333333333333;
    var v := (v | (v >> 2)) & 0x0f0f0f0f0f0f0f0f;
    var v := (v | (v >> 4)) & 0x00ff00ff00ff00ff;
    var v := (v | (v >> 8)) & 0x0000ffff0000ffff;
    var v := (v | (v >> 16)) & 0x00000000ffffffff;
    v
  }

  function Deinterleave(x: bv64): (Word32, Word32) {
    (Squash(x), Squash(x >> 1))
  }

  lemma DeinterleaveInterleave(x: Word32, y: Word32)
    ensures Deinterleave(Interleave(x, y)) == (x, y)
  {
  }

  lemma InterleaveDeinterleave(w: bv64)
    ensures var (x, y) := Deinterleave(w); Interleave(x, y) == w
  {
  }

  // --- Words and the numbers they hold ---

  function BitWord(n: nat): (b: bv64)
    ensures b <= 1
  {
    if n % 2 == 1 then 1 else 0
  }

  /** The word holding `n` (modulo 2^64, as every 64-bit conversion). */
  function Word(n: nat): bv64 {
    if n == 0 then 0 else (Word(n / 2) << 1) | BitWord(n)
  }

  /** The number held in the low `k` bits of `w`. */
  function Value(w: bv64, k: nat): nat {
    if k == 0 then 0 else (if w & 1 == 1 then 1 else 0) + 2 * Value(w >> 1, k - 1)
  }

  /** The word whose low `k` bits are set. */
  function Mask(k: nat): bv64 {
    if k == 0 then 0 else (Mask(k - 1) << 1) | 1
  }

  lemma MaskValues()
    ensures Mask(31) == 0x7fff_ffff
    ensures Mask(32) == 0xffff_ffff
    ensures Mask(63) == 0x7fff_ffff_ffff_ffff
    ensures Mask(64) == 0xffff_ffff_ffff_ffff
  {
    assert Mask(8) == 0xff && Mask(16) == 0xffff && Mask(24) == 0xff_ffff;
    assert Mask(30) == 0x3fff_ffff && Mask(32) == 0xffff_ffff && Mask(40) == 0xff_ffff_ffff;
    assert Mask(48) == 0xffff_ffff_ffff && Mask(56) == 0xff_ffff_ffff_ffff;
    assert Mask(62) == 0x3fff_ffff_ffff_ffff;
  }

  lemma {:induction false} WordFits(n: nat, k: nat)
    requires n < Pow2(k)
    ensures Word(n) & !Mask(k) == 0
  {
    if n > 0 {
      WordFits(n / 2, k - 1);
    }
  }

  lemma WordFits32(n: nat)
    requires n < 0x1_0000_0000
    ensures Word(n) <= 0xffff_ffff
    ensures Word(n / 2) <= 0x7fff_ffff
  {
    Pow2Values();
    WordFits(n, 32);
    WordFits(n / 2, 31);
    MaskValues();
  }

  lemma {:induction false} ValueWord(n: nat, k: nat)
    requires n < Pow2(k) && k <= 64
    ensures Value(Word(n), k) == n
  {
    hide Word, Value, Fits63;
    if k == 0 {
      ValueNone(Word(n));
    } else {
      ValueWord(n / 2, k - 1);
      WordFits63(n / 2, k - 1);
      WordStep(n / 2, n % 2);
      ValueStep(Word(n / 2), n % 2, Word(n), k);
    }
  }

  predicate Fits63(w: bv64) {
    w <= 0x7fff_ffff_ffff_ffff
  }

  lemma WordFits63(n: nat, k: nat)
    requires n < Pow2(k) && k <= 63
    ensures Fits63(Word(n))
  {
    hide Word, Mask;
    WordFits(n, k);
    MaskLe(k, 63);
    MaskValues();
  }

  lemma ValueNone(w: bv64)
    ensures Value(w, 0) == 0
  {
  }

  lemma ValueStep(w: bv64, b: nat, w': bv64, k: nat)
    requires Fits63(w) && b < 2 && w' == (w << 1) | BitWord(b) && k > 0
    ensures Value(w', k) == b + 2 * Value(w, k - 1)
  {
    ShiftBack(w, BitWord(b));
  }

  lemma WordStep(h: nat, b: nat)
    requires b < 2
    ensures Word(2 * h + b) == (Word(h) << 1) | BitWord(b)
  {
    var n := 2 * h + b;
    assert n / 2 == h && n % 2 == b;
    if n == 0 {
      assert Word(h) == 0;
    }
  }

  lemma ShiftBack(w: bv64, b: bv64)
    requires w <= 0x7fff_ffff_ffff_ffff && b <= 1
    ensures ((w << 1) | b) >> 1 == w && ((w << 1) | b) & 1 == b
  {
  }

  lemma {:induction false} MaskLe(a: nat, b: nat)
    requires a <= b
    ensures Mask(a) & !Mask(b) == 0
  {
    if a > 0 {
      MaskLe(a - 1, b - 1);
    }
  }

  // --- The arithmetic of interleaving ---

  /** Weaves the bits of `even` and `odd`: bit i of `even` lands at 2i, bit i of `odd` at 2i + 1. */
  function MortonCode(even: nat, odd: nat): nat {
    if even == 0 && odd == 0 then 0
    else even % 2 + 2 * (odd % 2) + 4 * MortonCode(even / 2, odd / 2)
  }

  function EvenBits(m: nat): nat {
    if m == 0 then 0 else m % 2 + 2 * EvenBits(m / 4)
  }

  function OddBits(m: nat): nat {
    if m == 0 then 0 else (m / 2) % 2 + 2 * OddBits(m / 4)
  }

  lemma MortonStep(e: nat, o: nat, p: nat, q: nat)
    requires p < 2 && q < 2
    ensures MortonCode(2 * e + p, 2 * o + q) == p + 2 * q + 4 * MortonCode(e, o)
  {
    var even, odd := 2 * e + p, 2 * o + q;
    assert even / 2 == e && even % 2 == p && odd / 2 == o && odd % 2 == q;
    if even == 0 && odd == 0 {
      assert MortonCode(e, o) == 0;
    }
  }

  lemma BitsStep(m: nat, p: nat, q: nat)
    requires p < 2 && q < 2
    ensures EvenBits(p + 2 * q + 4 * m) == p + 2 * EvenBits(m)
    ensures OddBits(p + 2 * q + 4 * m) == q + 2 * OddBits(m)
  {
    var n := p + 2 * q + 4 * m;
    assert n / 4 == m && n % 2 == p && (n / 2) % 2 == q;
    if n == 0 {
      assert EvenBits(m) == 0 && OddBits(m) == 0;
    }
  }

  /** What weaving says of the three words involved, and nothing about the masks. */
  predicate Woven(x: bv64, y: bv64, m: bv64) {
    x <= 0xffff_ffff && y <= 0xffff_ffff && Interleave(x, y) == m
  }

  /** The words of `even` and `odd` are those of their halves with one more bit each. */
  predicate Extended(x: bv64, y: bv64, m: bv64, x': bv64, y': bv64, m': bv64, p: bv64, q: bv64) {
    && x <= 0x7fff_ffff && y <= 0x7fff_ffff && p <= 1 && q <= 1
    && x' == (x << 1) | p && y' == (y << 1) | q && m' == (m << 2) | (q << 1) | p
  }

  lemma WovenStep(x: bv64, y: bv64, m: bv64, x': bv64, y': bv64, m': bv64, p: bv64, q: bv64)
    requires Woven(x, y, m) && Extended(x, y, m, x', y', m', p, q)
    ensures Woven(x', y', m')
  {
  }

  /** The mask cascade weaves exactly as the arithmetic does. */
  lemma {:induction false} InterleaveIsMorton(even: nat, odd: nat)
    requires even < 0x1_0000_0000 && odd < 0x1_0000_0000
    ensures Woven(Word(even), Word(odd), Word(MortonCode(even, odd)))
    decreases even + odd
  {
    hide *;
    NoBits();
    if even != 0 || odd != 0 {
      InterleaveIsMorton(even / 2, odd / 2);
      HalvesExtend(even, odd);
      WovenStep(Word(even / 2), Word(odd / 2), Word(MortonCode(even / 2, odd / 2)),
                Word(even), Word(odd), Word(MortonCode(even, odd)), BitWord(even), BitWord(odd));
    }
  }

  lemma {:induction false} HalvesExtend(even: nat, odd: nat)
    requires even < 0x1_0000_0000 && odd < 0x1_0000_0000
    ensures Extended(Word(even / 2), Word(odd / 2), Word(MortonCode(even / 2, odd / 2)),
                     Word(even), Word(odd), Word(MortonCode(even, odd)), BitWord(even), BitWord(odd))
  {
    hide Word, MortonCode;
    var e, o, p, q := even / 2, odd / 2, even % 2, odd % 2;
    WordFits32(even);
    WordFits32(odd);
    WordStep(e, p);
    WordStep(o, q);
    MortonStep(e, o, p, q);
    WordOfDigits(MortonCode(e, o), p, q);
  }

  lemma NoBits()
    ensures MortonCode(0, 0) == 0 && EvenBits(0) == 0 && OddBits(0) == 0
    ensures Woven(Word(0), Word(0), Word(0))
  {
  }

  lemma WordOfDigits(m: nat, p: nat, q: nat)
    requires p < 2 && q < 2
    ensures Word(p + 2 * q + 4 * m) == (Word(m) << 2) | (BitWord(q) << 1) | BitWord(p)
  {
    WordStep(2 * m + q, p);
    WordStep(m, q);
    ShiftTwice(Word(m), BitWord(q), BitWord(p));
  }

  lemma ShiftTwice(w: bv64, q: bv64, p: bv64)
    ensures (((w << 1) | q) << 1) | p == (w << 2) | (q << 1) | p
  {
  }

  lemma BaseFour(m: nat)
    ensures m == m % 2 + 2 * ((m / 2) % 2) + 4 * (m / 4)
  {
  }

  lemma {:induction false} MortonOfBits(m: nat)
    ensures MortonCode(EvenBits(m), OddBits(m)) == m
  {
    hide *;
    NoBits();
    if m > 0 {
      var r, p, q := m / 4, m % 2, (m / 2) % 2;
      BaseFour(m);
      MortonOfBits(r);
      BitsStep(r, p, q);
      MortonStep(EvenBits(r), OddBits(r), p, q);
    }
  }

  lemma {:induction false} BitsOfMorton(even: nat, odd: nat)
    ensures EvenBits(MortonCode(even, odd)) == even
    ensures OddBits(MortonCode(even, odd)) == odd
    decreases even + odd
  {
    hide *;
    NoBits();
    if even != 0 || odd != 0 {
      var e, o, p, q := even / 2, odd / 2, even % 2, odd % 2;
      BitsOfMorton(e, o);
      MortonStep(e, o, p, q);
      BitsStep(MortonCode(e, o), p, q);
    }
  }

  /** Deinterleaving a word splits the number it holds into its even and odd bits. */
  lemma DeinterleaveIsBits(m: nat)
    requires m < 0x1_0000_0000_0000_0000
    ensures EvenBits(m) < 0x1_0000_0000 && OddBits(m) < 0x1_0000_0000
    ensures Deinterleave(Word(m)) == (Word(EvenBits(m)), Word(OddBits(m)))
  {
    hide Word, EvenBits, OddBits, MortonCode, Pow2, Interleave, Deinterleave;
    Pow2Values();
    BitsFit(m, 32);
    InterleaveIsMorton(EvenBits(m), OddBits(m));
    MortonOfBits(m);
    DeinterleaveInterleave(Word(EvenBits(m)), Word(OddBits(m)));
  }

  lemma {:induction false} BitsFit(m: nat, k: nat)
    requires m < Pow2(2 * k)
    ensures EvenBits(m) < Pow2(k) && OddBits(m) < Pow2(k)
  {
    if m > 0 {
      assert Pow2(2 * k) == 4 * Pow2(2 * (k - 1));
      BitsFit(m / 4, k - 1);
    }
  }

  /** The top of a Morton code is the Morton code of the tops: dropping 2k bits drops k from each half. */
  lemma {:induction false} MortonShift(even: nat, odd: nat, k: nat)
    ensures ShiftRight(MortonCode(even, odd), 2 * k) == MortonCode(ShiftRight(even, k), ShiftRight(odd, k))
  {
    hide MortonCode;
    if k > 0 {
      MortonShift(even / 2, odd / 2, k - 1);
      assert even == 2 * (even / 2) + even % 2 && odd == 2 * (odd / 2) + odd % 2;
      MortonStep(even / 2, odd / 2, even % 2, odd % 2);
      assert ShiftRight(MortonCode(even, odd), 2 * k) == ShiftRight(MortonCode(even, odd) / 2, 2 * k - 1);
      assert MortonCode(even, odd) / 2 / 2 == MortonCode(even / 2, odd / 2);
    }
  }

  /** Dropping the lowest bit swaps the roles of the two halves. */
  lemma {:induction false} MortonHalf(even: nat, odd: nat)
    ensures MortonCode(even, odd) / 2 == MortonCode(odd, even / 2)
    decreases even + odd
  {
    hide MortonCode;
    NoBits();
    if even != 0 || odd != 0 {
      var e, o := even / 2, odd / 2;
      MortonHalf(e, o);
      MortonDigits(even, odd);
      MortonDigits(odd, e);
      MortonDigits(e, o);
      HalveDigits(MortonCode(e, o), MortonCode(o, e / 2), MortonCode(e / 2, o / 2), e % 2, o % 2, even % 2, odd % 2);
    }
  }

  lemma MortonDigits(even: nat, odd: nat)
    ensures MortonCode(even, odd) == even % 2 + 2 * (odd % 2) + 4 * MortonCode(even / 2, odd / 2)
  {
    hide MortonCode;
    MortonStep(even / 2, odd / 2, even % 2, odd % 2);
  }

  lemma {:induction false} HalveDigits(m: nat, t: nat, r: nat, p: nat, q: nat, p': nat, q': nat)
    requires p < 2 && p' < 2
    requires m == p + 2 * q + 4 * r && m / 2 == t
    ensures (p' + 2 * q' + 4 * m) / 2 == q' + 2 * p + 4 * t
  {
    assert m == 2 * t + p;
  }

  lemma {:induction false} MortonFits(even: nat, odd: nat, k: nat)
    requires even < Pow2(k) && odd < Pow2(k)
    ensures MortonCode(even, odd) < Pow2(2 * k)
  {
    if k > 0 {
      assert Pow2(2 * k) == 4 * Pow2(2 * (k - 1));
      MortonFits(even / 2, odd / 2, k - 1);
    }
  }
}
