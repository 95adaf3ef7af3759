/** The CRC32c fold is division by the generator polynomial. */
module Remainder {
  import opened Bytes
  import opened Iteration
  import opened Crc32c
  import opened Polynomial
  import Bitmap

  // ---- the message ----------------------------------------------------------------------------------

  /** A byte as a polynomial: its lowest bit comes first, at the highest power. */
  function BytePoly(b: byte): Poly {
    set j: nat | j < 8 && Bitmap.BitOf(b, j) == 1 :: 7 - j
  }

  /** A message as a polynomial: its first byte has the highest powers. */
  function MessagePoly(s: seq<byte>): Poly {
    if |s| == 0 then {} else Plus(TimesX(MessagePoly(s[..|s| - 1]), 8), BytePoly(s[|s| - 1]))
  }

  // ---- the register ---------------------------------------------------------------------------------

  function Half(c: bv32): bv32 {
    c >> 1
  }

  predicate Odd(c: bv32) {
    c & 1 == 1
  }

  /** Bit `k` of a register. */
  predicate BitAt(c: bv32, k: nat) {
    Odd(Iter(Half, c, k))
  }

  /** A register as a polynomial: its lowest bit is the coefficient of the 31st power. */
  function Coeffs(c: bv32): (p: Poly)
    ensures Below(p, 32)
  {
    set k: nat | k < 32 && BitAt(c, k) :: 31 - k
  }

  lemma InCoeffs(c: bv32, i: nat)
    requires i < 32
    ensures i in Coeffs(c) <==> BitAt(c, 31 - i)
  {
    hide BitAt;
    if BitAt(c, 31 - i) {
      assert 31 - (31 - i) in Coeffs(c);
    }
  }

  lemma OddOfXor(a: bv32, b: bv32)
    ensures Odd(Xor(a, b)) <==> Odd(a) != Odd(b)
  {
  }

  lemma HalfLinear()
    ensures Linear(Half, Xor)
  {
    forall a, b ensures Half(Xor(a, b)) == Xor(Half(a), Half(b)) { ShiftOfXor(a, b); }
  }

  lemma BitOfXor(a: bv32, b: bv32, k: nat)
    ensures BitAt(Xor(a, b), k) <==> BitAt(a, k) != BitAt(b, k)
  {
    hide Xor, Odd, Half;
    HalfLinear();
    IterLinear(Half, Xor, a, b, k);
    OddOfXor(Iter(Half, a, k), Iter(Half, b, k));
  }

  lemma CoeffsOfXor(a: bv32, b: bv32)
    ensures Coeffs(Xor(a, b)) == Plus(Coeffs(a), Coeffs(b))
  {
    hide BitAt, Xor, Coeffs;
    forall i: nat | i < 32 ensures i in Coeffs(Xor(a, b)) <==> i in Plus(Coeffs(a), Coeffs(b)) {
      BitOfXor(a, b, 31 - i);
      InCoeffs(a, i);
      InCoeffs(b, i);
      InCoeffs(Xor(a, b), i);
    }
  }

  function Down(c: bv32): bv32 {
    c >> 8
  }

  lemma EightHalves(c: bv32)
    ensures Iter(Half, c, 8) == Down(c)
  {
    hide Half, Down;
    var f := Half;
    assert Iter(f, c, 1) == f(Iter(f, c, 0));
    assert Iter(f, c, 3) == f(f(Iter(f, c, 1)));
    assert Iter(f, c, 5) == f(f(Iter(f, c, 3)));
    assert Iter(f, c, 7) == f(f(Iter(f, c, 5)));
    HalvedEight(c);
  }

  lemma HalvedEight(c: bv32)
    ensures Half(Half(Half(Half(Half(Half(Half(Half(c)))))))) == Down(c)
  {
  }

  lemma NothingAbove(c: bv32)
    ensures Down(Down(Down(Down(c)))) == 0
  {
  }

  lemma AllHalves(c: bv32)
    ensures Iter(Half, c, 32) == 0
  {
    hide Half, Odd, Down;
    EightHalves(c);
    EightHalves(Down(c));
    EightHalves(Down(Down(c)));
    EightHalves(Down(Down(Down(c))));
    IterSum(Half, c, 8, 8);
    IterSum(Half, c, 16, 8);
    IterSum(Half, c, 24, 8);
    NothingAbove(c);
  }

  /** There is no bit 32. */
  lemma NoTopBit(c: bv32)
    ensures !BitAt(c, 32)
  {
    hide Half, Iter;
    AllHalves(c);
  }

  lemma NextBit(c: bv32, k: nat)
    ensures BitAt(Half(c), k) == BitAt(c, k + 1)
  {
    hide Half, Odd;
    IterFirst(Half, c, k);
  }

  /** Shifting the register down multiplies by x; the bit shifted out is the 32nd power. */
  lemma CoeffsOfHalf(c: bv32)
    ensures TimesX(Coeffs(c), 1) == Coeffs(Half(c)) + (if Odd(c) then {32} else {})
  {
    hide TimesX, BitAt, Coeffs, Half, Odd;
    var h := Coeffs(Half(c));
    forall i: nat ensures i in TimesX(Coeffs(c), 1) <==> i in h + (if Odd(c) then {32} else {}) {
      InTimesX(Coeffs(c), 1, i);
      if i == 0 {
        NoTopBit(c);
        NextBit(c, 31);
        InCoeffs(Half(c), 0);
      } else if i < 32 {
        NextBit(c, 31 - i);
        InCoeffs(Half(c), i);
        InCoeffs(c, i - 1);
      } else if i == 32 {
        InCoeffs(c, 31);
        LowestBit(c);
      }
    }
  }

  lemma LowestBit(c: bv32)
    ensures BitAt(c, 0) <==> Odd(c)
  {
  }

  /** The lowest four bits of `w`, lowest first, and what is above them. */
  predicate Digit(w: bv32, b0: bool, b1: bool, b2: bool, b3: bool, above: bv32) {
    && Odd(w) == b0 && Odd(Half(w)) == b1 && Odd(Half(Half(w))) == b2 && Odd(Half(Half(Half(w)))) == b3
    && Half(Half(Half(Half(w)))) == above
  }

  /** Four bits of a register, given what is left of it below them. */
  lemma FourBits(c: bv32, n: nat, w: bv32, b0: bool, b1: bool, b2: bool, b3: bool, above: bv32)
    requires Iter(Half, c, n) == w && Digit(w, b0, b1, b2, b3, above)
    ensures BitAt(c, n) == b0 && BitAt(c, n + 1) == b1 && BitAt(c, n + 2) == b2 && BitAt(c, n + 3) == b3
    ensures Iter(Half, c, n + 4) == above
  {
    hide Half, Odd;
    var f := Half;
    assert Iter(f, c, n + 1) == f(Iter(f, c, n));
    assert Iter(f, c, n + 3) == f(f(Iter(f, c, n + 1)));
  }

  /** The polynomial constant of the engines is the generator without its highest power. */
  lemma CoeffsOfPoly()
    ensures Coeffs(POLY) == Exponents(GENERATOR[1..])
  {
    hide Coeffs, BitAt, Iter, Half, Odd;
    PolyBits();
    forall i: nat | i < 32 ensures i in Coeffs(POLY) <==> i in GENERATOR[1..] {
      InCoeffs(POLY, i);
      PolyBitIsExponent(i);
    }
  }

  const POLY_BITS: seq<bool> := [
    false, false, false, true, true, true, true, false, true, true, false, true, true, true, false, false,
    false, true, true, false, true, true, true, true, false, true, false, false, false, false, false, true]

  lemma PolyBits()
    ensures forall k :: 0 <= k < 32 ==> BitAt(POLY, k) == POLY_BITS[k]
  {
    hide BitAt;
    LowPolyBits();
    HighPolyBits();
  }

  lemma LowPolyBits()
    ensures forall k :: 0 <= k < 16 ==> BitAt(POLY, k) == POLY_BITS[k]
    ensures Iter(Half, POLY, 16) == 0x82F6
  {
    hide BitAt, Iter, Half, Odd, Digit;
    PolyDigits();
    PolyStart();
    FourBits(POLY, 0, 0x82F6_3B78, false, false, false, true, 0x82F_63B7);
    FourBits(POLY, 4, 0x82F_63B7, true, true, true, false, 0x82_F63B);
    FourBits(POLY, 8, 0x82_F63B, true, true, false, true, 0x8_2F63);
    FourBits(POLY, 12, 0x8_2F63, true, true, false, false, 0x82F6);
  }

  lemma HighPolyBits()
    ensures forall k :: 16 <= k < 32 ==> BitAt(POLY, k) == POLY_BITS[k]
  {
    hide BitAt, Iter, Half, Odd, Digit;
    PolyDigits();
    LowPolyBits();
    FourBits(POLY, 16, 0x82F6, false, true, true, false, 0x82F);
    FourBits(POLY, 20, 0x82F, true, true, true, true, 0x82);
    FourBits(POLY, 24, 0x82, false, true, false, false, 0x8);
    FourBits(POLY, 28, 0x8, false, false, false, true, 0);
  }

  lemma PolyStart()
    ensures Iter(Half, POLY, 0) == 0x82F6_3B78
  {
  }

  lemma PolyBitIsExponent(i: nat)
    requires i < 32
    ensures POLY_BITS[31 - i] <==> i in GENERATOR[1..]
  {
    assert GENERATOR[1..] == [28, 27, 26, 25, 23, 22, 20, 19, 18, 14, 13, 11, 10, 9, 8, 6, 0];
  }

  lemma PolyDigits()
    ensures Digit(0x82F6_3B78, false, false, false, true, 0x82F_63B7)
    ensures Digit(0x82F_63B7, true, true, true, false, 0x82_F63B)
    ensures Digit(0x82_F63B, true, true, false, true, 0x8_2F63)
    ensures Digit(0x8_2F63, true, true, false, false, 0x82F6)
    ensures Digit(0x82F6, false, true, true, false, 0x82F)
    ensures Digit(0x82F, true, true, true, true, 0x82)
    ensures Digit(0x82, false, true, false, false, 0x8)
    ensures Digit(0x8, false, false, false, true, 0)
  {
  }

  // ---- one step -------------------------------------------------------------------------------------

  /** One shift of the register multiplies by x modulo the generator. */
  lemma ShiftIsTimesX(c: bv32)
    ensures Congruent(TimesX(Coeffs(c), 1), Coeffs(Shift(c)))
  {
    hide Coeffs, Times, TimesX, Half, Odd, Xor, Shift, Plus, Congruent, Exponents;
    CoeffsOfHalf(c);
    var h := Coeffs(Half(c));
    ShiftCases(c);
    if Odd(c) {
      CoeffsOfXor(Half(c), POLY);
      CoeffsOfPoly();
      Carried(h, Coeffs(POLY));
    } else {
      NoCarry(h);
      CongruentSelf(h);
    }
  }

  lemma ShiftCases(c: bv32)
    ensures Shift(c) == if Odd(c) then Xor(Half(c), POLY) else Half(c)
  {
  }

  lemma NoCarry(h: Poly)
    ensures h + {} == h
  {
  }

  /** The 32nd power is the generator less its other powers. */
  lemma Carried(h: Poly, low: Poly)
    requires Below(h, 32) && low == Exponents(GENERATOR[1..])
    ensures Congruent(h + {32}, Plus(h, low))
  {
    hide Times, Exponents, Plus;
    GeneratorDescends();
    LeadingPower(h, GENERATOR);
  }

  lemma GeneratorDescends()
    ensures Descending(GENERATOR)
  {
  }

  lemma {:induction false} ShiftsAreTimesX(c: bv32, n: nat)
    ensures Congruent(TimesX(Coeffs(c), n), Coeffs(Iter(Shift, c, n)))
  {
    hide Coeffs, Times, TimesX, Shift, Congruent;
    if n == 0 {
      TimesXNothing(Coeffs(c), 0);
      CongruentSelf(Coeffs(c));
    } else {
      ShiftsAreTimesX(c, n - 1);
      var d := Iter(Shift, c, n - 1);
      CongruentTimesX(TimesX(Coeffs(c), n - 1), Coeffs(d), 1);
      TimesXTwice(Coeffs(c), n - 1, 1);
      ShiftIsTimesX(d);
      CongruentTransitive(TimesX(Coeffs(c), n), TimesX(Coeffs(d), 1), Coeffs(Shift(d)));
    }
  }

  // ---- a byte ---------------------------------------------------------------------------------------

  /** A byte in the register sits at the 24th power and up. */
  lemma CoeffsOfByte(b: byte)
    ensures Coeffs(Bits(b)) == TimesX(BytePoly(b), 24)
  {
    hide Coeffs, TimesX, BitAt, Bits, BytePoly, Bitmap.BitOf;
    assert Bitmap.Pow2(8) == 0x100;
    hide Bitmap.Pow2;
    forall i: nat ensures i in Coeffs(Bits(b)) <==> i in TimesX(BytePoly(b), 24) {
      InTimesX(BytePoly(b), 24, i);
      if i < 32 {
        InCoeffs(Bits(b), i);
        BitOfByte(b, 31 - i);
        if i < 24 {
          NoHighBit(b, 31 - i, 8);
        }
      }
      if i >= 24 {
        InBytePoly(b, i - 24);
      }
    }
  }

  lemma InBytePoly(b: byte, i: nat)
    ensures i in BytePoly(b) <==> i < 8 && Bitmap.BitOf(b, 7 - i) == 1
  {
    hide Bitmap.BitOf;
    if i < 8 && Bitmap.BitOf(b, 7 - i) == 1 {
      assert 7 - (7 - i) in BytePoly(b);
    }
  }

  lemma {:induction false} BitOfByte(b: byte, k: nat)
    ensures BitAt(Bits(b), k) <==> Bitmap.BitOf(b, k) == 1
    decreases k
  {
    hide Half, Odd, Bits;
    HalfOfBits(b);
    if k > 0 {
      NextBit(Bits(b), k - 1);
      BitOfByte(b / 2, k - 1);
    }
  }

  lemma {:induction false} NoHighBit(v: nat, k: nat, n: nat)
    requires v < Bitmap.Pow2(n) && n <= k && v < 0x100
    ensures Bitmap.BitOf(v, k) == 0
    decreases k
  {
    if k > 0 && n > 0 {
      NoHighBit(v / 2, k - 1, n - 1);
    } else if k > 0 {
      NoHighBit(0, k - 1, 0);
    }
  }

  /** Halving a byte halves its bits. */
  lemma HalfOfBits(b: byte)
    ensures Half(Bits(b)) == Bits(b / 2) && (Odd(Bits(b)) <==> b % 2 == 1)
  {
    hide Nibbles, Half, Odd;
    var h, l := b / 0x10, b % 0x10;
    NibbleHalf(h);
    NibbleHalf(l);
    SmallNibble(l / 2);
    HalfOfNibbles(h as bv4, l as bv4);
    assert b / 2 / 0x10 == h / 2 && b / 2 % 0x10 == h % 2 * 8 + l / 2;
  }

  lemma HalfOfNibbles(h: bv4, l: bv4)
    ensures Half(Nibbles(h, l)) == Nibbles(h >> 1, if h & 1 == 1 then (l >> 1) | 8 else l >> 1)
    ensures Odd(Nibbles(h, l)) <==> l & 1 == 1
  {
  }

  lemma NibbleHalf(n: int)
    requires 0 <= n < 0x10
    ensures n as bv4 >> 1 == (n / 2) as bv4
    ensures n as bv4 & 1 == 1 <==> n % 2 == 1
  {
    SmallNibble(n / 2);
  }

  /** Each nibble below eight, and the one with the top bit set. */
  lemma SmallNibble(m: int)
    requires 0 <= m < 8
    ensures (2 * m) as bv4 >> 1 == m as bv4 && (2 * m + 1) as bv4 >> 1 == m as bv4
    ensures (2 * m) as bv4 & 1 == 0 && (2 * m + 1) as bv4 & 1 == 1
    ensures (8 + m) as bv4 == (m as bv4) | 8
  {
    assert m == 0 || m == 1 || m == 2 || m == 3 || m == 4 || m == 5 || m == 6 || m == 7;
  }

  /** Bit `j` of the message, first byte first and lowest bit first, is its coefficient `j` places from the top. */
  lemma {:induction false} MessageBits(s: seq<byte>, j: nat)
    requires j < 8 * |s|
    ensures 8 * |s| - 1 - j in MessagePoly(s) <==> Bitmap.BitOf(s[j / 8], j % 8) == 1
    ensures Below(MessagePoly(s), 8 * |s|)
  {
    hide BytePoly, TimesX, Bitmap.BitOf, Plus;
    var n := |s| - 1;
    MessageBelow(s);
    InPlus(TimesX(MessagePoly(s[..n]), 8), BytePoly(s[n]), 8 * |s| - 1 - j);
    InTimesX(MessagePoly(s[..n]), 8, 8 * |s| - 1 - j);
    InBytePoly(s[n], 8 * |s| - 1 - j);
    if j < 8 * n {
      MessageBits(s[..n], j);
    } else {
      MessageBelow(s[..n]);
    }
  }

  lemma {:induction false} MessageBelow(s: seq<byte>)
    ensures Below(MessagePoly(s), 8 * |s|)
  {
    hide BytePoly, TimesX, Plus;
    if |s| > 0 {
      var n := |s| - 1;
      MessageBelow(s[..n]);
      forall i | i in MessagePoly(s) ensures i < 8 * |s| {
        InPlus(TimesX(MessagePoly(s[..n]), 8), BytePoly(s[n]), i);
        InTimesX(MessagePoly(s[..n]), 8, i);
        InBytePoly(s[n], i);
      }
    }
  }

  // ---- the fold -------------------------------------------------------------------------------------

  /** What is divided when `s` is folded from register `c`: the register moved up past the message, and
      the message moved up past the remainder. */
  function Dividend(c: Poly, s: seq<byte>): Poly {
    Plus(TimesX(c, 8 * |s|), TimesX(MessagePoly(s), 32))
  }

  lemma NothingFolded(c: bv32)
    ensures Dividend(Coeffs(c), []) == Coeffs(c) && Fold(c, []) == c
  {
    hide Plus, TimesX, Coeffs;
    TimesXNothing(Coeffs(c), 32);
    PlusZero(Coeffs(c));
  }

  lemma DividendNext(c: Poly, s: seq<byte>, b: byte)
    ensures Dividend(c, s + [b]) == Plus(TimesX(Dividend(c, s), 8), TimesX(BytePoly(b), 32))
  {
    hide Plus, TimesX, BytePoly;
    var m := MessagePoly(s);
    assert (s + [b])[..|s|] == s;
    TimesXPlus(TimesX(c, 8 * |s|), TimesX(m, 32), 8);
    TimesXTwice(c, 8 * |s|, 8);
    TimesXTwice(m, 32, 8);
    TimesXTwice(m, 8, 32);
    TimesXPlus(TimesX(m, 8), BytePoly(b), 32);
    PlusAssociative(TimesX(c, 8 * |s| + 8), TimesX(m, 40), TimesX(BytePoly(b), 32));
  }

  lemma ByteStepIsDivision(d: bv32, b: byte)
    ensures Congruent(Plus(TimesX(Coeffs(d), 8), TimesX(BytePoly(b), 32)), Coeffs(ByteStep(d, b)))
  {
    hide Plus, TimesX, BytePoly, Coeffs, Congruent, Xor, Bits, Shift, Iter;
    CoeffsOfXor(d, Bits(b));
    CoeffsOfByte(b);
    TimesXTwice(BytePoly(b), 24, 8);
    TimesXPlus(Coeffs(d), TimesX(BytePoly(b), 24), 8);
    ShiftsAreTimesX(Xor(d, Bits(b)), 8);
  }

  lemma {:induction false} FoldDivides(c: bv32, s: seq<byte>)
    ensures Congruent(Dividend(Coeffs(c), s), Coeffs(Fold(c, s)))
  {
    hide Plus, TimesX, BytePoly, Coeffs, Congruent, ByteStep, Dividend;
    if |s| == 0 {
      NothingFolded(c);
      CongruentSelf(Coeffs(c));
    } else {
      var t, b := s[..|s| - 1], s[|s| - 1];
      var before, d := Dividend(Coeffs(c), t), Fold(c, t);
      var byteUp := TimesX(BytePoly(b), 32);
      FoldDivides(c, t);
      CongruentTimesX(before, Coeffs(d), 8);
      CongruentPlus(TimesX(before, 8), TimesX(Coeffs(d), 8), byteUp);
      ByteStepIsDivision(d, b);
      CongruentTransitive(Plus(TimesX(before, 8), byteUp), Plus(TimesX(Coeffs(d), 8), byteUp), Coeffs(ByteStep(d, b)));
      assert s == t + [b];
      DividendNext(Coeffs(c), t, b);
    }
  }

  /** For every register and message, folding is division by the generator: the register ends as the
      remainder and nothing else is one. */
  lemma FoldIsRemainder(c: bv32, s: seq<byte>, r: Poly)
    ensures IsRemainder(Dividend(Coeffs(c), s), r) <==> r == Coeffs(Fold(c, s))
  {
    hide Dividend, Coeffs, Fold, Congruent;
    FoldDivides(c, s);
    if IsRemainder(Dividend(Coeffs(c), s), r) {
      RemainderUnique(Dividend(Coeffs(c), s), r, Coeffs(Fold(c, s)));
    }
  }

  // ---- the stored checksum --------------------------------------------------------------------------

  predicate InRegister(i: nat) {
    i < 32
  }

  /** All 32 coefficients. */
  function Full(): Poly {
    set i: nat | i < 32 && InRegister(i)
  }

  lemma CoeffsOfOnes()
    ensures Coeffs(ALL_ONES) == Full()
  {
    hide Coeffs, BitAt;
    OnesBits();
    forall i: nat | i < 32 ensures i in Coeffs(ALL_ONES) {
      InCoeffs(ALL_ONES, i);
    }
  }

  lemma OnesBits()
    ensures forall k :: 0 <= k < 32 ==> BitAt(ALL_ONES, k)
  {
    hide BitAt;
    LowOnesBits();
    HighOnesBits();
  }

  lemma LowOnesBits()
    ensures forall k :: 0 <= k < 16 ==> BitAt(ALL_ONES, k)
    ensures Iter(Half, ALL_ONES, 16) == 0xFFFF
  {
    hide BitAt, Iter, Half, Odd, Digit;
    OnesDigits();
    OnesStart();
    FourBits(ALL_ONES, 0, 0xFFFF_FFFF, true, true, true, true, 0xFFF_FFFF);
    FourBits(ALL_ONES, 4, 0xFFF_FFFF, true, true, true, true, 0xFF_FFFF);
    FourBits(ALL_ONES, 8, 0xFF_FFFF, true, true, true, true, 0xF_FFFF);
    FourBits(ALL_ONES, 12, 0xF_FFFF, true, true, true, true, 0xFFFF);
  }

  lemma HighOnesBits()
    ensures forall k :: 16 <= k < 32 ==> BitAt(ALL_ONES, k)
  {
    hide BitAt, Iter, Half, Odd, Digit;
    OnesDigits();
    LowOnesBits();
    FourBits(ALL_ONES, 16, 0xFFFF, true, true, true, true, 0xFFF);
    FourBits(ALL_ONES, 20, 0xFFF, true, true, true, true, 0xFF);
    FourBits(ALL_ONES, 24, 0xFF, true, true, true, true, 0xF);
    FourBits(ALL_ONES, 28, 0xF, true, true, true, true, 0);
  }

  lemma OnesStart()
    ensures Iter(Half, ALL_ONES, 0) == 0xFFFF_FFFF
  {
  }

  lemma OnesDigits()
    ensures Digit(0xFFFF_FFFF, true, true, true, true, 0xFFF_FFFF)
    ensures Digit(0xFFF_FFFF, true, true, true, true, 0xFF_FFFF)
    ensures Digit(0xFF_FFFF, true, true, true, true, 0xF_FFFF) && Digit(0xF_FFFF, true, true, true, true, 0xFFFF)
    ensures Digit(0xFFFF, true, true, true, true, 0xFFF) && Digit(0xFFF, true, true, true, true, 0xFF)
    ensures Digit(0xFF, true, true, true, true, 0xF) && Digit(0xF, true, true, true, true, 0)
  {
  }

  function Not(x: bv32): bv32 {
    !x
  }

  lemma NotIsXor(x: bv32)
    ensures Not(x) == Xor(x, ALL_ONES)
  {
    Complement(x);
  }

  lemma NotTwice(x: bv32)
    ensures Not(Not(x)) == x
  {
  }

  lemma CoeffsOfNot(x: bv32)
    ensures Coeffs(x) == Full() - Coeffs(Not(x))
  {
    hide Coeffs, Xor, Not;
    NotIsXor(x);
    CoeffsOfXor(x, ALL_ONES);
    CoeffsOfOnes();
  }

  /** `z` is `s` with the four bytes of its checksum field zero. */
  ghost predicate FieldCleared(s: seq<byte>, z: seq<byte>, ck: nat) {
    && |z| == |s| && ck + 4 <= |s| && z[..ck] == s[..ck] && z[ck + 4..] == s[ck + 4..]
    && z[ck] == z[ck + 1] == z[ck + 2] == z[ck + 3] == 0
  }

  lemma ClearedIsPut(s: seq<byte>, z: seq<byte>, ck: nat)
    requires FieldCleared(s, z, ck)
    ensures z == PutAt(s, ck, Zeros(4))
  {
    assert z == z[..ck] + z[ck..ck + 4] + z[ck + 4..];
  }

  lemma HalvesToZero(y: bv32)
    requires Half(y) == 0 && !Odd(y)
    ensures y == 0
  {
  }

  lemma {:induction false} NoBitsIsZero(x: bv32, k: nat)
    requires k <= 32 && Iter(Half, x, 32) == 0 && forall j :: 0 <= j < 32 ==> !BitAt(x, j)
    ensures Iter(Half, x, k) == 0
    decreases 32 - k
  {
    hide Half, Odd;
    if k < 32 {
      NoBitsIsZero(x, k + 1);
      assert !BitAt(x, k);
      HalvesToZero(Iter(Half, x, k));
    }
  }

  lemma XorSelf(b: bv32)
    ensures Xor(b, b) == 0
  {
  }

  lemma DifferenceIsZero(a: bv32, b: bv32)
    requires Xor(a, b) == 0
    ensures a == b
  {
    hide Xor;
    XorSelf(b);
    XorCancels(a, b, b);
  }

  /** A polynomial is the image of one register only. */
  lemma CoeffsInjective(a: bv32, b: bv32)
    requires Coeffs(a) == Coeffs(b)
    ensures a == b
  {
    hide Xor, BitAt, Coeffs, Half, Down;
    var x := Xor(a, b);
    CoeffsOfXor(a, b);
    forall j | 0 <= j < 32 ensures !BitAt(x, j) {
      InCoeffs(x, 31 - j);
    }
    AllHalves(x);
    NoBitsIsZero(x, 0);
    DifferenceIsZero(a, b);
  }

  function Value(x: bv32): nat {
    x as nat
  }

  lemma SameValue(a: bv32, b: bv32)
    ensures Value(a) == Value(b) <==> a == b
  {
    if Value(a) == Value(b) {
      AsNatInjective(a, b);
    }
  }

  lemma ChecksumValue(s: seq<byte>, ck: nat)
    requires ck + 4 <= |s|
    ensures CrcStruct(s, ck) == Value(Not(Fold(ALL_ONES, PutAt(s, ck, Zeros(4)))))
  {
    hide Fold;
  }

  /** The checksum of a structure, as the standard has it: ones ahead of the message with its field
      cleared, divided by the generator, leave the complement of the checksum. */
  lemma StructIsRemainder(s: seq<byte>, z: seq<byte>, ck: nat, x: bv32)
    requires FieldCleared(s, z, ck)
    ensures CrcStruct(s, ck) == Value(x) <==> IsRemainder(Dividend(Full(), z), Full() - Coeffs(x))
  {
    hide Dividend, Coeffs, Fold, IsRemainder, PutAt, CrcStruct, Value, Not, Full;
    ClearedIsPut(s, z, ck);
    var c := Fold(ALL_ONES, z);
    ChecksumValue(s, ck);
    SameValue(Not(c), x);
    CoeffsOfOnes();
    FoldIsRemainder(ALL_ONES, z, Full() - Coeffs(x));
    ComplementCoeffs(c, x);
  }

  lemma ComplementCoeffs(c: bv32, x: bv32)
    ensures Full() - Coeffs(x) == Coeffs(c) <==> Not(c) == x
  {
    hide Coeffs, Not;
    CoeffsOfNot(Not(x));
    NotTwice(x);
    NotTwice(c);
    if Full() - Coeffs(x) == Coeffs(c) {
      CoeffsInjective(c, Not(x));
    }
  }
}
