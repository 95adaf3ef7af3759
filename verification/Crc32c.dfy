/** CRC32c (Castagnoli, RFC 3720 section 12.1) in its two bit-level forms, and its
    error-detection guarantee. */
module Crc32c {
  import opened Bytes
  import opened Iteration

  const POLY: bv32 := 0x82F63B78
  const ALL_ONES: bv32 := 0xFFFF_FFFF

  // ---- specification ---------------------------------------------------------------

  function Xor(a: bv32, b: bv32): bv32 {
    a ^ b
  }

  function Shift(c: bv32): bv32 {
    if c & 1 == 1 then (c >> 1) ^ POLY else c >> 1
  }

  function EightShifts(c: bv32): bv32 {
    Iter(Shift, c, 8)
  }

  function Nibbles(hi: bv4, lo: bv4): bv32 {
    (hi as bv32 << 4) | (lo as bv32)
  }

  /** The bits of a byte, one nibble at a time. */
  function Bits(b: byte): bv32 {
    Nibbles((b / 0x10) as bv4, (b % 0x10) as bv4)
  }

  function ByteStep(c: bv32, b: byte): bv32 {
    EightShifts(Xor(c, Bits(b)))
  }

  function Fold(c: bv32, s: seq<byte>): bv32 {
    Foldl(ByteStep, c, s)
  }

  /** The checksum of a packed structure whose field at `ck` counts as zero. */
  function CrcStruct(s: seq<byte>, ck: nat): (v: nat)
    requires ck + 4 <= |s|
    ensures v < TWO_32
  {
    !Fold(ALL_ONES, PutAt(s, ck, Zeros(4))) as nat
  }

  // ---- the C engine -----------------------------------------------------------------

  method Crc32cByte(crc: bv32, b: byte) returns (r: bv32)
    ensures r == ByteStep(crc, b)
  {
    r := crc ^ Bits(b);
    for i := 0 to 8
      invariant r == Iter(Shift, Xor(crc, Bits(b)), i)
    {
      LowBit(r);
      if r & 1 != 0 {
        r := (r >> 1) ^ POLY;
      } else {
        r := r >> 1;
      }
    }
  }

  /** The running CRC of `p`, the bytes of the checksum field replaced by zero on the fly. */
  method Crc32cZeroing(p: seq<byte>, ck: nat) returns (crc: bv32)
    requires ck + 4 <= |p|
    ensures crc == Fold(ALL_ONES, PutAt(p, ck, Zeros(4)))
  {
    hide ByteStep;
    ghost var z := PutAt(p, ck, Zeros(4));
    crc := ALL_ONES;
    for i := 0 to |p|
      invariant crc == Fold(ALL_ONES, z[..i])
    {
      var b := p[i];
      if i >= ck && i < ck + 4 {
        b := 0;
      }
      ZeroedAt(p, ck, i);
      FoldlNext(ByteStep, ALL_ONES, z, i);
      crc := Crc32cByte(crc, b);
    }
    assert z[..|p|] == z;
  }

  method Crc32cStruct(p: seq<byte>, ck: nat) returns (v: nat)
    requires ck + 4 <= |p|
    ensures v == CrcStruct(p, ck)
  {
    var crc := Crc32cZeroing(p, ck);
    v := !crc as nat;
  }

  // ---- the Python engine ----------------------------------------------------------------

  method PyCrc32c(data: seq<byte>, initial: bv32) returns (crc: bv32)
    ensures crc == Fold(initial, data)
  {
    crc := initial;
    for k := 0 to |data|
      invariant crc == Fold(initial, data[..k])
    {
      FoldlNext(ByteStep, initial, data, k);
      ghost var start := Xor(crc, Bits(data[k]));
      crc := crc ^ Bits(data[k]);
      for i := 0 to 8
        invariant crc == Iter(Shift, start, i)
      {
        MaskedShift(crc);
        crc := (crc >> 1) ^ (POLY & (0 - (crc & 1)));
      }
    }
    assert data[..|data|] == data;
  }

  method PyCrc32cStruct(buf: seq<byte>, ck: nat) returns (v: nat)
    requires ck + 4 <= |buf|
    ensures v == CrcStruct(buf, ck)
  {
    var b := buf;
    for i := ck to ck + 4
      invariant |b| == |buf|
      invariant forall k :: 0 <= k < |b| ==> b[k] == if ck <= k < i then 0 else buf[k]
    {
      b := b[i := 0];
    }
    assert b == PutAt(buf, ck, Zeros(4)) by {
      forall k | 0 <= k < |b| ensures b[k] == PutAt(buf, ck, Zeros(4))[k] { ZeroedAt(buf, ck, k); }
    }
    var crc := PyCrc32c(b, ALL_ONES);
    Complement(crc);
    v := (crc ^ ALL_ONES) as nat;
  }

  lemma ZeroedAt(p: seq<byte>, ck: nat, i: nat)
    requires ck + 4 <= |p| && i < |p|
    ensures PutAt(p, ck, Zeros(4))[i] == if ck <= i < ck + 4 then 0 else p[i]
  {
  }

  lemma LowBit(c: bv32)
    ensures c & 1 != 0 <==> c & 1 == 1
  {
  }

  lemma LowBitIsBit(c: bv32)
    ensures c & 1 == 0 || c & 1 == 1
  {
  }

  lemma MaskedPoly()
    ensures POLY & (0 - 1) == POLY && POLY & (0 - 0) == 0
  {
  }

  lemma MaskedShift(c: bv32)
    ensures (c >> 1) ^ (POLY & (0 - (c & 1))) == Shift(c)
  {
    LowBitIsBit(c);
    MaskedPoly();
    XorZero(c >> 1);
    if c & 1 == 1 {
      assert 0 - (c & 1) == 0 - 1;
    } else {
      assert 0 - (c & 1) == 0;
    }
  }

  lemma Complement(c: bv32)
    ensures c ^ ALL_ONES == !c
  {
  }

  // ---- the checksum field does not count ---------------------------------------------------

  lemma StructIgnoresField(s: seq<byte>, ck: nat, w: seq<byte>)
    requires ck + 4 <= |s| && |w| == 4
    ensures CrcStruct(PutAt(s, ck, w), ck) == CrcStruct(s, ck)
  {
    assert PutAt(PutAt(s, ck, w), ck, Zeros(4)) == PutAt(s, ck, Zeros(4));
  }

  // ---- the shift step is linear and a bijection ----------------------------------------------

  lemma ShiftOfXor(a: bv32, b: bv32)
    ensures (a ^ b) >> 1 == (a >> 1) ^ (b >> 1)
    ensures (a ^ b) & 1 == 1 <==> ((a & 1 == 1) != (b & 1 == 1))
  {
  }

  lemma XorPoly(a: bv32, b: bv32)
    ensures (a ^ POLY) ^ (b ^ POLY) == a ^ b
    ensures (a ^ POLY) ^ b == (a ^ b) ^ POLY == a ^ (b ^ POLY)
  {
  }

  lemma ShiftLinear(a: bv32, b: bv32)
    ensures Shift(a ^ b) == Shift(a) ^ Shift(b)
  {
    ShiftOfXor(a, b);
    XorPoly(a >> 1, b >> 1);
  }

  lemma ShiftInjective(a: bv32, b: bv32)
    requires Shift(a) == Shift(b)
    ensures a == b
  {
  }

  lemma ShiftLaws()
    ensures Linear(Shift, Xor) && Injective(Shift)
  {
    forall a, b ensures Shift(Xor(a, b)) == Xor(Shift(a), Shift(b)) { ShiftLinear(a, b); }
    forall a, b | Shift(a) == Shift(b) ensures a == b { ShiftInjective(a, b); }
  }

  lemma EightShiftsLaws()
    ensures Linear(EightShifts, Xor) && Injective(EightShifts)
  {
    ShiftLaws();
    forall a, b ensures EightShifts(Xor(a, b)) == Xor(EightShifts(a), EightShifts(b)) {
      IterLinear(Shift, Xor, a, b, 8);
    }
    forall a, b | EightShifts(a) == EightShifts(b) ensures a == b { IterInjective(Shift, a, b, 8); }
  }

  lemma XorCancels(a: bv32, b: bv32, x: bv32)
    requires Xor(a, x) == Xor(b, x) || Xor(x, a) == Xor(x, b)
    ensures a == b
  {
  }

  lemma ByteStepInjective()
    ensures InjectiveInState(ByteStep)
  {
    EightShiftsLaws();
    forall c, d, b | ByteStep(c, b) == ByteStep(d, b) ensures c == d { XorCancels(c, d, Bits(b)); }
  }

  // ---- up to four byte steps act as one step on a 32-bit word -----------------------------------

  /** A byte below a word: the byte becomes the low eight bits. */
  function Join(b: byte, x: bv32): bv32 {
    Xor(Bits(b), x << 8)
  }

  /** The bytes of a burst as one little-endian word. */
  function Word(w: seq<byte>): bv32 {
    if |w| == 0 then 0 else Join(w[0], Word(w[1..]))
  }

  lemma NibbleValue(n: int)
    requires 0 <= n < 0x10
    ensures n as bv4 as int == n
  {
  }

  lemma NibblesApart(h: bv4, l: bv4, h': bv4, l': bv4)
    requires Nibbles(h, l) == Nibbles(h', l')
    ensures h == h' && l == l'
  {
  }

  lemma NibblesValue(h: bv4, l: bv4)
    ensures Nibbles(h, l) as int == 16 * (h as int) + l as int
  {
  }

  /** The bits of a byte are the byte. */
  lemma BitsValue(b: byte)
    ensures Bits(b) as int == b
  {
    hide Nibbles;
    NibblesValue((b / 0x10) as bv4, (b % 0x10) as bv4);
    NibbleValue(b / 0x10);
    NibbleValue(b % 0x10);
  }

  lemma BitsInjective(b: byte, c: byte)
    requires Bits(b) == Bits(c)
    ensures b == c
  {
    hide Nibbles;
    NibblesApart((b / 0x10) as bv4, (b % 0x10) as bv4, (c / 0x10) as bv4, (c % 0x10) as bv4);
    NibbleValue(b / 0x10);
    NibbleValue(b % 0x10);
    NibbleValue(c / 0x10);
    NibbleValue(c % 0x10);
  }

  /** `x` fits in `k` bytes. */
  predicate FitsIn(x: bv32, k: nat) {
    if k == 0 then x == 0 else if k == 1 then x < 0x100 else if k == 2 then x < 0x1_0000
    else if k == 3 then x < 0x100_0000 else true
  }

  lemma JoinFits(b: byte, x: bv32, k: nat)
    requires FitsIn(x, k)
    ensures FitsIn(Join(b, x), k + 1)
  {
  }

  lemma {:induction false} WordFits(w: seq<byte>)
    ensures FitsIn(Word(w), |w|)
  {
    if |w| > 0 {
      WordFits(w[1..]);
      JoinFits(w[0], Word(w[1..]), |w| - 1);
    }
  }

  lemma FitsInThree(x: bv32, k: nat)
    requires k < 4 && FitsIn(x, k)
    ensures x < 0x100_0000
  {
  }

  lemma JoinInjective(b: byte, x: bv32, c: byte, y: bv32)
    requires x < 0x100_0000 && y < 0x100_0000
    requires Join(b, x) == Join(c, y)
    ensures Bits(b) == Bits(c) && x == y
  {
  }

  lemma {:induction false} WordInjective(u: seq<byte>, v: seq<byte>)
    requires |u| == |v| <= 4 && Word(u) == Word(v)
    ensures u == v
  {
    if |u| > 0 {
      var x, y := Word(u[1..]), Word(v[1..]);
      WordFits(u[1..]);
      WordFits(v[1..]);
      FitsInThree(x, |u| - 1);
      FitsInThree(y, |u| - 1);
      JoinInjective(u[0], x, v[0], y);
      BitsInjective(u[0], v[0]);
      WordInjective(u[1..], v[1..]);
      assert u == [u[0]] + u[1..] && v == [v[0]] + v[1..];
    }
  }

  lemma Unrolled(c: bv32)
    ensures EightShifts(c) == Shift(Shift(Shift(Shift(Shift(Shift(Shift(Shift(c))))))))
  {
    var f := Shift;
    assert Iter(f, c, 1) == f(Iter(f, c, 0));
    assert Iter(f, c, 3) == f(f(Iter(f, c, 1)));
    assert Iter(f, c, 5) == f(f(Iter(f, c, 3)));
    assert Iter(f, c, 7) == f(f(Iter(f, c, 5)));
  }

  lemma EightPlainShifts(x: bv32)
    requires x < 0x100_0000
    ensures Shift(Shift(Shift(Shift(Shift(Shift(Shift(Shift(x << 8)))))))) == x
  {
  }

  /** Eight shifts bring a 24-bit value back down by a byte. */
  lemma ShiftsBack(x: bv32)
    requires x < 0x100_0000
    ensures EightShifts(x << 8) == x
  {
    Unrolled(x << 8);
    EightPlainShifts(x);
  }

  lemma XorAssociative(a: bv32, b: bv32, c: bv32)
    ensures Xor(Xor(a, b), c) == Xor(a, Xor(b, c))
  {
  }

  /** Feeding one byte and then a word equals eight shifts of the joined word. */
  lemma ByteThenWord(c: bv32, b: byte, x: bv32)
    requires x < 0x100_0000
    ensures Xor(ByteStep(c, b), x) == EightShifts(Xor(c, Join(b, x)))
  {
    ShiftsBack(x);
    EightShiftsOfXor(Xor(c, Bits(b)), x << 8);
    XorAssociative(c, Bits(b), x << 8);
  }

  lemma EightShiftsOfXor(p: bv32, q: bv32)
    ensures EightShifts(Xor(p, q)) == Xor(EightShifts(p), EightShifts(q))
  {
    EightShiftsLaws();
  }

  lemma XorZero(c: bv32)
    ensures Xor(c, 0) == c
  {
  }

  lemma {:induction false} FoldIsShifts(c: bv32, w: seq<byte>)
    requires |w| <= 4
    ensures Fold(c, w) == Iter(EightShifts, Xor(c, Word(w)), |w|)
    decreases |w|
  {
    hide Xor, EightShifts, ByteStep, Bits, Join, FitsIn;
    if |w| == 0 {
      XorZero(c);
    } else {
      var rest := w[1..];
      assert w == [w[0]] + rest;
      FoldlCons(ByteStep, c, w[0], rest);
      FoldIsShifts(ByteStep(c, w[0]), rest);
      WordFits(rest);
      FitsInThree(Word(rest), |rest|);
      ByteThenWord(c, w[0], Word(rest));
      IterFirst(EightShifts, Xor(c, Word(w)), |rest|);
    }
  }

  // ---- burst detection ----------------------------------------------------------------------

  /** The buffers agree outside the `m` bytes at `p`. */
  ghost predicate DifferWithin(a: seq<byte>, b: seq<byte>, p: nat, m: nat) {
    |a| == |b| && p + m <= |a| && a[..p] == b[..p] && a[p + m..] == b[p + m..]
  }

  lemma WindowDetected(c: bv32, u: seq<byte>, v: seq<byte>)
    requires |u| == |v| <= 4 && u != v
    ensures Fold(c, u) != Fold(c, v)
  {
    if Fold(c, u) == Fold(c, v) {
      FoldIsShifts(c, u);
      FoldIsShifts(c, v);
      WordDecides(c, Word(u), Word(v), |u|);
      WordInjective(u, v);
    }
  }

  lemma WordDecides(c: bv32, x: bv32, y: bv32, n: nat)
    requires Iter(EightShifts, Xor(c, x), n) == Iter(EightShifts, Xor(c, y), n)
    ensures x == y
  {
    EightShiftsLaws();
    IterInjective(EightShifts, Xor(c, x), Xor(c, y), n);
    XorCancels(x, y, c);
  }

  /** Any difference confined to four consecutive bytes changes the CRC. */
  lemma BurstDetected(c: bv32, a: seq<byte>, b: seq<byte>, p: nat, m: nat)
    requires m <= 4 && DifferWithin(a, b, p, m) && a != b
    ensures Fold(c, a) != Fold(c, b)
  {
    var u, v := a[p..p + m], b[p..p + m];
    assert a == a[..p] + u + a[p + m..];
    assert b == a[..p] + v + a[p + m..];
    ByteStepInjective();
    forall y ensures Foldl(ByteStep, y, u) != Foldl(ByteStep, y, v) { WindowDetected(y, u, v); }
    WindowDecides(ByteStep, c, a[..p], u, v, a[p + m..]);
  }

  lemma AsNatInjective(x: bv32, y: bv32)
    requires x as nat == y as nat
    ensures x == y
  {
    assert x as nat as bv32 == x;
  }

  lemma NotInjective(x: bv32, y: bv32)
    requires !x == !y
    ensures x == y
  {
  }

  /** A burst outside the checksum field changes the structure checksum. */
  lemma StructBurstDetected(a: seq<byte>, b: seq<byte>, ck: nat, p: nat, m: nat)
    requires m <= 4 && DifferWithin(a, b, p, m) && a != b
    requires ck + 4 <= |a| && (p + m <= ck || ck + 4 <= p)
    ensures CrcStruct(a, ck) != CrcStruct(b, ck)
  {
    var za, zb := PutAt(a, ck, Zeros(4)), PutAt(b, ck, Zeros(4));
    WindowSurvivesZeroing(a, b, ck, p, m);
    BurstDetected(ALL_ONES, za, zb, p, m);
    var x, y := Fold(ALL_ONES, za), Fold(ALL_ONES, zb);
    if CrcStruct(a, ck) == CrcStruct(b, ck) {
      AsNatInjective(!x, !y);
      NotInjective(x, y);
    }
  }

  lemma WindowSurvivesZeroing(a: seq<byte>, b: seq<byte>, ck: nat, p: nat, m: nat)
    requires DifferWithin(a, b, p, m) && a != b
    requires ck + 4 <= |a| && (p + m <= ck || ck + 4 <= p)
    ensures DifferWithin(PutAt(a, ck, Zeros(4)), PutAt(b, ck, Zeros(4)), p, m)
    ensures PutAt(a, ck, Zeros(4)) != PutAt(b, ck, Zeros(4))
  {
    hide PutAt, Zeros;
    ZeroedPrefix(a, b, ck, p);
    ZeroedSuffix(a, b, ck, p + m);
    PutAtElsewhere(a, ck, Zeros(4), p, p + m);
    PutAtElsewhere(b, ck, Zeros(4), p, p + m);
    SplitAround(a, p, m);
    SplitAround(b, p, m);
  }

  lemma SplitAround(s: seq<byte>, p: nat, m: nat)
    requires p + m <= |s|
    ensures s == s[..p] + s[p..p + m] + s[p + m..]
  {
  }

  lemma ZeroedPrefix(a: seq<byte>, b: seq<byte>, ck: nat, p: nat)
    requires |a| == |b| && p <= |a| && ck + 4 <= |a| && a[..p] == b[..p]
    ensures PutAt(a, ck, Zeros(4))[..p] == PutAt(b, ck, Zeros(4))[..p]
  {
    forall i | 0 <= i < p ensures PutAt(a, ck, Zeros(4))[i] == PutAt(b, ck, Zeros(4))[i] {
      ZeroedAt(a, ck, i);
      ZeroedAt(b, ck, i);
      assert a[..p][i] == b[..p][i];
    }
  }

  lemma ZeroedSuffix(a: seq<byte>, b: seq<byte>, ck: nat, q: nat)
    requires |a| == |b| && q <= |a| && ck + 4 <= |a| && a[q..] == b[q..]
    ensures PutAt(a, ck, Zeros(4))[q..] == PutAt(b, ck, Zeros(4))[q..]
  {
    forall i | q <= i < |a| ensures PutAt(a, ck, Zeros(4))[i] == PutAt(b, ck, Zeros(4))[i] {
      ZeroedAt(a, ck, i);
      ZeroedAt(b, ck, i);
      assert a[q..][i - q] == b[q..][i - q];
    }
  }
}
