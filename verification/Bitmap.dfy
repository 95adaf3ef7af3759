/** The LSB-first allocation bitmap: first fit, and the bump counter it amounts to. */
module Bitmap {
  import opened Bytes

  function BitOf(v: byte, k: nat): nat {
    if k == 0 then v % 2 else BitOf(v / 2, k - 1)
  }

  /** `val | (1 << bit)`. */
  function SetBit(v: byte, k: nat): (r: nat)
    requires k < 8
    decreases k
  {
    if k == 0 then v / 2 * 2 + 1 else SetBit(v / 2, k - 1) * 2 + v % 2
  }

  lemma {:induction false} SetBitFits(v: byte, k: nat, n: nat)
    requires k < n <= 8 && v < Pow2(n)
    ensures SetBit(v, k) < Pow2(n)
    decreases k
  {
    if k > 0 {
      SetBitFits(v / 2, k - 1, n - 1);
    }
  }

  function Pow2(n: nat): nat {
    if n == 0 then 1 else 2 * Pow2(n - 1)
  }

  /** What the lowest `n` bits are worth, bit `k` being worth two to the `k`. */
  function Worth(v: byte, n: nat): nat {
    if n == 0 then 0 else Worth(v, n - 1) + BitOf(v, n - 1) * Pow2(n - 1)
  }

  lemma {:induction false} WorthOfHalf(v: byte, n: nat)
    ensures Worth(v, n + 1) == v % 2 + 2 * Worth(v / 2, n)
  {
    if n > 0 {
      WorthOfHalf(v, n - 1);
      assert Pow2(n) == 2 * Pow2(n - 1) && BitOf(v, n) == BitOf(v / 2, n - 1);
      Doubled(BitOf(v, n), Pow2(n - 1));
    }
  }

  lemma Doubled(b: nat, m: nat)
    ensures b * (2 * m) == 2 * (b * m)
  {
  }

  /** A byte is what its bits are worth. */
  lemma {:induction false} BitsByWorth(v: byte, n: nat)
    requires v < Pow2(n)
    ensures Worth(v, n) == v
    decreases n
  {
    if n > 0 {
      BitsByWorth(v / 2, n - 1);
      WorthOfHalf(v, n - 1);
    }
  }

  /** Setting a clear bit adds its worth and setting a set one changes nothing. */
  lemma {:induction false} SetBitAdds(v: byte, k: nat)
    requires k < 8
    ensures SetBit(v, k) == if BitOf(v, k) == 0 then v + Pow2(k) else v
    decreases k
  {
    if k > 0 {
      SetBitAdds(v / 2, k - 1);
    }
  }

  /** Position of the lowest clear bit. */
  function LowClear(v: byte): nat
    decreases v
  {
    if v % 2 == 0 then 0 else 1 + LowClear(v / 2)
  }

  /** Index of the first clear bit of the bitmap, `8 * |bm|` when every bit is set. */
  function FirstClear(bm: seq<byte>): nat {
    if |bm| == 0 then 0 else if bm[0] == 0xFF then 8 + FirstClear(bm[1..]) else LowClear(bm[0])
  }

  function BitAt(bm: seq<byte>, r: nat): nat
    requires r < 8 * |bm|
  {
    BitOf(bm[r / 8], r % 8)
  }

  lemma {:induction false} LowClearMeans(v: byte, n: nat)
    requires v < Pow2(n) - 1 && n <= 8
    ensures LowClear(v) < n && BitOf(v, LowClear(v)) == 0
    ensures forall j :: 0 <= j < LowClear(v) ==> BitOf(v, j) == 1
    decreases n
  {
    if v % 2 == 1 {
      LowClearMeans(v / 2, n - 1);
      forall j | 0 <= j < LowClear(v) ensures BitOf(v, j) == 1 {
        if j > 0 { assert BitOf(v, j) == BitOf(v / 2, j - 1); }
      }
    }
  }

  lemma AllBitsSet(j: nat)
    requires j < 8
    ensures BitOf(0xFF, j) == 1
  {
    assert BitOf(0xFF, 1) == BitOf(0x7F, 0) && BitOf(0xFF, 2) == BitOf(0x3F, 0) && BitOf(0xFF, 3) == BitOf(0x1F, 0);
    assert BitOf(0xFF, 4) == BitOf(0x0F, 0) && BitOf(0xFF, 5) == BitOf(7, 0) && BitOf(0xFF, 6) == BitOf(3, 0);
    assert BitOf(0xFF, 7) == BitOf(1, 0);
  }

  /** First fit: the bit found is clear and every bit before it is set. */
  lemma {:induction false} FirstClearIsFirst(bm: seq<byte>)
    ensures FirstClear(bm) <= 8 * |bm|
    ensures FirstClear(bm) < 8 * |bm| ==> BitAt(bm, FirstClear(bm)) == 0
    ensures forall r :: 0 <= r < FirstClear(bm) ==> BitAt(bm, r) == 1
  {
    hide BitOf, LowClear, BitAt;
    if |bm| > 0 {
      var k := FirstClear(bm);
      if bm[0] == 0xFF {
        FirstClearIsFirst(bm[1..]);
        forall r | 0 <= r < k ensures BitAt(bm, r) == 1 {
          BitInByte(bm, r);
          if r < 8 { AllBitsSet(r); }
        }
        if k < 8 * |bm| { BitInByte(bm, k); }
      } else {
        ByteHasClear(bm[0]);
        forall r | 0 <= r <= k ensures BitAt(bm, r) == BitOf(bm[0], r) { BitInByte(bm, r); }
      }
    }
  }

  /** A bit is in the first byte or in the bytes after it. */
  lemma BitInByte(bm: seq<byte>, r: nat)
    requires r < 8 * |bm|
    ensures r < 8 ==> BitAt(bm, r) == BitOf(bm[0], r)
    ensures r >= 8 ==> BitAt(bm, r) == BitAt(bm[1..], r - 8)
  {
    hide BitOf;
  }

  lemma ByteHasClear(v: byte)
    requires v != 0xFF
    ensures LowClear(v) < 8 && BitOf(v, LowClear(v)) == 0
    ensures forall j :: 0 <= j < LowClear(v) ==> BitOf(v, j) == 1
  {
    hide BitOf, LowClear;
    assert Pow2(8) == 0x100;
    LowClearMeans(v, 8);
  }

  /** The scan may skip the full bytes it has passed. */
  lemma {:induction false} FirstClearSkips(bm: seq<byte>, p: nat)
    requires p <= |bm| && forall j :: 0 <= j < p ==> bm[j] == 0xFF
    ensures FirstClear(bm) == 8 * p + FirstClear(bm[p..])
  {
    if p > 0 {
      FirstClearSkips(bm[1..], p - 1);
      assert bm[1..][p - 1..] == bm[p..];
    }
  }

  // ---- a bitmap whose set bits are a prefix ---------------------------------------------

  function Ones(m: nat): nat {
    if m == 0 then 0 else 2 * Ones(m - 1) + 1
  }

  lemma {:induction false} OnesPow(m: nat)
    requires m <= 8
    ensures Ones(m) == Pow2(m) - 1 && Pow2(m) <= 0x100
    ensures m < 8 ==> Ones(m) < 0xFF
    ensures m == 8 ==> Ones(m) == 0xFF
  {
    assert Pow2(8) == 256 && Pow2(7) == 128;
    if m > 0 {
      OnesPow(m - 1);
    }
  }

  lemma {:induction false} OnesLaws(m: nat)
    requires m <= 8
    ensures Ones(m) < 0x100 && Ones(m) == Pow2(m) - 1 && Pow2(m) <= 0x100 && LowClear(Ones(m)) == m
    ensures m < 8 ==> SetBit(Ones(m), m) == Ones(m + 1) && Ones(m) != 0xFF
    ensures m == 8 ==> Ones(m) == 0xFF
  {
    hide Pow2;
    OnesPow(m);
    if m > 0 {
      OnesLaws(m - 1);
      assert Ones(m) / 2 == Ones(m - 1) && Ones(m) % 2 == 1;
    }
  }

  /** Byte `j` of a bitmap with exactly the first `k` bits set. */
  function BumpByte(k: nat, j: nat): (b: byte) {
    var m := if k <= 8 * j then 0 else Min(k - 8 * j, 8);
    OnesLaws(m);
    Ones(m)
  }

  function Bump(k: nat, n: nat): (bm: seq<byte>)
    ensures |bm| == n
  {
    seq(n, j requires 0 <= j < n => BumpByte(k, j))
  }

  lemma BumpStartsEmpty(n: nat)
    ensures Bump(0, n) == Zeros(n)
  {
  }

  /** First fit on a prefix bitmap is the counter. */
  lemma {:induction false} FirstClearOfBump(k: nat, n: nat)
    requires k <= 8 * n
    ensures FirstClear(Bump(k, n)) == k
    decreases n
  {
    if n > 0 {
      var bm := Bump(k, n);
      OnesLaws(Min(k, 8));
      if k >= 8 {
        assert bm[1..] == Bump(k - 8, n - 1);
        FirstClearOfBump(k - 8, n - 1);
      }
    }
  }

  lemma BumpByteAdvances(k: nat, j: nat)
    ensures j == k / 8 ==> SetBit(BumpByte(k, j), k % 8) == BumpByte(k + 1, j)
    ensures j != k / 8 ==> BumpByte(k + 1, j) == BumpByte(k, j)
  {
    OnesLaws(k % 8);
  }

  /** Setting the bit first fit found advances the counter. */
  lemma BumpAdvances(k: nat, n: nat)
    requires k < 8 * n
    ensures SetBit(Bump(k, n)[k / 8], k % 8) < 0x100
    ensures PutAt(Bump(k, n), k / 8, [SetBit(Bump(k, n)[k / 8], k % 8)]) == Bump(k + 1, n)
  {
    BumpByteAdvances(k, k / 8);
    hide SetBit, BumpByte;
    var b: byte := SetBit(Bump(k, n)[k / 8], k % 8);
    forall j | 0 <= j < n ensures PutAt(Bump(k, n), k / 8, [b])[j] == BumpByte(k + 1, j) {
      BumpByteAdvances(k, j);
    }
  }

  // ---- counting set bits ------------------------------------------------------------------

  function Weight(v: byte, n: nat): nat {
    if n == 0 then 0 else v % 2 + Weight(v / 2, n - 1)
  }

  function SetBits(bm: seq<byte>): nat {
    if |bm| == 0 then 0 else Weight(bm[0], 8) + SetBits(bm[1..])
  }

  lemma {:induction false} OnesBits(m: nat, n: nat)
    requires m <= n <= 8
    ensures Ones(m) < 0x100 && Weight(Ones(m), n) == m
    ensures forall j :: 0 <= j < n ==> BitOf(Ones(m), j) == if j < m then 1 else 0
  {
    OnesLaws(m);
    if m > 0 {
      assert Ones(m) / 2 == Ones(m - 1) && Ones(m) % 2 == 1;
      OnesBits(m - 1, n - 1);
      forall j | 0 <= j < n ensures BitOf(Ones(m), j) == if j < m then 1 else 0 {
        if j > 0 { assert BitOf(Ones(m), j) == BitOf(Ones(m - 1), j - 1); }
      }
    } else {
      NoBits(n);
    }
  }

  lemma {:induction false} NoBits(n: nat)
    ensures Weight(0, n) == 0 && forall j :: 0 <= j < n ==> BitOf(0, j) == 0
  {
    if n > 0 {
      NoBits(n - 1);
      forall j | 0 <= j < n ensures BitOf(0, j) == 0 {
        if j > 0 { assert BitOf(0, j) == BitOf(0, j - 1); }
      }
    }
  }

  /** The counter's bitmap has exactly the bits below `k` set. */
  lemma BumpBits(k: nat, n: nat, r: nat)
    requires r < 8 * n
    ensures BitAt(Bump(k, n), r) == if r < k then 1 else 0
  {
    var j := r / 8;
    OnesBits(if k <= 8 * j then 0 else Min(k - 8 * j, 8), 8);
    hide Ones, BitOf;
  }

  lemma {:induction false} SetBitsOfBump(k: nat, n: nat)
    requires k <= 8 * n
    ensures SetBits(Bump(k, n)) == k
    decreases n
  {
    hide Ones, Weight;
    if n > 0 {
      var m := Min(k, 8);
      OnesBits(m, 8);
      var bm := Bump(k, n);
      assert bm[1..] == Bump(k - m, n - 1);
      SetBitsOfBump(k - m, n - 1);
    }
  }
}
