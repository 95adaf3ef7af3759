/** Byte strings: little-endian fields, in-place edits and Python slice assignment. */
module Bytes {

  type byte = x: int | 0 <= x < 0x100

  const TWO_32: nat := 0x1_0000_0000

  datatype Option<+T> = None | Some(value: T)

  function Min(a: int, b: int): int {
    if a < b then a else b
  }

  function Zeros(n: nat): (r: seq<byte>)
    ensures |r| == n
    ensures forall i :: 0 <= i < n ==> r[i] == 0
  {
    seq(n, _ => 0)
  }

  /** `s` followed by zeros up to length `n`. */
  function Padded(s: seq<byte>, n: nat): (r: seq<byte>)
    requires |s| <= n
    ensures |r| == n
  {
    s + Zeros(n - |s|)
  }

  // ---- little-endian fields -------------------------------------------------

  function Le16(v: nat): (s: seq<byte>)
    ensures |s| == 2
  {
    [v % 0x100, v / 0x100 % 0x100]
  }

  /** The four bytes `put32` stores: only the low 32 bits of `v` survive. */
  function Le32(v: nat): (s: seq<byte>)
    ensures |s| == 4
  {
    [v % 0x100, v / 0x100 % 0x100, v / 0x100 / 0x100 % 0x100, v / 0x100 / 0x100 / 0x100 % 0x100]
  }

  function Le64(v: nat): (s: seq<byte>)
    ensures |s| == 8
  {
    Le32(v % TWO_32) + Le32(v / TWO_32)
  }

  function Get16(s: seq<byte>, o: nat): (v: nat)
    requires o + 2 <= |s|
    ensures v < 0x1_0000
  {
    s[o] as int + 0x100 * (s[o + 1] as int)
  }

  function Get32(s: seq<byte>, o: nat): (v: nat)
    requires o + 4 <= |s|
    ensures v < TWO_32
  {
    s[o] as int + 0x100 * (s[o + 1] as int + 0x100 * (s[o + 2] as int + 0x100 * (s[o + 3] as int)))
  }

  /** The lowest byte comes first. */
  lemma LittleEndian(v: nat, s: seq<byte>, o: nat)
    requires o + 4 <= |s|
    ensures Le32(v) == [v % 0x100, v / 0x100 % 0x100, v / 0x1_0000 % 0x100, v / 0x100_0000 % 0x100]
    ensures Get32(s, o)
         == s[o] as int + 0x100 * s[o + 1] as int + 0x1_0000 * s[o + 2] as int + 0x100_0000 * s[o + 3] as int
  {
  }

  lemma LittleEndian16(v: nat, s: seq<byte>, o: nat)
    requires o + 2 <= |s|
    ensures Le16(v) == [v % 0x100, v / 0x100 % 0x100] && Get16(s, o) == s[o] as int + 0x100 * s[o + 1] as int
  {
  }

  lemma Le32RoundTrip(v: nat)
    requires v < TWO_32
    ensures Get32(Le32(v), 0) == v
  {
    var a := v / 0x100;
    var b := a / 0x100;
    var c := b / 0x100;
    assert c < 0x100 && Le32(v) == [v % 0x100, a % 0x100, b % 0x100, c];
  }

  /** A field read back from where its bytes were stored. */
  lemma FieldReads32(s: seq<byte>, o: nat, v: nat)
    requires v < TWO_32 && o + 4 <= |s| && s[o..o + 4] == Le32(v)
    ensures Get32(s, o) == v
  {
    Le32RoundTrip(v);
    var t := s[o..o + 4];
    assert s[o] == t[0] && s[o + 1] == t[1] && s[o + 2] == t[2] && s[o + 3] == t[3];
  }

  /** Whatever was stored, its low 32 bits are read back. */
  lemma FieldWraps32(s: seq<byte>, o: nat, v: nat)
    requires o + 4 <= |s| && s[o..o + 4] == Le32(v)
    ensures Get32(s, o) == v % TWO_32
  {
    LowBits(v);
    FieldReads32(s, o, v % TWO_32);
  }

  lemma LowBits(v: nat)
    ensures Le32(v % TWO_32) == Le32(v)
  {
    var q, r := v / TWO_32, v % TWO_32;
    assert v == q * TWO_32 + r;
    ByteOfSum(q * 0x100_0000, r);
    ByteOfSum(q * 0x1_0000, r / 0x100);
    ByteOfSum(q * 0x100, r / 0x100 / 0x100);
    ByteOfSum(q, r / 0x100 / 0x100 / 0x100);
  }

  lemma ByteOfSum(a: nat, b: nat)
    ensures (a * 0x100 + b) % 0x100 == b % 0x100 && (a * 0x100 + b) / 0x100 == a + b / 0x100
  {
  }

  lemma FieldReads16(s: seq<byte>, o: nat, v: nat)
    requires v < 0x1_0000 && o + 2 <= |s| && s[o..o + 2] == Le16(v)
    ensures Get16(s, o) == v
  {
    var t := s[o..o + 2];
    assert s[o] == t[0] && s[o + 1] == t[1];
  }

  lemma FieldWraps16(s: seq<byte>, o: nat, v: nat)
    requires o + 2 <= |s| && s[o..o + 2] == Le16(v)
    ensures Get16(s, o) == v % 0x1_0000
  {
    var q, r := v / 0x1_0000, v % 0x1_0000;
    ByteOfSum(q * 0x100, r);
    ByteOfSum(q, r / 0x100);
    assert Le16(v) == Le16(r);
    FieldReads16(s, o, r);
  }

  /** Reading a field depends only on its own four bytes. */
  lemma Get32Slice(s: seq<byte>, o: nat, lo: nat, hi: nat)
    requires lo <= o && o + 4 <= hi <= |s|
    ensures Get32(s[lo..hi], o - lo) == Get32(s, o)
  {
  }

  /** Two different 4-byte fields hold different numbers. */
  lemma WordInjective(s: seq<byte>, t: seq<byte>)
    requires |s| == |t| == 4 && Get32(s, 0) == Get32(t, 0)
    ensures s == t
  {
    SameDigits(s[0], s[1] as int + 0x100 * (s[2] as int + 0x100 * (s[3] as int)),
               t[0], t[1] as int + 0x100 * (t[2] as int + 0x100 * (t[3] as int)));
    SameDigits(s[1], s[2] as int + 0x100 * (s[3] as int), t[1], t[2] as int + 0x100 * (t[3] as int));
    SameDigits(s[2], s[3], t[2], t[3]);
  }

  lemma SameDigits(a: byte, x: int, b: byte, y: int)
    requires a as int + 0x100 * x == b as int + 0x100 * y
    ensures a == b && x == y
  {
  }

  // ---- sequences of 32-bit words ---------------------------------------------

  function Le32s(ws: seq<nat>): (s: seq<byte>)
    ensures |s| == 4 * |ws|
  {
    if |ws| == 0 then [] else Le32s(ws[..|ws| - 1]) + Le32(ws[|ws| - 1])
  }

  lemma {:induction false} Le32sAt(ws: seq<nat>, i: nat)
    requires i < |ws|
    ensures Le32s(ws)[4 * i..4 * i + 4] == Le32(ws[i])
  {
    if i < |ws| - 1 {
      Le32sAt(ws[..|ws| - 1], i);
      assert Le32s(ws)[4 * i..4 * i + 4] == Le32s(ws[..|ws| - 1])[4 * i..4 * i + 4];
    }
  }

  // ---- edits -------------------------------------------------------------------

  /** `s` with `b` written over the bytes at offset `o`; the length does not change. */
  function PutAt(s: seq<byte>, o: nat, b: seq<byte>): (r: seq<byte>)
    requires o + |b| <= |s|
    ensures |r| == |s|
    ensures r[o..o + |b|] == b
  {
    s[..o] + b + s[o + |b|..]
  }

  lemma PutAtElsewhere(s: seq<byte>, o: nat, b: seq<byte>, lo: nat, hi: nat)
    requires o + |b| <= |s| && lo <= hi <= |s|
    requires hi <= o || o + |b| <= lo
    ensures PutAt(s, o, b)[lo..hi] == s[lo..hi]
  {
    assert forall i :: lo <= i < hi ==> PutAt(s, o, b)[i] == s[i];
  }

  /** What lies before and after a write is kept. */
  lemma PutAtSides(s: seq<byte>, o: nat, b: seq<byte>, lo: nat, hi: nat)
    requires lo <= o && o + |b| <= hi <= |s|
    ensures PutAt(s, o, b)[..lo] == s[..lo] && PutAt(s, o, b)[hi..] == s[hi..]
  {
  }

  /** A write that falls inside a window edits that window. */
  lemma PutAtInside(s: seq<byte>, o: nat, b: seq<byte>, lo: nat, hi: nat)
    requires lo <= o && o + |b| <= hi <= |s|
    ensures PutAt(s, o, b)[lo..hi] == PutAt(s[lo..hi], o - lo, b)
  {
  }

  lemma PutTwice(buf: seq<byte>, at: nat, a: seq<byte>, b: seq<byte>)
    requires at + |a| + |b| <= |buf|
    ensures PutAt(PutAt(buf, at, a), at + |a|, b) == PutAt(buf, at, a + b)
  {
  }

  lemma SliceOfSlice(s: seq<byte>, lo: nat, hi: nat, a: nat, b: nat)
    requires lo <= hi <= |s| && a <= b <= hi - lo
    ensures s[lo..hi][a..b] == s[lo + a..lo + b]
  {
    assert forall i :: 0 <= i < b - a ==> s[lo..hi][a..b][i] == s[lo + a..lo + b][i];
  }

  /** Python's `s[a:b] = chunk` on a bytearray, which may change the length. */
  function Splice(s: seq<byte>, a: nat, b: nat, chunk: seq<byte>): (r: seq<byte>)
    requires a <= b
  {
    s[..Min(a, |s|)] + chunk + s[Min(b, |s|)..]
  }

  lemma SpliceIsPutAt(s: seq<byte>, a: nat, b: nat, chunk: seq<byte>)
    requires a <= b <= |s| && |chunk| == b - a
    ensures Splice(s, a, b, chunk) == PutAt(s, a, chunk)
  {
  }

  datatype Edit = Edit(at: nat, bytes: seq<byte>)

  ghost predicate Fit(n: nat, es: seq<Edit>) {
    forall k :: 0 <= k < |es| ==> es[k].at + |es[k].bytes| <= n
  }

  /** The edits applied in order. */
  function Apply(s: seq<byte>, es: seq<Edit>): (r: seq<byte>)
    requires Fit(|s|, es)
    ensures |r| == |s|
    decreases |es|
  {
    if |es| == 0 then s else Apply(PutAt(s, es[0].at, es[0].bytes), es[1..])
  }

  ghost predicate Apart(o: nat, n: nat, es: seq<Edit>) {
    forall k :: 0 <= k < |es| ==> es[k].at + |es[k].bytes| <= o || o + n <= es[k].at
  }

  /** Bytes no edit touches are kept. */
  lemma {:induction false} ApplyKeeps(s: seq<byte>, es: seq<Edit>, o: nat, n: nat)
    requires Fit(|s|, es) && o + n <= |s| && Apart(o, n, es)
    ensures Apply(s, es)[o..o + n] == s[o..o + n]
    decreases |es|
  {
    if |es| > 0 {
      PutAtElsewhere(s, es[0].at, es[0].bytes, o, o + n);
      ApplyKeeps(PutAt(s, es[0].at, es[0].bytes), es[1..], o, n);
    }
  }

  /** An edit no later edit overlaps can be read back. */
  lemma {:induction false} ApplyReads(s: seq<byte>, es: seq<Edit>, k: nat)
    requires Fit(|s|, es) && k < |es| && Apart(es[k].at, |es[k].bytes|, es[k + 1..])
    ensures Apply(s, es)[es[k].at..es[k].at + |es[k].bytes|] == es[k].bytes
    decreases k
  {
    var s' := PutAt(s, es[0].at, es[0].bytes);
    if k == 0 {
      ApplyKeeps(s', es[1..], es[0].at, |es[0].bytes|);
    } else {
      assert es[1..][k..] == es[k + 1..];
      ApplyReads(s', es[1..], k - 1);
    }
  }

  ghost predicate Ascending(es: seq<Edit>) {
    forall j {:trigger es[j]} :: 0 <= j < |es| - 1 ==> es[j].at + |es[j].bytes| <= es[j + 1].at
  }

  lemma {:induction false} AscendingFrom(es: seq<Edit>, k: nat, j: nat)
    requires Ascending(es) && k < j < |es|
    ensures es[k].at + |es[k].bytes| <= es[j].at
  {
    if k + 1 < j {
      AscendingFrom(es, k, j - 1);
    }
  }

  /** Edits in ascending order followed by edits `k` is apart from. */
  lemma AscendingReads(s: seq<byte>, es: seq<Edit>, more: seq<Edit>, k: nat)
    requires Fit(|s|, es) && Fit(|s|, more) && Ascending(es) && k < |es| && Apart(es[k].at, |es[k].bytes|, more)
    ensures Fit(|s|, es + more) && Apply(s, es + more)[es[k].at..es[k].at + |es[k].bytes|] == es[k].bytes
  {
    hide Apply, Ascending;
    var later := (es + more)[k + 1..];
    assert later == es[k + 1..] + more;
    forall j | 0 <= j < |later|
      ensures later[j].at + |later[j].bytes| <= es[k].at || es[k].at + |es[k].bytes| <= later[j].at
    {
      if k + 1 + j < |es| {
        assert later[j] == es[k + 1 + j];
        AscendingFrom(es, k, k + 1 + j);
      } else {
        assert later[j] == more[k + 1 + j - |es|];
      }
    }
    ApplyReads(s, es + more, k);
  }

  lemma {:induction false} ApplySnoc(s: seq<byte>, es: seq<Edit>, e: Edit)
    requires Fit(|s|, es) && e.at + |e.bytes| <= |s|
    ensures Fit(|s|, es + [e]) && Apply(s, es + [e]) == PutAt(Apply(s, es), e.at, e.bytes)
    decreases |es|
  {
    if |es| == 0 {
      assert es + [e] == [e];
      assert [e][1..] == [];
    } else {
      assert (es + [e])[1..] == es[1..] + [e];
      ApplySnoc(PutAt(s, es[0].at, es[0].bytes), es[1..], e);
    }
  }
}
