/** SUTF-8: codepoints to 1..6 byte sequences (in the style of section 2 of RFC 2279).
    A test or mask on leading bits is written as the equivalent quotient or remainder. */
module Sutf8 {
  import opened Bytes

  const MAX_CODEPOINT: nat := 0x7FFF_FFFF
  const INVALID_CODEPOINT: nat := 0x7FFF_FFFF
  const TRAP_MIN: nat := 0x7FFF_FFF0
  const TRAP_MAX: nat := 0x7FFF_FFFE

  predicate IsValid(cp: nat) {
    cp <= MAX_CODEPOINT && !(TRAP_MIN <= cp <= TRAP_MAX) && cp != INVALID_CODEPOINT
  }

  function CodepointLength(cp: nat): nat {
    if !IsValid(cp) then 0
    else if cp <= 0x7F then 1
    else if cp <= 0x7FF then 2
    else if cp <= 0xFFFF then 3
    else if cp <= 0x10_FFFF then 4
    else if cp <= 0x3FF_FFFF then 5
    else 6
  }

  /** A continuation byte carrying the low six bits of `v`. */
  function Tail(v: nat): byte {
    0x80 + v % 0x40
  }

  /** `v` without its lowest `k` groups of six bits. */
  function Quot(v: nat, k: nat): nat {
    if k == 0 then v else Quot(v / 0x40, k - 1)
  }

  /** The lowest `k` groups of six bits of `v`, as continuation bytes. */
  function Tails(v: nat, k: nat): (s: seq<byte>)
    ensures |s| == k
  {
    if k == 0 then [] else Tails(v / 0x40, k - 1) + [Tail(v)]
  }

  lemma Quots(v: nat)
    ensures Quot(v, 0) == v && Quot(v, 1) == v / 0x40 && Quot(v, 2) == v / 0x40 / 0x40
    ensures Quot(v, 3) == v / 0x40 / 0x40 / 0x40
    ensures Quot(v, 4) == v / 0x40 / 0x40 / 0x40 / 0x40 && Quot(v, 5) == v / 0x40 / 0x40 / 0x40 / 0x40 / 0x40
  {
    var q2 := v / 0x40 / 0x40;
    assert Quot(v, 3) == Quot(q2, 1) && Quot(v, 4) == Quot(q2, 2) && Quot(v, 5) == Quot(q2, 3);
    assert Quot(q2, 3) == Quot(q2 / 0x40, 2);
  }

  /** Lead byte marker of the form with `k` continuation bytes. */
  function Marker(k: nat): byte {
    if k == 0 then 0 else if k == 1 then 0xC0 else if k == 2 then 0xE0 else if k == 3 then 0xF0
    else if k == 4 then 0xF8 else 0xFC
  }

  function Encode(cp: nat): (s: seq<byte>)
    requires IsValid(cp)
    ensures |s| == CodepointLength(cp)
  {
    var k := CodepointLength(cp) - 1;
    LeadFits(cp);
    [Marker(k) + Quot(cp, k)] + Tails(cp, k)
  }

  /** The payload that does not fit the continuation bytes fits under the marker. */
  lemma LeadFits(cp: nat)
    requires IsValid(cp)
    ensures var k := CodepointLength(cp) - 1; Quot(cp, k) < (if k == 0 then 0x80 else if k == 1 then 0x20 else
              if k == 2 then 0x10 else if k == 3 then 8 else if k == 4 then 4 else 2)
  {
    Quots(cp);
  }

  method Store(out: array<byte>, bytes: seq<byte>)
    requires |bytes| <= out.Length
    modifies out
    ensures out[..|bytes|] == bytes
    ensures forall i :: |bytes| <= i < out.Length ==> out[i] == old(out[i])
  {
    for k := 0 to |bytes|
      invariant out[..k] == bytes[..k]
      invariant forall i :: k <= i < out.Length ==> out[i] == old(out[i])
    {
      out[k] := bytes[k];
    }
  }

  /** Writes the encoding of `cp` when the caller's `bufSize` bytes can hold it. */
  method EncodeChar(cp: nat, out: array?<byte>, bufSize: nat) returns (n: nat)
    requires out != null ==> bufSize <= out.Length
    modifies out
    ensures n == if out == null || bufSize < CodepointLength(cp) then 0 else CodepointLength(cp)
    ensures n > 0 ==> out[..n] == Encode(cp)
    ensures out != null ==> forall i :: n <= i < out.Length ==> out[i] == old(out[i])
  {
    if out == null || !IsValid(cp) {
      return 0;
    }
    Explicit(cp);
    hide Encode, Tail;
    var q1 := cp / 0x40;
    var q2 := q1 / 0x40;
    var q3 := q2 / 0x40;
    var q4 := q3 / 0x40;
    var q5 := q4 / 0x40;
    if cp <= 0x7F {
      if bufSize < 1 { return 0; }
      Store(out, [cp]);
      return 1;
    } else if cp <= 0x7FF {
      if bufSize < 2 { return 0; }
      Store(out, [0xC0 + q1, Tail(cp)]);
      return 2;
    } else if cp <= 0xFFFF {
      if bufSize < 3 { return 0; }
      Store(out, [0xE0 + q2, Tail(q1), Tail(cp)]);
      return 3;
    } else if cp <= 0x10_FFFF {
      if bufSize < 4 { return 0; }
      Store(out, [0xF0 + q3, Tail(q2), Tail(q1), Tail(cp)]);
      return 4;
    } else if cp <= 0x3FF_FFFF {
      if bufSize < 5 { return 0; }
      Store(out, [0xF8 + q4, Tail(q3), Tail(q2), Tail(q1), Tail(cp)]);
      return 5;
    } else {
      if bufSize < 6 { return 0; }
      Store(out, [0xFC + q5, Tail(q4), Tail(q3), Tail(q2), Tail(q1), Tail(cp)]);
      return 6;
    }
  }

  // ---- decoding ----------------------------------------------------------------

  datatype Decoded = Decoded(consumed: nat, cp: nat)

  const REJECTED := Decoded(0, INVALID_CODEPOINT)

  /** The first `n - 1` bytes after the lead byte are continuation bytes. */
  predicate Framed(s: seq<byte>, n: nat) {
    n <= |s| && forall k :: 1 <= k < n ==> s[k] / 0x40 == 2
  }

  /** The six payload bits of the `n` bytes after the lead byte, appended to `lead`. */
  function Payload(s: seq<byte>, lead: nat, n: nat): nat
    requires n < |s|
  {
    if n == 0 then lead else Payload(s, lead, n - 1) * 0x40 + s[n] % 0x40
  }

  /** An `n`-byte form, accepted only when its value needs exactly that many bytes. */
  function Accept(s: seq<byte>, lead: nat, n: nat, least: nat, most: nat): Decoded
    requires n > 0
  {
    if !Framed(s, n) then REJECTED
    else
      var cp := Payload(s, lead, n - 1);
      if cp < least || cp > most || !IsValid(cp) then REJECTED else Decoded(n, cp)
  }

  function Decode(s: seq<byte>): Decoded {
    if |s| == 0 then REJECTED
    else
      var u := s[0];
      if u / 0x80 == 0 then (if IsValid(u) then Decoded(1, u) else REJECTED)
      else if u / 0x20 == 6 then Accept(s, u % 0x20, 2, 0x80, MAX_CODEPOINT)
      else if u / 0x10 == 14 then Accept(s, u % 0x10, 3, 0x800, MAX_CODEPOINT)
      else if u / 8 == 30 then Accept(s, u % 8, 4, 0x1_0000, 0x10_FFFF)
      else if u / 4 == 62 then Accept(s, u % 4, 5, 0x11_0000, 0x3FF_FFFF)
      else if u / 2 == 126 then Accept(s, u % 2, 6, 0x400_0000, MAX_CODEPOINT)
      else REJECTED
  }

  // ---- the codec is a bijection -----------------------------------------------------

  lemma TailsOfTails(v: nat)
    ensures Tails(v, 0) == [] && Tails(v, 1) == [Tail(v)]
    ensures forall k: nat :: Tails(v, k + 1) == Tails(v / 0x40, k) + [Tail(v)]
  {
  }

  /** The bytes of every form, written out. */
  lemma Explicit(cp: nat)
    requires IsValid(cp)
    ensures var q1 := cp / 0x40; var q2 := q1 / 0x40; var q3 := q2 / 0x40; var q4 := q3 / 0x40; var q5 := q4 / 0x40;
            Encode(cp) == match CodepointLength(cp)
                          case 1 => [cp]
                          case 2 => [0xC0 + q1, Tail(cp)]
                          case 3 => [0xE0 + q2, Tail(q1), Tail(cp)]
                          case 4 => [0xF0 + q3, Tail(q2), Tail(q1), Tail(cp)]
                          case 5 => [0xF8 + q4, Tail(q3), Tail(q2), Tail(q1), Tail(cp)]
                          case _ => [0xFC + q5, Tail(q4), Tail(q3), Tail(q2), Tail(q1), Tail(cp)]
  {
    hide Quot, Tails, Tail, IsValid;
    var q1 := cp / 0x40;
    var q2 := q1 / 0x40;
    var q3 := q2 / 0x40;
    Quots(cp);
    TailsOfTails(cp);
    TailsOfTails(q1);
    TailsOfTails(q2);
    TailsOfTails(q3);
    TailsOfTails(q3 / 0x40);
  }

  lemma {:induction false} PayloadOfTails(s: seq<byte>, v: nat, k: nat)
    requires k < |s| && s[1..k + 1] == Tails(v, k)
    ensures Payload(s, Quot(v, k), k) == v
    ensures forall i :: 1 <= i <= k ==> s[i] / 0x40 == 2
  {
    if k > 0 {
      assert s[1..k + 1][k - 1] == s[k] == Tail(v);
      assert s[1..k] == s[1..k + 1][..k - 1] == Tails(v / 0x40, k - 1);
      PayloadOfTails(s, v / 0x40, k - 1);
    }
  }

  lemma {:induction false} TailsOfPayload(s: seq<byte>, lead: nat, k: nat)
    requires k < |s| && forall i :: 1 <= i <= k ==> s[i] / 0x40 == 2
    ensures var v := Payload(s, lead, k); Tails(v, k) == s[1..k + 1] && Quot(v, k) == lead
  {
    if k > 0 {
      TailsOfPayload(s, lead, k - 1);
      assert s[1..k + 1] == s[1..k] + [s[k]];
    }
  }

  /** Which codepoints there are, and the length of each: the shortest form, five bytes from 0x110000 on. */
  lemma LengthsExactly(cp: nat)
    ensures IsValid(cp) <==> cp < 0x7FFF_FFF0
    ensures IsValid(cp) ==>
      var n := |Encode(cp)|;
      && (n == 1 <==> cp < 0x80) && (n == 2 <==> 0x80 <= cp < 0x800) && (n == 3 <==> 0x800 <= cp < 0x1_0000)
      && (n == 4 <==> 0x1_0000 <= cp < 0x11_0000) && (n == 5 <==> 0x11_0000 <= cp < 0x400_0000)
      && (n == 6 <==> 0x400_0000 <= cp)
  {
    hide Encode;
  }

  /** Six more bits, from a continuation byte. */
  function Append(high: int, tail: int): int {
    high * 0x40 + (tail - 0x80)
  }

  /** The form of an encoding, apart from how it is computed: the lead byte counts the continuation bytes by its
      leading ones, each continuation byte starts with binary 10, and the remaining bits in order are the codepoint. */
  lemma EncodingForm(cp: nat)
    requires IsValid(cp)
    ensures var s, k := Encode(cp), |Encode(cp)| - 1;
      && 0 <= k < 6 && (forall i :: 1 <= i <= k ==> 0x80 <= s[i] < 0xC0)
      && cp == match k
               case 0 => s[0] as int
               case 1 => Append(s[0] as int - 0xC0, s[1])
               case 2 => Append(Append(s[0] as int - 0xE0, s[1]), s[2])
               case 3 => Append(Append(Append(s[0] as int - 0xF0, s[1]), s[2]), s[3])
               case 4 => Append(Append(Append(Append(s[0] as int - 0xF8, s[1]), s[2]), s[3]), s[4])
               case _ => Append(Append(Append(Append(Append(s[0] as int - 0xFC, s[1]), s[2]), s[3]), s[4]), s[5])
  {
    hide Encode, IsValid;
    EncodingLength(cp);
    Explicit(cp);
  }

  lemma EncodingLength(cp: nat)
    requires IsValid(cp)
    ensures 1 <= CodepointLength(cp) <= 6
  {
  }

  lemma DecodeEncode(cp: nat, rest: seq<byte>)
    requires IsValid(cp)
    ensures Decode(Encode(cp) + rest) == Decoded(|Encode(cp)|, cp)
  {
    var s := Encode(cp) + rest;
    var k := |Encode(cp)| - 1;
    assert s[1..k + 1] == Tails(cp, k);
    PayloadOfTails(s, cp, k);
    LeadFits(cp);
    assert s[0] == Marker(k) + Quot(cp, k);
    hide Payload, Tails, Quot;
  }

  /** Ranges the form with `k` continuation bytes enforces on its lead payload and value. */
  predicate InForm(k: nat, lead: int, cp: nat) {
    && 0 <= lead && IsValid(cp)
    && (k == 1 ==> lead < 0x20 && cp >= 0x80)
    && (k == 2 ==> lead < 0x10 && cp >= 0x800)
    && (k == 3 ==> 0x1_0000 <= cp <= 0x10_FFFF)
    && (k == 4 ==> 0x11_0000 <= cp <= 0x3FF_FFFF)
    && (k == 5 ==> cp >= 0x400_0000)
    && 1 <= k <= 5
  }

  lemma AcceptedForm(s: seq<byte>)
    requires Decode(s).consumed > 1
    ensures var d := Decode(s); var k := d.consumed - 1; var lead := s[0] - Marker(k);
            Framed(s, k + 1) && InForm(k, lead, d.cp) && d.cp == Payload(s, lead, k)
  {
    hide Payload, Framed, IsValid;
  }

  /** An accepted value needs exactly the bytes it was read from. */
  lemma AcceptedLength(k: nat, lead: int, cp: nat)
    requires InForm(k, lead, cp) && Quot(cp, k) == lead
    ensures k == CodepointLength(cp) - 1
  {
    Quots(cp);
    hide Quot;
  }

  /** Whatever the decoder accepts is the one encoding of the value it returns. */
  lemma EncodeDecode(s: seq<byte>)
    requires Decode(s).consumed > 0
    ensures var d := Decode(s); d.consumed <= |s| && IsValid(d.cp) && Encode(d.cp) == s[..d.consumed]
  {
    var d := Decode(s);
    var k := d.consumed - 1;
    var lead := s[0] - Marker(k);
    if k > 0 {
      AcceptedForm(s);
      TailsOfPayload(s, lead, k);
      AcceptedLength(k, lead, d.cp);
      hide Decode, Payload, Tails, Quot;
      assert s[..k + 1] == [s[0]] + s[1..k + 1];
    }
  }

  /** No encoding is a prefix of another. */
  lemma PrefixFree(a: nat, b: nat)
    requires IsValid(a) && IsValid(b) && Encode(a) <= Encode(b)
    ensures a == b
  {
    var rest := Encode(b)[|Encode(a)|..];
    assert Encode(a) + rest == Encode(b) == Encode(b) + [];
    DecodeEncode(a, rest);
    DecodeEncode(b, []);
  }

  /** The decoder accepts exactly the byte strings that start with an encoding. */
  lemma AcceptsExactly(s: seq<byte>)
    ensures Decode(s).consumed > 0 <==> exists cp :: IsValid(cp) && Encode(cp) <= s
    ensures Decode(s).consumed == 0 ==> Decode(s).cp == INVALID_CODEPOINT
  {
    if Decode(s).consumed > 0 {
      EncodeDecode(s);
      assert Encode(Decode(s).cp) <= s;
    }
    forall cp | IsValid(cp) && Encode(cp) <= s ensures Decode(s).consumed > 0 {
      assert s == Encode(cp) + s[|Encode(cp)|..];
      DecodeEncode(cp, s[|Encode(cp)|..]);
    }
  }
}
