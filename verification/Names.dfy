/** Decoding an on-disk SUTF-8 name into the menu's ASCII text. */
module Names {
  import opened Bytes
  import opened Sutf8

  const NAME_MAX: nat := 128
  const QUESTION: byte := 0x3F

  function Printable(cp: nat): byte {
    if cp <= 0x7F then cp else QUESTION
  }

  lemma AcceptedPrefix(s: seq<byte>)
    ensures Decode(s).consumed <= |s|
  {
    if Decode(s).consumed > 0 {
      EncodeDecode(s);
    }
  }

  /** Bytes used up by the next character: a byte that starts no encoding is dropped alone. */
  function Advance(name: seq<byte>): (n: nat)
    requires |name| > 0
    ensures 1 <= n <= |name|
  {
    AcceptedPrefix(name);
    if Decode(name).consumed == 0 then 1 else Decode(name).consumed
  }

  function Shown(name: seq<byte>): byte {
    if Decode(name).consumed == 0 then QUESTION else Printable(Decode(name).cp)
  }

  /** At most `room` characters of `name`. */
  function Ascii(name: seq<byte>, room: nat): (r: seq<byte>)
    ensures |r| <= room && |r| <= |name|
    decreases room
  {
    if |name| == 0 || room == 0 then []
    else [Shown(name)] + Ascii(name[Advance(name)..], room - 1)
  }

  /** `shown` has replaced the front of what was there. */
  ghost predicate Front(now: seq<byte>, shown: seq<byte>, was: seq<byte>) {
    |shown| <= |was| && now == shown + was[|shown|..]
  }

  /** After `shown`, the text goes on with at most `room` characters of `rest`. */
  ghost predicate Midway(text: seq<byte>, shown: seq<byte>, rest: seq<byte>, room: nat) {
    text == shown + Ascii(rest, room)
  }

  /** Writes the text and its NUL over the front of the name field; `o` is where the NUL went. */
  method NameToAscii(out: array<byte>, name: seq<byte>, len: nat) returns (o: nat)
    requires out.Length == NAME_MAX && len <= |name|
    modifies out
    ensures o == |Ascii(name[..len], NAME_MAX - 1)| < NAME_MAX
    ensures out[..] == Ascii(name[..len], NAME_MAX - 1) + [0] + old(out[..])[o + 1..]
  {
    hide Ascii, Shown, Advance, Front, Midway;
    var rest := name[..len];   // the bytes at `name + i`, of which `len - i` are left
    o := 0;
    ghost var was, text, shown := out[..], Ascii(rest, NAME_MAX - 1), [];
    NothingShown(was, rest, NAME_MAX - 1);
    while |rest| > 0 && o < NAME_MAX - 1
      invariant o == |shown| <= NAME_MAX - 1
      invariant Midway(text, shown, rest, NAME_MAX - 1 - o) && Front(out[..], shown, was)
      decreases |rest|
    {
      var c, n := NextChar(rest);
      NextStep(text, shown, rest, NAME_MAX - 1 - o);
      Put(out, o, c, shown, was);
      shown := shown + [c];
      rest := rest[n..];
      o := o + 1;
    }
    NoMore(text, shown, rest, NAME_MAX - 1 - o);
    Put(out, o, 0, shown, was);
    AllShown(out[..], text, was);
  }

  lemma NothingShown(was: seq<byte>, rest: seq<byte>, room: nat)
    ensures Front(was, [], was) && Midway(Ascii(rest, room), [], rest, room)
  {
    hide Ascii;
  }

  lemma AllShown(now: seq<byte>, text: seq<byte>, was: seq<byte>)
    requires Front(now, text + [0], was)
    ensures now == text + [0] + was[|text| + 1..]
  {
  }

  /** Stores the next character after those shown. */
  method Put(out: array<byte>, o: nat, c: byte, ghost shown: seq<byte>, ghost was: seq<byte>)
    requires o == |shown| < |was| == out.Length && Front(out[..], shown, was)
    modifies out
    ensures Front(out[..], shown + [c], was)
  {
    out[o] := c;
  }

  lemma NoMore(text: seq<byte>, shown: seq<byte>, rest: seq<byte>, room: nat)
    requires Midway(text, shown, rest, room) && (rest == [] || room == 0)
    ensures text == shown
  {
  }

  /** One iteration's decision: the character to show and the bytes it used. */
  method NextChar(rest: seq<byte>) returns (c: byte, n: nat)
    requires |rest| > 0
    ensures c == Shown(rest) && n == Advance(rest)
  {
    var d := Decode(rest);
    if d.consumed == 0 {
      return QUESTION, 1;
    }
    n := d.consumed;
    if d.cp <= 0x7F {
      c := d.cp;
    } else {
      c := QUESTION;
    }
  }

  lemma NextStep(text: seq<byte>, shown: seq<byte>, rest: seq<byte>, room: nat)
    requires |rest| > 0 && room > 0 && Midway(text, shown, rest, room)
    ensures Midway(text, shown + [Shown(rest)], rest[Advance(rest)..], room - 1)
  {
    hide Shown, Advance;
  }

  // ---- character by character ----------------------------------------------------

  /** A byte at which no encoding starts is dropped alone and shown as a question mark. */
  lemma RejectedByteAlone(name: seq<byte>, room: nat)
    requires |name| > 0 && room > 0 && !exists cp :: IsValid(cp) && Encode(cp) <= name
    ensures Ascii(name, room) == [0x3F] + Ascii(name[1..], room - 1)
  {
    hide Decode, Encode, IsValid;
    AcceptsExactly(name);
  }

  /** An encoding is used up whole and shown as itself if it is ASCII, else as a question mark. */
  lemma EncodingShown(cp: nat, rest: seq<byte>, room: nat)
    requires IsValid(cp) && room > 0
    ensures Ascii(Encode(cp) + rest, room) == [if cp <= 0x7F then cp else 0x3F] + Ascii(rest, room - 1)
  {
    hide Decode, IsValid;
    DecodeEncode(cp, rest);
    var s := Encode(cp) + rest;
    assert s[|Encode(cp)|..] == rest;
  }

  /** Whatever the bytes, the text is ASCII. */
  lemma {:induction false} TextIsAscii(name: seq<byte>, room: nat)
    ensures forall k :: 0 <= k < |Ascii(name, room)| ==> Ascii(name, room)[k] <= 0x7F
    decreases room
  {
    hide Decode, Advance;
    if |name| > 0 && room > 0 {
      TextIsAscii(name[Advance(name)..], room - 1);
    }
  }

  /** Plain ASCII is shown as it is, up to the room. */
  lemma {:induction false} PlainText(name: seq<byte>, room: nat)
    requires forall k :: 0 <= k < |name| ==> name[k] <= 0x7F
    ensures Ascii(name, room) == name[..Min(|name|, room)]
    decreases room
  {
    hide Ascii;
    if |name| > 0 && room > 0 {
      AsciiEncodes(name[0]);
      assert name == [name[0]] + name[1..];
      EncodingShown(name[0], name[1..], room);
      PlainText(name[1..], room - 1);
    } else {
      NoMore(name[..Min(|name|, room)], [], name, room);
    }
  }

  lemma AsciiEncodes(b: byte)
    requires b <= 0x7F
    ensures IsValid(b) && Encode(b) == [b]
  {
    Explicit(b);
  }

  // ---- streams of encodings ------------------------------------------------------

  predicate AllValid(cps: seq<nat>) {
    forall i :: 0 <= i < |cps| ==> IsValid(cps[i])
  }

  function EncodeAll(cps: seq<nat>): seq<byte>
    requires AllValid(cps)
  {
    if |cps| == 0 then [] else Encode(cps[0]) + EncodeAll(cps[1..])
  }

  function PrintableAll(cps: seq<nat>): seq<byte> {
    seq(|cps|, i requires 0 <= i < |cps| => Printable(cps[i]))
  }

  /** A stream of encodings shows one character per codepoint, up to the room there is. */
  lemma {:induction false} AsciiOfStream(cps: seq<nat>, room: nat)
    requires AllValid(cps)
    ensures Ascii(EncodeAll(cps), room) == PrintableAll(cps[..Min(|cps|, room)])
    decreases room
  {
    hide Encode, Decode, IsValid, Printable;
    if |cps| > 0 && room > 0 {
      var s := EncodeAll(cps);
      var first := Encode(cps[0]);
      DecodeEncode(cps[0], EncodeAll(cps[1..]));
      assert Advance(s) == |first| && Shown(s) == Printable(cps[0]);
      assert s[|first|..] == EncodeAll(cps[1..]);
      AsciiOfStream(cps[1..], room - 1);
      var shown := cps[..Min(|cps|, room)];
      assert shown[1..] == cps[1..][..Min(|cps| - 1, room - 1)];
      assert PrintableAll(shown) == [Printable(cps[0])] + PrintableAll(shown[1..]);
    }
  }
}
