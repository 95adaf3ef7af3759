/** Enumeration as a filter over catalog slots, what it reports, and what damage to one slot does. */
module Enumeration {
  import opened Bytes
  import opened Crc32c
  import opened Layout
  import opened Names
  import opened Reader

  // ---- what the slots hold ---------------------------------------------------------------------

  /** A catalog slot in use and not deleted: an intact entry, or one that fails its checksum. */
  datatype Sighting = Found(entry: Entry) | Fault

  function Sight(block: seq<byte>, e: nat): seq<Sighting>
    requires |block| == BLOCK + OVERHANG && e < 16
  {
    var v := SlotView(block, e);
    if !Live(v) then [] else if Sound(v) then [Found(EntryOf(v))] else [Fault]
  }

  /** In bytes of the block: nothing is seen of a slot that is unused or has the deleted bit set; any other
      is seen as an entry if its stored checksum is right and as a fault if it is not. */
  lemma SightExactly(block: seq<byte>, e: nat)
    requires |block| == BLOCK + OVERHANG && e < 16
    ensures var at := 256 * e; var sight, kind := Sight(block, e), block[at + 4];
      var right := CrcStruct(block[at..at + 256], 0xFC) == Get32(block, at + 0xFC);
      && (sight == [] <==> kind == 0 || kind / 0x80 % 2 == 1)
      && (sight == [Fault] <==> kind != 0 && kind / 0x80 % 2 == 0 && !right)
      && forall x :: sight == [Found(x)] ==>
           && right && x.inode == Get32(block, at) && x.entryType == kind && x.size == 0
           && x.name == Ascii(block[at + 6..at + 6 + block[at + 5]], NAME_MAX - 1)
  {
    hide CrcStruct, Ascii, Get32;
    var at, v := SLOT * e, SlotView(block, e);
    assert v[4] == block[at + 4] && v[5] == block[at + 5];
    SliceOfSlice(block, at, at + SLOT + OVERHANG, 0, SLOT);
    var nameEnd: nat := 6 + v[5] as int;
    SliceOfSlice(block, at, at + SLOT + OVERHANG, 6, nameEnd);
    Get32Slice(block, at, at, at + SLOT + OVERHANG);
    Get32Slice(block, at + SLOT_CK, at, at + SLOT);
  }

  /** The slots in use among `from..to`. */
  function Sights(block: seq<byte>, from: nat, to: nat): seq<Sighting>
    requires |block| == BLOCK + OVERHANG && from <= to <= 16
    decreases 16 - from
  {
    if from == to then [] else Sight(block, from) + Sights(block, from + 1, to)
  }

  predicate AreBlocks(blocks: seq<seq<byte>>) {
    forall b :: 0 <= b < |blocks| ==> |blocks[b]| == BLOCK
  }

  function SightsAll(blocks: seq<seq<byte>>, past: seq<byte>): seq<Sighting>
    requires AreBlocks(blocks) && |past| == OVERHANG
  {
    if |blocks| == 0 then [] else Sights(blocks[0] + past, 0, 16) + SightsAll(blocks[1..], past)
  }

  /** The intact entries, in order. */
  function Entries(ss: seq<Sighting>): (es: seq<Entry>)
    ensures |es| <= |ss|
  {
    if |ss| == 0 then [] else (if ss[0].Found? then [ss[0].entry] else []) + Entries(ss[1..])
  }

  /** The faults met before the entry that no longer fits. */
  function Reports(ss: seq<Sighting>, room: nat): seq<Diag.Code> {
    if |ss| == 0 then []
    else if ss[0].Fault? then [Diag.BAN_CATALOG_CHECKSUM] + Reports(ss[1..], room)
    else if room == 0 then []
    else Reports(ss[1..], room - 1)
  }

  function Take<T>(s: seq<T>, n: nat): seq<T> {
    if |s| <= n then s else s[..n]
  }

  lemma {:induction false} EntriesConcat(a: seq<Sighting>, b: seq<Sighting>)
    ensures Entries(a + b) == Entries(a) + Entries(b)
  {
    if |a| > 0 {
      EntriesConcat(a[1..], b);
      assert (a + b)[1..] == a[1..] + b;
    } else {
      assert a + b == b;
    }
  }

  lemma {:induction false} ReportsConcat(a: seq<Sighting>, b: seq<Sighting>, room: nat)
    ensures |Entries(a)| <= room ==> Reports(a + b, room) == Reports(a, room) + Reports(b, room - |Entries(a)|)
    ensures |Entries(a)| > room ==> Reports(a + b, room) == Reports(a, room)
  {
    if |a| > 0 {
      assert (a + b)[1..] == a[1..] + b;
      if a[0].Fault? {
        ReportsConcat(a[1..], b, room);
      } else if room > 0 {
        ReportsConcat(a[1..], b, room - 1);
      }
    } else {
      assert a + b == b;
    }
  }

  // ---- the loops ---------------------------------------------------------------------------------

  ghost predicate ScanSeen(s: Scanned, ss: seq<Sighting>, max: nat, entries: seq<Entry>, raised: seq<Diag.Code>)
    requires |entries| <= max
  {
    && s.entries == Take(entries + Entries(ss), max)
    && (s.full <==> |entries| + |Entries(ss)| > max)
    && s.raised == raised + Reports(ss, max - |entries|)
  }

  /** The scan of one block keeps and reports what the slots say, until one more entry does not fit. */
  lemma {:induction false} ScanSees(block: seq<byte>, e: nat, max: nat, entries: seq<Entry>, raised: seq<Diag.Code>)
    requires |block| == BLOCK + OVERHANG && e <= 16 && |entries| <= max
    ensures ScanSeen(Scan(block, e, max, entries, raised), Sights(block, e, 16), max, entries, raised)
    decreases 16 - e
  {
    hide Live, Sound, EntryOf, SlotView, ScanSeen, Entries, Reports;
    if e < 16 {
      var v := SlotView(block, e);
      var rest := Sights(block, e + 1, 16);
      if !Live(v) {
        ScanSees(block, e + 1, max, entries, raised);
        assert Sights(block, e, 16) == rest;
      } else if !Sound(v) {
        ScanSees(block, e + 1, max, entries, raised + [Diag.BAN_CATALOG_CHECKSUM]);
        FaultSeen(Scan(block, e, max, entries, raised), rest, max, entries, raised);
      } else if |entries| < max {
        ScanSees(block, e + 1, max, entries + [EntryOf(v)], raised);
        EntrySeen(Scan(block, e, max, entries, raised), EntryOf(v), rest, max, entries, raised);
      } else {
        FullSeen(EntryOf(v), rest, max, entries, raised);
      }
    } else {
      NothingSeen(max, entries, raised);
    }
  }

  lemma FaultSeen(s: Scanned, rest: seq<Sighting>, max: nat, entries: seq<Entry>, raised: seq<Diag.Code>)
    requires |entries| <= max && ScanSeen(s, rest, max, entries, raised + [Diag.BAN_CATALOG_CHECKSUM])
    ensures ScanSeen(s, [Fault] + rest, max, entries, raised)
  {
    assert ([Fault] + rest)[1..] == rest;
    assert Entries([Fault] + rest) == Entries(rest);
  }

  lemma EntrySeen(s: Scanned, x: Entry, rest: seq<Sighting>, max: nat, entries: seq<Entry>, raised: seq<Diag.Code>)
    requires |entries| < max && ScanSeen(s, rest, max, entries + [x], raised)
    ensures ScanSeen(s, [Found(x)] + rest, max, entries, raised)
  {
    assert ([Found(x)] + rest)[1..] == rest;
    assert entries + Entries([Found(x)] + rest) == (entries + [x]) + Entries(rest);
  }

  lemma FullSeen(x: Entry, rest: seq<Sighting>, max: nat, entries: seq<Entry>, raised: seq<Diag.Code>)
    requires |entries| == max
    ensures ScanSeen(Scanned(entries, raised, true), [Found(x)] + rest, max, entries, raised)
  {
    assert (entries + Entries([Found(x)] + rest))[..max] == entries;
    assert raised + [] == raised;
  }

  lemma NothingSeen(max: nat, entries: seq<Entry>, raised: seq<Diag.Code>)
    requires |entries| <= max
    ensures ScanSeen(Scanned(entries, raised, false), [], max, entries, raised)
  {
    assert entries + [] == entries && raised + [] == raised;
  }

  /** Every block of the inode from `idx` on can be fetched, and these are their contents. */
  ghost predicate Fetches(d: Disk, t: nat, ino: Inode, idx: nat, blocks: seq<seq<byte>>)
    requires Mappable(ino)
    decreases ino.blockCount - idx
  {
    if idx >= ino.blockCount then blocks == []
    else
      match FetchBlock(d, t, ino, idx, -4)
      case Bad(_, _, _) => false
      case Good(block, t') => |blocks| > 0 && blocks[0] == block && Fetches(d, t', ino, idx + 1, blocks[1..])
  }

  /** The success code, unless nothing was listed or the listing was cut short. */
  function Telemetry(listed: nat, max: nat): seq<Diag.Code> {
    Raised(0 < listed <= max, Diag.COM_CATALOG_ENUM_OK)
  }

  ghost predicate ListingSeen(l: Listing, ss: seq<Sighting>, max: nat, entries: seq<Entry>, raised: seq<Diag.Code>)
    requires |entries| <= max
  {
    && l.entries == Take(entries + Entries(ss), max) && l.rc == |l.entries|
    && l.raised == raised + Reports(ss, max - |entries|) + Telemetry(|entries| + |Entries(ss)|, max)
  }

  /** The nested loops see all blocks in order. */
  lemma {:induction false} EnumSees(d: Disk, t: nat, ino: Inode, idx: nat, max: nat, past: seq<byte>,
                                    entries: seq<Entry>, raised: seq<Diag.Code>, blocks: seq<seq<byte>>)
    requires Mappable(ino) && |past| == OVERHANG && |entries| <= max
    requires AreBlocks(blocks) && Fetches(d, t, ino, idx, blocks)
    ensures ListingSeen(EnumFrom(d, t, ino, idx, max, past, entries, raised), SightsAll(blocks, past), max, entries,
                        raised)
    decreases ino.blockCount - idx
  {
    hide FetchBlock, Scan, Sights, ListingSeen, ScanSeen;
    if idx < ino.blockCount {
      var f := FetchBlock(d, t, ino, idx, -4);
      var block := f.value + past;
      ScanSees(block, 0, max, entries, raised);
      var s := Scan(block, 0, max, entries, raised);
      ScannedBound(s, Sights(block, 0, 16), max, entries, raised);
      if s.full {
        LastBlockSeen(s, f.t, Sights(block, 0, 16), SightsAll(blocks[1..], past), max, entries, raised);
      } else {
        EnumSees(d, f.t, ino, idx + 1, max, past, s.entries, s.raised, blocks[1..]);
        OneMoreBlockSeen(s, EnumFrom(d, f.t, ino, idx + 1, max, past, s.entries, s.raised),
                         Sights(block, 0, 16), SightsAll(blocks[1..], past), max, entries, raised);
      }
    } else {
      NoBlockSeen(t, max, entries, raised);
    }
  }

  lemma ScannedBound(s: Scanned, ss: seq<Sighting>, max: nat, entries: seq<Entry>, raised: seq<Diag.Code>)
    requires |entries| <= max && ScanSeen(s, ss, max, entries, raised)
    ensures |s.entries| <= max
  {
  }

  lemma NoBlockSeen(t: nat, max: nat, entries: seq<Entry>, raised: seq<Diag.Code>)
    requires |entries| <= max
    ensures ListingSeen(Listing(|entries|, entries, raised + Raised(|entries| > 0, Diag.COM_CATALOG_ENUM_OK), t), [],
                        max, entries, raised)
  {
    assert entries + [] == entries && raised + [] == raised;
  }

  lemma LastBlockSeen(s: Scanned, t: nat, here: seq<Sighting>, rest: seq<Sighting>, max: nat, entries: seq<Entry>,
                      raised: seq<Diag.Code>)
    requires |entries| <= max && ScanSeen(s, here, max, entries, raised) && s.full
    ensures ListingSeen(Listing(|s.entries|, s.entries, s.raised, t), here + rest, max, entries, raised)
  {
    hide Entries, Reports;
    EntriesConcat(here, rest);
    ReportsConcat(here, rest, max - |entries|);
    assert (entries + (Entries(here) + Entries(rest)))[..max] == (entries + Entries(here))[..max];
    assert s.raised + [] == s.raised;
  }

  lemma OneMoreBlockSeen(s: Scanned, l: Listing, here: seq<Sighting>, rest: seq<Sighting>, max: nat,
                         entries: seq<Entry>, raised: seq<Diag.Code>)
    requires |entries| <= max && ScanSeen(s, here, max, entries, raised) && !s.full && |s.entries| <= max
    requires ListingSeen(l, rest, max, s.entries, s.raised)
    ensures ListingSeen(l, here + rest, max, entries, raised)
  {
    hide Entries, Reports, Telemetry;
    EntriesConcat(here, rest);
    ReportsConcat(here, rest, max - |entries|);
    assert s.entries == entries + Entries(here);
    assert (entries + Entries(here)) + Entries(rest) == entries + (Entries(here) + Entries(rest));
    var a, b := Reports(here, max - |entries|), Reports(rest, max - |entries| - |Entries(here)|);
    assert (raised + a) + b == raised + (a + b);
  }

  /** The root inode is readable, is a catalog, and these are the contents of its blocks. */
  ghost predicate ReadableRoot(d: Disk, t: nat, s: Super, blocks: seq<seq<byte>>) {
    var r := ReadInode(d, t, s, 0);
    r.Good? && Mappable(r.value) && r.value.entryType / 2 % 2 == 1 && Fetches(d, r.t, r.value, 0, blocks)
  }

  /** Enumeration refines its specification: on a readable root it is a filter cut at `max`, and it
      reports the faults met before the cut. */
  lemma EnumerateSees(d: Disk, t: nat, s: Super, max: nat, past: seq<byte>, blocks: seq<seq<byte>>)
    requires |past| == OVERHANG && AreBlocks(blocks) && ReadableRoot(d, t, s, blocks)
    ensures var l, ss := Enumerate(d, t, s, max, past), SightsAll(blocks, past);
      && l.entries == Take(Entries(ss), max) && l.rc == |l.entries|
      && l.raised == Reports(ss, max) + Telemetry(|Entries(ss)|, max)
  {
    hide ReadInode, SightsAll, EnumFrom, Fetches, Entries, Reports, Telemetry;
    var r := ReadInode(d, t, s, 0);
    EnumSees(d, r.t, r.value, 0, max, past, [], [], blocks);
    var ss := SightsAll(blocks, past);
    assert [] + Entries(ss) == Entries(ss) && [] + Reports(ss, max) == Reports(ss, max);
  }

  // ---- what is reported --------------------------------------------------------------------------

  function AsFound(es: seq<Entry>): (ss: seq<Sighting>)
    ensures |ss| == |es| && forall i :: 0 <= i < |es| ==> ss[i] == Found(es[i])
  {
    seq(|es|, i requires 0 <= i < |es| => Found(es[i]))
  }

  /** Intact entries are all listed and none is reported. */
  lemma {:induction false} FoundIsQuiet(es: seq<Entry>, room: nat)
    ensures Entries(AsFound(es)) == es && Reports(AsFound(es), room) == []
  {
    if |es| > 0 {
      assert AsFound(es)[1..] == AsFound(es[1..]);
      FoundIsQuiet(es[1..], if room > 0 then room - 1 else 0);
    }
  }

  /** When nothing is cut off there is one report for each damaged slot in use. */
  lemma {:induction false} UncutReportsEveryFault(ss: seq<Sighting>, room: nat)
    requires |Entries(ss)| <= room
    ensures Reports(ss, room) == seq(|ss| - |Entries(ss)|, _ => Diag.BAN_CATALOG_CHECKSUM)
  {
    if |ss| > 0 {
      UncutReportsEveryFault(ss[1..], if ss[0].Found? then room - 1 else room);
    }
  }

  /** A single fault among intact entries is reported exactly when it comes before the cut. */
  lemma OneFaultReported(before: seq<Entry>, after: seq<Entry>, room: nat)
    ensures Entries(AsFound(before) + [Fault] + AsFound(after)) == before + after
    ensures Entries(AsFound(before) + AsFound(after)) == before + after
    ensures Reports(AsFound(before) + [Fault] + AsFound(after), room)
         == if |before| <= room then [Diag.BAN_CATALOG_CHECKSUM] else []
    ensures Reports(AsFound(before) + AsFound(after), room) == []
  {
    var a, b := AsFound(before), AsFound(after);
    FoundIsQuiet(before, room);
    FoundIsQuiet(after, if room >= |before| then room - |before| else 0);
    assert ([Fault] + b)[1..] == b;
    assert Entries([Fault] + b) == Entries(b);
    assert a + [Fault] + b == a + ([Fault] + b);
    EntriesConcat(a, [Fault] + b);
    EntriesConcat(a, b);
    ReportsConcat(a, [Fault] + b, room);
    ReportsConcat(a, b, room);
  }

  // ---- damage ------------------------------------------------------------------------------------

  /** A slot whose name lies inside its own name field. */
  predicate NameInside(v: seq<byte>)
    requires |v| == SLOT + OVERHANG
  {
    v[5] as int <= NAME_BYTES
  }

  lemma {:induction false} SightsSplit(block: seq<byte>, from: nat, mid: nat, to: nat)
    requires |block| == BLOCK + OVERHANG && from <= mid <= to <= 16
    ensures Sights(block, from, to) == Sights(block, from, mid) + Sights(block, mid, to)
    decreases 16 - from
  {
    hide Sight;
    if from < mid {
      SightsSplit(block, from + 1, mid, to);
    }
  }

  lemma OneSight(block: seq<byte>, e: nat)
    requires |block| == BLOCK + OVERHANG && e < 16
    ensures Sights(block, e, e + 1) == Sight(block, e)
  {
    hide Sight;
    assert Sight(block, e) + [] == Sight(block, e);
  }

  lemma SightsAround(block: seq<byte>, e: nat)
    requires |block| == BLOCK + OVERHANG && e < 16
    ensures Sights(block, 0, 16) == Sights(block, 0, e) + Sight(block, e) + Sights(block, e + 1, 16)
  {
    hide Sight, Sights;
    SightsSplit(block, 0, e, 16);
    SightsSplit(block, e, e + 1, 16);
    OneSight(block, e);
    assert Sights(block, 0, e) + (Sight(block, e) + Sights(block, e + 1, 16))
        == Sights(block, 0, e) + Sight(block, e) + Sights(block, e + 1, 16);
  }

  /** Slots that read the same give the same entries, whatever follows them. */
  lemma SameSlot(v: seq<byte>, w: seq<byte>)
    requires |v| == |w| == SLOT + OVERHANG && v[..SLOT] == w[..SLOT] && NameInside(v)
    ensures Live(v) == Live(w) && Sound(v) == Sound(w) && EntryOf(v) == EntryOf(w)
  {
    hide CrcStruct, Ascii, Get32;
    assert forall k :: 0 <= k < SLOT ==> v[k] == v[..SLOT][k] == w[..SLOT][k] == w[k];
    Get32Slice(v, SLOT_CK, 0, SLOT);
    Get32Slice(w, SLOT_CK, 0, SLOT);
    Get32Slice(v, 0, 0, SLOT);
    Get32Slice(w, 0, 0, SLOT);
    assert v[6..6 + v[5]] == w[6..6 + w[5]];
  }

  lemma {:induction false} SameSlots(block: seq<byte>, block': seq<byte>, from: nat, to: nat)
    requires |block| == |block'| == BLOCK + OVERHANG && from <= to <= 16
    requires forall e :: from <= e < to ==> SlotView(block, e)[..SLOT] == SlotView(block', e)[..SLOT]
    requires forall e :: from <= e < to ==> NameInside(SlotView(block, e))
    ensures Sights(block, from, to) == Sights(block', from, to)
    decreases 16 - from
  {
    hide Live, Sound, EntryOf, SlotView, NameInside;
    if from < to {
      SameSlot(SlotView(block, from), SlotView(block', from));
      SameSlots(block, block', from + 1, to);
    }
  }

  /** Damage at most four consecutive bytes long inside slot `e`, wholly inside or wholly outside
      the checksum field. */
  ghost predicate DamagesSlot(block: seq<byte>, block': seq<byte>, e: nat, p: nat, m: nat) {
    && |block| == |block'| == BLOCK + OVERHANG && e < 16 && m <= 4 && p + m <= SLOT && block != block'
    && (p + m <= SLOT_CK || p >= SLOT_CK)
    && DifferWithin(block, block', e * SLOT + p, m)
  }

  /** The damaged slot turns into a fault, or into nothing if it no longer looks in use; the other
      slots of the block are seen as before. */
  lemma DamageSeen(block: seq<byte>, block': seq<byte>, e: nat, p: nat, m: nat)
    requires DamagesSlot(block, block', e, p, m) && Live(SlotView(block, e)) && Sound(SlotView(block, e))
    requires forall k :: 0 <= k < 16 ==> NameInside(SlotView(block, k))
    ensures Sights(block, 0, 16)
         == Sights(block, 0, e) + [Found(EntryOf(SlotView(block, e)))] + Sights(block, e + 1, 16)
    ensures Sights(block', 0, 16) == Sights(block, 0, e) + LeftOver(block', e) + Sights(block, e + 1, 16)
  {
    hide Live, Sound, EntryOf, NameInside, SlotView, DifferWithin, Sights;
    DamageKeepsOthers(block, block', e, p, m);
    DamagedSlotUnsound(block, block', e, p, m);
    SightsAround(block, e);
    SightsAround(block', e);
  }

  /** What is left of a damaged slot. */
  function LeftOver(block: seq<byte>, e: nat): seq<Sighting>
    requires |block| == BLOCK + OVERHANG && e < 16
  {
    if Live(SlotView(block, e)) then [Fault] else []
  }

  lemma DamageKeepsOthers(block: seq<byte>, block': seq<byte>, e: nat, p: nat, m: nat)
    requires DamagesSlot(block, block', e, p, m)
    requires forall k :: 0 <= k < 16 ==> NameInside(SlotView(block, k))
    ensures Sights(block, 0, e) == Sights(block', 0, e) && Sights(block, e + 1, 16) == Sights(block', e + 1, 16)
  {
    hide NameInside, SlotView, Sights, DifferWithin;
    forall k | 0 <= k < 16 && k != e ensures SlotView(block, k)[..SLOT] == SlotView(block', k)[..SLOT] {
      OtherSlotsSame(block, block', e, p, m, k);
    }
    SameSlots(block, block', 0, e);
    SameSlots(block, block', e + 1, 16);
  }

  lemma OtherSlotsSame(block: seq<byte>, block': seq<byte>, e: nat, p: nat, m: nat, k: nat)
    requires DamagesSlot(block, block', e, p, m) && k < 16 && k != e
    ensures SlotView(block, k)[..SLOT] == SlotView(block', k)[..SLOT]
  {
    var lo, at := k * SLOT, e * SLOT + p;
    OutsideSame(block, block', at, m, lo, lo + SLOT);
    SliceOfSlice(block, lo, lo + SLOT + OVERHANG, 0, SLOT);
    SliceOfSlice(block', lo, lo + SLOT + OVERHANG, 0, SLOT);
  }

  lemma OutsideSame(block: seq<byte>, block': seq<byte>, at: nat, m: nat, lo: nat, hi: nat)
    requires DifferWithin(block, block', at, m) && lo <= hi <= |block| && (hi <= at || at + m <= lo)
    ensures block[lo..hi] == block'[lo..hi]
  {
    forall i | lo <= i < hi ensures block[i] == block'[i] {
      if hi <= at {
        assert block[..at][i] == block'[..at][i];
      } else {
        assert block[at + m..][i - at - m] == block'[at + m..][i - at - m];
      }
    }
  }

  lemma DamagedSlotUnsound(block: seq<byte>, block': seq<byte>, e: nat, p: nat, m: nat)
    requires DamagesSlot(block, block', e, p, m) && Sound(SlotView(block, e))
    ensures !Sound(SlotView(block', e))
  {
    hide CrcStruct;
    var s, s' := SlotView(block, e)[..SLOT], SlotView(block', e)[..SLOT];
    var lo := e * SLOT;
    SliceOfSlice(block, lo, lo + SLOT + OVERHANG, 0, SLOT);
    SliceOfSlice(block', lo, lo + SLOT + OVERHANG, 0, SLOT);
    DifferInside(block, block', lo, lo + SLOT, p, m);
    Get32Slice(SlotView(block, e), SLOT_CK, 0, SLOT);
    Get32Slice(SlotView(block', e), SLOT_CK, 0, SLOT);
    DamageBreaks(s, s', SLOT_CK, p, m);
  }

  lemma DifferInside(s: seq<byte>, t: seq<byte>, lo: nat, hi: nat, at: nat, m: nat)
    requires lo + at + m <= hi <= |s| && DifferWithin(s, t, lo + at, m) && s != t
    ensures DifferWithin(s[lo..hi], t[lo..hi], at, m) && s[lo..hi] != t[lo..hi]
  {
    SliceOfSlice(s, lo, hi, 0, at);
    SliceOfSlice(t, lo, hi, 0, at);
    OutsideSame(s, t, lo + at, m, lo, lo + at);
    SliceOfSlice(s, lo, hi, at + m, hi - lo);
    SliceOfSlice(t, lo, hi, at + m, hi - lo);
    OutsideSame(s, t, lo + at, m, lo + at + m, hi);
    SameInside(s, t, lo, hi, at, m);
  }

  lemma SameInside(s: seq<byte>, t: seq<byte>, lo: nat, hi: nat, at: nat, m: nat)
    requires lo + at + m <= hi <= |s| && DifferWithin(s, t, lo + at, m)
    ensures s[lo..hi] == t[lo..hi] ==> s == t
  {
    if s[lo..hi] == t[lo..hi] {
      SliceOfSlice(s, lo, hi, at, at + m);
      SliceOfSlice(t, lo, hi, at, at + m);
      assert s == s[..lo + at] + s[lo + at..lo + at + m] + s[lo + at + m..];
      assert t == t[..lo + at] + t[lo + at..lo + at + m] + t[lo + at + m..];
    }
  }

  /** Catalog block `b` as the driver sees it, with the bytes past the staging buffer. */
  function Seen(blocks: seq<seq<byte>>, past: seq<byte>, b: nat): (v: seq<byte>)
    requires AreBlocks(blocks) && |past| == OVERHANG && b < |blocks|
    ensures |v| == BLOCK + OVERHANG
  {
    blocks[b] + past
  }

  /** What is seen before and after slot `e` of catalog block `b`. */
  function SightsBefore(blocks: seq<seq<byte>>, past: seq<byte>, b: nat, e: nat): seq<Sighting>
    requires AreBlocks(blocks) && |past| == OVERHANG && b < |blocks| && e < 16
  {
    SightsAll(blocks[..b], past) + Sights(Seen(blocks, past, b), 0, e)
  }

  function SightsAfter(blocks: seq<seq<byte>>, past: seq<byte>, b: nat, e: nat): seq<Sighting>
    requires AreBlocks(blocks) && |past| == OVERHANG && b < |blocks| && e < 16
  {
    Sights(Seen(blocks, past, b), e + 1, 16) + SightsAll(blocks[b + 1..], past)
  }

  lemma {:induction false} SightsAllAround(blocks: seq<seq<byte>>, past: seq<byte>, b: nat)
    requires AreBlocks(blocks) && |past| == OVERHANG && b < |blocks|
    ensures SightsAll(blocks, past)
         == SightsAll(blocks[..b], past) + Sights(Seen(blocks, past, b), 0, 16) + SightsAll(blocks[b + 1..], past)
    decreases b
  {
    hide Sights;
    if b > 0 {
      var more := blocks[1..];
      SightsAllAround(more, past, b - 1);
      assert more[..b - 1] == blocks[..b][1..] && more[b..] == blocks[b + 1..] && more[b - 1] == blocks[b];
    }
  }

  /** The list of blocks with the damaged block in place of block `b`. */
  function Damaged(blocks: seq<seq<byte>>, b: nat, block': seq<byte>): (bs: seq<seq<byte>>)
    requires AreBlocks(blocks) && b < |blocks| && |block'| == BLOCK
    ensures AreBlocks(bs) && |bs| == |blocks|
  {
    blocks[b := block']
  }

  /** Among several catalog blocks, exactly the damaged entry of block `b` is gone. */
  lemma DamageSeenAmong(blocks: seq<seq<byte>>, b: nat, block': seq<byte>, past: seq<byte>, e: nat, p: nat, m: nat)
    requires AreBlocks(blocks) && |past| == OVERHANG && b < |blocks| && |block'| == BLOCK && e < 16
    requires DamagesSlot(Seen(blocks, past, b), block' + past, e, p, m)
    requires Live(SlotView(Seen(blocks, past, b), e)) && Sound(SlotView(Seen(blocks, past, b), e))
    requires forall k :: 0 <= k < 16 ==> NameInside(SlotView(Seen(blocks, past, b), k))
    ensures SightsAll(blocks, past) == SightsBefore(blocks, past, b, e)
      + [Found(EntryOf(SlotView(Seen(blocks, past, b), e)))] + SightsAfter(blocks, past, b, e)
    ensures SightsAll(Damaged(blocks, b, block'), past)
         == SightsBefore(blocks, past, b, e) + LeftOver(block' + past, e) + SightsAfter(blocks, past, b, e)
  {
    hide Live, Sound, EntryOf, NameInside, Sights, SightsAll, DamagesSlot, SlotView, LeftOver;
    var blocks' := Damaged(blocks, b, block');
    var v := Seen(blocks, past, b);
    DamageSeen(v, block' + past, e, p, m);
    SightsAllAround(blocks, past, b);
    SightsAllAround(blocks', past, b);
    OtherBlocksSame(blocks, b, block');
    var x, z := SightsAll(blocks[..b], past), SightsAll(blocks[b + 1..], past);
    Regroup(x, Sights(v, 0, e), [Found(EntryOf(SlotView(v, e)))], Sights(v, e + 1, 16), z);
    Regroup(x, Sights(v, 0, e), LeftOver(block' + past, e), Sights(v, e + 1, 16), z);
  }

  lemma OtherBlocksSame(blocks: seq<seq<byte>>, b: nat, block': seq<byte>)
    requires AreBlocks(blocks) && b < |blocks| && |block'| == BLOCK
    ensures var blocks' := Damaged(blocks, b, block');
      blocks'[..b] == blocks[..b] && blocks'[b + 1..] == blocks[b + 1..] && blocks'[b] == block'
  {
  }

  lemma Regroup<T>(x: seq<T>, a: seq<T>, e: seq<T>, c: seq<T>, z: seq<T>)
    ensures x + (a + e + c) + z == (x + a) + e + (c + z)
  {
  }
}
