/** The packed on-disk structures: what the formatter stores and what the driver reads,
    at the same offsets. */
module Layout {
  import opened Bytes
  import opened Crc32c

  const BLOCK: nat := 0x1000
  const SLOT: nat := 0x100
  const MAGIC: nat := 0x4F57_4653
  const USFS_MAGIC: nat := 0x5553_4653
  const ENTRY_FILE: byte := 0x01
  const ENTRY_CATALOG: byte := 0x02
  const ENTRY_DELETED: byte := 0x80
  const SLOT_CK: nat := 0xFC
  const SUPER_CK: nat := 0x84
  const DIRECT: nat := 10
  const NAME_BYTES: nat := 128
  const SUPER_BLOCK: nat := 16
  const MAX_FILE_BLOCKS: nat := 1034   // 10 direct and 1024 indirect pointers

  /** `s` with the CRC of the rest stored in its checksum field. */
  function Sealed(s: seq<byte>, ck: nat): (r: seq<byte>)
    requires ck + 4 <= |s|
    ensures |r| == |s|
  {
    PutAt(s, ck, Le32(CrcStruct(s, ck)))
  }

  predicate Intact(s: seq<byte>, ck: nat)
    requires ck + 4 <= |s|
  {
    CrcStruct(s, ck) == Get32(s, ck)
  }

  lemma SealedIsIntact(s: seq<byte>, ck: nat)
    requires ck + 4 <= |s|
    ensures Intact(Sealed(s, ck), ck)
  {
    var crc := CrcStruct(s, ck);
    StructIgnoresField(s, ck, Le32(crc));
    FieldReads32(Sealed(s, ck), ck, crc);
    hide CrcStruct;
  }

  /** Damage confined to four consecutive bytes, wholly inside or wholly outside the checksum
      field, breaks an intact structure. */
  lemma DamageBreaks(s: seq<byte>, t: seq<byte>, ck: nat, p: nat, m: nat)
    requires m <= 4 && DifferWithin(s, t, p, m) && s != t && ck + 4 <= |s| && Intact(s, ck)
    requires p + m <= ck || ck + 4 <= p || (ck <= p && p + m <= ck + 4)
    ensures !Intact(t, ck)
  {
    if p + m <= ck || ck + 4 <= p {
      StructBurstDetected(s, t, ck, p, m);
      FieldUntouched(s, t, ck, p, m);
    } else {
      FieldOnly(s, t, ck, p, m);
    }
  }

  lemma FieldUntouched(s: seq<byte>, t: seq<byte>, ck: nat, p: nat, m: nat)
    requires DifferWithin(s, t, p, m) && ck + 4 <= |s| && (p + m <= ck || ck + 4 <= p)
    ensures Get32(s, ck) == Get32(t, ck)
  {
    var a, b := s[ck..ck + 4], t[ck..ck + 4];
    if p + m <= ck {
      assert a == s[p + m..][ck - p - m..][..4] && b == t[p + m..][ck - p - m..][..4];
    } else {
      assert a == s[..p][ck..][..4] && b == t[..p][ck..][..4];
    }
    Get32Slice(s, ck, ck, ck + 4);
    Get32Slice(t, ck, ck, ck + 4);
  }

  lemma FieldOnly(s: seq<byte>, t: seq<byte>, ck: nat, p: nat, m: nat)
    requires DifferWithin(s, t, p, m) && s != t && ck + 4 <= |s| && ck <= p && p + m <= ck + 4
    ensures CrcStruct(s, ck) == CrcStruct(t, ck) && Get32(s, ck) != Get32(t, ck)
  {
    var a, b := s[ck..ck + 4], t[ck..ck + 4];
    assert s[..ck] == s[..p][..ck] && t[..ck] == t[..p][..ck];
    assert s[ck + 4..] == s[p + m..][ck + 4 - p - m..] && t[ck + 4..] == t[p + m..][ck + 4 - p - m..];
    assert s == s[..ck] + a + s[ck + 4..] && t == s[..ck] + b + s[ck + 4..];
    assert t == PutAt(s, ck, b);
    StructIgnoresField(s, ck, b);
    Get32Slice(s, ck, ck, ck + 4);
    Get32Slice(t, ck, ck, ck + 4);
    hide CrcStruct;
    if Get32(a, 0) == Get32(b, 0) {
      Bytes.WordInjective(a, b);
    }
  }

  // ---- inodes -----------------------------------------------------------------------

  /** The formatter's inode dictionary. */
  datatype InodeFields = InodeFields(number: nat, entryType: byte, nameLength: byte, permissions: nat, flags: nat,
                                     size: nat, blockCount: nat, parent: nat, direct: seq<nat>, indirect: nat,
                                     name: seq<byte>)

  predicate FitsSlot(f: InodeFields) {
    |f.direct| <= DIRECT && |f.name| <= NAME_BYTES
  }

  function InodeEdits(f: InodeFields): (es: seq<Edit>)
    requires FitsSlot(f)
    ensures Fit(SLOT, es)
  {
    [ Edit(0x00, Le32(f.number)),
      Edit(0x04, [f.entryType]),
      Edit(0x05, [f.nameLength]),
      Edit(0x06, Le16(f.permissions)),
      Edit(0x08, Le16(f.flags)),
      Edit(0x0A, Le32(f.size)),
      Edit(0x0E, Le32(f.blockCount)),
      Edit(0x1A, Le32(f.parent)),
      Edit(0x1E, Le32s(f.direct)),
      Edit(0x46, Le32(f.indirect)),
      Edit(0x4A, f.name) ]
  }

  function EncodeInode(f: InodeFields): (s: seq<byte>)
    requires FitsSlot(f)
    ensures |s| == SLOT
  {
    Sealed(Apply(Zeros(SLOT), InodeEdits(f)), SLOT_CK)
  }

  /** The fields of the packed C structure that the driver reads. */
  datatype Inode = Inode(entryType: byte, size: nat, blockCount: nat, direct: seq<nat>, indirect: nat)

  function Words(s: seq<byte>, o: nat, n: nat): (ws: seq<nat>)
    requires o + 4 * n <= |s|
    ensures |ws| == n && forall i :: 0 <= i < n ==> ws[i] == Get32(s, o + 4 * i)
  {
    seq(n, i requires 0 <= i < n => Get32(s, o + 4 * i))
  }

  function ParseInode(s: seq<byte>): (i: Inode)
    requires |s| == SLOT
  {
    Inode(s[4], Get32(s, 0x0A), Get32(s, 0x0E), Words(s, 0x1E, DIRECT), Get32(s, 0x46))
  }

  predicate FieldsFit(f: InodeFields) {
    FitsSlot(f) && f.size < TWO_32 && f.blockCount < TWO_32 && f.indirect < TWO_32
    && forall i :: 0 <= i < |f.direct| ==> f.direct[i] < TWO_32
  }

  /** Bytes of a slot below the checksum survive sealing. */
  lemma SealedKeeps(s: seq<byte>, ck: nat, lo: nat, hi: nat)
    requires lo <= hi <= ck && ck + 4 <= |s|
    ensures Sealed(s, ck)[lo..hi] == s[lo..hi]
  {
    PutAtElsewhere(s, ck, Le32(CrcStruct(s, ck)), lo, hi);
  }

  lemma InodeField(f: InodeFields, k: nat)
    requires FitsSlot(f) && k < 11
    ensures var e := InodeEdits(f)[k]; EncodeInode(f)[e.at..e.at + |e.bytes|] == e.bytes
  {
    hide Apply, Le32, Le32s, Le16, Sealed, CrcStruct;
    var es := InodeEdits(f);
    var raw := Apply(Zeros(SLOT), es);
    ApplyReads(Zeros(SLOT), es, k);
    SealedKeeps(raw, SLOT_CK, es[k].at, es[k].at + |es[k].bytes|);
  }

  /** Direct pointers past the stored ones are zero. */
  lemma InodeUnusedDirect(f: InodeFields)
    requires FitsSlot(f)
    ensures var o := 0x1E + 4 * |f.direct|; EncodeInode(f)[o..0x46] == Zeros(0x46 - o)
  {
    var es := InodeEdits(f);
    var o := 0x1E + 4 * |f.direct|;
    var raw := Apply(Zeros(SLOT), es);
    hide Apply, Le32, Le32s, Le16, Sealed, CrcStruct;
    ApplyKeeps(Zeros(SLOT), es, o, 0x46 - o);
    SealedKeeps(raw, SLOT_CK, o, 0x46);
    assert Zeros(SLOT)[o..0x46] == Zeros(0x46 - o);
  }

  lemma ZeroReads(s: seq<byte>, o: nat, lo: nat, hi: nat)
    requires lo <= o && o + 4 <= hi <= |s| && s[lo..hi] == Zeros(hi - lo)
    ensures Get32(s, o) == 0
  {
    var z := s[lo..hi];
    var d := o - lo;
    assert z[d] == s[o] && z[d + 1] == s[o + 1] && z[d + 2] == s[o + 2] && z[d + 3] == s[o + 3];
  }

  lemma WordReads(s: seq<byte>, lo: nat, ws: seq<nat>, i: nat)
    requires i < |ws| && ws[i] < TWO_32 && lo + 4 * |ws| <= |s| && s[lo..lo + 4 * |ws|] == Le32s(ws)
    ensures Get32(s, lo + 4 * i) == ws[i]
  {
    hide Le32, Le32s, Get32;
    var o := lo + 4 * i;
    Le32sAt(ws, i);
    SliceOfSlice(s, lo, lo + 4 * |ws|, 4 * i, 4 * i + 4);
    FieldReads32(s, o, ws[i]);
  }

  function DirectTable(direct: seq<nat>): seq<nat>
    requires |direct| <= DIRECT
  {
    direct + seq(DIRECT - |direct|, _ => 0)
  }

  lemma InodeDirect(f: InodeFields)
    requires FieldsFit(f)
    ensures Words(EncodeInode(f), 0x1E, DIRECT) == DirectTable(f.direct)
  {
    var s := EncodeInode(f);
    InodeField(f, 8);
    InodeUnusedDirect(f);
    hide EncodeInode, Le32s, Get32;
    forall i | 0 <= i < DIRECT ensures Get32(s, 0x1E + 4 * i) == DirectTable(f.direct)[i] {
      if i < |f.direct| {
        WordReads(s, 0x1E, f.direct, i);
      } else {
        ZeroReads(s, 0x1E + 4 * i, 0x1E + 4 * |f.direct|, 0x46);
      }
    }
  }

  /** What the driver reads is what the formatter stored. */
  lemma InodeRoundTrip(f: InodeFields)
    requires FieldsFit(f)
    ensures ParseInode(EncodeInode(f))
         == Inode(f.entryType, f.size, f.blockCount, DirectTable(f.direct), f.indirect)
    ensures Intact(EncodeInode(f), SLOT_CK)
  {
    hide EncodeInode, Le32, Intact, DirectTable, Get32, Le32s;
    var s := EncodeInode(f);
    InodeIntact(f);
    InodeDirect(f);
    InodeField(f, 1);
    assert s[4..5][0] == s[4];
    InodeWord(f, 5, f.size);
    InodeWord(f, 6, f.blockCount);
    InodeWord(f, 9, f.indirect);
  }

  /** The fields the driver does not look at are where they belong too, and the rest of the slot is zero. */
  lemma InodeReadsBack(f: InodeFields)
    requires FitsSlot(f)
    ensures var s, end := EncodeInode(f), 0x4A + |f.name|;
      && Get32(s, 0x00) == f.number % TWO_32 && s[5] == f.nameLength
      && Get16(s, 0x06) == f.permissions % 0x1_0000 && Get16(s, 0x08) == f.flags % 0x1_0000
      && Get32(s, 0x1A) == f.parent % TWO_32
      && s[0x4A..end] == f.name && s[0x12..0x1A] == Zeros(8) && s[end..0xFC] == Zeros(0xFC - end)
  {
    hide EncodeInode, Le32, Le16, Get32, Get16, Le32s;
    var s, end := EncodeInode(f), 0x4A + |f.name|;
    InodeField(f, 0);
    FieldWraps32(s, 0x00, f.number);
    InodeField(f, 2);
    assert s[5] == s[5..6][0];
    InodeField(f, 3);
    FieldWraps16(s, 0x06, f.permissions);
    InodeField(f, 4);
    FieldWraps16(s, 0x08, f.flags);
    InodeField(f, 7);
    FieldWraps32(s, 0x1A, f.parent);
    InodeField(f, 10);
    InodeGap(f, 0x12, 8);
    InodeGap(f, end, 0xFC - end);
  }

  lemma InodeGap(f: InodeFields, o: nat, n: nat)
    requires FitsSlot(f) && o + n <= 0xFC && ((0x12 <= o && o + n <= 0x1A) || 0x4A + |f.name| <= o)
    ensures EncodeInode(f)[o..o + n] == Zeros(n)
  {
    hide Apply, Le32, Le32s, Le16, Sealed, CrcStruct;
    var es := InodeEdits(f);
    assert Apart(o, n, es);
    ApplyKeeps(Zeros(SLOT), es, o, n);
    SealedKeeps(Apply(Zeros(SLOT), es), SLOT_CK, o, o + n);
    assert Zeros(SLOT)[o..o + n] == Zeros(n);
  }

  lemma InodeIntact(f: InodeFields)
    requires FitsSlot(f)
    ensures Intact(EncodeInode(f), SLOT_CK)
  {
    hide Intact, Apply, Sealed, InodeEdits;
    SealedIsIntact(Apply(Zeros(SLOT), InodeEdits(f)), SLOT_CK);
  }

  lemma InodeWord(f: InodeFields, k: nat, v: nat)
    requires FitsSlot(f) && k < 11 && v < TWO_32 && InodeEdits(f)[k].bytes == Le32(v)
    ensures Get32(EncodeInode(f), InodeEdits(f)[k].at) == v
  {
    InodeField(f, k);
    hide InodeEdits, EncodeInode;
    FieldReads32(EncodeInode(f), InodeEdits(f)[k].at, v);
  }

  // ---- catalog entries -------------------------------------------------------------------

  function EntryEdits(inode: nat, entryType: byte, name: seq<byte>): (es: seq<Edit>)
    requires |name| <= NAME_BYTES
    ensures Fit(SLOT, es)
  {
    [ Edit(0x00, Le32(inode)), Edit(0x04, [entryType]), Edit(0x05, [|name|]), Edit(0x06, name) ]
  }

  function EncodeEntry(inode: nat, entryType: byte, name: seq<byte>): (s: seq<byte>)
    requires |name| <= NAME_BYTES
    ensures |s| == SLOT
  {
    Sealed(Apply(Zeros(SLOT), EntryEdits(inode, entryType, name)), SLOT_CK)
  }

  lemma EntryField(inode: nat, entryType: byte, name: seq<byte>, k: nat)
    requires |name| <= NAME_BYTES && k < 4
    ensures var e := EntryEdits(inode, entryType, name)[k];
            EncodeEntry(inode, entryType, name)[e.at..e.at + |e.bytes|] == e.bytes
  {
    var es := EntryEdits(inode, entryType, name);
    var raw := Apply(Zeros(SLOT), es);
    hide Apply, Le32, Sealed, CrcStruct;
    ApplyReads(Zeros(SLOT), es, k);
    SealedKeeps(raw, SLOT_CK, es[k].at, es[k].at + |es[k].bytes|);
  }

  lemma EntryRoundTrip(inode: nat, entryType: byte, name: seq<byte>)
    requires |name| <= NAME_BYTES && inode < TWO_32
    ensures var s := EncodeEntry(inode, entryType, name);
            && Get32(s, 0) == inode && s[4] == entryType && s[5] as int == |name|
            && s[6..6 + |name|] == name && Intact(s, SLOT_CK)
  {
    hide EncodeEntry, Intact, Le32, Get32;
    var s := EncodeEntry(inode, entryType, name);
    EntryIntact(inode, entryType, name);
    EntryField(inode, entryType, name, 0);
    EntryField(inode, entryType, name, 1);
    EntryField(inode, entryType, name, 2);
    EntryField(inode, entryType, name, 3);
    FieldReads32(s, 0, inode);
    assert s[4..5][0] == s[4] && s[5..6][0] == s[5];
  }

  lemma EntryIntact(inode: nat, entryType: byte, name: seq<byte>)
    requires |name| <= NAME_BYTES
    ensures Intact(EncodeEntry(inode, entryType, name), SLOT_CK)
  {
    hide Intact, Apply, Sealed, EntryEdits;
    SealedIsIntact(Apply(Zeros(SLOT), EntryEdits(inode, entryType, name)), SLOT_CK);
  }

  // ---- superblock ---------------------------------------------------------------------------

  datatype SuperFields = SuperFields(total: nat, freeBlocks: nat, freeInodes: nat, bitmapBlocks: nat,
                                     inodeTable: nat, dataStart: nat, fletcher: nat, volumeLabel: seq<byte>)

  const TOTAL_INODES: nat := 0x1000
  const INODE_TABLE_BLOCKS: nat := 256
  const BITMAP_START: nat := 17
  const LABEL_BYTES: nat := 64

  function SuperHeader(f: SuperFields): (es: seq<Edit>)
    ensures Fit(BLOCK, es) && Ascending(es)
  {
    [ Edit(0x00, Le32(MAGIC)), Edit(0x04, Le16(1)), Edit(0x06, Le16(2)), Edit(0x08, Le32(BLOCK)),
      Edit(0x0C, Le32(f.total)), Edit(0x10, Le32(f.freeBlocks)), Edit(0x14, Le32(TOTAL_INODES)),
      Edit(0x18, Le32(f.freeInodes)), Edit(0x1C, Le32(BITMAP_START)), Edit(0x20, Le32(f.bitmapBlocks)),
      Edit(0x24, Le32(f.inodeTable)), Edit(0x28, Le32(INODE_TABLE_BLOCKS)), Edit(0x2C, Le32(f.dataStart)),
      Edit(0x30, Le32(0)), Edit(0x34, Le32(0)), Edit(0x38, Le32(0)) ]
  }

  function SuperTrailer(f: SuperFields): (es: seq<Edit>)
    requires |f.volumeLabel| <= LABEL_BYTES
    ensures Fit(BLOCK, es)
  {
    [ Edit(0x44, f.volumeLabel), Edit(0x88, Le32(0)), Edit(0x3C, Le64(f.fletcher)) ]
  }

  function SuperEdits(f: SuperFields): (es: seq<Edit>)
    requires |f.volumeLabel| <= LABEL_BYTES
    ensures Fit(BLOCK, es)
  {
    SuperHeader(f) + SuperTrailer(f)
  }

  function EncodeSuper(f: SuperFields): (s: seq<byte>)
    requires |f.volumeLabel| <= LABEL_BYTES
    ensures |s| == BLOCK
  {
    Sealed(Apply(Zeros(BLOCK), SuperEdits(f)), SUPER_CK)
  }

  /** The superblock fields the probe looks at. */
  datatype Super = Super(magic: nat, major: nat, minor: nat, blockSize: nat, totalInodes: nat, inodeTable: nat,
                         stateFlags: nat, securityFlags: nat)

  function ParseSuper(s: seq<byte>): Super
    requires |s| == BLOCK
  {
    Super(Get32(s, 0x00), Get16(s, 0x04), Get16(s, 0x06), Get32(s, 0x08), Get32(s, 0x14), Get32(s, 0x24),
          Get32(s, 0x38), Get32(s, 0x88))
  }

  lemma HeaderApart(f: SuperFields, k: nat)
    requires |f.volumeLabel| <= LABEL_BYTES && k < 16
    ensures |SuperHeader(f)| == 16
    ensures var e := SuperHeader(f)[k]; e.at + |e.bytes| <= 0x3C && Apart(e.at, |e.bytes|, SuperTrailer(f))
  {
    hide Ascending, Fit, Le32, Le16, Le64;
  }

  lemma SuperField(f: SuperFields, k: nat)
    requires |f.volumeLabel| <= LABEL_BYTES && k < 16
    ensures var e := SuperHeader(f)[k]; EncodeSuper(f)[e.at..e.at + |e.bytes|] == e.bytes
  {
    hide SuperHeader, SuperTrailer, Apply, Sealed, Ascending, Apart;
    var es, more := SuperHeader(f), SuperTrailer(f);
    HeaderApart(f, k);
    AscendingReads(Zeros(BLOCK), es, more, k);
    SealedKeeps(Apply(Zeros(BLOCK), es + more), SUPER_CK, es[k].at, es[k].at + |es[k].bytes|);
  }

  /** The stores after the header do not overlap one another. */
  lemma TrailerApart(f: SuperFields, k: nat)
    requires |f.volumeLabel| <= LABEL_BYTES && k < 3
    ensures |SuperTrailer(f)| == 3
    ensures Apart(SuperTrailer(f)[k].at, |SuperTrailer(f)[k].bytes|, SuperTrailer(f)[k + 1..])
    ensures var e := SuperTrailer(f)[k];
      e.at + |e.bytes| <= BLOCK && (e.at + |e.bytes| <= SUPER_CK || SUPER_CK + 4 <= e.at)
  {
    hide Fit, Le32, Le64;
  }

  lemma TrailerField(f: SuperFields, k: nat)
    requires |f.volumeLabel| <= LABEL_BYTES && k < 3
    ensures |SuperTrailer(f)| == 3
    ensures var e := SuperTrailer(f)[k];
      e.at + |e.bytes| <= BLOCK && EncodeSuper(f)[e.at..e.at + |e.bytes|] == e.bytes
  {
    hide SuperHeader, SuperTrailer, Apply, Sealed, Ascending, Apart;
    var es, more := SuperHeader(f), SuperTrailer(f);
    TrailerApart(f, k);
    var e := more[k];
    assert (es + more)[|es| + k] == e && (es + more)[|es| + k + 1..] == more[k + 1..];
    ApplyReads(Zeros(BLOCK), es + more, |es| + k);
    if e.at + |e.bytes| <= SUPER_CK {
      SealedKeeps(Apply(Zeros(BLOCK), es + more), SUPER_CK, e.at, e.at + |e.bytes|);
    } else {
      SealedKeepsAbove(Apply(Zeros(BLOCK), es + more), SUPER_CK, e.at, e.at + |e.bytes|);
    }
  }

  lemma SuperSecurity(f: SuperFields)
    requires |f.volumeLabel| <= LABEL_BYTES
    ensures Get32(EncodeSuper(f), 0x88) == 0
  {
    hide EncodeSuper, Le32, Get32;
    TrailerField(f, 1);
    FieldReads32(EncodeSuper(f), 0x88, 0);
  }

  lemma SuperFletcher(f: SuperFields)
    requires |f.volumeLabel| <= LABEL_BYTES
    ensures Get32(EncodeSuper(f), 0x3C) == f.fletcher % TWO_32
    ensures Get32(EncodeSuper(f), 0x40) == f.fletcher / TWO_32 % TWO_32
  {
    hide EncodeSuper, Le32, Get32;
    TrailerField(f, 2);
    var s, v := EncodeSuper(f), Le64(f.fletcher);
    assert s[0x3C..0x40] == s[0x3C..0x44][..4] == v[..4] && s[0x40..0x44] == s[0x3C..0x44][4..] == v[4..];
    FieldWraps32(s, 0x3C, f.fletcher % TWO_32);
    FieldWraps32(s, 0x40, f.fletcher / TWO_32);
  }

  /** The label, and zeros up to the checksum and after the security flags. */
  lemma SuperLabel(f: SuperFields)
    requires |f.volumeLabel| <= LABEL_BYTES
    ensures var s, end := EncodeSuper(f), 0x44 + |f.volumeLabel|;
      s[0x44..end] == f.volumeLabel && s[end..0x84] == Zeros(0x84 - end) && s[0x8C..] == Zeros(BLOCK - 0x8C)
  {
    TrailerField(f, 0);
    var end := 0x44 + |f.volumeLabel|;
    SuperGap(f, end, 0x84 - end);
    SuperGap(f, 0x8C, BLOCK - 0x8C);
    hide EncodeSuper;
    assert EncodeSuper(f)[0x8C..] == EncodeSuper(f)[0x8C..BLOCK];
  }

  lemma SuperGap(f: SuperFields, o: nat, n: nat)
    requires |f.volumeLabel| <= LABEL_BYTES && o + n <= BLOCK
    requires (0x44 + |f.volumeLabel| <= o && o + n <= 0x84) || 0x8C <= o
    ensures EncodeSuper(f)[o..o + n] == Zeros(n)
  {
    var es, raw := SuperEdits(f), Apply(Zeros(BLOCK), SuperEdits(f));
    EditsApart(f, o, n);
    hide SuperEdits, Apply, Sealed, Apart;
    ApplyKeeps(Zeros(BLOCK), es, o, n);
    if o + n <= SUPER_CK {
      SealedKeeps(raw, SUPER_CK, o, o + n);
    } else {
      SealedKeepsAbove(raw, SUPER_CK, o, o + n);
    }
  }

  lemma EditsApart(f: SuperFields, o: nat, n: nat)
    requires |f.volumeLabel| <= LABEL_BYTES && o + n <= BLOCK
    requires (0x44 + |f.volumeLabel| <= o && o + n <= 0x84) || 0x8C <= o
    ensures Apart(o, n, SuperEdits(f))
  {
    hide Le32, Le16, Le64, Fit, Ascending;
    var es, more := SuperHeader(f), SuperTrailer(f);
    var all: seq<Edit> := es + more;
    forall k | 0 <= k < |all| ensures all[k].at + |all[k].bytes| <= o || o + n <= all[k].at {
      if k < 16 {
        assert all[k] == es[k];
      } else {
        assert all[k] == more[k - 16];
      }
    }
  }

  lemma SealedKeepsAbove(s: seq<byte>, ck: nat, lo: nat, hi: nat)
    requires ck + 4 <= lo <= hi <= |s|
    ensures Sealed(s, ck)[lo..hi] == s[lo..hi]
  {
    PutAtElsewhere(s, ck, Le32(CrcStruct(s, ck)), lo, hi);
  }

  /** Every field of the superblock, read back at its own offset. */
  ghost predicate SuperHas(s: seq<byte>, f: SuperFields)
    requires |f.volumeLabel| <= LABEL_BYTES
  {
    && |s| == BLOCK
    && Get32(s, 0x00) == 0x4F57_4653 && Get16(s, 0x04) == 1 && Get16(s, 0x06) == 2 && Get32(s, 0x08) == 4096
    && Get32(s, 0x0C) == f.total % TWO_32 && Get32(s, 0x10) == f.freeBlocks % TWO_32
    && Get32(s, 0x14) == 4096 && Get32(s, 0x18) == f.freeInodes % TWO_32
    && Get32(s, 0x1C) == 17 && Get32(s, 0x20) == f.bitmapBlocks % TWO_32
    && Get32(s, 0x24) == f.inodeTable % TWO_32 && Get32(s, 0x28) == 256 && Get32(s, 0x2C) == f.dataStart % TWO_32
    && Get32(s, 0x30) == Get32(s, 0x34) == Get32(s, 0x38) == Get32(s, 0x88) == 0
    && Get32(s, 0x3C) == f.fletcher % TWO_32 && Get32(s, 0x40) == f.fletcher / TWO_32 % TWO_32
    && HasLabel(s, f.volumeLabel) && s[0x8C..] == Zeros(BLOCK - 0x8C)
    && CrcStruct(s, 0x84) == Get32(s, 0x84)
  }

  /** The label, padded with zeros to the checksum field. */
  predicate HasLabel(s: seq<byte>, volumeLabel: seq<byte>)
    requires |s| == BLOCK && |volumeLabel| <= LABEL_BYTES
  {
    var end := 0x44 + |volumeLabel|;
    s[0x44..end] == volumeLabel && s[end..0x84] == Zeros(0x84 - end)
  }

  lemma SuperReadsBack(f: SuperFields)
    requires |f.volumeLabel| <= LABEL_BYTES
    ensures SuperHas(EncodeSuper(f), f)
  {
    hide EncodeSuper, Le32, Le16, Intact, Get32, Get16, CrcStruct;
    SuperSound(f);
    SuperSecurity(f);
    SuperFletcher(f);
    SuperLabel(f);
    SuperWords(f);
    SuperHalf(f, 1, 1);
    SuperHalf(f, 2, 2);
  }

  lemma SuperWords(f: SuperFields)
    requires |f.volumeLabel| <= LABEL_BYTES
    ensures var s := EncodeSuper(f);
      && Get32(s, 0x00) == MAGIC && Get32(s, 0x08) == BLOCK
      && Get32(s, 0x0C) == f.total % TWO_32 && Get32(s, 0x10) == f.freeBlocks % TWO_32
      && Get32(s, 0x14) == TOTAL_INODES && Get32(s, 0x18) == f.freeInodes % TWO_32
      && Get32(s, 0x1C) == BITMAP_START && Get32(s, 0x20) == f.bitmapBlocks % TWO_32
      && Get32(s, 0x24) == f.inodeTable % TWO_32 && Get32(s, 0x28) == INODE_TABLE_BLOCKS
      && Get32(s, 0x2C) == f.dataStart % TWO_32 && Get32(s, 0x30) == Get32(s, 0x34) == Get32(s, 0x38) == 0
  {
    hide EncodeSuper, Le32, Le16, Get32;
    SuperWord(f, 0, MAGIC);
    SuperWord(f, 3, BLOCK);
    SuperWord(f, 4, f.total);
    SuperWord(f, 5, f.freeBlocks);
    SuperWord(f, 6, TOTAL_INODES);
    SuperWord(f, 7, f.freeInodes);
    SuperWord(f, 8, BITMAP_START);
    SuperWord(f, 9, f.bitmapBlocks);
    SuperWord(f, 10, f.inodeTable);
    SuperWord(f, 11, INODE_TABLE_BLOCKS);
    SuperWord(f, 12, f.dataStart);
    SuperWord(f, 13, 0);
    SuperWord(f, 14, 0);
    SuperWord(f, 15, 0);
  }

  lemma SuperRoundTrip(f: SuperFields)
    requires |f.volumeLabel| <= LABEL_BYTES && f.inodeTable < TWO_32
    ensures ParseSuper(EncodeSuper(f)) == Super(MAGIC, 1, 2, BLOCK, TOTAL_INODES, f.inodeTable, 0, 0)
    ensures Intact(EncodeSuper(f), SUPER_CK)
  {
    hide EncodeSuper, Get32, Get16, CrcStruct, HasLabel;
    SuperReadsBack(f);
  }

  lemma SuperSound(f: SuperFields)
    requires |f.volumeLabel| <= LABEL_BYTES
    ensures CrcStruct(EncodeSuper(f), 0x84) == Get32(EncodeSuper(f), 0x84)
  {
    hide EncodeSuper, CrcStruct, Get32;
    SuperIntact(f);
  }

  lemma SuperIntact(f: SuperFields)
    requires |f.volumeLabel| <= LABEL_BYTES
    ensures Intact(EncodeSuper(f), SUPER_CK)
  {
    hide Intact, Apply, Sealed, SuperEdits;
    SealedIsIntact(Apply(Zeros(BLOCK), SuperEdits(f)), SUPER_CK);
  }

  lemma SuperWord(f: SuperFields, k: nat, v: nat)
    requires |f.volumeLabel| <= LABEL_BYTES && k < 16 && SuperHeader(f)[k].bytes == Le32(v)
    ensures Get32(EncodeSuper(f), SuperHeader(f)[k].at) == v % TWO_32
  {
    SuperField(f, k);
    hide SuperHeader, EncodeSuper;
    FieldWraps32(EncodeSuper(f), SuperHeader(f)[k].at, v);
  }

  lemma SuperHalf(f: SuperFields, k: nat, v: nat)
    requires |f.volumeLabel| <= LABEL_BYTES && k < 16 && v < 0x1_0000 && SuperHeader(f)[k].bytes == Le16(v)
    ensures Get16(EncodeSuper(f), SuperHeader(f)[k].at) == v
  {
    SuperField(f, k);
    hide SuperHeader, EncodeSuper;
    FieldReads16(EncodeSuper(f), SuperHeader(f)[k].at, v);
  }
}
