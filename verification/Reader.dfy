/** What the OWFS driver computes, as functions of the disk, the order of its reads and the codes
    raised so far. */
module Reader {
  import opened Bytes
  import opened Crc32c
  import opened Layout
  import opened Names
  import opened Diag

  // ---- the disk ------------------------------------------------------------------------

  /** `fails(k)` says whether the k-th block read of the run fails. */
  datatype Disk = Disk(bytes: seq<byte>, fails: nat -> bool)

  const PARTITION_LBA: nat := 131200
  const SECTOR: nat := 512

  /** Sector address of a block, in 32-bit arithmetic. */
  function BlockLba(block: nat): nat {
    (PARTITION_LBA + block * 8) % TWO_32
  }

  function ReadAt(d: Disk, t: nat, block: nat): (r: Option<seq<byte>>)
    ensures r.Some? ==> |r.value| == BLOCK
  {
    var off := BlockLba(block) * SECTOR;
    if d.fails(t) || off + BLOCK > |d.bytes| then None else Some(d.bytes[off..off + BLOCK])
  }

  // ---- probe ------------------------------------------------------------------------------

  function Raised(condition: bool, code: Code): seq<Code> {
    if condition then [code] else []
  }

  /** Telemetry for a volume that is usable but not clean. */
  function Warnings(s: Super): seq<Code> {
    Raised(s.stateFlags % 2 == 1, WARN_VOLUME_DIRTY)
    + Raised(s.stateFlags / 4 % 2 == 1, WARN_VOLUME_LOCKED)
    + Raised(s.stateFlags / 2 % 2 == 1, WARN_STATE_ERROR)
    + Raised(s.major == 1 && s.minor != 2, WARN_VERSION_MISMATCH)
  }

  /** Returned code and raised codes of a probe that read superblock `sb`. */
  function ProbeSuper(sb: seq<byte>): (Code, seq<Code>)
    requires |sb| == BLOCK
  {
    var s := ParseSuper(sb);
    if s.magic == USFS_MAGIC then (SOFT_IS_USFS, [SOFT_IS_USFS])
    else if s.magic != MAGIC then (SOFT_NO_VOLUME, [SOFT_NO_VOLUME])
    else if s.blockSize != BLOCK then (BAN_SB_MAGIC, [BAN_SB_MAGIC])
    else if !Intact(sb, SUPER_CK) then (BAN_SB_CHECKSUM, [BAN_SB_CHECKSUM])
    else if s.major > 1 then (SOFT_NO_VOLUME, [WARN_VERSION_MISMATCH])
    else if s.securityFlags % 2 == 1 then (SOFT_ENCRYPTED_VOLUME, [SOFT_ENCRYPTED_VOLUME])
    else (COM_VOLUME_PROBE_OK, Warnings(s))
  }

  /** What makes a superblock acceptable: magic, block size, checksum, version and no encryption. */
  predicate Acceptable(sb: seq<byte>)
    requires |sb| == BLOCK
  {
    && Get32(sb, 0x00) == 0x4F57_4653 && Get32(sb, 0x08) == 4096 && CrcStruct(sb, 0x84) == Get32(sb, 0x84)
    && Get16(sb, 0x04) <= 1 && Get32(sb, 0x88) % 2 == 0
  }

  /** The probe succeeds exactly for an acceptable superblock. */
  lemma ProbeSucceedsExactly(sb: seq<byte>)
    requires |sb| == BLOCK
    ensures ProbeSuper(sb).0 == COM_VOLUME_PROBE_OK <==> Acceptable(sb)
    ensures IsSuccess(ProbeSuper(sb).0) <==> Acceptable(sb)
  {
    hide CrcStruct, Get32, Get16;
  }

  /** When each refusal is the verdict, and that it is also the code raised but for a version too new. */
  lemma RefusesExactly(sb: seq<byte>)
    requires |sb| == BLOCK
    ensures var code, raised, magic := ProbeSuper(sb).0, ProbeSuper(sb).1, Get32(sb, 0x00);
      var owfs := magic == 0x4F57_4653 && Get32(sb, 0x08) == 4096;
      var sound := owfs && CrcStruct(sb, 0x84) == Get32(sb, 0x84);
      && (code == SOFT_IS_USFS <==> magic == 0x5553_4653)
      && (code == BAN_SB_MAGIC <==> magic == 0x4F57_4653 && Get32(sb, 0x08) != 4096)
      && (code == BAN_SB_CHECKSUM <==> owfs && !sound)
      && (code == SOFT_ENCRYPTED_VOLUME <==> sound && Get16(sb, 0x04) <= 1 && Get32(sb, 0x88) % 2 == 1)
      && (code == SOFT_NO_VOLUME <==> magic !in {0x4F57_4653, 0x5553_4653} || (sound && Get16(sb, 0x04) > 1))
      && (!IsSuccess(code) ==> raised == [if sound && Get16(sb, 0x04) > 1 then WARN_VERSION_MISMATCH else code])
  {
    hide CrcStruct, Get32, Get16;
  }

  /** Which warnings an accepted volume raises. */
  lemma WarnsExactly(sb: seq<byte>)
    requires |sb| == BLOCK && Acceptable(sb)
    ensures var raised, flags := ProbeSuper(sb).1, Get32(sb, 0x38);
      && (WARN_VOLUME_DIRTY in raised <==> flags % 2 == 1)
      && (WARN_STATE_ERROR in raised <==> flags / 2 % 2 == 1)
      && (WARN_VOLUME_LOCKED in raised <==> flags / 4 % 2 == 1)
      && (WARN_VERSION_MISMATCH in raised <==> Get16(sb, 0x04) == 1 && Get16(sb, 0x06) != 2)
      && |raised| <= 4 && forall c :: c in raised ==> 0x0011_AA20 <= c <= 0x0011_AA23
  {
    hide CrcStruct, Get32, Get16;
    var s := ParseSuper(sb);
    var a, b := Raised(s.stateFlags % 2 == 1, WARN_VOLUME_DIRTY), Raised(s.stateFlags / 4 % 2 == 1, WARN_VOLUME_LOCKED);
    var c := Raised(s.stateFlags / 2 % 2 == 1, WARN_STATE_ERROR);
    var e := Raised(s.major == 1 && s.minor != 2, WARN_VERSION_MISMATCH);
    assert ProbeSuper(sb).1 == a + b + c + e;
    assert forall code :: code in a + b + c + e <==> code in a || code in b || code in c || code in e;
  }

  /** Warnings come in the order of their codes, each once. */
  lemma WarnsInOrder(s: Super)
    ensures forall j, k :: 0 <= j < k < |Warnings(s)| ==> Warnings(s)[j] < Warnings(s)[k]
  {
  }

  /** At most four damaged bytes, wholly inside or wholly outside the checksum field, are never accepted;
      where magic and block size are left alone the verdict is the checksum fault. */
  lemma DamagedSuperRefused(sb: seq<byte>, sb': seq<byte>, p: nat, m: nat)
    requires |sb| == |sb'| == BLOCK && Acceptable(sb) && DifferWithin(sb, sb', p, m) && sb != sb' && m <= 4
    requires p + m <= 0x84 || 0x88 <= p || (0x84 <= p && p + m <= 0x88)
    ensures !IsSuccess(ProbeSuper(sb').0)
    ensures (4 <= p && p + m <= 8) || 0x0C <= p ==> ProbeSuper(sb') == (BAN_SB_CHECKSUM, [BAN_SB_CHECKSUM])
  {
    hide CrcStruct, Get32, Get16, DifferWithin;
    DamageBreaks(sb, sb', SUPER_CK, p, m);
    ProbeSucceedsExactly(sb');
    if (4 <= p && p + m <= 8) || 0x0C <= p {
      FieldUntouched(sb, sb', 0x00, p, m);
      FieldUntouched(sb, sb', 0x08, p, m);
    }
  }

  // ---- inodes and block maps -----------------------------------------------------------------

  /** The outcome of a helper: a value, or an error number with the codes it raised. */
  datatype Read<+T> = Good(value: T, t: nat) | Bad(rc: int, raised: seq<Code>, t: nat)

  function ReadInode(d: Disk, t: nat, s: Super, num: nat): Read<Inode> {
    if num >= s.totalInodes then Bad(-1, [], t)
    else
      match ReadAt(d, t, (s.inodeTable + num / 16) % TWO_32)
      case None => Bad(-2, [BAN_IO_ERROR], t + 1)
      case Some(block) =>
        var slot := block[num % 16 * SLOT..num % 16 * SLOT + SLOT];
        if slot[4] == 0 then Bad(-3, [], t + 1)
        else if !Intact(slot, SLOT_CK) then Bad(-4, [BAN_INODE_CHECKSUM], t + 1)
        else Good(ParseInode(slot), t + 1)
  }

  /** The 256 bytes of an inode, if its block reads. */
  function SlotOf(d: Disk, t: nat, s: Super, num: nat): (r: Option<seq<byte>>)
    ensures r.Some? ==> |r.value| == SLOT
  {
    match ReadAt(d, t, (s.inodeTable + num / 16) % TWO_32)
    case None => None
    case Some(block) => Some(block[num % 16 * SLOT..num % 16 * SLOT + SLOT])
  }

  /** An inode can be read exactly when its number is in range, its block reads, the slot is in use and
      the checksum stored in the slot is that of the slot. */
  lemma ReadableExactly(d: Disk, t: nat, s: Super, num: nat)
    ensures ReadInode(d, t, s, num).Good? <==>
      num < s.totalInodes && var slot := SlotOf(d, t, s, num);
        slot.Some? && slot.value[4] != 0 && CrcStruct(slot.value, 0xFC) == Get32(slot.value, 0xFC)
  {
    hide CrcStruct, ReadAt, ParseInode;
  }

  /** Why an inode cannot be read, and what that raises. */
  lemma RefusesInode(d: Disk, t: nat, s: Super, num: nat)
    ensures num >= s.totalInodes ==> ReadInode(d, t, s, num) == Bad(-1, [], t)
    ensures num < s.totalInodes ==>
      var slot, i := SlotOf(d, t, s, num), ReadInode(d, t, s, num);
      && (slot == None ==> i == Bad(-2, [BAN_IO_ERROR], t + 1))
      && (slot.Some? && slot.value[4] == 0 ==> i == Bad(-3, [], t + 1))
      && (slot.Some? && slot.value[4] != 0 && CrcStruct(slot.value, 0xFC) != Get32(slot.value, 0xFC) ==>
            i == Bad(-4, [BAN_INODE_CHECKSUM], t + 1))
  {
    hide CrcStruct, ReadAt, ParseInode, Get32;
  }

  /** The driver indexes the indirect block without a bound: it relies on at most 1034 blocks. */
  predicate Mappable(ino: Inode) {
    |ino.direct| == DIRECT && ino.blockCount <= MAX_FILE_BLOCKS
  }

  predicate MappableIfRead(r: Read<Inode>) {
    r.Good? ==> Mappable(r.value)
  }

  /** Address of block `idx` of an inode; the indirect block is read through the staging buffer. */
  function MapBlock(d: Disk, t: nat, ino: Inode, idx: nat): Read<nat>
    requires Mappable(ino)
  {
    if idx >= ino.blockCount then Bad(-1, [SOFT_BAD_BLOCK_MAP], t)
    else if idx < DIRECT then
      if ino.direct[idx] == 0 then Bad(-1, [SOFT_BAD_BLOCK_MAP], t) else Good(ino.direct[idx], t)
    else if ino.indirect == 0 then Bad(-1, [SOFT_BAD_BLOCK_MAP], t)
    else
      match ReadAt(d, t, ino.indirect)
      case None => Bad(-2, [BAN_IO_ERROR], t + 1)
      case Some(block) =>
        var b := Get32(block, (idx - DIRECT) * 4);
        if b == 0 then Bad(-1, [SOFT_BAD_BLOCK_MAP], t + 1) else Good(b, t + 1)
  }

  /** The pointer the map follows to block `idx`, if the inode has such a block and the pointer can be read. */
  function PointerTo(d: Disk, t: nat, ino: Inode, idx: nat): nat
    requires Mappable(ino) && idx < ino.blockCount && (idx >= DIRECT ==> ReadAt(d, t, ino.indirect).Some?)
  {
    if idx < DIRECT then ino.direct[idx] else Get32(ReadAt(d, t, ino.indirect).value, 4 * (idx - 10))
  }

  /** A block is mapped exactly when the inode counts it and its pointer, and the indirect pointer where one
      is needed, can be read and is not zero; and then to that pointer. */
  lemma MapsExactly(d: Disk, t: nat, ino: Inode, idx: nat)
    requires Mappable(ino)
    ensures MapBlock(d, t, ino, idx).Good? <==>
      && idx < ino.blockCount
      && (idx >= 10 ==> ino.indirect != 0 && ReadAt(d, t, ino.indirect).Some?)
      && PointerTo(d, t, ino, idx) != 0
    ensures MapBlock(d, t, ino, idx).Good? ==>
      idx < ino.blockCount && (idx >= DIRECT ==> ReadAt(d, t, ino.indirect).Some?)
      && MapBlock(d, t, ino, idx).value == PointerTo(d, t, ino, idx)
  {
    hide ReadAt, Get32;
  }

  /** Block `idx` of an inode: the map first, then the block itself. */
  function FetchBlock(d: Disk, t: nat, ino: Inode, idx: nat, onFail: int): (r: Read<seq<byte>>)
    requires Mappable(ino)
    ensures r.Good? ==> |r.value| == BLOCK
    ensures r.Bad? ==> |r.raised| == 1
  {
    match MapBlock(d, t, ino, idx)
    case Bad(rc, raised, t') => Bad(-3, raised, t')
    case Good(b, t') =>
      match ReadAt(d, t', b)
      case None => Bad(onFail, [BAN_IO_ERROR], t' + 1)
      case Some(block) => Good(block, t' + 1)
  }

  /** A block that cannot be fetched raises the I/O fault exactly when a disk read failed, its own or that of
      the indirect block, and the bad-map fault otherwise. */
  lemma FetchFaults(d: Disk, t: nat, ino: Inode, idx: nat, onFail: int)
    requires Mappable(ino) && FetchBlock(d, t, ino, idx, onFail).Bad?
    ensures var m, f := MapBlock(d, t, ino, idx), FetchBlock(d, t, ino, idx, onFail);
      var mapUnread := idx < ino.blockCount && idx >= 10 && ino.indirect != 0 && ReadAt(d, t, ino.indirect).None?;
      && f.rc == (if m.Good? then onFail else -3)
      && f.raised == [if m.Good? || mapUnread then BAN_IO_ERROR else SOFT_BAD_BLOCK_MAP]
      && (m.Good? ==> ReadAt(d, m.t, m.value).None?)
  {
    hide ReadAt, Get32;
  }

  // ---- enumeration -----------------------------------------------------------------------------

  /** A menu entry; `name` is the text before the NUL. */
  datatype Entry = Entry(inode: nat, entryType: byte, name: seq<byte>, size: nat)

  /** Bytes of a name that starts at the end of the last slot may lie just past the block. */
  const OVERHANG: nat := 5

  /** Catalog slot `e` with the few bytes after it that a long name length can reach. */
  function SlotView(block: seq<byte>, e: nat): (v: seq<byte>)
    requires |block| == BLOCK + OVERHANG && e < 16
    ensures |v| == SLOT + OVERHANG
  {
    block[e * SLOT..e * SLOT + SLOT + OVERHANG]
  }

  predicate Live(v: seq<byte>)
    requires |v| == SLOT + OVERHANG
  {
    v[4] != 0 && v[4] < ENTRY_DELETED
  }

  predicate Sound(v: seq<byte>)
    requires |v| == SLOT + OVERHANG
  {
    Intact(v[..SLOT], SLOT_CK)
  }

  function EntryOf(v: seq<byte>): Entry
    requires |v| == SLOT + OVERHANG
  {
    Entry(Get32(v, 0), v[4], Ascii(v[6..6 + v[5]], NAME_MAX - 1), 0)
  }

  /** Entries found so far, codes raised so far, and whether the list was full. */
  datatype Scanned = Scanned(entries: seq<Entry>, raised: seq<Code>, full: bool)

  function Scan(block: seq<byte>, e: nat, max: nat, entries: seq<Entry>, raised: seq<Code>): Scanned
    requires |block| == BLOCK + OVERHANG && e <= 16
    decreases 16 - e
  {
    if e == 16 then Scanned(entries, raised, false)
    else
      var v := SlotView(block, e);
      if !Live(v) then Scan(block, e + 1, max, entries, raised)
      else if !Sound(v) then Scan(block, e + 1, max, entries, raised + [BAN_CATALOG_CHECKSUM])
      else if |entries| >= max then Scanned(entries, raised, true)
      else Scan(block, e + 1, max, entries + [EntryOf(v)], raised)
  }

  datatype Listing = Listing(rc: int, entries: seq<Entry>, raised: seq<Code>, t: nat)

  function EnumFrom(d: Disk, t: nat, ino: Inode, idx: nat, max: nat, past: seq<byte>, entries: seq<Entry>,
        raised: seq<Code>): Listing
    requires Mappable(ino) && |past| == OVERHANG
    decreases ino.blockCount - idx
  {
    if idx >= ino.blockCount then
      Listing(|entries|, entries, raised + Raised(|entries| > 0, COM_CATALOG_ENUM_OK), t)
    else
      match FetchBlock(d, t, ino, idx, -4)
      case Bad(rc, more, t') => Listing(rc, entries, raised + more, t')
      case Good(block, t') =>
        var s := Scan(block + past, 0, max, entries, raised);
        if s.full then Listing(|s.entries|, s.entries, s.raised, t')
        else EnumFrom(d, t', ino, idx + 1, max, past, s.entries, s.raised)
  }

  function Enumerate(d: Disk, t: nat, s: Super, max: nat, past: seq<byte>): Listing
    requires MappableIfRead(ReadInode(d, t, s, 0)) && |past| == OVERHANG
  {
    match ReadInode(d, t, s, 0)
    case Bad(_, raised, t') => Listing(-1, [], raised, t')
    case Good(root, t') =>
      if root.entryType / 2 % 2 == 0 then Listing(-2, [], [BAN_INODE_CHECKSUM], t')
      else EnumFrom(d, t', root, 0, max, past, [], [])
  }

  // ---- loading -----------------------------------------------------------------------------------

  const KERNEL_MAX: nat := 0x100_0000

  /** The code a failing load propagates: whatever was raised last, by anyone. */
  function LastCode(history: seq<Code>): Code {
    if history == [] then BAN_LOAD_FAILED else history[|history| - 1]
  }

  /** Bytes of block `idx` that belong to the file, in 32-bit arithmetic. */
  function TakeLen(ino: Inode, idx: nat): (n: nat)
    ensures n <= BLOCK
  {
    if idx + 1 == ino.blockCount then Min((ino.size - idx * BLOCK) % TWO_32, BLOCK) else BLOCK
  }

  /** `content` is what has been copied to the destination; `size` is the size reported, if any. */
  datatype Loaded = Loaded(rc: Code, size: Option<nat>, content: seq<byte>, raised: seq<Code>, t: nat)

  function LoadFrom(d: Disk, t: nat, ino: Inode, idx: nat, content: seq<byte>, history: seq<Code>): Loaded
    requires Mappable(ino)
    decreases ino.blockCount - idx
  {
    if idx >= ino.blockCount then Loaded(COM_KERNEL_LOAD_OK, Some(ino.size), content, [COM_KERNEL_LOAD_OK], t)
    else
      match FetchBlock(d, t, ino, idx, -4)
      case Bad(_, raised, t') => Loaded(LastCode(history + raised), None, content, raised, t')
      case Good(block, t') => LoadFrom(d, t', ino, idx + 1, content + block[..TakeLen(ino, idx)], history)
  }

  function Load(d: Disk, t: nat, s: Super, num: nat, history: seq<Code>): Loaded
    requires MappableIfRead(ReadInode(d, t, s, num))
  {
    match ReadInode(d, t, s, num)
    case Bad(_, raised, t') => Loaded(LastCode(history + raised), None, [], raised, t')
    case Good(ino, t') =>
      if ino.entryType % 2 == 0 then Loaded(SOFT_NOT_A_FILE, None, [], [SOFT_NOT_A_FILE], t')
      else if ino.size < 16 then Loaded(SOFT_KERNEL_TOO_SMALL, None, [], [SOFT_KERNEL_TOO_SMALL], t')
      else if ino.size > KERNEL_MAX then Loaded(SOFT_KERNEL_TOO_LARGE, None, [], [SOFT_KERNEL_TOO_LARGE], t')
      else LoadFrom(d, t', ino, 0, [], history)
  }

  // ---- the success code --------------------------------------------------------------------------

  predicate Never(code: Code, raised: seq<Code>) {
    forall k :: 0 <= k < |raised| ==> raised[k] != code
  }

  /** Probing never raises the load-success code. */
  lemma ProbeNeverLoads(sb: seq<byte>)
    requires |sb| == BLOCK
    ensures Never(COM_KERNEL_LOAD_OK, ProbeSuper(sb).1)
  {
    hide CrcStruct;
  }

  lemma {:induction false} ScanNeverLoads(block: seq<byte>, e: nat, max: nat, entries: seq<Entry>, raised: seq<Code>)
    requires |block| == BLOCK + OVERHANG && e <= 16 && Never(COM_KERNEL_LOAD_OK, raised)
    ensures Never(COM_KERNEL_LOAD_OK, Scan(block, e, max, entries, raised).raised)
    decreases 16 - e
  {
    hide Live, Sound, EntryOf;
    if e < 16 {
      ScanNeverLoads(block, e + 1, max, entries, raised);
      ScanNeverLoads(block, e + 1, max, entries, raised + [BAN_CATALOG_CHECKSUM]);
      ScanNeverLoads(block, e + 1, max, entries + [EntryOf(SlotView(block, e))], raised);
    }
  }

  lemma FetchNeverLoads(d: Disk, t: nat, ino: Inode, idx: nat)
    requires Mappable(ino)
    ensures FetchBlock(d, t, ino, idx, -4).Bad? ==> Never(COM_KERNEL_LOAD_OK, FetchBlock(d, t, ino, idx, -4).raised)
  {
  }

  lemma {:induction false} EnumFromNeverLoads(d: Disk, t: nat, ino: Inode, idx: nat, max: nat, past: seq<byte>,
        entries: seq<Entry>, raised: seq<Code>)
    requires Mappable(ino) && |past| == OVERHANG && Never(COM_KERNEL_LOAD_OK, raised)
    ensures Never(COM_KERNEL_LOAD_OK, EnumFrom(d, t, ino, idx, max, past, entries, raised).raised)
    decreases ino.blockCount - idx
  {
    hide FetchBlock, Scan;
    if idx < ino.blockCount {
      FetchNeverLoads(d, t, ino, idx);
      match FetchBlock(d, t, ino, idx, -4)
      case Bad(rc, more, t') =>
      case Good(block, t') =>
        var s := Scan(block + past, 0, max, entries, raised);
        ScanNeverLoads(block + past, 0, max, entries, raised);
        EnumFromNeverLoads(d, t', ino, idx + 1, max, past, s.entries, s.raised);
    }
  }

  // ---- what is never listed ---------------------------------------------------------------------------

  /** Every entry is of a slot that is in use and not deleted. */
  predicate NoneDeleted(entries: seq<Entry>) {
    forall k :: 0 <= k < |entries| ==> entries[k].entryType != 0 && entries[k].entryType / 0x80 % 2 == 0
  }

  lemma {:induction false} ScanListsLive(block: seq<byte>, e: nat, max: nat, entries: seq<Entry>, raised: seq<Code>)
    requires |block| == BLOCK + OVERHANG && e <= 16 && NoneDeleted(entries)
    ensures NoneDeleted(Scan(block, e, max, entries, raised).entries)
    decreases 16 - e
  {
    hide Sound, Ascii;
    if e < 16 {
      var v := SlotView(block, e);
      ScanListsLive(block, e + 1, max, entries, raised);
      ScanListsLive(block, e + 1, max, entries, raised + [BAN_CATALOG_CHECKSUM]);
      if Live(v) {
        ScanListsLive(block, e + 1, max, entries + [EntryOf(v)], raised);
      }
    }
  }

  lemma {:induction false} EnumFromListsLive(d: Disk, t: nat, ino: Inode, idx: nat, max: nat, past: seq<byte>,
        entries: seq<Entry>, raised: seq<Code>)
    requires Mappable(ino) && |past| == OVERHANG && NoneDeleted(entries)
    ensures NoneDeleted(EnumFrom(d, t, ino, idx, max, past, entries, raised).entries)
    decreases ino.blockCount - idx
  {
    hide FetchBlock, Scan;
    if idx < ino.blockCount {
      match FetchBlock(d, t, ino, idx, -4)
      case Bad(rc, more, t') =>
      case Good(block, t') =>
        var s := Scan(block + past, 0, max, entries, raised);
        ScanListsLive(block + past, 0, max, entries, raised);
        EnumFromListsLive(d, t', ino, idx + 1, max, past, s.entries, s.raised);
    }
  }

  /** On any disk, no unused or deleted entry is listed, and nothing at all when inode 0 cannot be read or
      is not a catalog. */
  lemma DeletedNeverListed(d: Disk, t: nat, s: Super, max: nat, past: seq<byte>)
    requires MappableIfRead(ReadInode(d, t, s, 0)) && |past| == OVERHANG
    ensures NoneDeleted(Enumerate(d, t, s, max, past).entries)
    ensures var i, l := ReadInode(d, t, s, 0), Enumerate(d, t, s, max, past);
      i.Bad? || SlotOf(d, t, s, 0).value[4] / 2 % 2 == 0 ==> l.rc < 0 && l.entries == []
  {
    hide CrcStruct, ReadAt;
    match ReadInode(d, t, s, 0)
    case Bad(_, _, _) =>
    case Good(root, t') => EnumFromListsLive(d, t', root, 0, max, past, [], []);
  }

  // ---- the success code, enumerating and loading ------------------------------------------------------

  /** Enumerating never raises the load-success code. */
  lemma EnumerateNeverLoads(d: Disk, t: nat, s: Super, max: nat, past: seq<byte>)
    requires MappableIfRead(ReadInode(d, t, s, 0)) && |past| == OVERHANG
    ensures Never(COM_KERNEL_LOAD_OK, Enumerate(d, t, s, max, past).raised)
  {
    match ReadInode(d, t, s, 0)
    case Bad(_, _, _) =>
    case Good(root, t') => EnumFromNeverLoads(d, t', root, 0, max, past, [], []);
  }

  /** The first `n` blocks of an inode, each cut to the bytes that belong to the file. */
  ghost predicate AllCopied(d: Disk, t: nat, ino: Inode, idx: nat, content: seq<byte>)
    requires Mappable(ino)
    decreases ino.blockCount - idx
  {
    if idx >= ino.blockCount then content == []
    else
      match FetchBlock(d, t, ino, idx, -4)
      case Bad(_, _, _) => false
      case Good(block, t') =>
        TakeLen(ino, idx) <= |content| && content[..TakeLen(ino, idx)] == block[..TakeLen(ino, idx)]
        && AllCopied(d, t', ino, idx + 1, content[TakeLen(ino, idx)..])
  }

  lemma {:induction false} LoadFromSucceeds(d: Disk, t: nat, ino: Inode, idx: nat, done: seq<byte>, history: seq<Code>)
    requires Mappable(ino)
    ensures var r := LoadFrom(d, t, ino, idx, done, history);
      (r.rc == COM_KERNEL_LOAD_OK <==> r.size.Some?)
      && (r.size.Some? ==> r.size == Some(ino.size) && done <= r.content)
      && (r.size.Some? ==> AllCopied(d, t, ino, idx, r.content[|done|..]))
      && (r.size.None? ==> forall c :: !AllCopied(d, t, ino, idx, c))
    decreases ino.blockCount - idx
  {
    hide FetchBlock, TakeLen;
    if idx < ino.blockCount {
      FetchNeverLoads(d, t, ino, idx);
      match FetchBlock(d, t, ino, idx, -4)
      case Bad(_, raised, t') =>
        assert LastCode(history + raised) == raised[0];
      case Good(block, t') =>
        var n := TakeLen(ino, idx);
        TakeLenBound(ino, idx);
        LoadFromSucceeds(d, t', ino, idx + 1, done + block[..n], history);
        var r := LoadFrom(d, t, ino, idx, done, history);
        if r.size.Some? {
          var rest := r.content[|done|..];
          assert rest[..n] == block[..n] && rest[n..] == r.content[|done| + n..];
        }
    }
  }

  lemma TakeLenBound(ino: Inode, idx: nat)
    ensures TakeLen(ino, idx) <= BLOCK
  {
  }

  /** What a caller can check beforehand: the inode number is out of range, or its block can be read
      and its slot is unused. */
  predicate LeavesNoCode(d: Disk, t: nat, s: Super, num: nat) {
    num >= s.totalInodes
    || match ReadAt(d, t, (s.inodeTable + num / 16) % TWO_32)
       case None => false
       case Some(block) => block[num % 16 * SLOT + 4] == 0
  }

  /** Exactly these failures leave no code behind. */
  lemma SilentExactly(d: Disk, t: nat, s: Super, num: nat)
    ensures var i := ReadInode(d, t, s, num); i.Bad? && i.raised == [] <==> LeavesNoCode(d, t, s, num)
  {
    hide Intact, ReadAt, ParseInode;
  }

  /** A load returns the success code exactly when it copied every block and reported the size, or
      when it failed without a trace and that code happened to be the last one in the ring. */
  lemma LoadSuccessExactly(d: Disk, t: nat, s: Super, num: nat, history: seq<Code>)
    requires MappableIfRead(ReadInode(d, t, s, num))
    ensures var r := Load(d, t, s, num, history);
      r.rc == COM_KERNEL_LOAD_OK <==>
        r.size.Some?
        || (LeavesNoCode(d, t, s, num) && history != [] && history[|history| - 1] == COM_KERNEL_LOAD_OK)
    ensures var r := Load(d, t, s, num, history); var i := ReadInode(d, t, s, num);
      r.size.Some? ==> i.Good? && r.size == Some(i.value.size) && AllCopied(d, i.t, i.value, 0, r.content)
  {
    hide ReadInode, LeavesNoCode;
    var i := ReadInode(d, t, s, num);
    SilentExactly(d, t, s, num);
    ReadInodeRaises(d, t, s, num);
    match i
    case Bad(_, raised, t') =>
      if raised == [] { assert history + raised == history; } else { assert LastCode(history + raised) == raised[0]; }
    case Good(ino, t') =>
      LoadFromSucceeds(d, t', ino, 0, [], history);
  }

  /** The specific fault is propagated: but for failures that leave no code, the code returned is the one code
      this load raised. Those return the last code of earlier calls, or the load-failed code if there is none. */
  lemma LoadReturnsItsCode(d: Disk, t: nat, s: Super, num: nat, history: seq<Code>)
    requires MappableIfRead(ReadInode(d, t, s, num))
    ensures var r := Load(d, t, s, num, history);
      if LeavesNoCode(d, t, s, num) then
        r.raised == [] && r.rc == if history == [] then BAN_LOAD_FAILED else history[|history| - 1]
      else r.raised == [r.rc]
  {
    hide ReadInode, LeavesNoCode, LoadFrom;
    SilentExactly(d, t, s, num);
    ReadInodeRaises(d, t, s, num);
    match ReadInode(d, t, s, num)
    case Bad(_, raised, t') =>
      if raised == [] { assert history + raised == history; } else { assert LastCode(history + raised) == raised[0]; }
    case Good(ino, t') =>
      LoadFromReturnsItsCode(d, t', ino, 0, [], history);
  }

  lemma {:induction false} LoadFromReturnsItsCode(d: Disk, t: nat, ino: Inode, idx: nat, content: seq<byte>,
                                                  history: seq<Code>)
    requires Mappable(ino)
    ensures var r := LoadFrom(d, t, ino, idx, content, history);
      r.raised == [r.rc] && r.rc in {COM_KERNEL_LOAD_OK, BAN_IO_ERROR, SOFT_BAD_BLOCK_MAP}
    decreases ino.blockCount - idx
  {
    hide FetchBlock, TakeLen;
    if idx < ino.blockCount {
      match FetchBlock(d, t, ino, idx, -4)
      case Bad(_, raised, t') =>
        FetchFaults(d, t, ino, idx, -4);
        assert LastCode(history + raised) == raised[0];
      case Good(block, t') =>
        LoadFromReturnsItsCode(d, t', ino, idx + 1, content + block[..TakeLen(ino, idx)], history);
    }
  }

  /** The stale case, concretely: after one successful load, an inode number out of range reports
      success although nothing was read and no size was set. */
  lemma StaleSuccess(d: Disk, t: nat, s: Super, num: nat, before: seq<Code>)
    requires num >= s.totalInodes
    ensures Load(d, t, s, num, before + [COM_KERNEL_LOAD_OK]) == Loaded(COM_KERNEL_LOAD_OK, None, [], [], t)
  {
    assert before + [COM_KERNEL_LOAD_OK] + [] == before + [COM_KERNEL_LOAD_OK];
  }

  lemma ReadInodeRaises(d: Disk, t: nat, s: Super, num: nat)
    ensures var i := ReadInode(d, t, s, num); i.Bad? ==> |i.raised| <= 1 && Never(COM_KERNEL_LOAD_OK, i.raised)
  {
    hide CrcStruct;
  }

  /** From an empty ring, in a probe, enumerate, load run, the success code means success. */
  lemma BootRunIsSound(d: Disk, sb: seq<byte>, t: nat, s: Super, max: nat, past: seq<byte>, num: nat)
    requires |sb| == BLOCK && |past| == OVERHANG && MappableIfRead(ReadInode(d, t, s, 0))
    requires MappableIfRead(ReadInode(d, Enumerate(d, t, s, max, past).t, s, num))
    ensures var listing := Enumerate(d, t, s, max, past);
      var r := Load(d, listing.t, s, num, ProbeSuper(sb).1 + listing.raised);
      r.rc == COM_KERNEL_LOAD_OK <==> r.size.Some?
  {
    hide Enumerate, ProbeSuper, Load, ReadInode;
    ProbeNeverLoads(sb);
    EnumerateNeverLoads(d, t, s, max, past);
    var listing := Enumerate(d, t, s, max, past);
    var history := ProbeSuper(sb).1 + listing.raised;
    assert Never(COM_KERNEL_LOAD_OK, history);
    LoadSuccessExactly(d, listing.t, s, num, history);
  }
}
