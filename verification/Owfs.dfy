/** The read-only OWFS driver: globals, a shared staging buffer and loops over memory, proved to
    compute what the Reader functions say. */
module Owfs {
  import opened Bytes
  import opened Crc32c
  import opened Layout
  import opened Names
  import opened Diag
  import opened Reader
  import opened Loading

  const FS_BUF: nat := 0x3_0000
  const RAM_SIZE: nat := 0x1_0000_0000 + BLOCK

  /** `[dest, dest + n)` lies in 32-bit memory and does not meet the staging buffer. */
  predicate ClearOfStaging(dest: nat, n: nat) {
    dest + n <= TWO_32 && (dest + n <= FS_BUF || FS_BUF + BLOCK <= dest)
  }

  class Driver {
    const disk: Disk
    const sb: array<byte>         // superblock of the probed volume
    const blockBuf: array<byte>   // scratch block for inodes
    const ram: array<byte>        // physical memory, with the staging buffer in it
    const diag: DiagRing
    var issued: nat               // block reads issued so far

    ghost predicate Valid()
      reads this, diag, diag.ring
    {
      && sb.Length == BLOCK && blockBuf.Length == BLOCK && ram.Length == RAM_SIZE
      && sb != blockBuf && sb != ram && blockBuf != ram && diag.Valid()
    }

    constructor (disk: Disk, ram: array<byte>)
      requires ram.Length == RAM_SIZE
      ensures Valid() && this.disk == disk && this.ram == ram && issued == 0 && diag.history == []
      ensures fresh(sb) && fresh(blockBuf) && fresh(diag) && fresh(diag.ring)
    {
      this.disk, this.ram, issued := disk, ram, 0;
      sb := new byte[BLOCK](_ => 0);
      blockBuf := new byte[BLOCK](_ => 0);
      diag := new DiagRing();
    }

    function Super(): Layout.Super
      requires sb.Length == BLOCK
      reads sb
    {
      ParseSuper(sb[..])
    }

    /** The few bytes after the staging buffer. */
    function Past(): (s: seq<byte>)
      requires ram.Length == RAM_SIZE
      reads ram
      ensures |s| == OVERHANG
    {
      ram[FS_BUF + BLOCK..FS_BUF + BLOCK + OVERHANG]
    }

    function Staged(): (s: seq<byte>)
      requires ram.Length == RAM_SIZE
      reads ram
      ensures |s| == BLOCK
    {
      ram[FS_BUF..FS_BUF + BLOCK]
    }

    /** Block I/O: the block's bytes, or an error and unspecified bytes. */
    method ReadBlock(block: nat, buf: array<byte>, at: nat) returns (rc: int)
      requires at + BLOCK <= buf.Length
      modifies `issued, buf
      ensures issued == old(issued) + 1
      ensures buf[..at] == old(buf[..at]) && buf[at + BLOCK..] == old(buf[at + BLOCK..])
      ensures match ReadAt(disk, old(issued), block)
        case Some(b) => rc == 0 && buf[at..at + BLOCK] == b
        case None => rc == -1
    {
      var r := ReadAt(disk, issued, block);
      issued := issued + 1;
      ghost var possible := if r.Some? then r.value else Zeros(BLOCK);
      assert |possible| == BLOCK && (r.Some? ==> possible == r.value);
      var bytes: seq<byte> :| |bytes| == BLOCK && (r.Some? ==> bytes == r.value);
      Store(buf, at, bytes);
      rc := if r.Some? then 0 else -1;
    }

    method Probe() returns (code: Code)
      requires Valid()
      modifies `issued, sb, diag, diag.ring
      ensures Valid() && issued == old(issued) + 1
      ensures match ReadAt(disk, old(issued), SUPER_BLOCK)
        case None => code == BAN_IO_ERROR && diag.history == old(diag.history) + [BAN_IO_ERROR]
        case Some(b) => sb[..] == b && code == ProbeSuper(b).0 && diag.history == old(diag.history) + ProbeSuper(b).1
    {
      hide CrcStruct;
      var rc := ReadBlock(SUPER_BLOCK, sb, 0);
      if rc != 0 {
        diag.Raise(BAN_IO_ERROR);
        return BAN_IO_ERROR;
      }
      assert sb[..] == sb[0..BLOCK];
      var s := ParseSuper(sb[..]);
      if s.magic == USFS_MAGIC {
        diag.Raise(SOFT_IS_USFS);
        return SOFT_IS_USFS;
      }
      if s.magic != MAGIC {
        diag.Raise(SOFT_NO_VOLUME);
        return SOFT_NO_VOLUME;
      }
      if s.blockSize != BLOCK {
        diag.Raise(BAN_SB_MAGIC);
        return BAN_SB_MAGIC;
      }
      var crc := Crc32cStruct(sb[..], SUPER_CK);
      if crc != Get32(sb[..], SUPER_CK) {
        diag.Raise(BAN_SB_CHECKSUM);
        return BAN_SB_CHECKSUM;
      }
      if s.major > 1 {
        diag.Raise(WARN_VERSION_MISMATCH);
        return SOFT_NO_VOLUME;
      }
      if s.securityFlags % 2 == 1 {
        diag.Raise(SOFT_ENCRYPTED_VOLUME);
        return SOFT_ENCRYPTED_VOLUME;
      }
      WarnVolumeCondition(s);
      return COM_VOLUME_PROBE_OK;
    }

    method WarnVolumeCondition(s: Layout.Super)
      requires Valid()
      modifies diag, diag.ring
      ensures Valid() && diag.history == old(diag.history) + Warnings(s)
    {
      hide Raised, Valid;
      ghost var h := diag.history;
      RaiseIf(s.stateFlags % 2 == 1, WARN_VOLUME_DIRTY);
      RaiseIf(s.stateFlags / 4 % 2 == 1, WARN_VOLUME_LOCKED);
      RaiseIf(s.stateFlags / 2 % 2 == 1, WARN_STATE_ERROR);
      RaiseIf(s.major == 1 && s.minor != 2, WARN_VERSION_MISMATCH);
      assert diag.history == h + Warnings(s);
    }

    method RaiseIf(condition: bool, code: Code)
      requires Valid()
      modifies diag, diag.ring
      ensures Valid() && diag.history == old(diag.history) + Raised(condition, code)
    {
      if condition {
        diag.Raise(code);
      }
    }

    /** Returns 0 and the inode, or a negative number with what `Reader.ReadInode` says was raised. */
    method ReadInode(num: nat) returns (rc: int, ino: Inode)
      requires Valid()
      modifies `issued, blockBuf, diag, diag.ring
      ensures Valid()
      ensures match Reader.ReadInode(disk, old(issued), Super(), num)
        case Good(i, t) => rc == 0 && ino == i && issued == t && diag.history == old(diag.history)
        case Bad(e, raised, t) => rc == e < 0 && issued == t && diag.history == old(diag.history) + raised
    {
      hide CrcStruct, ParseInode, HoldsTail, Get32, ReadAt;
      ino := NO_INODE;
      var s := Super();
      if num >= s.totalInodes {
        return -1, ino;
      }
      rc := ReadBlock((s.inodeTable + num / 16) % TWO_32, blockBuf, 0);
      if rc != 0 {
        diag.Raise(BAN_IO_ERROR);
        return -2, ino;
      }
      var slot := blockBuf[num % 16 * SLOT..num % 16 * SLOT + SLOT];
      ghost var whole := blockBuf[..];
      assert whole == blockBuf[0..BLOCK] && slot == whole[num % 16 * SLOT..num % 16 * SLOT + SLOT];
      ino := ParseInode(slot);
      if slot[4] == 0 {
        return -3, ino;
      }
      var crc := Crc32cStruct(slot, SLOT_CK);
      if crc != Get32(slot, SLOT_CK) {
        diag.Raise(BAN_INODE_CHECKSUM);
        return -4, ino;
      }
      return 0, ino;
    }

    method BlockmapGet(ino: Inode, idx: nat) returns (rc: int, block: nat)
      requires Valid() && Mappable(ino)
      modifies `issued, ram, diag, diag.ring
      ensures Valid() && ram[..FS_BUF] == old(ram[..FS_BUF]) && ram[FS_BUF + BLOCK..] == old(ram[FS_BUF + BLOCK..])
      ensures match MapBlock(disk, old(issued), ino, idx)
        case Good(b, t) => rc == 0 && block == b && issued == t && diag.history == old(diag.history)
        case Bad(e, raised, t) => rc == e < 0 && issued == t && diag.history == old(diag.history) + raised
    {
      block := 0;
      if idx >= ino.blockCount {
        diag.Raise(SOFT_BAD_BLOCK_MAP);
        return -1, block;
      }
      if idx < DIRECT {
        if ino.direct[idx] == 0 {
          diag.Raise(SOFT_BAD_BLOCK_MAP);
          return -1, block;
        }
        return 0, ino.direct[idx];
      }
      if ino.indirect == 0 {
        diag.Raise(SOFT_BAD_BLOCK_MAP);
        return -1, block;
      }
      rc := ReadBlock(ino.indirect, ram, FS_BUF);
      if rc != 0 {
        diag.Raise(BAN_IO_ERROR);
        return -2, block;
      }
      block := Get32(ram[FS_BUF..FS_BUF + BLOCK], (idx - DIRECT) * 4);
      if block == 0 {
        diag.Raise(SOFT_BAD_BLOCK_MAP);
        return -1, block;
      }
      return 0, block;
    }

    /** Block `idx` of an inode into the staging buffer, which also served for its block map. */
    method Stage(ino: Inode, idx: nat, onFail: int) returns (rc: int)
      requires Valid() && Mappable(ino) && onFail < 0
      modifies `issued, ram, diag, diag.ring
      ensures Valid() && ram[..FS_BUF] == old(ram[..FS_BUF]) && ram[FS_BUF + BLOCK..] == old(ram[FS_BUF + BLOCK..])
      ensures match FetchBlock(disk, old(issued), ino, idx, onFail)
        case Good(b, t) =>
          rc == 0 && ram[FS_BUF..FS_BUF + BLOCK] == b && issued == t && diag.history == old(diag.history)
        case Bad(e, raised, t) => rc == e < 0 && issued == t && diag.history == old(diag.history) + raised
    {
      hide MapBlock;
      var block;
      rc, block := BlockmapGet(ino, idx);
      if rc != 0 {
        return -3;
      }
      rc := ReadBlock(block, ram, FS_BUF);
      if rc != 0 {
        diag.Raise(BAN_IO_ERROR);
        return onFail;
      }
    }

    /** The inner loop over the 16 slots of the staged catalog block. */
    method ScanStaged(entries: array<Entry>, max: nat, already: nat, ghost base: seq<Code>, ghost raised: seq<Code>)
      returns (count: nat, full: bool)
      requires Valid() && already <= max <= entries.Length && diag.history == base + raised
      modifies entries, diag, diag.ring
      ensures Valid() && count <= max
      ensures var s := Scan(Staged() + Past(), 0, max, old(entries[..already]), raised);
        entries[..count] == s.entries && diag.history == base + s.raised && full == s.full
    {
      hide Live, Sound, EntryOf, SlotView, Scan, HoldsTail;
      count, full := already, false;
      ghost var block := Staged() + Past();
      ghost var result, more := Scan(block, 0, max, entries[..already], raised), raised;
      for e := 0 to 16
        invariant Valid() && already <= count <= max && diag.history == base + more
        invariant result == Scan(block, e, max, entries[..count], more)
      {
        var live, sound, entry := CheckSlot(e);
        ScanStep(block, e, max, entries[..count], more);
        if live {
          if !sound {
            diag.Raise(BAN_CATALOG_CHECKSUM);
            more := more + [BAN_CATALOG_CHECKSUM];
            continue;
          }
          if count >= max {
            return count, true;
          }
          ghost var before := entries[..count];
          entries[count] := entry;
          assert entries[..count + 1] == before + [entry];
          count := count + 1;
        }
      }
      ScanEnds(block, max, entries[..count], more);
    }

    /** One slot of the staged block: type test, checksum test and the entry it would give. */
    method CheckSlot(e: nat) returns (live: bool, sound: bool, entry: Entry)
      requires Valid() && e < 16
      ensures var v := SlotView(Staged() + Past(), e);
        live == Live(v) && (live ==> sound == Sound(v)) && (live && sound ==> entry == EntryOf(v))
    {
      hide CrcStruct, Ascii, HoldsTail, Get32;
      var at := FS_BUF + e * SLOT;
      var v := ram[at..at + SLOT + OVERHANG];
      assert ram[FS_BUF..FS_BUF + BLOCK + OVERHANG] == Staged() + Past();
      SliceOfSlice(ram[..], FS_BUF, FS_BUF + BLOCK + OVERHANG, e * SLOT, e * SLOT + SLOT + OVERHANG);
      assert v == SlotView(Staged() + Past(), e);
      live, sound, entry := v[4] != 0 && v[4] < ENTRY_DELETED, false, Entry(0, 0, [], 0);
      if live {
        var crc := Crc32cStruct(v[..SLOT], SLOT_CK);
        sound := crc == Get32(v, SLOT_CK);
        Get32Slice(v, SLOT_CK, 0, SLOT);
        if sound {
          var text := new byte[NAME_MAX](_ => 0);
          var n := NameToAscii(text, v[6..], v[5]);
          assert v[6..][..v[5]] == v[6..6 + v[5]];
          assert text[..n] == text[..][..n] == Ascii(v[6..6 + v[5]], NAME_MAX - 1);
          entry := Entry(Get32(v, 0), v[4], text[..n], 0);
        }
      }
    }

    method Enumerate(entries: array<Entry>, max: nat) returns (rc: int)
      requires Valid() && max <= entries.Length
      requires MappableIfRead(Reader.ReadInode(disk, issued, Super(), 0))
      modifies `issued, blockBuf, ram, entries, diag, diag.ring
      ensures Valid() && ram[..FS_BUF] == old(ram[..FS_BUF]) && ram[FS_BUF + BLOCK..] == old(ram[FS_BUF + BLOCK..])
      ensures var l := Reader.Enumerate(disk, old(issued), old(Super()), max, old(Past()));
        && rc == l.rc && issued == l.t && diag.history == old(diag.history) + l.raised
        && |l.entries| <= max && entries[..|l.entries|] == l.entries
    {
      hide Reader.ReadInode, FetchBlock, Scan;
      var root;
      rc, root := ReadInode(0);
      if rc != 0 {
        return -1;
      }
      if root.entryType / 2 % 2 == 0 {
        diag.Raise(BAN_INODE_CHECKSUM);
        return -2;
      }
      rc := EnumerateBlocks(root, entries, max);
    }

    method EnumerateBlocks(root: Inode, entries: array<Entry>, max: nat) returns (rc: int)
      requires Valid() && max <= entries.Length && Mappable(root)
      modifies `issued, ram, entries, diag, diag.ring
      ensures Valid() && ram[..FS_BUF] == old(ram[..FS_BUF]) && ram[FS_BUF + BLOCK..] == old(ram[FS_BUF + BLOCK..])
      ensures var l := EnumFrom(disk, old(issued), root, 0, max, old(Past()), [], []);
        && rc == l.rc && issued == l.t && diag.history == old(diag.history) + l.raised
        && |l.entries| <= max && entries[..|l.entries|] == l.entries
    {
      hide FetchBlock, Scan, HoldsTail;
      ghost var base, raised, past := diag.history, [], Past();
      ghost var result := EnumFrom(disk, issued, root, 0, max, past, [], []);
      var count: nat := 0;
      assert entries[..0] == [] && base + raised == base;
      for idx := 0 to root.blockCount
        invariant Valid() && count <= max && Past() == past && diag.history == base + raised
        invariant ram[..FS_BUF] == old(ram[..FS_BUF]) && ram[FS_BUF + BLOCK..] == old(ram[FS_BUF + BLOCK..])
        invariant result == EnumFrom(disk, issued, root, idx, max, past, entries[..count], raised)
      {
        ghost var t := issued;
        rc := Stage(root, idx, -4);
        if rc != 0 {
          assert base + raised + FetchBlock(disk, t, root, idx, -4).raised
               == base + (raised + FetchBlock(disk, t, root, idx, -4).raised);
          return rc;
        }
        assert Past() == ram[FS_BUF + BLOCK..][..OVERHANG];
        assert past == old(ram[FS_BUF + BLOCK..])[..OVERHANG];
        ghost var block, before := Staged(), entries[..count];
        var full;
        count, full := ScanStaged(entries, max, count, base, raised);
        ghost var s := Scan(block + past, 0, max, before, raised);
        raised := s.raised;
        if full {
          return count;
        }
      }
      if count > 0 {
        diag.Raise(COM_CATALOG_ENUM_OK);
      }
      return count;
    }

    /** `copy_bytes` inside memory. */
    method CopyBytes(dst: nat, src: nat, n: nat)
      requires ram.Length == RAM_SIZE && dst + n <= RAM_SIZE && src + n <= RAM_SIZE
      modifies ram
      ensures forall k :: 0 <= k < RAM_SIZE && !(dst <= k < dst + n) ==> ram[k] == old(ram[k])
      ensures dst + n <= src || src + n <= dst ==> ram[dst..dst + n] == old(ram[src..src + n])
    {
      for i := 0 to n
        invariant forall k :: 0 <= k < RAM_SIZE && !(dst <= k < dst + i) ==> ram[k] == old(ram[k])
        invariant dst + n <= src || src + n <= dst ==> ram[dst..dst + i] == old(ram[src..src + i])
      {
        ghost var copied := ram[dst..dst + i];
        ram[dst + i] := ram[src + i];
        assert ram[dst..dst + i + 1] == copied + [ram[dst + i]];
      }
    }

    /** The code `MBL_PROPAGATE` returns. */
    method Propagate() returns (code: Code)
      requires Valid()
      ensures code == LastCode(diag.history)
    {
      var last := diag.Last();
      code := if last.Some? then last.value.code else BAN_LOAD_FAILED;
    }

    /** Streams a file to `dest`; `size` is what `*size_out` received, if anything. */
    method LoadFile(num: nat, dest: nat) returns (rc: Code, size: Option<nat>)
      requires Valid() && dest < TWO_32 && MappableIfRead(Reader.ReadInode(disk, issued, Super(), num))
      modifies `issued, blockBuf, ram, diag, diag.ring
      ensures Valid()
      ensures var l := Load(disk, old(issued), old(Super()), num, old(diag.history));
        && rc == l.rc && size == l.size && issued == l.t && diag.history == old(diag.history) + l.raised
        && (ClearOfStaging(dest, |l.content|) ==> CopiedTo(old(ram[..]), ram[..], dest, l.content))
      ensures var i := Reader.ReadInode(disk, old(issued), old(Super()), num);
        size.Some? && i.Good? && HonestCount(i.value) && ClearOfStaging(dest, size.value) ==>
          FileInMemory(disk, i.t, i.value, ram[..], dest)
    {
      hide Reader.ReadInode, LoadFrom, CopiedTo, FileInMemory, HonestCount;
      ghost var was, t, s, history := ram[..], issued, Super(), diag.history;
      size := None;
      var e, ino := ReadInode(num);
      if e != 0 {
        rc := Propagate();
        NothingCopied(ram[..], dest);
        return;
      }
      NothingCopied(ram[..], dest);
      if ino.entryType % 2 == 0 {
        diag.Raise(SOFT_NOT_A_FILE);
        return SOFT_NOT_A_FILE, None;
      }
      if ino.size < 16 {
        diag.Raise(SOFT_KERNEL_TOO_SMALL);
        return SOFT_KERNEL_TOO_SMALL, None;
      }
      if ino.size > KERNEL_MAX {
        diag.Raise(SOFT_KERNEL_TOO_LARGE);
        return SOFT_KERNEL_TOO_LARGE, None;
      }
      rc, size := LoadBlocks(ino, dest);
      FileLoaded(was, ram[..], disk, t, s, num, history, dest);
    }

    method LoadBlocks(ino: Inode, dest: nat) returns (rc: Code, size: Option<nat>)
      requires Valid() && dest < TWO_32 && Mappable(ino)
      modifies `issued, ram, diag, diag.ring
      ensures Valid()
      ensures var l := LoadFrom(disk, old(issued), ino, 0, [], old(diag.history));
        && rc == l.rc && size == l.size && issued == l.t && diag.history == old(diag.history) + l.raised
        && (ClearOfStaging(dest, |l.content|) ==> CopiedTo(old(ram[..]), ram[..], dest, l.content))
    {
      hide FetchBlock, CopiedTo, HoldsTail, LoadFrom;
      size := None;
      var dst := dest;
      ghost var content, was, history := [], ram[..], diag.history;
      ghost var result := LoadFrom(disk, issued, ino, 0, [], history);
      NothingCopied(was, dest);
      for idx := 0 to ino.blockCount
        invariant Valid() && diag.history == history && dst == (dest + |content|) % TWO_32
        invariant result == LoadFrom(disk, issued, ino, idx, content, history)
        invariant ClearOfStaging(dest, |content|) ==> CopiedTo(was, ram[..], dest, content)
      {
        ghost var before := ram[..];
        LoadStep(disk, issued, ino, idx, content, history);
        var e := Stage(ino, idx, -4);
        if e != 0 {
          rc := Propagate();
          StagingOnly(was, before, ram[..], dest, content);
          return rc, None;
        }
        ghost var block := Staged();
        var n := BLOCK;
        if idx + 1 == ino.blockCount {
          var rem := (ino.size - idx * BLOCK) % TWO_32;
          if rem < BLOCK {
            n := rem;
          }
        }
        StagingOnly(was, before, ram[..], dest, content);
        ghost var staged := ram[..];
        CopyBytes(dst, FS_BUF, n);
        BlockCopied(was, staged, ram[..], dest, content, block, n);
        AddModulo(dest + |content|, n);
        content := content + block[..n];
        dst := (dst + n) % TWO_32;
      }
      LoadEnds(disk, issued, ino, content, history);
      size := Some(ino.size);
      diag.Raise(COM_KERNEL_LOAD_OK);
      return COM_KERNEL_LOAD_OK, size;
    }
  }

  lemma LoadStep(d: Disk, t: nat, ino: Inode, idx: nat, content: seq<byte>, history: seq<Code>)
    requires Mappable(ino) && idx < ino.blockCount
    ensures match FetchBlock(d, t, ino, idx, -4)
      case Bad(_, raised, t') =>
        LoadFrom(d, t, ino, idx, content, history) == Loaded(LastCode(history + raised), None, content, raised, t')
      case Good(block, t') =>
        LoadFrom(d, t, ino, idx, content, history)
        == LoadFrom(d, t', ino, idx + 1, content + block[..TakeLen(ino, idx)], history)
  {
    hide FetchBlock, TakeLen;
  }

  lemma LoadEnds(d: Disk, t: nat, ino: Inode, content: seq<byte>, history: seq<Code>)
    requires Mappable(ino)
    ensures LoadFrom(d, t, ino, ino.blockCount, content, history)
         == Loaded(COM_KERNEL_LOAD_OK, Some(ino.size), content, [COM_KERNEL_LOAD_OK], t)
  {
  }

  lemma ScanStep(block: seq<byte>, e: nat, max: nat, entries: seq<Entry>, raised: seq<Code>)
    requires |block| == BLOCK + OVERHANG && e < 16
    ensures var v := SlotView(block, e); var s := Scan(block, e, max, entries, raised);
      && (!Live(v) ==> s == Scan(block, e + 1, max, entries, raised))
      && (Live(v) && !Sound(v) ==> s == Scan(block, e + 1, max, entries, raised + [BAN_CATALOG_CHECKSUM]))
      && (Live(v) && Sound(v) && |entries| >= max ==> s == Scanned(entries, raised, true))
      && (Live(v) && Sound(v) && |entries| < max ==> s == Scan(block, e + 1, max, entries + [EntryOf(v)], raised))
  {
    hide Live, Sound, EntryOf, SlotView;
  }

  lemma ScanEnds(block: seq<byte>, max: nat, entries: seq<Entry>, raised: seq<Code>)
    requires |block| == BLOCK + OVERHANG
    ensures Scan(block, 16, max, entries, raised) == Scanned(entries, raised, false)
  {
  }

  // ---- what memory looks like after a load --------------------------------------------------------

  /** `content` is at `dest`, and outside it and the staging buffer memory is as it was. */
  ghost predicate CopiedTo(was: seq<byte>, now: seq<byte>, dest: nat, content: seq<byte>) {
    && |was| == |now| == RAM_SIZE && dest + |content| <= TWO_32
    && now[dest..dest + |content|] == content
    && forall k | 0 <= k < RAM_SIZE && !(dest <= k < dest + |content|) && !(FS_BUF <= k < FS_BUF + BLOCK) ::
         now[k] == was[k]
  }

  /** The file of an inode lies at `dest`: its mapped blocks, glued together and cut to its size. */
  ghost predicate FileInMemory(d: Disk, t: nat, ino: Inode, now: seq<byte>, dest: nat) {
    && Mappable(ino) && dest + ino.size <= |now|
    && match FetchAll(d, t, ino, 0)
       case None => false
       case Some(blocks) => ino.size <= |Concat(blocks)| && now[dest..dest + ino.size] == Concat(blocks)[..ino.size]
  }

  lemma FileLoaded(was: seq<byte>, now: seq<byte>, d: Disk, t: nat, s: Layout.Super, num: nat, history: seq<Code>,
                   dest: nat)
    requires MappableIfRead(Reader.ReadInode(d, t, s, num))
    requires var r := Load(d, t, s, num, history);
      ClearOfStaging(dest, |r.content|) ==> CopiedTo(was, now, dest, r.content)
    ensures var i, r := Reader.ReadInode(d, t, s, num), Load(d, t, s, num, history);
      r.size.Some? && i.Good? && HonestCount(i.value) && ClearOfStaging(dest, r.size.value) ==>
        FileInMemory(d, i.t, i.value, now, dest)
  {
    hide Reader.ReadInode, Load, HonestCount, FetchAll, Concat, Extent;
    SizeHonestExactly(d, t, s, num, history);
  }

  lemma NothingCopied(was: seq<byte>, dest: nat)
    requires |was| == RAM_SIZE && dest < TWO_32
    ensures CopiedTo(was, was, dest, [])
  {
  }

  /** Refilling the staging buffer disturbs nothing that was copied clear of it. */
  lemma StagingOnly(was: seq<byte>, before: seq<byte>, now: seq<byte>, dest: nat, content: seq<byte>)
    requires |before| == |now| == RAM_SIZE
    requires now[..FS_BUF] == before[..FS_BUF] && now[FS_BUF + BLOCK..] == before[FS_BUF + BLOCK..]
    requires ClearOfStaging(dest, |content|) ==> CopiedTo(was, before, dest, content)
    ensures ClearOfStaging(dest, |content|) ==> CopiedTo(was, now, dest, content)
  {
    assert forall k :: 0 <= k < FS_BUF ==> now[k] == now[..FS_BUF][k] == before[..FS_BUF][k] == before[k];
    assert forall k :: FS_BUF + BLOCK <= k < RAM_SIZE ==>
      now[k] == now[FS_BUF + BLOCK..][k - FS_BUF - BLOCK] == before[FS_BUF + BLOCK..][k - FS_BUF - BLOCK] == before[k];
  }

  lemma ContentGrows(staged: seq<byte>, now: seq<byte>, dest: nat, content: seq<byte>, taken: seq<byte>)
    requires |staged| == |now| && dest + |content| + |taken| <= |now|
    requires staged[dest..dest + |content|] == content
    requires forall k :: dest <= k < dest + |content| ==> now[k] == staged[k]
    requires now[dest + |content|..dest + |content| + |taken|] == taken
    ensures now[dest..dest + |content + taken|] == content + taken
  {
    assert now[dest..dest + |content|] == staged[dest..dest + |content|];
  }

  /** One more block appended at the destination. */
  lemma BlockCopied(was: seq<byte>, staged: seq<byte>, now: seq<byte>, dest: nat, content: seq<byte>,
        block: seq<byte>, n: nat)
    requires |staged| == |now| == RAM_SIZE && |block| == BLOCK && n <= BLOCK && dest < TWO_32
    requires staged[FS_BUF..FS_BUF + BLOCK] == block
    requires var dst := (dest + |content|) % TWO_32;
      && (forall k :: 0 <= k < RAM_SIZE && !(dst <= k < dst + n) ==> now[k] == staged[k])
      && (dst + n <= FS_BUF || FS_BUF + n <= dst ==> now[dst..dst + n] == staged[FS_BUF..FS_BUF + n])
    requires ClearOfStaging(dest, |content|) ==> CopiedTo(was, staged, dest, content)
    ensures var more := content + block[..n]; ClearOfStaging(dest, |more|) ==> CopiedTo(was, now, dest, more)
  {
    var more := content + block[..n];
    if ClearOfStaging(dest, |more|) {
      if n > 0 {
        var mid, end := dest + |content|, dest + |more|;
        assert mid % TWO_32 == mid;
        assert now[mid..end] == staged[FS_BUF..FS_BUF + n] == block[..n];
        ContentGrows(staged, now, dest, content, block[..n]);
      } else {
        assert now == staged && more == content;
      }
    }
  }

  lemma AddModulo(a: nat, n: nat)
    ensures (a % TWO_32 + n) % TWO_32 == (a + n) % TWO_32
  {
  }

  const NO_INODE := Inode(0, 0, 0, seq(DIRECT, _ => 0), 0)

  /** `bytes` into `buf` at `at`. */
  method Store(buf: array<byte>, at: nat, bytes: seq<byte>)
    requires at + |bytes| <= buf.Length
    modifies buf
    ensures buf[..at] == old(buf[..at]) && buf[at..at + |bytes|] == bytes
    ensures buf[at + |bytes|..] == old(buf[at + |bytes|..])
    ensures buf[..] == PutAt(old(buf[..]), at, bytes)
  {
    forall k | 0 <= k < |bytes| {
      buf[at + k] := bytes[k];
    }
  }
}
