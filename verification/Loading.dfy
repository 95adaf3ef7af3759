/** What a load leaves at the destination, in terms of the mapped blocks and the recorded size. */
module Loading {
  import opened Bytes
  import opened Crc32c
  import opened Layout
  import opened Reader
  import opened Diag

  /** The contents of the inode's blocks from `idx` on, if every one can be mapped and read. */
  function FetchAll(d: Disk, t: nat, ino: Inode, idx: nat): Option<seq<seq<byte>>>
    requires Mappable(ino)
    decreases ino.blockCount - idx
  {
    if idx >= ino.blockCount then Some([])
    else
      match FetchBlock(d, t, ino, idx, -4)
      case Bad(_, _, _) => None
      case Good(block, t') =>
        match FetchAll(d, t', ino, idx + 1)
        case None => None
        case Some(rest) => Some([block] + rest)
  }

  function Concat(blocks: seq<seq<byte>>): seq<byte> {
    if |blocks| == 0 then [] else blocks[0] + Concat(blocks[1..])
  }

  /** How many bytes the copying loop takes from blocks `idx` on. */
  function Extent(ino: Inode, idx: nat): (n: nat)
    ensures idx <= ino.blockCount ==> n <= (ino.blockCount - idx) * BLOCK
  {
    if idx >= ino.blockCount then 0 else (ino.blockCount - 1 - idx) * BLOCK + TakeLen(ino, ino.blockCount - 1)
  }

  lemma {:induction false} FetchedLength(d: Disk, t: nat, ino: Inode, idx: nat)
    requires Mappable(ino) && idx <= ino.blockCount && FetchAll(d, t, ino, idx).Some?
    ensures |Concat(FetchAll(d, t, ino, idx).value)| == (ino.blockCount - idx) * BLOCK
    decreases ino.blockCount - idx
  {
    hide MapBlock, ReadAt;
    if idx < ino.blockCount {
      var f := FetchBlock(d, t, ino, idx, -4);
      FetchedLength(d, f.t, ino, idx + 1);
      var rest := FetchAll(d, f.t, ino, idx + 1).value;
      assert ([f.value] + rest)[1..] == rest;
    }
  }

  lemma ExtentNext(ino: Inode, idx: nat)
    requires idx < ino.blockCount
    ensures Extent(ino, idx) == TakeLen(ino, idx) + Extent(ino, idx + 1)
    ensures idx + 1 < ino.blockCount ==> TakeLen(ino, idx) == BLOCK
  {
  }

  /** The loop succeeds exactly when all blocks can be fetched, and then it has copied their
      concatenation up to the extent; block maps and data share one staging buffer. */
  lemma {:induction false} LoadsConcatenation(d: Disk, t: nat, ino: Inode, idx: nat, done: seq<byte>,
        history: seq<Code>)
    requires Mappable(ino) && idx <= ino.blockCount
    ensures var r := LoadFrom(d, t, ino, idx, done, history);
      match FetchAll(d, t, ino, idx)
      case None => r.rc != COM_KERNEL_LOAD_OK && r.size == None
      case Some(blocks) =>
        && r.rc == COM_KERNEL_LOAD_OK && r.size == Some(ino.size)
        && Extent(ino, idx) <= |Concat(blocks)| && r.content == done + Concat(blocks)[..Extent(ino, idx)]
    decreases ino.blockCount - idx
  {
    hide FetchBlock, TakeLen, Extent;
    if idx < ino.blockCount {
      FetchNeverLoads(d, t, ino, idx);
      ExtentNext(ino, idx);
      match FetchBlock(d, t, ino, idx, -4)
      case Bad(_, raised, t') =>
        assert LastCode(history + raised) == raised[0];
      case Good(block, t') =>
        var n := TakeLen(ino, idx);
        LoadsConcatenation(d, t', ino, idx + 1, done + block[..n], history);
        if FetchAll(d, t', ino, idx + 1).Some? {
          var rest := FetchAll(d, t', ino, idx + 1).value;
          NoExtent(ino, idx + 1);
          CutConcat(block, rest, n, Extent(ino, idx + 1), done);
        }
    } else {
      assert Extent(ino, idx) == 0 by { NoExtent(ino, idx); }
      assert done + [] == done;
    }
  }

  lemma NoExtent(ino: Inode, idx: nat)
    ensures idx >= ino.blockCount ==> Extent(ino, idx) == 0
  {
  }

  lemma CutConcat(block: seq<byte>, rest: seq<seq<byte>>, n: nat, m: nat, done: seq<byte>)
    requires n <= |block| && m <= |Concat(rest)| && (m > 0 ==> n == |block|)
    ensures n + m <= |Concat([block] + rest)|
    ensures (done + block[..n]) + Concat(rest)[..m] == done + Concat([block] + rest)[..n + m]
  {
    assert ([block] + rest)[1..] == rest;
    assert Concat([block] + rest) == block + Concat(rest);
    if m > 0 {
      assert block[..n] == block;
      assert (block + Concat(rest))[..n + m] == block + Concat(rest)[..m];
    } else {
      assert (block + Concat(rest))[..n] == block[..n];
      assert Concat(rest)[..m] == [];
    }
  }

  /** The block count of an inode accounts for its size: that many blocks, or one more than a size
      that is a whole number of blocks. */
  predicate HonestCount(ino: Inode) {
    ino.blockCount == (ino.size + BLOCK - 1) / BLOCK || (ino.blockCount - 1) * BLOCK == ino.size
  }

  lemma ExtentIsSize(ino: Inode)
    requires Mappable(ino) && 16 <= ino.size < TWO_32
    ensures Extent(ino, 0) == ino.size <==> HonestCount(ino)
  {
  }

  /** A load that reports a size has copied the inode's mapped blocks, glued together and cut to the
      extent; it has copied as many bytes as it reports exactly when the block count is honest, and
      then the copy is the blocks cut to the size. */
  lemma SizeHonestExactly(d: Disk, t: nat, s: Super, num: nat, history: seq<Code>)
    requires MappableIfRead(ReadInode(d, t, s, num))
    ensures var r, i := Load(d, t, s, num, history), ReadInode(d, t, s, num);
      r.size.Some? ==>
        && i.Good? && r.size == Some(i.value.size)
        && LoadedBlocks(d, i.t, i.value, r.content)
        && (|r.content| == r.size.value <==> HonestCount(i.value))
  {
    hide ReadInode, LoadFrom, FetchAll, Extent, HonestCount, TakeLen;
    match ReadInode(d, t, s, num)
    case Bad(_, _, _) =>
    case Good(ino, t') =>
      LoadsConcatenation(d, t', ino, 0, [], history);
      if 16 <= ino.size <= KERNEL_MAX {
        ExtentIsSize(ino);
      }
  }

  /** A load reports a size exactly for a readable inode that has the file bit, 16 bytes to 16 MiB by its
      own account, and all blocks mapped and readable. */
  lemma LoadsExactly(d: Disk, t: nat, s: Super, num: nat, history: seq<Code>)
    requires MappableIfRead(ReadInode(d, t, s, num))
    ensures var i := ReadInode(d, t, s, num);
      Load(d, t, s, num, history).size.Some? <==>
        && i.Good? && SlotOf(d, t, s, num).value[4] % 2 == 1
        && 16 <= Get32(SlotOf(d, t, s, num).value, 0x0A) <= 0x100_0000 && FetchAll(d, i.t, i.value, 0).Some?
  {
    hide ReadAt, CrcStruct, LoadFrom, FetchAll, Extent, Words;
    match ReadInode(d, t, s, num)
    case Bad(_, _, _) =>
    case Good(ino, t') => LoadsConcatenation(d, t', ino, 0, [], history);
  }

  /** An inode without the file bit is refused as such, whatever else it says. */
  lemma OtherThanFileRefused(d: Disk, t: nat, s: Super, num: nat, history: seq<Code>)
    requires ReadInode(d, t, s, num).Good? && MappableIfRead(ReadInode(d, t, s, num))
    ensures SlotOf(d, t, s, num).value[4] % 2 == 0 ==>
      Load(d, t, s, num, history)
      == Loaded(SOFT_NOT_A_FILE, None, [], [SOFT_NOT_A_FILE], ReadInode(d, t, s, num).t)
  {
    hide ReadAt, CrcStruct, LoadFrom, Words;
  }

  /** `content` is the inode's blocks, glued together and cut. */
  predicate LoadedBlocks(d: Disk, t: nat, ino: Inode, content: seq<byte>)
    requires Mappable(ino)
  {
    match FetchAll(d, t, ino, 0)
    case None => false
    case Some(blocks) => |content| == Extent(ino, 0) && content <= Concat(blocks)
  }

  // ---- a size that is not the number of bytes copied -----------------------------------------------

  /** A file inode of 100 bytes and no blocks, with a valid checksum. */
  const HOLLOW := InodeFields(1, ENTRY_FILE, 0, 0, 0, 100, 0, 0, [], 0, [])

  ghost predicate HollowAt(d: Disk, t: nat, s: Super, num: nat) {
    && num < s.totalInodes
    && match ReadAt(d, t, (s.inodeTable + num / 16) % TWO_32)
       case None => false
       case Some(block) => block[num % 16 * SLOT..num % 16 * SLOT + SLOT] == EncodeInode(HOLLOW)
  }

  /** Reading it works, and loading it reports 100 bytes and copies none. */
  lemma HollowFile(d: Disk, t: nat, s: Super, num: nat, history: seq<Code>)
    requires HollowAt(d, t, s, num)
    ensures ReadInode(d, t, s, num) == Good(Inode(ENTRY_FILE, 100, 0, DirectTable([]), 0), t + 1)
    ensures MappableIfRead(ReadInode(d, t, s, num)) && !HonestCount(ReadInode(d, t, s, num).value)
    ensures Load(d, t, s, num, history) == Loaded(COM_KERNEL_LOAD_OK, Some(100), [], [COM_KERNEL_LOAD_OK], t + 1)
  {
    hide EncodeInode, DirectTable, ReadAt;
    InodeRoundTrip(HOLLOW);
    assert ParseInode(EncodeInode(HOLLOW)).entryType == EncodeInode(HOLLOW)[4];
  }

  lemma FirstSlotReads(d: Disk, slot: seq<byte>)
    requires |slot| == SLOT && !d.fails(0) && d.bytes == Zeros(PARTITION_LBA * SECTOR) + slot + Zeros(BLOCK - SLOT)
    ensures ReadAt(d, 0, 0).Some? && ReadAt(d, 0, 0).value[0..SLOT] == slot
  {
    hide Zeros;
    var off := PARTITION_LBA * SECTOR;
    assert d.bytes[off..off + BLOCK] == slot + Zeros(BLOCK - SLOT);
  }

  /** There is a disk on which that happens. */
  lemma HollowDisk(s: Super, history: seq<Code>) returns (d: Disk)
    requires s.inodeTable == 0 && s.totalInodes > 0
    ensures MappableIfRead(ReadInode(d, 0, s, 0))
    ensures Load(d, 0, s, 0, history) == Loaded(COM_KERNEL_LOAD_OK, Some(100), [], [COM_KERNEL_LOAD_OK], 1)
  {
    hide EncodeInode, ReadInode, Load;
    var slot := EncodeInode(HOLLOW);
    d := Disk(Zeros(PARTITION_LBA * SECTOR) + slot + Zeros(BLOCK - SLOT), _ => false);
    FirstSlotReads(d, slot);
    HollowFile(d, 0, s, 0, history);
  }
}
