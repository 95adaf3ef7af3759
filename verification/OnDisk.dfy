/** What the driver finds on a formatted volume: each block, inode and block map read back. */
module OnDisk {
  import opened Bytes
  import opened Crc32c
  import opened Layout
  import opened Ownership
  import opened Contents
  import opened Reader

  /** A disk that never fails, with the volume where the driver looks for it and few enough blocks
      for 32-bit sector addresses. */
  ghost predicate Mounted(d: Disk, g: Geometry) {
    && (forall k :: !d.fails(k))
    && g.start == PARTITION_LBA * SECTOR && PARTITION_LBA + g.total * 8 < TWO_32
  }

  /** The root inode is as the formatter leaves it, and the claimed blocks are inside the image. */
  ghost predicate Rooted(d: Disk, g: Geometry, files: seq<File>) {
    && Mounted(d, g) && |files| <= MAX_FILES && |Owners(files)| <= DataBlocks(g)
    && SlotOk(d.bytes, g, Complete(g, files), 0) && Off(g, DataStart(g) + |Owners(files)|) <= |d.bytes|
  }

  /** The root inode and all claimed blocks are as the formatter leaves them. */
  ghost predicate Cataloged(d: Disk, g: Geometry, files: seq<File>) {
    Rooted(d, g, files) && BlocksAre(d.bytes, g, Complete(g, files))
  }

  /** The disk holds the volume of these files; the superblock may still be missing. */
  ghost predicate Laid(d: Disk, g: Geometry, files: seq<File>) {
    Cataloged(d, g, files) && InodesAre(d.bytes, g, Complete(g, files))
  }

  ghost predicate Formatted(d: Disk, g: Geometry, files: seq<File>, volumeLabel: seq<byte>) {
    Laid(d, g, files) && HasSuper(d.bytes, g, files, volumeLabel)
  }

  lemma HeldIsLaid(d: Disk, g: Geometry, files: seq<File>, hi: nat)
    requires Mounted(d, g) && VolumeHolds(d.bytes, g, files, hi) && |Owners(files)| <= DataBlocks(g)
    ensures Laid(d, g, files)
  {
    hide SlotOk, Owners, RootBlocks, BlockOk, Off;
    assert SlotOk(d.bytes, g, Complete(g, files), 0);
  }

  lemma HeldIsFormatted(d: Disk, g: Geometry, files: seq<File>, hi: nat, volumeLabel: seq<byte>)
    requires Mounted(d, g) && VolumeHolds(d.bytes, g, files, hi) && HasSuper(d.bytes, g, files, volumeLabel)
    ensures Formatted(d, g, files, volumeLabel) && Laid(d, g, files)
  {
    hide Laid, VolumeHolds, Owners;
    HeldIsLaid(d, g, files, hi);
  }

  /** The sector arithmetic of the driver and the byte offsets of the formatter agree. */
  lemma ReadsBlock(d: Disk, t: nat, g: Geometry, b: nat)
    requires Mounted(d, g) && b < g.total && Off(g, b) + BLOCK <= |d.bytes|
    ensures ReadAt(d, t, b) == Some(BlockAt(d.bytes, g, b))
  {
  }

  // ---- superblock -----------------------------------------------------------------------------

  function SuperSeen(g: Geometry): Layout.Super {
    Layout.Super(MAGIC, 1, 2, BLOCK, TOTAL_INODES, InodeTable(g), 0, 0)
  }

  /** The probe accepts the formatter's superblock, with nothing to report. */
  lemma ProbeAccepts(d: Disk, t: nat, g: Geometry, files: seq<File>, volumeLabel: seq<byte>)
    requires Formatted(d, g, files, volumeLabel)
    ensures ReadAt(d, t, SUPER_BLOCK).Some?
    ensures ProbeSuper(ReadAt(d, t, SUPER_BLOCK).value) == (Diag.COM_VOLUME_PROBE_OK, [])
    ensures ParseSuper(ReadAt(d, t, SUPER_BLOCK).value) == SuperSeen(g)
  {
    hide EncodeSuper, CrcStruct, SuperOf, InodesAre, BlocksAre, Owners, ParseSuper, ReadAt, InodeTable, BlockAt;
    var sb := SuperOf(d.bytes, g, files, volumeLabel);
    SuperFacts(d.bytes, g, files, volumeLabel);
    ReadsBlock(d, t, g, SUPER_BLOCK);
    SuperRoundTrip(sb);
    assert Intact(EncodeSuper(sb), SUPER_CK);
  }

  lemma SuperFacts(img: seq<byte>, g: Geometry, files: seq<File>, volumeLabel: seq<byte>)
    requires Off(g, InodeTable(g)) <= |img| && |files| <= MAX_FILES && |Owners(files)| <= DataBlocks(g)
    requires g.total < TWO_32
    ensures SuperOf(img, g, files, volumeLabel).inodeTable == InodeTable(g) < TWO_32
    ensures SUPER_BLOCK < g.total && Off(g, SUPER_BLOCK) + BLOCK <= |img|
  {
    hide Owners, Fletcher64.Checksum, BitmapList;
  }

  // ---- inodes ------------------------------------------------------------------------------------

  /** Reading the block of inode `num` finds its slot of the image. */
  lemma ReadsSlotBytes(d: Disk, t: nat, g: Geometry, num: nat)
    requires Mounted(d, g) && num < TOTAL_INODES && Off(g, DataStart(g)) <= |d.bytes|
    ensures InodeOff(g, num) + SLOT <= |d.bytes| && ReadAt(d, t, (InodeTable(g) + num / 16) % TWO_32).Some?
    ensures ReadAt(d, t, (InodeTable(g) + num / 16) % TWO_32).value[num % 16 * SLOT..num % 16 * SLOT + SLOT]
         == SlotAt(d.bytes, g, num)
  {
    hide ReadAt;
    var b := InodeTable(g) + num / 16;
    InodeBlockInside(g, num);
    ReadsBlock(d, t, g, b);
    SliceOfSlice(d.bytes, Off(g, b), Off(g, b) + BLOCK, num % 16 * SLOT, num % 16 * SLOT + SLOT);
  }

  /** Where the formatter's slot is still there, that is what is read. */
  lemma ReadsSlot(d: Disk, t: nat, g: Geometry, files: seq<File>, num: nat)
    requires Mounted(d, g) && |files| <= MAX_FILES && num < TOTAL_INODES && Off(g, DataStart(g)) <= |d.bytes|
    requires SlotOk(d.bytes, g, Complete(g, files), num)
    ensures ReadAt(d, t, (InodeTable(g) + num / 16) % TWO_32).Some?
    ensures ReadAt(d, t, (InodeTable(g) + num / 16) % TWO_32).value[num % 16 * SLOT..num % 16 * SLOT + SLOT]
         == InodeSlot(g, Complete(g, files), num)
  {
    hide InodeSlot, Owners, RootBlocks, Complete, ReadAt, InodeOff, Mounted;
    ReadsSlotBytes(d, t, g, num);
  }

  lemma InodeBlockInside(g: Geometry, num: nat)
    requires num < TOTAL_INODES && g.total < TWO_32
    ensures var b := InodeTable(g) + num / 16;
      b % TWO_32 == b < g.total && Off(g, b) + BLOCK <= Off(g, DataStart(g)) && num % 16 * SLOT + SLOT <= BLOCK
  {
  }

  lemma LaidSlot(d: Disk, g: Geometry, files: seq<File>, num: nat)
    requires Laid(d, g, files) && num < TOTAL_INODES
    ensures SlotOk(d.bytes, g, Complete(g, files), num) && Off(g, DataStart(g)) <= |d.bytes|
  {
    hide SlotOk, Owners, RootBlocks, BlocksAre, HasSuper;
  }

  lemma TableInside(g: Geometry, files: seq<File>, size: nat)
    requires Off(g, DataStart(g) + |Owners(files)|) <= size
    ensures Off(g, DataStart(g)) <= size
  {
    hide Owners;
  }

  lemma ReadsEncoded(d: Disk, t: nat, s: Layout.Super, num: nat, f: InodeFields)
    requires num < s.totalInodes && FieldsFit(f) && f.entryType != 0
    requires var r := ReadAt(d, t, (s.inodeTable + num / 16) % TWO_32);
      r.Some? && r.value[num % 16 * SLOT..num % 16 * SLOT + SLOT] == EncodeInode(f)
    ensures ReadInode(d, t, s, num)
         == Good(Inode(f.entryType, f.size, f.blockCount, DirectTable(f.direct), f.indirect), t + 1)
  {
    hide EncodeInode, CrcStruct, DirectTable, ReadAt;
    InodeRoundTrip(f);
    assert ParseInode(EncodeInode(f)).entryType == EncodeInode(f)[4];
  }

  /** Addresses stay below the end of the volume, so they fit their 32-bit fields. */
  lemma AddressesFit(g: Geometry, files: seq<File>, i: nat)
    requires i < |files| && |Owners(files)| <= DataBlocks(g)
    ensures forall j :: 0 <= j < BlocksOf(files[i]) ==>
      0 < Addresses(g, Base(files, i), BlocksOf(files[i]))[j] < g.total
    ensures BlocksOf(files[i]) > DIRECT ==> DataStart(g) + Base(files, i) + DIRECT < g.total
  {
    hide Owners, BlocksOf;
    forall j | 0 <= j < BlocksOf(files[i])
      ensures 0 < Addresses(g, Base(files, i), BlocksOf(files[i]))[j] < g.total
    {
      NamedBlock(files, Data(i, j));
    }
    if BlocksOf(files[i]) > DIRECT {
      NamedBlock(files, Indirect(i));
    }
  }

  /** The driver's view of a stored file's inode. */
  function FileSeen(g: Geometry, files: seq<File>, i: nat): Inode
    requires i < |files|
  {
    var f := FileInode(g, i, Base(files, i), files[i]);
    Inode(ENTRY_FILE, |files[i].data|, BlocksOf(files[i]), DirectTable(f.direct), f.indirect)
  }

  lemma FileInodeFits(g: Geometry, files: seq<File>, i: nat)
    requires i < |files| && |Owners(files)| <= DataBlocks(g) && g.total < TWO_32
    ensures FieldsFit(FileInode(g, i, Base(files, i), files[i]))
  {
    hide Owners;
    AddressesFit(g, files, i);
  }

  lemma ReadsFileInode(d: Disk, t: nat, g: Geometry, files: seq<File>, i: nat)
    requires Rooted(d, g, files) && i < |files| && SlotOk(d.bytes, g, Complete(g, files), i + 1)
    ensures ReadInode(d, t, SuperSeen(g), i + 1) == Good(FileSeen(g, files, i), t + 1)
    ensures Mappable(FileSeen(g, files, i))
  {
    hide SlotOk, Owners, EncodeInode, ReadAt, Addresses, BlocksOf, FieldsFit, ReadInode;
    TableInside(g, files, |d.bytes|);
    ReadsSlot(d, t, g, files, i + 1);
    FileInodeFits(g, files, i);
    ReadsEncoded(d, t, SuperSeen(g), i + 1, FileInode(g, i, Base(files, i), files[i]));
  }

  /** What a slot says of itself beyond what the driver uses: number, permissions and name. */
  predicate Titled(slot: seq<byte>, number: nat, permissions: nat, name: seq<byte>)
    requires |slot| == SLOT
  {
    && Get32(slot, 0x00) == number && slot[5] as int == |name| <= NAME_BYTES && Get16(slot, 0x06) == permissions
    && Get16(slot, 0x08) == 0 && Get32(slot, 0x1A) == 0 && slot[0x4A..0x4A + |name|] == name
  }

  /** The slot of a stored file has its number, the default permissions and its name. */
  lemma FileTitled(d: Disk, t: nat, g: Geometry, files: seq<File>, i: nat)
    requires Rooted(d, g, files) && i < |files| && SlotOk(d.bytes, g, Complete(g, files), i + 1)
    ensures var slot := SlotOf(d, t, SuperSeen(g), i + 1);
      slot.Some? && Titled(slot.value, i + 1, 0x1A4, files[i].name)
  {
    hide SlotOk, Owners, ReadAt, Titled, EncodeInode, FileInode;
    TableInside(g, files, |d.bytes|);
    ReadsSlot(d, t, g, files, i + 1);
    EncodedTitle(g, files, i);
  }

  lemma EncodedTitle(g: Geometry, files: seq<File>, i: nat)
    requires i < |files| <= MAX_FILES
    ensures Titled(EncodeInode(FileInode(g, i, Base(files, i), files[i])), i + 1, 0x1A4, files[i].name)
  {
    hide EncodeInode, Addresses, BlocksOf, Base, Get32, Get16;
    InodeReadsBack(FileInode(g, i, Base(files, i), files[i]));
  }

  /** The root's slot has number 0, permissions for all and the name `/`. */
  lemma RootTitled(d: Disk, t: nat, g: Geometry, files: seq<File>)
    requires Rooted(d, g, files)
    ensures var slot := SlotOf(d, t, SuperSeen(g), 0); slot.Some? && Titled(slot.value, 0, 0x1FF, [0x2F])
  {
    hide SlotOk, Owners, EncodeInode, ReadAt, RootBlocks, Get32, Get16;
    TableInside(g, files, |d.bytes|);
    ReadsSlot(d, t, g, files, 0);
    InodeReadsBack(RootInode(RootBlocks(g, files)));
  }

  function RootSeen(g: Geometry, files: seq<File>): Inode
    requires |files| <= MAX_FILES
  {
    Inode(ENTRY_CATALOG, 0, CatalogCount(|files|), DirectTable(RootBlocks(g, files)), 0)
  }

  lemma RootBlocksFit(g: Geometry, files: seq<File>, c: nat)
    requires c < CatalogCount(|files|) && |Owners(files)| <= DataBlocks(g)
    ensures CatalogRel(files, c) < |Owners(files)| && Owners(files)[CatalogRel(files, c)] == Catalog(c)
    ensures 0 < RootBlocks(g, files)[c] < g.total
  {
    hide Owners;
    NamedBlock(files, Catalog(c));
  }

  lemma RootInodeFits(g: Geometry, files: seq<File>)
    requires |files| <= MAX_FILES && |Owners(files)| <= DataBlocks(g) && g.total < TWO_32
    ensures FieldsFit(RootInode(RootBlocks(g, files)))
  {
    hide Owners, RootBlocks;
    forall c | 0 <= c < CatalogCount(|files|) ensures RootBlocks(g, files)[c] < TWO_32 {
      RootBlocksFit(g, files, c);
    }
  }

  lemma ReadsRoot(d: Disk, t: nat, g: Geometry, files: seq<File>)
    requires Rooted(d, g, files)
    ensures ReadInode(d, t, SuperSeen(g), 0) == Good(RootSeen(g, files), t + 1)
    ensures Mappable(RootSeen(g, files))
  {
    hide SlotOk, Owners, EncodeInode, ReadAt, RootBlocks, FieldsFit, ReadInode;
    TableInside(g, files, |d.bytes|);
    ReadsSlot(d, t, g, files, 0);
    RootInodeFits(g, files);
    ReadsEncoded(d, t, SuperSeen(g), 0, RootInode(RootBlocks(g, files)));
  }

  // ---- blocks ---------------------------------------------------------------------------------------

  /** Reading a claimed block finds what its owner calls for. */
  lemma ReadsOwned(d: Disk, t: nat, g: Geometry, files: seq<File>, o: Owner)
    requires Cataloged(d, g, files) && CalledFor(files, o)
    ensures var r := ReadAt(d, t, DataStart(g) + RelOf(files, o));
      r.Some? && BlockHolds(r.value, g, Complete(g, files), o)
  {
    hide BlockHolds, Owners, RelOf, CalledFor, RootBlocks, ReadAt;
    NamedBlock(files, o);
    var r := RelOf(files, o);
    assert BlockOk(d.bytes, g, Complete(g, files), r);
    ReadsBlock(d, t, g, DataStart(g) + r);
  }

  /** The block map of a stored file, through the indirect block where there is one. */
  lemma MapsBlock(d: Disk, t: nat, g: Geometry, files: seq<File>, i: nat, j: nat)
    requires Cataloged(d, g, files) && i < |files| && j < BlocksOf(files[i])
    ensures Mappable(FileSeen(g, files, i))
    ensures MapBlock(d, t, FileSeen(g, files, i), j)
         == Good(DataStart(g) + DataRel(Base(files, i), j), if j < DIRECT then t else t + 1)
  {
    hide Cataloged, Owners, ReadAt, BlocksOf, BlockHolds, Base;
    SmallAddresses(d, g, files, i);
    if j >= DIRECT {
      ReadsPointers(d, t, g, files, i);
      PointerReads(g, Base(files, i), BlocksOf(files[i]), j);
    }
  }

  lemma ReadsPointers(d: Disk, t: nat, g: Geometry, files: seq<File>, i: nat)
    requires Cataloged(d, g, files) && i < |files| && BlocksOf(files[i]) > DIRECT
    ensures ReadAt(d, t, DataStart(g) + Base(files, i) + DIRECT)
         == Some(IndirectBlock(g, Base(files, i), BlocksOf(files[i])))
  {
    hide BlocksAre, Owners, ReadAt, BlocksOf, IndirectBlock, Base;
    ReadsOwned(d, t, g, files, Indirect(i));
  }

  lemma SmallAddresses(d: Disk, g: Geometry, files: seq<File>, i: nat)
    requires Cataloged(d, g, files) && i < |files|
    ensures forall j :: 0 <= j < BlocksOf(files[i]) ==> 0 < Addresses(g, Base(files, i), BlocksOf(files[i]))[j] < TWO_32
  {
    hide BlocksAre, Owners, BlocksOf, Addresses;
    AddressesFit(g, files, i);
  }

  lemma PointerReads(g: Geometry, base: nat, n: nat, j: nat)
    requires DIRECT <= j < n <= MAX_FILE_BLOCKS && Addresses(g, base, n)[j] < TWO_32
    ensures Get32(IndirectBlock(g, base, n), (j - DIRECT) * 4) == Addresses(g, base, n)[j]
  {
    hide Addresses, Le32s, Get32;
    var ws := Addresses(g, base, n)[DIRECT..];
    var block := IndirectBlock(g, base, n);
    Le32sAt(ws, j - DIRECT);
    var o := (j - DIRECT) * 4;
    assert block[o..o + 4] == Le32s(ws)[o..o + 4];
    FieldReads32(block, o, ws[j - DIRECT]);
  }

  /** Fetching block `j` of a stored file finds that block. */
  lemma FetchesBlock(d: Disk, t: nat, g: Geometry, files: seq<File>, i: nat, j: nat)
    requires Cataloged(d, g, files) && i < |files| && j < BlocksOf(files[i])
    ensures Mappable(FileSeen(g, files, i))
    ensures FetchBlock(d, t, FileSeen(g, files, i), j, -4)
         == Good(DataBlock(files[i], j), if j < DIRECT then t + 1 else t + 2)
  {
    hide Cataloged, Owners, ReadAt, BlocksOf, MapBlock, FileSeen;
    MapsBlock(d, t, g, files, i, j);
    ReadsOwned(d, if j < DIRECT then t else t + 1, g, files, Data(i, j));
  }

  // ---- catalog blocks ---------------------------------------------------------------------------------

  lemma CatalogInside(g: Geometry, files: seq<File>, c: nat)
    requires c < CatalogCount(|files|) && |Owners(files)| <= DataBlocks(g)
    ensures 0 < RootBlocks(g, files)[c] < g.total && RootBlocks(g, files)[c] == DataStart(g) + RelOf(files, Catalog(c))
    ensures Off(g, RootBlocks(g, files)[c]) + BLOCK <= Off(g, DataStart(g) + |Owners(files)|)
  {
    hide Owners;
    RootBlocksFit(g, files, c);
  }

  ghost predicate HasCatalog(img: seq<byte>, g: Geometry, files: seq<File>) {
    |Owners(files)| <= DataBlocks(g) && Off(g, DataStart(g) + |Owners(files)|) <= |img|
  }

  ghost function CatalogBlock(img: seq<byte>, g: Geometry, files: seq<File>, c: nat): (b: seq<byte>)
    requires HasCatalog(img, g, files) && c < CatalogCount(|files|)
    ensures |b| == BLOCK
  {
    CatalogInside(g, files, c);
    BlockAt(img, g, RootBlocks(g, files)[c])
  }

  /** The catalog blocks of the root, from block `c` on. */
  ghost function CatalogFrom(img: seq<byte>, g: Geometry, files: seq<File>, c: nat): (bs: seq<seq<byte>>)
    requires HasCatalog(img, g, files) && c <= CatalogCount(|files|)
    ensures |bs| == CatalogCount(|files|) - c
    decreases CatalogCount(|files|) - c
  {
    if c == CatalogCount(|files|) then [] else [CatalogBlock(img, g, files, c)] + CatalogFrom(img, g, files, c + 1)
  }

  /** Fetching catalog block `c` of the root finds that block of the image. */
  lemma FetchesCatalog(d: Disk, t: nat, g: Geometry, files: seq<File>, c: nat)
    requires Rooted(d, g, files) && c < CatalogCount(|files|)
    ensures Mappable(RootSeen(g, files))
    ensures FetchBlock(d, t, RootSeen(g, files), c, -4) == Good(CatalogBlock(d.bytes, g, files, c), t + 1)
  {
    hide ReadAt, Owners, InodesAre, RootBlocks, RelOf;
    CatalogInside(g, files, c);
    ReadsBlock(d, t, g, RootBlocks(g, files)[c]);
  }
}
