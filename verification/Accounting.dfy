/** The allocation bitmap against the pointers stored on the volume. */
module Accounting {
  import opened Bytes
  import opened Layout
  import opened Bitmap
  import opened Ownership
  import opened Contents
  import opened Reader
  import opened OnDisk
  import Superblock

  /** Set bits and free blocks add up to the data region, whatever files were added. */
  lemma FreePlusSetIsAll(img: seq<byte>, g: Geometry, files: seq<File>, hi: nat, freeBlocks: int)
    requires VolumeHolds(img, g, files, hi) && |Owners(files)| <= DataBlocks(g)
    requires freeBlocks == DataBlocks(g) - |Owners(files)|
    ensures freeBlocks + SetBits(BitmapOf(img, g)) == DataBlocks(g)
  {
    hide VolumeHolds, Owners, SetBits;
    Superblock.SetBitsAreOwners(img, g, files, hi);
  }

  /** A bit of the data region is set exactly when the file list calls for its block, and then in one
      role and no other. */
  lemma SetExactlyWhenCalledFor(img: seq<byte>, g: Geometry, files: seq<File>, hi: nat, r: nat)
    requires VolumeHolds(img, g, files, hi) && |Owners(files)| <= DataBlocks(g) && r < DataBlocks(g)
    ensures r < 8 * |BitmapOf(img, g)|
    ensures BitAt(BitmapOf(img, g), r) == 1 <==> exists o :: CalledFor(files, o) && RelOf(files, o) == r
    ensures forall o, o' | CalledFor(files, o) && CalledFor(files, o') ::
      RelOf(files, o) == r == RelOf(files, o') ==> o == o'
  {
    hide InodesAre, BlocksAre, Owners, BitAt, CalledFor, RelOf, DataStart;
    BitmapBlocksIsLeast(g);
    BumpBits(|Owners(files)|, BitmapBlocks(g) * BLOCK, r);
    if r < |Owners(files)| {
      OwnerAt(files, r);
      assert CalledFor(files, Owners(files)[r]) && RelOf(files, Owners(files)[r]) == r;
    }
    forall o | CalledFor(files, o) && RelOf(files, o) == r ensures r < |Owners(files)| && o == Owners(files)[r] {
      NamedBlock(files, o);
    }
  }

  // ---- the pointers on the volume ------------------------------------------------------------------

  /** A pointer the driver can follow: entry `index` of the block map of inode `num`, or the address of
      its indirect block. */
  datatype Pointer = MapEntry(num: nat, index: nat) | IndirectOf(num: nat)

  /** Following `p` on the disk leads to block `b`. Zero stands for no indirect block. */
  ghost predicate PointsTo(d: Disk, s: Layout.Super, p: Pointer, b: nat) {
    var i := ReadInode(d, 0, s, p.num);
    && i.Good? && Mappable(i.value)
    && match p
       case MapEntry(_, index) => (var m := MapBlock(d, 0, i.value, index); m.Good? && m.value == b)
       case IndirectOf(_) => i.value.indirect == b != 0
  }

  /** The pointer that holds the address of an owner's block. */
  function PointerOf(o: Owner): Pointer {
    match o
    case Catalog(c) => MapEntry(0, c)
    case Data(i, j) => MapEntry(i + 1, j)
    case Indirect(i) => IndirectOf(i + 1)
  }

  function OwnerOf(p: Pointer): Option<Owner> {
    match p
    case MapEntry(num, index) => Some(if num == 0 then Catalog(index) else Data(num - 1, index))
    case IndirectOf(num) => if num == 0 then None else Some(Indirect(num - 1))
  }

  /** Every block called for is pointed to, from where its role says. */
  lemma CalledForIsPointedTo(d: Disk, g: Geometry, files: seq<File>, o: Owner)
    requires Laid(d, g, files) && CalledFor(files, o)
    ensures PointsTo(d, SuperSeen(g), PointerOf(o), DataStart(g) + RelOf(files, o))
  {
    hide InodesAre, BlocksAre, HasSuper, Mounted, Owners, ReadInode, ReadAt, RootBlocks, BlocksOf, SlotOk;
    match o
    case Catalog(c) =>
      ReadsRoot(d, 0, g, files);
      CatalogInside(g, files, c);
    case Data(i, j) =>
      LaidSlot(d, g, files, i + 1);
      ReadsFileInode(d, 0, g, files, i);
      MapsBlock(d, 0, g, files, i, j);
    case Indirect(i) =>
      LaidSlot(d, g, files, i + 1);
      ReadsFileInode(d, 0, g, files, i);
  }

  /** Whatever a pointer leads to is called for in the role the pointer has. */
  lemma PointedToIsCalledFor(d: Disk, g: Geometry, files: seq<File>, p: Pointer, b: nat)
    requires Laid(d, g, files) && PointsTo(d, SuperSeen(g), p, b)
    ensures OwnerOf(p).Some? && CalledFor(files, OwnerOf(p).value) && b == DataStart(g) + RelOf(files, OwnerOf(p).value)
  {
    hide InodesAre, BlocksAre, HasSuper, Mounted, Owners, ReadInode, ReadAt, RootBlocks, BlocksOf, SlotOk;
    var num := p.num;
    if num == 0 {
      ReadsRoot(d, 0, g, files);
      if p.MapEntry? && p.index < CatalogCount(|files|) {
        CatalogInside(g, files, p.index);
      }
    } else if num <= |files| {
      LaidSlot(d, g, files, num);
      ReadsFileInode(d, 0, g, files, num - 1);
      if p.MapEntry? && p.index < BlocksOf(files[num - 1]) {
        MapsBlock(d, 0, g, files, num - 1, p.index);
      }
    } else {
      UnusedInode(d, 0, g, files, num);
    }
  }

  lemma UnusedInode(d: Disk, t: nat, g: Geometry, files: seq<File>, num: nat)
    requires Laid(d, g, files) && num > |files|
    ensures ReadInode(d, t, SuperSeen(g), num).Bad?
  {
    hide InodesAre, BlocksAre, HasSuper, Owners, ReadAt, RootBlocks, SlotOk, Intact;
    if num < TOTAL_INODES {
      LaidSlot(d, g, files, num);
      ReadsSlot(d, t, g, files, num);
    }
  }

  lemma OwnersAndPointersMatch(o: Owner, p: Pointer)
    ensures OwnerOf(PointerOf(o)) == Some(o)
    ensures OwnerOf(p).Some? ==> PointerOf(OwnerOf(p).value) == p
  {
  }

  /** The allocation invariant on the disk itself: every pointer the driver can follow leads into the
      data region, a block's bit is set exactly when some pointer leads to it, and then only one does. */
  lemma SetExactlyWhenPointedTo(d: Disk, g: Geometry, files: seq<File>, hi: nat, b: nat)
    requires Mounted(d, g) && VolumeHolds(d.bytes, g, files, hi) && |Owners(files)| <= DataBlocks(g)
    ensures forall p :: PointsTo(d, SuperSeen(g), p, b) ==> DataStart(g) <= b < g.total
    ensures DataStart(g) <= b < g.total ==>
      (BitSetFor(d.bytes, g, b) <==> exists p :: PointsTo(d, SuperSeen(g), p, b))
    ensures forall p, q :: PointsTo(d, SuperSeen(g), p, b) && PointsTo(d, SuperSeen(g), q, b) ==> p == q
  {
    hide Laid, VolumeHolds, PointsTo, CalledFor, RelOf, BitSetFor, Mounted, Owners;
    HeldIsLaid(d, g, files, hi);
    forall p | PointsTo(d, SuperSeen(g), p, b) ensures Named(g, files, p, b) && DataStart(g) <= b < g.total {
      PointedToIsCalledFor(d, g, files, p, b);
      NamedInside(g, files, OwnerOf(p).value);
      OwnersAndPointersMatch(OwnerOf(p).value, p);
    }
    if DataStart(g) <= b < g.total {
      BitMeansCalledFor(d.bytes, g, files, hi, b);
      if BitSetFor(d.bytes, g, b) {
        var o :| CalledFor(files, o) && RelOf(files, o) == b - DataStart(g);
        CalledForIsPointedTo(d, g, files, o);
      }
    }
  }

  /** The bit of data block `b` is set. */
  predicate BitSetFor(img: seq<byte>, g: Geometry, b: nat) {
    && Off(g, InodeTable(g)) <= |img| && DataStart(g) <= b && b - DataStart(g) < 8 * |BitmapOf(img, g)|
    && BitAt(BitmapOf(img, g), b - DataStart(g)) == 1
  }

  ghost predicate Named(g: Geometry, files: seq<File>, p: Pointer, b: nat) {
    && OwnerOf(p).Some? && PointerOf(OwnerOf(p).value) == p
    && CalledFor(files, OwnerOf(p).value) && b == DataStart(g) + RelOf(files, OwnerOf(p).value)
  }

  lemma NamedInside(g: Geometry, files: seq<File>, o: Owner)
    requires CalledFor(files, o) && |Owners(files)| <= DataBlocks(g)
    ensures DataStart(g) + RelOf(files, o) < g.total
  {
    hide Owners, RelOf, CalledFor;
    NamedBlock(files, o);
  }

  lemma BitMeansCalledFor(img: seq<byte>, g: Geometry, files: seq<File>, hi: nat, b: nat)
    requires VolumeHolds(img, g, files, hi) && |Owners(files)| <= DataBlocks(g) && DataStart(g) <= b < g.total
    ensures BitSetFor(img, g, b) <==> exists o :: CalledFor(files, o) && RelOf(files, o) == b - DataStart(g)
    ensures forall o, o' | CalledFor(files, o) && CalledFor(files, o') ::
      RelOf(files, o) == b - DataStart(g) == RelOf(files, o') ==> o == o'
  {
    hide InodesAre, BlocksAre, Owners, CalledFor, RelOf, BitAt;
    SetExactlyWhenCalledFor(img, g, files, hi, b - DataStart(g));
  }
}
