/** The bytes of a formatted volume, and how each write of the formatter keeps them. */
module Contents {
  import opened Bytes
  import opened Layout
  import opened Bitmap
  import opened Fletcher64
  import opened Ownership

  // ---- expected contents ------------------------------------------------------------------

  function Chunk(f: File, j: nat): (c: seq<byte>)
    requires j < BlocksOf(f)
    ensures |c| <= BLOCK
  {
    f.data[j * BLOCK..Min((j + 1) * BLOCK, |f.data|)]
  }

  function DataBlock(f: File, j: nat): (b: seq<byte>)
    requires j < BlocksOf(f)
    ensures |b| == BLOCK
  {
    Padded(Chunk(f, j), BLOCK)
  }

  /** Absolute addresses of a file's `n` data blocks. */
  function Addresses(g: Geometry, base: nat, n: nat): (a: seq<nat>)
    ensures |a| == n
  {
    seq(n, j requires 0 <= j < n => DataStart(g) + DataRel(base, j))
  }

  function IndirectBlock(g: Geometry, base: nat, n: nat): (b: seq<byte>)
    requires DIRECT < n <= MAX_FILE_BLOCKS
    ensures |b| == BLOCK
  {
    Padded(Le32s(Addresses(g, base, n)[DIRECT..]), BLOCK)
  }

  function FileInode(g: Geometry, i: nat, base: nat, f: File): (r: InodeFields)
    ensures FitsSlot(r)
  {
    var n := BlocksOf(f);
    InodeFields(i + 1, ENTRY_FILE, |f.name|, 0x1A4, 0, |f.data|, n, 0, Addresses(g, base, n)[..Min(n, DIRECT)],
                if n > DIRECT then DataStart(g) + base + DIRECT else 0, f.name)
  }

  function RootInode(roots: seq<nat>): (r: InodeFields)
    requires |roots| <= DIRECT
    ensures FitsSlot(r)
  {
    InodeFields(0, ENTRY_CATALOG, 1, 0x1FF, 0, 0, |roots|, 0, roots, 0, [0x2F])
  }

  function EntrySlot(files: seq<File>, entries: nat, i: nat): (s: seq<byte>)
    requires entries <= |files|
    ensures |s| == SLOT
  {
    if i < entries then EncodeEntry(i + 1, ENTRY_FILE, files[i].name) else Zeros(SLOT)
  }

  /** How far the formatter has come: the blocks claimed, the inodes and entries written. */
  datatype RawProgress = Progress(files: seq<File>, owners: seq<Owner>, inodes: nat, entries: nat, roots: seq<nat>)

  type Progress = p: RawProgress | p.inodes <= |p.files| && p.entries <= |p.files| && |p.roots| <= DIRECT
    witness Progress([], [], 0, 0, [])

  function InodeSlot(g: Geometry, p: Progress, num: nat): (s: seq<byte>)
    ensures |s| == SLOT
  {
    if num == 0 then EncodeInode(RootInode(p.roots))
    else if num <= p.inodes then EncodeInode(FileInode(g, num - 1, Base(p.files, num - 1), p.files[num - 1]))
    else Zeros(SLOT)
  }

  ghost predicate EntryOk(block: seq<byte>, p: Progress, c: nat, e: nat)
    requires |block| == BLOCK && e < 16
  {
    block[e * SLOT..e * SLOT + SLOT] == EntrySlot(p.files, p.entries, 16 * c + e)
  }

  ghost predicate IsCatalog(block: seq<byte>, p: Progress, c: nat)
    requires |block| == BLOCK
  {
    forall e :: 0 <= e < 16 ==> EntryOk(block, p, c, e)
  }

  /** An indirect block is filled in only when its file is complete. */
  ghost predicate BlockHolds(block: seq<byte>, g: Geometry, p: Progress, o: Owner)
    requires |block| == BLOCK
  {
    match o
    case Data(i, j) => i < |p.files| && j < BlocksOf(p.files[i]) && block == DataBlock(p.files[i], j)
    case Indirect(i) => i < |p.files| && BlocksOf(p.files[i]) > DIRECT
                        && (i < p.inodes ==> block == IndirectBlock(g, Base(p.files, i), BlocksOf(p.files[i])))
    case Catalog(c) => IsCatalog(block, p, c)
  }

  // ---- the image predicates ------------------------------------------------------------------

  ghost predicate BitmapIs(img: seq<byte>, g: Geometry, k: nat) {
    && Off(g, InodeTable(g)) <= |img|
    && img[Off(g, BITMAP_START)..Off(g, InodeTable(g))] == Bump(k, BitmapBlocks(g) * BLOCK)
  }

  ghost predicate SlotOk(img: seq<byte>, g: Geometry, p: Progress, num: nat) {
    InodeOff(g, num) + SLOT <= |img| && SlotAt(img, g, num) == InodeSlot(g, p, num)
  }

  ghost predicate InodesAre(img: seq<byte>, g: Geometry, p: Progress) {
    Off(g, DataStart(g)) <= |img| && forall num :: 0 <= num < TOTAL_INODES ==> SlotOk(img, g, p, num)
  }

  ghost predicate BlockOk(img: seq<byte>, g: Geometry, p: Progress, r: nat)
    requires r < |p.owners|
  {
    Off(g, DataStart(g) + r) + BLOCK <= |img| && BlockHolds(BlockAt(img, g, DataStart(g) + r), g, p, p.owners[r])
  }

  ghost predicate BlocksAre(img: seq<byte>, g: Geometry, p: Progress) {
    Off(g, DataStart(g) + |p.owners|) <= |img| && forall r :: 0 <= r < |p.owners| ==> BlockOk(img, g, p, r)
  }

  /** The image is zero from the first unclaimed block up to offset `hi`. */
  ghost predicate ZeroUpTo(img: seq<byte>, g: Geometry, used: nat, hi: nat) {
    && Off(g, DataStart(g) + used) <= hi <= |img|
    && forall k :: Off(g, DataStart(g) + used) <= k < hi ==> img[k] == 0
  }

  // ---- frames -------------------------------------------------------------------------------

  lemma InodesFrame(img: seq<byte>, img': seq<byte>, g: Geometry, p: Progress)
    requires InodesAre(img, g, p) && Off(g, DataStart(g)) <= |img'|
    requires img[Off(g, InodeTable(g))..Off(g, DataStart(g))] == img'[Off(g, InodeTable(g))..Off(g, DataStart(g))]
    ensures InodesAre(img', g, p)
  {
    var lo, hi := Off(g, InodeTable(g)), Off(g, DataStart(g));
    forall num | 0 <= num < TOTAL_INODES
      ensures SlotOk(img', g, p, num)
    {
      assert SlotOk(img, g, p, num);
      InodeOffLinear(g, num);
      SliceOfSlice(img, lo, hi, num * SLOT, num * SLOT + SLOT);
      SliceOfSlice(img', lo, hi, num * SLOT, num * SLOT + SLOT);
      hide InodeSlot, Off, InodeOff, InodeTable, DataStart;
    }
  }

  lemma BlocksFrame(img: seq<byte>, img': seq<byte>, g: Geometry, p: Progress)
    requires BlocksAre(img, g, p) && Off(g, DataStart(g) + |p.owners|) <= |img'|
    requires img[Off(g, DataStart(g))..Off(g, DataStart(g) + |p.owners|)]
         == img'[Off(g, DataStart(g))..Off(g, DataStart(g) + |p.owners|)]
    ensures BlocksAre(img', g, p)
  {
    hide BlockHolds;
    var lo, hi := Off(g, DataStart(g)), Off(g, DataStart(g) + |p.owners|);
    forall r | 0 <= r < |p.owners|
      ensures BlockOk(img', g, p, r)
    {
      assert BlockOk(img, g, p, r);
      SliceOfSlice(img, lo, hi, r * BLOCK, r * BLOCK + BLOCK);
      SliceOfSlice(img', lo, hi, r * BLOCK, r * BLOCK + BLOCK);
      assert BlockAt(img', g, DataStart(g) + r) == BlockAt(img, g, DataStart(g) + r);
    }
  }

  // ---- claiming a block and writing a chunk into it ---------------------------------------------

  /** Replacing a whole zero block by a possibly shorter chunk: the image shrinks, but inside the
      zero window the block reads as the chunk padded with zeros. */
  lemma SpliceAtWindow(img: seq<byte>, at: nat, hi: nat, chunk: seq<byte>)
    requires at + BLOCK <= hi <= |img| && |chunk| <= BLOCK && at + BLOCK + (BLOCK - |chunk|) <= hi
    requires forall k :: at <= k < hi ==> img[k] == 0
    ensures var img' := Splice(img, at, at + BLOCK, chunk); var hi' := hi - (BLOCK - |chunk|);
      && |img'| == |img| - (BLOCK - |chunk|) && img'[..at] == img[..at]
      && img'[at..at + BLOCK] == Padded(chunk, BLOCK)
      && (forall k :: at + BLOCK <= k < hi' ==> img'[k] == 0)
      && img'[hi'..] == img[hi..]
  {
    var img' := Splice(img, at, at + BLOCK, chunk);
    assert img' == img[..at] + chunk + img[at + BLOCK..];
  }

  /** Writing chunk `j` of file `i` into the next block. */
  lemma ClaimData(img: seq<byte>, g: Geometry, p: Progress, hi: nat, i: nat, j: nat)
    requires InodesAre(img, g, p) && BlocksAre(img, g, p) && ZeroUpTo(img, g, |p.owners|, hi)
    requires i < |p.files| && j < BlocksOf(p.files[i])
    requires Off(g, DataStart(g) + |p.owners|) + BLOCK + (BLOCK - |Chunk(p.files[i], j)|) <= hi
    ensures var c := Chunk(p.files[i], j); var at := Off(g, DataStart(g) + |p.owners|); var slack := BLOCK - |c|;
            var img' := Splice(img, at, at + BLOCK, c); var p' := p.(owners := p.owners + [Data(i, j)]);
      && InodesAre(img', g, p') && BlocksAre(img', g, p') && ZeroUpTo(img', g, |p'.owners|, hi - slack)
      && |img'| == |img| - slack && img'[hi - slack..] == img[hi..] && img'[..at] == img[..at]
  {
    var c := Chunk(p.files[i], j);
    var n := |p.owners|;
    var at := Off(g, DataStart(g) + n);
    var img' := Splice(img, at, at + BLOCK, c);
    var p' := p.(owners := p.owners + [Data(i, j)]);
    SpliceAtWindow(img, at, hi, c);
    SameBelow(img, img', g, p);
    assert BlockAt(img', g, DataStart(g) + n) == DataBlock(p.files[i], j);
    ClaimedHolds(img', g, p, Data(i, j));
  }

  lemma SameBelow(img: seq<byte>, img': seq<byte>, g: Geometry, p: Progress)
    requires InodesAre(img, g, p) && BlocksAre(img, g, p)
    requires var at := Off(g, DataStart(g) + |p.owners|); at <= |img'| && img'[..at] == img[..at]
    ensures InodesAre(img', g, p) && BlocksAre(img', g, p)
  {
    var lo, mid, at := Off(g, InodeTable(g)), Off(g, DataStart(g)), Off(g, DataStart(g) + |p.owners|);
    SliceOfSlice(img, 0, at, lo, mid);
    SliceOfSlice(img', 0, at, lo, mid);
    SliceOfSlice(img, 0, at, mid, at);
    SliceOfSlice(img', 0, at, mid, at);
    InodesFrame(img, img', g, p);
    BlocksFrame(img, img', g, p);
  }

  lemma ClaimedBlock(img: seq<byte>, g: Geometry, p: Progress, o: Owner, r: nat)
    requires r <= |p.owners| && (r < |p.owners| ==> BlockOk(img, g, p, r))
    requires Off(g, DataStart(g) + r) + BLOCK <= |img|
    requires r == |p.owners| ==> BlockHolds(BlockAt(img, g, DataStart(g) + r), g, p, o)
    ensures BlockOk(img, g, p.(owners := p.owners + [o]), r)
  {
    hide BlockHolds, BlockAt;
    var p' := p.(owners := p.owners + [o]);
    SameClaims(BlockAt(img, g, DataStart(g) + r), g, p, p', p'.owners[r]);
  }

  /** Once the next block holds what `o` calls for, it can be counted. */
  lemma ClaimedHolds(img: seq<byte>, g: Geometry, p: Progress, o: Owner)
    requires InodesAre(img, g, p) && BlocksAre(img, g, p)
    requires Off(g, DataStart(g) + |p.owners|) + BLOCK <= |img|
    requires BlockHolds(BlockAt(img, g, DataStart(g) + |p.owners|), g, p, o)
    ensures var p' := p.(owners := p.owners + [o]); InodesAre(img, g, p') && BlocksAre(img, g, p')
  {
    hide BlockHolds, SlotOk, BlockAt, InodesAre, DataStart, BlockOk;
    var p' := p.(owners := p.owners + [o]);
    SameSlots(img, g, p, p');
    forall r | 0 <= r < |p'.owners| ensures BlockOk(img, g, p', r) {
      assert r < |p.owners| ==> BlockOk(img, g, p, r);
      ClaimedBlock(img, g, p, o, r);
    }
  }

  lemma SameSlots(img: seq<byte>, g: Geometry, p: Progress, p': Progress)
    requires InodesAre(img, g, p)
    requires p'.files == p.files && p'.inodes == p.inodes && p'.roots == p.roots
    ensures InodesAre(img, g, p')
  {
    forall num | 0 <= num < TOTAL_INODES ensures SlotOk(img, g, p', num) {
      assert SlotOk(img, g, p, num);
    }
  }

  lemma SameClaims(block: seq<byte>, g: Geometry, p: Progress, p': Progress, o: Owner)
    requires |block| == BLOCK && BlockHolds(block, g, p, o)
    requires p'.files == p.files && p'.inodes == p.inodes && p'.entries == p.entries
    ensures BlockHolds(block, g, p', o)
  {
    if o.Catalog? {
      forall e | 0 <= e < 16 ensures EntryOk(block, p', o.c, e) {
        assert EntryOk(block, p, o.c, e);
      }
    }
  }

  /** A block reserved for pointers need not hold anything yet. */
  lemma ClaimIndirect(img: seq<byte>, g: Geometry, p: Progress, i: nat)
    requires InodesAre(img, g, p) && BlocksAre(img, g, p)
    requires Off(g, DataStart(g) + |p.owners|) + BLOCK <= |img|
    requires p.inodes <= i < |p.files| && BlocksOf(p.files[i]) > DIRECT
    ensures var p' := p.(owners := p.owners + [Indirect(i)]); InodesAre(img, g, p') && BlocksAre(img, g, p')
  {
    ClaimedHolds(img, g, p, Indirect(i));
  }

  /** A fresh zero block is an empty catalog block. */
  lemma ClaimCatalog(img: seq<byte>, g: Geometry, p: Progress, hi: nat, c: nat)
    requires InodesAre(img, g, p) && BlocksAre(img, g, p) && ZeroUpTo(img, g, |p.owners|, hi)
    requires Off(g, DataStart(g) + |p.owners|) + BLOCK <= hi && p.entries <= 16 * c
    ensures var p' := p.(owners := p.owners + [Catalog(c)]); InodesAre(img, g, p') && BlocksAre(img, g, p')
  {
    var block := BlockAt(img, g, DataStart(g) + |p.owners|);
    assert block == Zeros(BLOCK);
    forall e | 0 <= e < 16 ensures EntryOk(block, p, c, e) {
      assert Zeros(BLOCK)[e * SLOT..e * SLOT + SLOT] == Zeros(SLOT);
    }
    ClaimedHolds(img, g, p, Catalog(c));
  }

  lemma ZeroWindowShrinks(img: seq<byte>, g: Geometry, used: nat, hi: nat)
    requires ZeroUpTo(img, g, used, hi) && Off(g, DataStart(g) + used) + BLOCK <= hi
    ensures ZeroUpTo(img, g, used + 1, hi)
  {
  }

  // ---- writes that keep the length -----------------------------------------------------------

  lemma BitmapFrame(img: seq<byte>, img': seq<byte>, g: Geometry, k: nat)
    requires BitmapIs(img, g, k) && Off(g, InodeTable(g)) <= |img'|
    requires img[..Off(g, InodeTable(g))] == img'[..Off(g, InodeTable(g))]
    ensures BitmapIs(img', g, k)
  {
    var lo, hi := Off(g, BITMAP_START), Off(g, InodeTable(g));
    SliceOfSlice(img, 0, hi, lo, hi);
    SliceOfSlice(img', 0, hi, lo, hi);
  }

  lemma ZeroFrame(img: seq<byte>, at: nat, bytes: seq<byte>, g: Geometry, used: nat, hi: nat)
    requires ZeroUpTo(img, g, used, hi) && at + |bytes| <= Off(g, DataStart(g) + used)
    ensures ZeroUpTo(PutAt(img, at, bytes), g, used, hi)
  {
  }

  lemma OtherBlock(img: seq<byte>, g: Geometry, b: nat, d: nat, bytes: seq<byte>, b': nat)
    requires d + |bytes| <= BLOCK && Off(g, b) + BLOCK <= |img| && Off(g, b') + BLOCK <= |img| && b != b'
    ensures BlockAt(PutAt(img, Off(g, b) + d, bytes), g, b') == BlockAt(img, g, b')
  {
    PutAtElsewhere(img, Off(g, b) + d, bytes, Off(g, b'), Off(g, b') + BLOCK);
  }

  lemma ThisBlock(img: seq<byte>, g: Geometry, b: nat, d: nat, bytes: seq<byte>)
    requires d + |bytes| <= BLOCK && Off(g, b) + BLOCK <= |img|
    ensures BlockAt(PutAt(img, Off(g, b) + d, bytes), g, b) == PutAt(BlockAt(img, g, b), d, bytes)
  {
    PutAtInside(img, Off(g, b) + d, bytes, Off(g, b), Off(g, b) + BLOCK);
  }

  /** A write inside claimed block `r` touches nothing else that is claimed. */
  lemma WriteInBlock(img: seq<byte>, g: Geometry, p: Progress, r: nat, d: nat, bytes: seq<byte>, img': seq<byte>)
    requires InodesAre(img, g, p) && BlocksAre(img, g, p) && r < |p.owners| && d + |bytes| <= BLOCK
    requires Off(g, DataStart(g) + r) + BLOCK <= |img| && img' == PutAt(img, Off(g, DataStart(g) + r) + d, bytes)
    ensures InodesAre(img', g, p)
    ensures BlockAt(img', g, DataStart(g) + r) == PutAt(BlockAt(img, g, DataStart(g) + r), d, bytes)
    ensures forall q :: 0 <= q < |p.owners| && q != r ==> BlockOk(img', g, p, q)
  {
    hide SlotOk, BlockHolds, PutAt, BlockAt, BitmapBlocks;
    PutAtElsewhere(img, Off(g, DataStart(g) + r) + d, bytes, Off(g, InodeTable(g)), Off(g, DataStart(g)));
    InodesFrame(img, img', g, p);
    ThisBlock(img, g, DataStart(g) + r, d, bytes);
    forall q | 0 <= q < |p.owners| && q != r ensures BlockOk(img', g, p, q) {
      assert BlockOk(img, g, p, q);
      OtherBlock(img, g, DataStart(g) + r, d, bytes, DataStart(g) + q);
    }
  }

  /** Writing an inode slot. */
  lemma WriteSlot(img: seq<byte>, g: Geometry, p: Progress, p': Progress, num: nat)
    requires InodesAre(img, g, p) && num < TOTAL_INODES && InodeOff(g, num) + SLOT <= |img|
    requires forall k :: 0 <= k < TOTAL_INODES && k != num ==> InodeSlot(g, p', k) == InodeSlot(g, p, k)
    ensures InodesAre(PutAt(img, InodeOff(g, num), InodeSlot(g, p', num)), g, p')
  {
    var img' := PutAt(img, InodeOff(g, num), InodeSlot(g, p', num));
    InodeOffLinear(g, num);
    forall k | 0 <= k < TOTAL_INODES ensures SlotOk(img', g, p', k) {
      assert SlotOk(img, g, p, k);
      InodeOffLinear(g, k);
      if k != num {
        PutAtElsewhere(img, InodeOff(g, num), InodeSlot(g, p', num), InodeOff(g, k), InodeOff(g, k) + SLOT);
      }
    }
  }

  /** The inode table lies between the bitmap and the data region. */
  lemma WriteSlotFrame(img: seq<byte>, g: Geometry, num: nat, slot: seq<byte>)
    requires num < TOTAL_INODES && |slot| == SLOT && Off(g, DataStart(g)) <= |img|
    ensures var img' := PutAt(img, InodeOff(g, num), slot);
      && img'[..Off(g, InodeTable(g))] == img[..Off(g, InodeTable(g))]
      && img'[Off(g, DataStart(g))..] == img[Off(g, DataStart(g))..]
  {
    InodeOffLinear(g, num);
  }

  /** The pointer block of the file being added. */
  lemma FillIndirect(img: seq<byte>, g: Geometry, p: Progress, r: nat, bytes: seq<byte>, img': seq<byte>)
    requires InodesAre(img, g, p) && BlocksAre(img, g, p) && r < |p.owners| && |bytes| == BLOCK
    requires p.owners[r].Indirect? && p.inodes <= p.owners[r].file
    requires Off(g, DataStart(g) + r) + BLOCK <= |img| && img' == PutAt(img, Off(g, DataStart(g) + r), bytes)
    ensures InodesAre(img', g, p) && BlocksAre(img', g, p) && BlockAt(img', g, DataStart(g) + r) == bytes
  {
    assert BlockOk(img, g, p, r);
    WriteInBlock(img, g, p, r, 0, bytes, img');
    assert PutAt(BlockAt(img, g, DataStart(g) + r), 0, bytes) == bytes;
    assert BlockOk(img', g, p, r);
  }

  lemma SameBlock(img: seq<byte>, img': seq<byte>, g: Geometry, r: nat)
    requires |img| == |img'| && Off(g, DataStart(g) + r) + BLOCK <= |img|
    requires img[Off(g, DataStart(g))..] == img'[Off(g, DataStart(g))..]
    ensures BlockAt(img', g, DataStart(g) + r) == BlockAt(img, g, DataStart(g) + r)
  {
    var lo := Off(g, DataStart(g));
    SliceOfSlice(img, lo, |img|, r * BLOCK, r * BLOCK + BLOCK);
    SliceOfSlice(img', lo, |img|, r * BLOCK, r * BLOCK + BLOCK);
  }

  /** An inode write changes no claimed block. */
  lemma SlotLeavesBlocks(img: seq<byte>, g: Geometry, p: Progress, num: nat, slot: seq<byte>, img': seq<byte>)
    requires InodesAre(img, g, p) && BlocksAre(img, g, p) && num < TOTAL_INODES && |slot| == SLOT
    requires InodeOff(g, num) + SLOT <= |img| && img' == PutAt(img, InodeOff(g, num), slot)
    ensures forall r :: 0 <= r < |p.owners| ==> BlockOk(img', g, p, r)
    ensures BlocksAre(img', g, p)
  {
    hide SlotOk, BlockHolds;
    WriteSlotFrame(img, g, num, slot);
    forall r | 0 <= r < |p.owners| ensures BlockOk(img', g, p, r) {
      assert BlockOk(img, g, p, r);
      SameBlock(img, img', g, r);
    }
  }

  /** The pointer block of file `i`, where there is one, holds its addresses. */
  ghost predicate PointersReady(img: seq<byte>, g: Geometry, p: Progress, i: nat)
    requires i < |p.files| && BlocksAre(img, g, p)
  {
    forall r :: 0 <= r < |p.owners| && p.owners[r] == Indirect(i) && BlockOk(img, g, p, r) ==>
      BlockAt(img, g, DataStart(g) + r) == IndirectBlock(g, Base(p.files, i), BlocksOf(p.files[i]))
  }

  /** The inode of the file just stored. */
  lemma AddInode(img: seq<byte>, g: Geometry, p: Progress, p': Progress, img': seq<byte>)
    requires InodesAre(img, g, p) && BlocksAre(img, g, p) && p.inodes < |p.files| && p.inodes + 1 < TOTAL_INODES
    requires PointersReady(img, g, p, p.inodes)
    requires p' == p.(inodes := p.inodes + 1) && InodeOff(g, p'.inodes) + SLOT <= |img|
    requires img' == PutAt(img, InodeOff(g, p'.inodes), InodeSlot(g, p', p'.inodes))
    ensures InodesAre(img', g, p') && BlocksAre(img', g, p')
  {
    var slot := InodeSlot(g, p', p'.inodes);
    WriteSlot(img, g, p, p', p'.inodes);
    WriteSlotFrame(img, g, p'.inodes, slot);
    SlotLeavesBlocks(img, g, p, p'.inodes, slot, img');
    hide SlotOk, InodeSlot, InodesAre, BlocksAre, PointersReady;
    InodeCountedEverywhere(img, g, p, p', img');
  }

  lemma InodeCountedIn(img: seq<byte>, g: Geometry, p: Progress, p': Progress, img': seq<byte>, r: nat)
    requires BlocksAre(img, g, p) && r < |p.owners| && BlockOk(img', g, p, r)
    requires p.inodes < |p.files| && p' == p.(inodes := p.inodes + 1) && PointersReady(img, g, p, p.inodes)
    requires |img'| == |img| && Off(g, DataStart(g)) <= |img|
    requires img'[Off(g, DataStart(g))..] == img[Off(g, DataStart(g))..]
    ensures BlockOk(img', g, p', r)
  {
    hide BlockHolds, BlockAt;
    assert BlockOk(img, g, p, r);
    SameBlock(img, img', g, r);
    InodeCounted(BlockAt(img', g, DataStart(g) + r), g, p, p', p.owners[r]);
  }

  lemma InodeCountedEverywhere(img: seq<byte>, g: Geometry, p: Progress, p': Progress, img': seq<byte>)
    requires BlocksAre(img, g, p) && BlocksAre(img', g, p) && p.inodes < |p.files| && p' == p.(inodes := p.inodes + 1)
    requires PointersReady(img, g, p, p.inodes)
    requires |img'| == |img| && Off(g, DataStart(g)) <= |img|
    requires img'[Off(g, DataStart(g))..] == img[Off(g, DataStart(g))..]
    ensures BlocksAre(img', g, p')
  {
    hide BlockOk;
    forall r | 0 <= r < |p'.owners| ensures BlockOk(img', g, p', r) {
      assert BlockOk(img', g, p, r);
      InodeCountedIn(img, g, p, p', img', r);
    }
  }

  lemma InodeCounted(block: seq<byte>, g: Geometry, p: Progress, p': Progress, o: Owner)
    requires |block| == BLOCK && BlockHolds(block, g, p, o) && p.inodes < |p.files| && p' == p.(inodes := p.inodes + 1)
    requires o == Indirect(p.inodes) ==> block == IndirectBlock(g, Base(p.files, p.inodes), BlocksOf(p.files[p.inodes]))
    ensures BlockHolds(block, g, p', o)
  {
    if o.Catalog? {
      forall e | 0 <= e < 16 ensures EntryOk(block, p', o.c, e) {
        assert EntryOk(block, p, o.c, e);
      }
    }
  }

  /** The root inode rewritten after a catalog block was added. */
  lemma RewriteRoot(img: seq<byte>, g: Geometry, p: Progress, p': Progress, img': seq<byte>)
    requires InodesAre(img, g, p) && BlocksAre(img, g, p)
    requires p' == p.(roots := p'.roots) && InodeOff(g, 0) + SLOT <= |img|
    requires img' == PutAt(img, InodeOff(g, 0), EncodeInode(RootInode(p'.roots)))
    ensures InodesAre(img', g, p') && BlocksAre(img', g, p')
  {
    hide SlotOk, InodesAre, BlocksAre, EncodeInode;
    WriteSlot(img, g, p, p', 0);
    RootLeavesBlocks(img, g, p, p', img');
  }

  lemma RootLeavesBlocks(img: seq<byte>, g: Geometry, p: Progress, p': Progress, img': seq<byte>)
    requires InodesAre(img, g, p) && BlocksAre(img, g, p)
    requires p' == p.(roots := p'.roots) && InodeOff(g, 0) + SLOT <= |img|
    requires img' == PutAt(img, InodeOff(g, 0), EncodeInode(RootInode(p'.roots)))
    ensures BlocksAre(img', g, p')
  {
    hide SlotOk, InodeSlot, InodesAre, BlockHolds, EncodeInode, PutAt, InodeOff;
    SlotLeavesBlocks(img, g, p, 0, EncodeInode(RootInode(p'.roots)), img');
    forall r | 0 <= r < |p'.owners| ensures BlockOk(img', g, p', r) {
      assert BlockOk(img', g, p, r);
      SameClaims(BlockAt(img', g, DataStart(g) + r), g, p, p', p.owners[r]);
    }
  }

  /** The next catalog entry goes into the one block that owns it. */
  lemma AddEntry(img: seq<byte>, g: Geometry, p: Progress, r: nat, p': Progress, img': seq<byte>)
    requires InodesAre(img, g, p) && BlocksAre(img, g, p) && p.entries < |p.files| && r < |p.owners|
    requires p.owners[r] == Catalog(p.entries / 16)
    requires forall q :: 0 <= q < |p.owners| && p.owners[q] == Catalog(p.entries / 16) ==> q == r
    requires p' == p.(entries := p.entries + 1) && Off(g, DataStart(g) + r) + BLOCK <= |img|
    requires img'
         == PutAt(img, Off(g, DataStart(g) + r) + p.entries % 16 * SLOT, EntrySlot(p.files, p'.entries, p.entries))
    ensures InodesAre(img', g, p') && BlocksAre(img', g, p')
  {
    var c, d, bytes := p.entries / 16, p.entries % 16 * SLOT, EntrySlot(p.files, p'.entries, p.entries);
    assert BlockOk(img, g, p, r);
    assert IsCatalog(BlockAt(img, g, DataStart(g) + r), p, c);
    EntryAdded(BlockAt(img, g, DataStart(g) + r), p, p', c);
    WriteInBlock(img, g, p, r, d, bytes, img');
    SameSlots(img', g, p, p');
    assert BlockOk(img', g, p', r);
    hide SlotOk, InodesAre, BlocksAre, BlockHolds, EntrySlot, IsCatalog;
    EntryCountedEverywhere(img', g, p, p', r);
  }

  lemma EntryCountedEverywhere(img: seq<byte>, g: Geometry, p: Progress, p': Progress, r: nat)
    requires p.entries < |p.files| && p' == p.(entries := p.entries + 1) && r < |p.owners|
    requires forall q :: 0 <= q < |p.owners| && p.owners[q] == Catalog(p.entries / 16) ==> q == r
    requires Off(g, DataStart(g) + |p.owners|) <= |img|
    requires BlockOk(img, g, p', r) && forall q :: 0 <= q < |p.owners| && q != r ==> BlockOk(img, g, p, q)
    ensures BlocksAre(img, g, p')
  {
    hide BlockHolds;
    forall q | 0 <= q < |p.owners| ensures BlockOk(img, g, p', q) {
      if q != r {
        assert BlockOk(img, g, p, q);
        OtherClaims(BlockAt(img, g, DataStart(g) + q), g, p, p', p.owners[q]);
      }
    }
  }

  lemma EntryAdded(block: seq<byte>, p: Progress, p': Progress, c: nat)
    requires |block| == BLOCK && IsCatalog(block, p, c) && p.entries < |p.files|
    requires p' == p.(entries := p.entries + 1) && c == p.entries / 16
    ensures IsCatalog(PutAt(block, p.entries % 16 * SLOT, EntrySlot(p.files, p'.entries, p.entries)), p', c)
  {
    var d := p.entries % 16 * SLOT;
    var bytes := EntrySlot(p.files, p'.entries, p.entries);
    forall e | 0 <= e < 16 ensures EntryOk(PutAt(block, d, bytes), p', c, e) {
      assert EntryOk(block, p, c, e);
      if e != p.entries % 16 {
        PutAtElsewhere(block, d, bytes, e * SLOT, e * SLOT + SLOT);
      }
    }
  }

  lemma OtherClaims(block: seq<byte>, g: Geometry, p: Progress, p': Progress, o: Owner)
    requires |block| == BLOCK && BlockHolds(block, g, p, o) && p.entries < |p.files|
    requires p' == p.(entries := p.entries + 1) && o != Catalog(p.entries / 16)
    ensures BlockHolds(block, g, p', o)
  {
    if o.Catalog? {
      forall e | 0 <= e < 16 ensures EntryOk(block, p', o.c, e) {
        assert EntryOk(block, p, o.c, e);
        assert 16 * o.c + e != p.entries;
      }
    }
  }

  // ---- the whole volume ----------------------------------------------------------------------

  function RootBlocks(g: Geometry, files: seq<File>): (r: seq<nat>)
    ensures |r| == CatalogCount(|files|)
  {
    seq(CatalogCount(|files|), c requires 0 <= c < CatalogCount(|files|) => DataStart(g) + CatalogRel(files, c))
  }

  function Complete(g: Geometry, files: seq<File>): Progress
    requires |files| <= MAX_FILES
  {
    Progress(files, Owners(files), |files|, |files|, RootBlocks(g, files))
  }

  /** Bitmap, inode table, claimed blocks and the zero window up to `hi`. */
  ghost predicate InProgress(img: seq<byte>, g: Geometry, p: Progress, hi: nat) {
    && BitmapIs(img, g, |p.owners|) && InodesAre(img, g, p) && BlocksAre(img, g, p)
    && ZeroUpTo(img, g, |p.owners|, hi)
  }

  ghost predicate VolumeHolds(img: seq<byte>, g: Geometry, files: seq<File>, hi: nat) {
    |files| <= MAX_FILES && InProgress(img, g, Complete(g, files), hi)
  }

  /** Bytes the last, short chunk of a file takes out of the image. */
  function Slack(f: File): nat {
    BlocksOf(f) * BLOCK - |f.data|
  }

  function TotalSlack(files: seq<File>): nat {
    if |files| == 0 then 0 else TotalSlack(files[..|files| - 1]) + Slack(files[|files| - 1])
  }

  /** Bytes before the bitmap, and bytes past the zero window (which may have moved down), are kept. */
  ghost predicate Surrounds(img: seq<byte>, hi: nat, img': seq<byte>, hi': nat, g: Geometry) {
    && Off(g, BITMAP_START) <= hi <= |img| && Off(g, BITMAP_START) <= hi' <= |img'|
    && img'[..Off(g, BITMAP_START)] == img[..Off(g, BITMAP_START)] && img'[hi'..] == img[hi..]
  }

  lemma PutSurrounds(img: seq<byte>, g: Geometry, hi: nat, at: nat, bytes: seq<byte>)
    requires Off(g, BITMAP_START) <= at && at + |bytes| <= hi <= |img|
    ensures Surrounds(img, hi, PutAt(img, at, bytes), hi, g)
  {
  }

  /** A zeroed region is the empty volume, before the root catalog block is claimed. */
  lemma EmptyVolume(img: seq<byte>, g: Geometry, hi: nat)
    requires Off(g, DataStart(g)) <= hi <= |img| && forall k :: Off(g, BITMAP_START) <= k < hi ==> img[k] == 0
    ensures BitmapIs(img, g, 0) && ZeroUpTo(img, g, 0, hi)
    ensures forall num :: 0 <= num < TOTAL_INODES ==>
      InodeOff(g, num) + SLOT <= |img| && SlotAt(img, g, num) == Zeros(SLOT)
  {
    var lo, mid := Off(g, BITMAP_START), Off(g, InodeTable(g));
    BumpStartsEmpty(BitmapBlocks(g) * BLOCK);
    assert img[lo..mid] == Zeros(BitmapBlocks(g) * BLOCK);
    forall num | 0 <= num < TOTAL_INODES
      ensures InodeOff(g, num) + SLOT <= |img| && SlotAt(img, g, num) == Zeros(SLOT)
    {
      InodeOffLinear(g, num);
    }
  }

  /** An inode slot depends only on the files up to its own. */
  lemma SlotsExtend(img: seq<byte>, g: Geometry, p: Progress, p': Progress)
    requires InodesAre(img, g, p) && p.files <= p'.files && p'.inodes == p.inodes && p'.roots == p.roots
    ensures InodesAre(img, g, p')
  {
    forall num | 0 <= num < TOTAL_INODES ensures SlotOk(img, g, p', num) {
      assert SlotOk(img, g, p, num);
      if 0 < num <= p.inodes {
        assert p'.files[..num - 1] == p.files[..num - 1];
      }
    }
  }

  lemma ClaimExtends(block: seq<byte>, g: Geometry, p: Progress, p': Progress, o: Owner)
    requires |block| == BLOCK && BlockHolds(block, g, p, o)
    requires p.files <= p'.files && p'.inodes == p.inodes && p'.entries == p.entries
    ensures BlockHolds(block, g, p', o)
  {
    match o
    case Data(i, j) => assert p'.files[i] == p.files[i];
    case Indirect(i) => assert p'.files[..i] == p.files[..i];
    case Catalog(c) =>
      forall e | 0 <= e < 16 ensures EntryOk(block, p', c, e) {
        assert EntryOk(block, p, c, e);
      }
  }

  /** What the volume holds can be restated with the next file in view. */
  lemma NextFileInView(img: seq<byte>, g: Geometry, p: Progress, p': Progress, hi: nat)
    requires InProgress(img, g, p, hi) && p.files <= p'.files && p'.inodes == p.inodes && p'.entries == p.entries
    requires p'.owners == p.owners && p'.roots == p.roots
    ensures InProgress(img, g, p', hi)
  {
    hide SlotOk, BlockHolds, BitmapIs, ZeroUpTo, BlockAt;
    SlotsExtend(img, g, p, p');
    forall r | 0 <= r < |p'.owners| ensures BlockOk(img, g, p', r) {
      assert BlockOk(img, g, p, r);
      ClaimExtends(BlockAt(img, g, DataStart(g) + r), g, p, p', p.owners[r]);
    }
  }

  // ---- before and after -----------------------------------------------------------------------

  ghost predicate ZeroUpToFrom(img: seq<byte>, g: Geometry, hi: nat) {
    && Off(g, DataStart(g) + 1) <= hi <= |img|
    && forall k :: Off(g, BITMAP_START) <= k < hi ==> img[k] == 0
  }

  /** The image is zero from the bitmap to `hi`, and `hi` leaves room for every block the files need
      and for the bytes their short last chunks take out. */
  ghost predicate ZeroedFor(img: seq<byte>, g: Geometry, files: seq<File>, hi: nat) {
    && ZeroUpToFrom(img, g, hi)
    && Off(g, DataStart(g) + Min(|Owners(files)|, DataBlocks(g))) + TotalSlack(files) <= hi
  }

  function BitmapList(img: seq<byte>, g: Geometry): (bs: seq<seq<byte>>)
    requires Off(g, InodeTable(g)) <= |img|
    ensures |bs| == BitmapBlocks(g)
    ensures forall b :: 0 <= b < |bs| ==> bs[b] == BitmapBlockAt(img, g, b)
    ensures forall b :: 0 <= b < |bs| ==> |bs[b]| == FBLOCK
  {
    seq(BitmapBlocks(g), b requires 0 <= b < BitmapBlocks(g) => BitmapBlockAt(img, g, b))
  }

  function BitmapBlockAt(img: seq<byte>, g: Geometry, b: nat): (r: seq<byte>)
    requires Off(g, InodeTable(g)) <= |img| && b < BitmapBlocks(g)
    ensures |r| == FBLOCK
  {
    BlockAt(img, g, BITMAP_START + b)
  }

  function BitmapOf(img: seq<byte>, g: Geometry): seq<byte>
    requires Off(g, InodeTable(g)) <= |img|
  {
    img[Off(g, BITMAP_START)..Off(g, InodeTable(g))]
  }

  function SuperOf(img: seq<byte>, g: Geometry, files: seq<File>, volumeLabel: seq<byte>): (f: SuperFields)
    requires Off(g, InodeTable(g)) <= |img| && |files| <= MAX_FILES && |Owners(files)| <= DataBlocks(g)
    ensures |f.volumeLabel| <= LABEL_BYTES
  {
    SuperFields(g.total, DataBlocks(g) - |Owners(files)|, TOTAL_INODES - 1 - |files|, BitmapBlocks(g), InodeTable(g),
                DataStart(g), Checksum(BitmapList(img, g)), volumeLabel[..Min(|volumeLabel|, LABEL_BYTES)])
  }

  ghost predicate HasSuper(img: seq<byte>, g: Geometry, files: seq<File>, volumeLabel: seq<byte>) {
    && Off(g, InodeTable(g)) <= |img| && |files| <= MAX_FILES && |Owners(files)| <= DataBlocks(g)
    && BlockAt(img, g, SUPER_BLOCK) == EncodeSuper(SuperOf(img, g, files, volumeLabel))
  }
}
