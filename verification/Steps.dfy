/** The formatter's larger steps on the image: claiming the next block, inserting a catalog
    entry, storing a whole file. */
module Steps {
  import opened Bytes
  import opened Layout
  import opened Bitmap
  import opened Ownership
  import opened Contents

  predicate IsFree(t: byte) {
    t == 0 || t >= ENTRY_DELETED
  }

  // ---- claiming a block -----------------------------------------------------------------------

  lemma AllocIsBump(img: seq<byte>, g: Geometry, p: Progress, hi: nat)
    requires InProgress(img, g, p, hi) && |p.owners| <= DataBlocks(g)
    ensures FirstClear(img[Off(g, BITMAP_START)..Off(g, InodeTable(g))]) == |p.owners|
  {
    BitmapBlocksIsLeast(g);
    FirstClearOfBump(|p.owners|, BitmapBlocks(g) * BLOCK);
  }

  /** The image after bit `k` of the bitmap was set. */
  ghost predicate BitClaimed(img: seq<byte>, g: Geometry, k: nat, img': seq<byte>) {
    && Off(g, InodeTable(g)) <= |img| && k < 8 * BLOCK * BitmapBlocks(g)
    && var v := img[Off(g, BITMAP_START) + k / 8];
    SetBit(v, k % 8) < 0x100 && img' == PutAt(img, Off(g, BITMAP_START) + k / 8, [SetBit(v, k % 8)])
  }

  lemma AllocKeeps(img: seq<byte>, g: Geometry, p: Progress, hi: nat, img': seq<byte>)
    requires InProgress(img, g, p, hi) && |p.owners| < DataBlocks(g) && BitClaimed(img, g, |p.owners|, img')
    ensures BitmapIs(img', g, |p.owners| + 1)
    ensures InodesAre(img', g, p) && BlocksAre(img', g, p) && ZeroUpTo(img', g, |p.owners|, hi)
    ensures Surrounds(img, hi, img', hi, g)
  {
    BitSet(img, g, |p.owners|, img');
    var at, b := Off(g, BITMAP_START) + |p.owners| / 8, [img'[Off(g, BITMAP_START) + |p.owners| / 8]];
    assert img' == PutAt(img, at, b);
    hide BitClaimed, InodesAre, BlocksAre, BitmapIs, Surrounds;
    PutSurrounds(img, g, hi, at, b);
    ZeroFrame(img, at, b, g, |p.owners|, hi);
    AboveBitmap(img, g, p, at, b);
  }

  lemma BitSet(img: seq<byte>, g: Geometry, k: nat, img': seq<byte>)
    requires BitmapIs(img, g, k) && BitClaimed(img, g, k, img')
    ensures BitmapIs(img', g, k + 1) && Off(g, BITMAP_START) + k / 8 < Off(g, InodeTable(g))
  {
    hide SetBit, Bump;
    var lo, hi := Off(g, BITMAP_START), Off(g, InodeTable(g));
    var b: seq<byte> := [SetBit(img[lo + k / 8], k % 8)];
    assert img[lo + k / 8] == img[lo..hi][k / 8];
    BumpAdvances(k, BitmapBlocks(g) * BLOCK);
    PutAtInside(img, lo + k / 8, b, lo, hi);
  }

  lemma AboveBitmap(img: seq<byte>, g: Geometry, p: Progress, at: nat, b: seq<byte>)
    requires InodesAre(img, g, p) && BlocksAre(img, g, p) && at + |b| <= Off(g, InodeTable(g))
    ensures InodesAre(PutAt(img, at, b), g, p) && BlocksAre(PutAt(img, at, b), g, p)
  {
    var mid, ds, top := Off(g, InodeTable(g)), Off(g, DataStart(g)), Off(g, DataStart(g) + |p.owners|);
    PutAtElsewhere(img, at, b, mid, ds);
    PutAtElsewhere(img, at, b, ds, top);
    InodesFrame(img, PutAt(img, at, b), g, p);
    BlocksFrame(img, PutAt(img, at, b), g, p);
  }

  lemma SurroundsTwice(img: seq<byte>, img': seq<byte>, img'': seq<byte>, hi: nat, g: Geometry)
    requires Surrounds(img, hi, img', hi, g) && Surrounds(img', hi, img'', hi, g)
    ensures Surrounds(img, hi, img'', hi, g)
  {
  }

  // ---- the catalog while files are being added -----------------------------------------------

  ghost predicate RootOk(g: Geometry, p: Progress, c: nat)
    requires c < |p.roots|
  {
    && DataStart(g) <= p.roots[c] && p.roots[c] - DataStart(g) < |p.owners|
    && p.owners[p.roots[c] - DataStart(g)] == Catalog(c)
  }

  ghost predicate OwnerOk(g: Geometry, p: Progress, q: nat)
    requires q < |p.owners|
  {
    p.owners[q].Catalog? ==> p.owners[q].c < |p.roots| && p.roots[p.owners[q].c] == DataStart(g) + q
  }

  /** The root's pointers are exactly the blocks owned as catalog blocks, in order. */
  ghost predicate RootsOwn(g: Geometry, p: Progress) {
    && |p.roots| == CatalogCount(p.entries)
    && (forall c :: 0 <= c < |p.roots| ==> RootOk(g, p, c))
    && (forall q :: 0 <= q < |p.owners| ==> OwnerOk(g, p, q))
  }

  /** Every catalog slot is taken. */
  predicate NeedsBlock(p: Progress) {
    p.entries == 16 * |p.roots|
  }

  function WithCatalogBlock(p: Progress): Progress {
    p.(owners := p.owners + [Catalog(|p.roots|)])
  }

  function Inserted(g: Geometry, p: Progress): Progress
    requires p.entries < |p.files| <= MAX_FILES && |p.roots| == CatalogCount(p.entries)
  {
    if NeedsBlock(p) then
      WithCatalogBlock(p).(roots := p.roots + [DataStart(g) + |p.owners|], entries := p.entries + 1)
    else p.(entries := p.entries + 1)
  }

  lemma CatalogSlotType(block: seq<byte>, p: Progress, c: nat, e: nat)
    requires |block| == BLOCK && IsCatalog(block, p, c) && e < 16 && |p.files| <= MAX_FILES
    ensures block[e * SLOT + 4] == if 16 * c + e < p.entries then ENTRY_FILE else 0
  {
    var i := 16 * c + e;
    assert EntryOk(block, p, c, e);
    assert block[e * SLOT..e * SLOT + SLOT][4] == block[e * SLOT + 4];
    if i < p.entries {
      EntryRoundTrip(i + 1, ENTRY_FILE, p.files[i].name);
    }
    hide EncodeEntry;
  }

  /** Catalog slots are taken in order. */
  lemma SlotType(img: seq<byte>, g: Geometry, p: Progress, i: nat)
    requires BlocksAre(img, g, p) && RootsOwn(g, p) && i < 16 * |p.roots| && |p.files| <= MAX_FILES
    ensures Off(g, p.roots[i / 16]) + BLOCK <= |img|
    ensures img[Off(g, p.roots[i / 16]) + i % 16 * SLOT + 4] == if i < p.entries then ENTRY_FILE else 0
  {
    var c, e := i / 16, i % 16;
    assert RootOk(g, p, c);
    assert BlockOk(img, g, p, p.roots[c] - DataStart(g));
    hide EntrySlot, IsCatalog;
    CatalogSlotType(BlockAt(img, g, p.roots[c]), p, c, e);
  }

  /** Type byte of catalog slot `i`, counting through the root blocks in order. */
  function TypeIn(img: seq<byte>, g: Geometry, roots: seq<nat>, i: nat): byte
    requires i < 16 * |roots| && Off(g, roots[i / 16]) + BLOCK <= |img|
  {
    img[Off(g, roots[i / 16]) + i % 16 * SLOT + 4]
  }

  lemma FreeEntryIsNext(img: seq<byte>, g: Geometry, p: Progress, hi: nat)
    requires InProgress(img, g, p, hi) && RootsOwn(g, p) && |p.files| <= MAX_FILES
    ensures |p.roots| == CatalogCount(p.entries)
    ensures forall c :: 0 <= c < |p.roots| ==> Off(g, p.roots[c]) + BLOCK <= |img|
    ensures forall i :: 0 <= i < 16 * |p.roots| ==> (IsFree(TypeIn(img, g, p.roots, i)) <==> i >= p.entries)
  {
    hide BlocksAre, InodesAre;
    forall c | 0 <= c < |p.roots| ensures Off(g, p.roots[c]) + BLOCK <= |img| {
      SlotType(img, g, p, 16 * c);
    }
    forall i | 0 <= i < 16 * |p.roots| ensures IsFree(TypeIn(img, g, p.roots, i)) <==> i >= p.entries {
      SlotType(img, g, p, i);
    }
  }

  /** Block `r` is the one that owns the next catalog slot. */
  ghost predicate OwnsNextSlot(p: Progress, r: nat) {
    && r < |p.owners| && p.owners[r] == Catalog(p.entries / 16)
    && forall q :: 0 <= q < |p.owners| && p.owners[q] == Catalog(p.entries / 16) ==> q == r
  }

  lemma NextSlotOwned(g: Geometry, p: Progress)
    requires RootsOwn(g, p) && !NeedsBlock(p)
    ensures p.entries / 16 < |p.roots| && DataStart(g) <= p.roots[p.entries / 16]
    ensures OwnsNextSlot(p, p.roots[p.entries / 16] - DataStart(g))
  {
    assert RootOk(g, p, p.entries / 16);
    forall q | 0 <= q < |p.owners| && p.owners[q] == Catalog(p.entries / 16)
      ensures q == p.roots[p.entries / 16] - DataStart(g)
    {
      assert OwnerOk(g, p, q);
    }
  }

  lemma NewSlotOwned(g: Geometry, p: Progress)
    requires RootsOwn(g, p) && NeedsBlock(p)
    ensures OwnsNextSlot(WithCatalogBlock(p), |p.owners|)
    ensures |p.roots| == CatalogCount(p.entries)
    ensures p.entries < MAX_FILES ==> |p.roots| < DIRECT && p.entries % 16 == 0
  {
    var p' := WithCatalogBlock(p);
    forall q | 0 <= q < |p'.owners| && p'.owners[q] == Catalog(p.entries / 16) ensures q == |p.owners| {
      assert q < |p.owners| ==> OwnerOk(g, p, q);
    }
  }

  lemma EntryStored(img: seq<byte>, g: Geometry, p: Progress, hi: nat, r: nat, img': seq<byte>)
    requires InProgress(img, g, p, hi) && p.entries < |p.files| && OwnsNextSlot(p, r)
    requires Off(g, DataStart(g) + r) + BLOCK <= |img|
    requires img'
         == PutAt(img, Off(g, DataStart(g) + r) + p.entries % 16 * SLOT,
                  EncodeEntry(p.entries + 1, ENTRY_FILE, p.files[p.entries].name))
    ensures InProgress(img', g, p.(entries := p.entries + 1), hi) && Surrounds(img, hi, img', hi, g)
  {
    hide InodesAre, BlocksAre, EntrySlot, EncodeEntry, BitmapIs, ZeroUpTo, Surrounds, Fit;
    var p' := p.(entries := p.entries + 1);
    var at, bytes := Off(g, DataStart(g) + r) + p.entries % 16 * SLOT, EntrySlot(p.files, p'.entries, p.entries);
    NewEntry(p.files, p.entries);
    AddEntry(img, g, p, r, p', img');
    KeepsBelowAndZero(img, g, |p.owners|, hi, at, bytes);
  }

  lemma NewEntry(files: seq<File>, i: nat)
    requires i < |files|
    ensures EntrySlot(files, i + 1, i) == EncodeEntry(i + 1, ENTRY_FILE, files[i].name)
  {
  }

  /** A write between the bitmap and the zero window. */
  lemma KeepsBelowAndZero(img: seq<byte>, g: Geometry, used: nat, hi: nat, at: nat, bytes: seq<byte>)
    requires BitmapIs(img, g, used) && ZeroUpTo(img, g, used, hi)
    requires Off(g, InodeTable(g)) <= at && at + |bytes| <= Off(g, DataStart(g) + used)
    ensures BitmapIs(PutAt(img, at, bytes), g, used) && ZeroUpTo(PutAt(img, at, bytes), g, used, hi)
    ensures Surrounds(img, hi, PutAt(img, at, bytes), hi, g)
  {
    PutAtElsewhere(img, at, bytes, Off(g, BITMAP_START), Off(g, InodeTable(g)));
    ZeroFrame(img, at, bytes, g, used, hi);
    PutSurrounds(img, g, hi, at, bytes);
  }

  lemma CatalogBlockReady(img: seq<byte>, g: Geometry, p: Progress, hi: nat)
    requires BitmapIs(img, g, |p.owners| + 1) && InodesAre(img, g, p) && BlocksAre(img, g, p)
    requires ZeroUpTo(img, g, |p.owners|, hi)
    requires Off(g, DataStart(g) + |p.owners|) + BLOCK <= hi && NeedsBlock(p)
    ensures InProgress(img, g, WithCatalogBlock(p), hi)
    ensures Off(g, DataStart(g) + |p.owners|) + BLOCK <= |img|
  {
    ClaimCatalog(img, g, p, hi, |p.roots|);
    ZeroWindowShrinks(img, g, |p.owners|, hi);
  }

  lemma RootRewritten(img: seq<byte>, g: Geometry, p: Progress, hi: nat, roots: seq<nat>, img': seq<byte>)
    requires InProgress(img, g, p, hi) && |roots| <= DIRECT && InodeOff(g, 0) + SLOT <= |img|
    requires img' == PutAt(img, InodeOff(g, 0), EncodeInode(RootInode(roots)))
    ensures InProgress(img', g, p.(roots := roots), hi) && Surrounds(img, hi, img', hi, g)
  {
    RewriteRoot(img, g, p, p.(roots := roots), img');
    InodeOffLinear(g, 0);
    hide InodesAre, BlocksAre, EncodeInode;
    KeepsBelowAndZero(img, g, |p.owners|, hi, InodeOff(g, 0), EncodeInode(RootInode(roots)));
  }

  lemma EntryKeepsRoots(g: Geometry, p: Progress)
    requires RootsOwn(g, p) && !NeedsBlock(p) && p.entries < |p.files| <= MAX_FILES
    ensures RootsOwn(g, Inserted(g, p))
  {
    var p' := Inserted(g, p);
    forall c | 0 <= c < |p'.roots| ensures RootOk(g, p', c) { assert RootOk(g, p, c); }
    forall q | 0 <= q < |p'.owners| ensures OwnerOk(g, p', q) { assert OwnerOk(g, p, q); }
  }

  lemma BlockKeepsRoots(g: Geometry, p: Progress)
    requires RootsOwn(g, p) && NeedsBlock(p) && p.entries < |p.files| <= MAX_FILES
    ensures RootsOwn(g, Inserted(g, p))
  {
    var p' := Inserted(g, p);
    forall c | 0 <= c < |p'.roots| ensures RootOk(g, p', c) { assert c < |p.roots| ==> RootOk(g, p, c); }
    forall q | 0 <= q < |p'.owners| ensures OwnerOk(g, p', q) { assert q < |p.owners| ==> OwnerOk(g, p, q); }
  }

  // ---- storing a file --------------------------------------------------------------------------

  /** The file being added is the one after the `p.inodes` files already there. */
  ghost predicate Adding(g: Geometry, p: Progress) {
    |p.files| == p.inodes + 1 && p.entries == p.inodes && |p.files| <= MAX_FILES
  }

  function WithOwner(p: Progress, o: Owner): Progress {
    p.(owners := p.owners + [o])
  }

  /** The state right after `alloc_block` returned block `DataStart + |p.owners|`. */
  ghost predicate Allocated(img: seq<byte>, g: Geometry, p: Progress, hi: nat) {
    && BitmapIs(img, g, |p.owners| + 1) && InodesAre(img, g, p) && BlocksAre(img, g, p)
    && ZeroUpTo(img, g, |p.owners|, hi)
  }

  lemma IndirectStep(img: seq<byte>, g: Geometry, p: Progress, hi: nat)
    requires Allocated(img, g, p, hi) && Adding(g, p) && BlocksOf(p.files[p.inodes]) > DIRECT
    requires Off(g, DataStart(g) + |p.owners|) + BLOCK <= hi
    ensures InProgress(img, g, WithOwner(p, Indirect(p.inodes)), hi)
  {
    ClaimIndirect(img, g, p, p.inodes);
    ZeroWindowShrinks(img, g, |p.owners|, hi);
  }

  lemma DataStep(img: seq<byte>, g: Geometry, p: Progress, hi: nat, j: nat, img': seq<byte>, hi': nat)
    requires Allocated(img, g, p, hi) && Adding(g, p) && j < BlocksOf(p.files[p.inodes])
    requires hi' + BLOCK == hi + |Chunk(p.files[p.inodes], j)| && Off(g, DataStart(g) + |p.owners|) + BLOCK <= hi'
    requires var at := Off(g, DataStart(g) + |p.owners|);
      img' == Splice(img, at, at + BLOCK, Chunk(p.files[p.inodes], j))
    ensures InProgress(img', g, WithOwner(p, Data(p.inodes, j)), hi') && Surrounds(img, hi, img', hi', g)
  {
    hide Chunk, InodesAre, BlocksAre;
    ClaimData(img, g, p, hi, p.inodes, j);
    var at := Off(g, DataStart(g) + |p.owners|);
    SliceOfSlice(img, 0, at, 0, Off(g, InodeTable(g)));
    SliceOfSlice(img', 0, at, 0, Off(g, InodeTable(g)));
    SliceOfSlice(img, 0, at, 0, Off(g, BITMAP_START));
    SliceOfSlice(img', 0, at, 0, Off(g, BITMAP_START));
    BitmapFrame(img, img', g, |p.owners| + 1);
  }

  lemma SurroundsChain(img: seq<byte>, hi: nat, img': seq<byte>, hi': nat, img'': seq<byte>, hi'': nat, g: Geometry)
    requires Surrounds(img, hi, img', hi', g) && Surrounds(img', hi', img'', hi'', g)
    ensures Surrounds(img, hi, img'', hi'', g)
  {
  }

  /** How much of the file's slack the first `i` chunks have taken. */
  function SlackAt(f: File, i: nat): nat {
    if i == BlocksOf(f) then Slack(f) else 0
  }

  lemma ChunkSlack(f: File, i: nat)
    requires i < BlocksOf(f)
    ensures |Chunk(f, i)| + SlackAt(f, i + 1) == BLOCK && SlackAt(f, i) == 0 && SlackAt(f, i + 1) <= Slack(f)
  {
  }

  lemma AddressesNext(g: Geometry, base: nat, i: nat)
    ensures Addresses(g, base, i + 1) == Addresses(g, base, i) + [DataStart(g) + DataRel(base, i)]
  {
  }

  /** The pointer block of a file with more than ten blocks is filled in. */
  ghost predicate PointersIn(img: seq<byte>, g: Geometry, base: nat, f: File) {
    BlocksOf(f) > DIRECT ==> (Off(g, DataStart(g) + base + DIRECT) + BLOCK <= |img|
      && BlockAt(img, g, DataStart(g) + base + DIRECT) == IndirectBlock(g, base, BlocksOf(f)))
  }

  /** The pointer block written after the data. */
  lemma PointersStored(img: seq<byte>, g: Geometry, p: Progress, hi: nat, base: nat, img': seq<byte>)
    requires InProgress(img, g, p, hi) && Adding(g, p) && BlocksOf(p.files[p.inodes]) > DIRECT
    requires base + DIRECT < |p.owners| && p.owners[base + DIRECT] == Indirect(p.inodes)
    requires Off(g, DataStart(g) + base + DIRECT) + BLOCK <= |img|
    requires img'
         == PutAt(img, Off(g, DataStart(g) + base + DIRECT), IndirectBlock(g, base, BlocksOf(p.files[p.inodes])))
    ensures InProgress(img', g, p, hi) && Surrounds(img, hi, img', hi, g)
    ensures PointersIn(img', g, base, p.files[p.inodes])
  {
    hide IndirectBlock, InodesAre, BlocksAre;
    var bytes := IndirectBlock(g, base, BlocksOf(p.files[p.inodes]));
    FillIndirect(img, g, p, base + DIRECT, bytes, img');
    KeepsBelowAndZero(img, g, |p.owners|, hi, Off(g, DataStart(g) + base + DIRECT), bytes);
  }

  /** The progress while `f` is stored: every block of it claimed, inode and entry still to come. */
  function Stowed(g: Geometry, files: seq<File>, f: File): Progress
    requires |files| < MAX_FILES
  {
    Progress(files + [f], Owners(files) + FileOwners(|files|, BlocksOf(f)), |files|, |files|, RootBlocks(g, files))
  }

  function Started(g: Geometry, files: seq<File>, f: File): Progress
    requires |files| < MAX_FILES
  {
    Progress(files + [f], Owners(files), |files|, |files|, RootBlocks(g, files))
  }

  lemma StartAdding(img: seq<byte>, g: Geometry, files: seq<File>, f: File, hi: nat)
    requires VolumeHolds(img, g, files, hi) && |files| < MAX_FILES
    ensures InProgress(img, g, Started(g, files, f), hi) && Adding(g, Started(g, files, f))
  {
    NextFileInView(img, g, Complete(g, files), Started(g, files, f), hi);
  }

  /** The next free inode follows the root and the files so far. */
  lemma NextInode(img: seq<byte>, g: Geometry, p: Progress, num: nat)
    requires InodesAre(img, g, p) && num < TOTAL_INODES && |p.files| <= MAX_FILES
    ensures InodeOff(g, num) + SLOT <= |img| && (img[InodeOff(g, num) + 4] == 0 <==> num > p.inodes)
  {
    assert SlotOk(img, g, p, num);
    assert SlotAt(img, g, num)[4] == img[InodeOff(g, num) + 4];
    SlotUsed(g, p, num);
    hide InodeSlot, InodeOff;
  }

  predicate SlotInUse(img: seq<byte>, g: Geometry, num: nat) {
    InodeOff(g, num) + SLOT <= |img| && img[InodeOff(g, num) + 4] != 0
  }

  lemma NextInodes(img: seq<byte>, g: Geometry, p: Progress, hi: nat)
    requires InProgress(img, g, p, hi) && Adding(g, p)
    ensures Off(g, DataStart(g)) <= |img|
    ensures forall num :: 0 <= num < TOTAL_INODES ==> (SlotInUse(img, g, num) <==> num <= p.inodes)
  {
    forall num | 0 <= num < TOTAL_INODES ensures SlotInUse(img, g, num) <==> num <= p.inodes {
      NextInode(img, g, p, num);
    }
  }

  lemma InodeTableReadable(img: seq<byte>, g: Geometry, p: Progress, hi: nat)
    requires InProgress(img, g, p, hi)
    ensures forall num :: 0 <= num < TOTAL_INODES ==> InodeOff(g, num) + SLOT <= |img|
  {
    forall num | 0 <= num < TOTAL_INODES ensures InodeOff(g, num) + SLOT <= |img| {
      assert SlotOk(img, g, p, num);
    }
  }

  lemma ClaimedReadable(img: seq<byte>, g: Geometry, p: Progress, hi: nat, r: nat)
    requires InProgress(img, g, p, hi) && r < |p.owners|
    ensures Off(g, DataStart(g) + r) + BLOCK <= |img|
  {
    assert BlockOk(img, g, p, r);
  }

  lemma NoPointers(img: seq<byte>, g: Geometry, files: seq<File>, f: File, hi: nat)
    requires |files| < MAX_FILES && InProgress(img, g, Stowed(g, files, f), hi) && BlocksOf(f) <= DIRECT
    ensures PointersIn(img, g, |Owners(files)|, f) && Surrounds(img, hi, img, hi, g)
  {
  }

  lemma SlotUsed(g: Geometry, p: Progress, num: nat)
    ensures InodeSlot(g, p, num)[4] == 0 <==> num > p.inodes
  {
    hide EncodeInode, FileInode;
    if num == 0 {
      EntryTypeOf(RootInode(p.roots));
    } else if num <= p.inodes {
      FileInodeType(g, num - 1, Base(p.files, num - 1), p.files[num - 1]);
      EntryTypeOf(FileInode(g, num - 1, Base(p.files, num - 1), p.files[num - 1]));
    }
  }

  lemma FileInodeType(g: Geometry, i: nat, base: nat, f: File)
    ensures FileInode(g, i, base, f).entryType == ENTRY_FILE
  {
  }

  lemma EntryTypeOf(f: InodeFields)
    requires FitsSlot(f)
    ensures EncodeInode(f)[4] == f.entryType
  {
    hide EncodeInode;
    InodeField(f, 1);
    assert EncodeInode(f)[4..5][0] == EncodeInode(f)[4];
  }

  lemma IndirectIsWhere(g: Geometry, files: seq<File>, f: File, r: nat)
    requires |files| < MAX_FILES && r < |Stowed(g, files, f).owners|
    requires Stowed(g, files, f).owners[r] == Indirect(|files|)
    ensures r == |Owners(files)| + DIRECT && BlocksOf(f) > DIRECT
  {
    hide Owners, FileOwners, RootBlocks, BlocksOf;
    var base := |Owners(files)|;
    if r < base {
      OwnerAt(files, r);
    } else {
      FileOwnersAt(|files|, BlocksOf(f), r - base);
    }
  }

  lemma NewSlot(g: Geometry, files: seq<File>, f: File)
    requires |files| < MAX_FILES
    ensures Stowed(g, files, f).files[|files|] == f && Base(Stowed(g, files, f).files, |files|) == |Owners(files)|
    ensures InodeSlot(g, Stowed(g, files, f).(inodes := |files| + 1), |files| + 1)
         == EncodeInode(FileInode(g, |files|, |Owners(files)|, f))
  {
    assert (files + [f])[..|files|] == files;
  }

  /** Writing the inode completes the file. */
  lemma InodeStored(img: seq<byte>, g: Geometry, files: seq<File>, f: File, hi: nat, img': seq<byte>)
    requires |files| < MAX_FILES && InProgress(img, g, Stowed(g, files, f), hi)
    requires PointersIn(img, g, |Owners(files)|, f)
    requires InodeOff(g, |files| + 1) + SLOT <= |img|
    requires img' == PutAt(img, InodeOff(g, |files| + 1), EncodeInode(FileInode(g, |files|, |Owners(files)|, f)))
    ensures InProgress(img', g, Stowed(g, files, f).(inodes := |files| + 1), hi) && Surrounds(img, hi, img', hi, g)
  {
    hide InodesAre, BlocksAre, InodeSlot, EncodeInode, PointersIn, PointersReady, FileInode, Stowed, Owners, PutAt;
    hide BitmapIs, ZeroUpTo, Surrounds;
    var p, n := Stowed(g, files, f), |files|;
    StowedShape(g, files, f);
    NewSlot(g, files, f);
    PointersAreReady(img, g, files, f);
    AddInode(img, g, p, p.(inodes := n + 1), img');
    InodeOffLinear(g, n + 1);
    KeepsBelowAndZero(img, g, |p.owners|, hi, InodeOff(g, n + 1), InodeSlot(g, p.(inodes := n + 1), n + 1));
  }

  lemma StowedShape(g: Geometry, files: seq<File>, f: File)
    requires |files| < MAX_FILES
    ensures var p := Stowed(g, files, f); |p.files| == |files| + 1 && p.inodes == p.entries == |files|
  {
  }

  lemma PointersAreReady(img: seq<byte>, g: Geometry, files: seq<File>, f: File)
    requires |files| < MAX_FILES && BlocksAre(img, g, Stowed(g, files, f)) && PointersIn(img, g, |Owners(files)|, f)
    ensures PointersReady(img, g, Stowed(g, files, f), |files|)
  {
    hide IndirectBlock, Stowed, InodeSlot, Base, Owners, IsCatalog, Chunk, Off;
    var p := Stowed(g, files, f);
    StowedShape(g, files, f);
    NewSlot(g, files, f);
    forall r | 0 <= r < |p.owners| && p.owners[r] == Indirect(|files|) && BlockOk(img, g, p, r)
      ensures BlockAt(img, g, DataStart(g) + r) == IndirectBlock(g, Base(p.files, |files|), BlocksOf(p.files[|files|]))
    {
      IndirectIsWhere(g, files, f, r);
    }
  }

  /** The catalog is in order while a file is being added. */
  lemma RootsOwnDuring(g: Geometry, files: seq<File>, f: File)
    requires |files| < MAX_FILES
    ensures RootsOwn(g, Stowed(g, files, f).(inodes := |files| + 1))
  {
    var p := Stowed(g, files, f).(inodes := |files| + 1);
    forall c | 0 <= c < |p.roots| ensures RootOk(g, p, c) {
      NamedBlock(files, Catalog(c));
    }
    forall q | 0 <= q < |p.owners| ensures OwnerOk(g, p, q) {
      if q < |Owners(files)| {
        OwnerAt(files, q);
      } else {
        FileOwnersAt(|files|, BlocksOf(f), q - |Owners(files)|);
      }
    }
  }

  lemma RootBlocksGrow(g: Geometry, files: seq<File>, f: File)
    ensures RootBlocks(g, files + [f])
         == RootBlocks(g, files)
            + if CatalogOwners(|files|) == [] then [] else [DataStart(g) + |Owners(files + [f])| - 1]
  {
    hide Owners, DataStart;
    var n, files' := |files|, files + [f];
    forall c | 0 <= c < |RootBlocks(g, files)| ensures RootBlocks(g, files')[c] == RootBlocks(g, files)[c] {
      assert c > 0 ==> files'[..16 * c + 1] == files[..16 * c + 1];
    }
    if CatalogOwners(n) != [] {
      assert files'[..16 * (n / 16) + 1] == files';
    }
  }

  lemma OwnersGrow(files: seq<File>, f: File)
    ensures Owners(files + [f]) == Owners(files) + FileOwners(|files|, BlocksOf(f)) + CatalogOwners(|files|)
  {
    assert (files + [f])[..|files|] == files;
  }

  lemma InsertedCompletes(g: Geometry, files: seq<File>, f: File)
    requires |files| < MAX_FILES
    ensures var p := Stowed(g, files, f).(inodes := |files| + 1);
      |p.roots| == CatalogCount(p.entries) && Inserted(g, p) == Complete(g, files + [f])
      && |Owners(files + [f])| == |p.owners| + if NeedsBlock(p) then 1 else 0
  {
    hide RootBlocks, Owners, FileOwners;
    RootBlocksGrow(g, files, f);
    OwnersGrow(files, f);
  }

  /** The progress after the first `i` blocks of the file being added. */
  function Claiming(p: Progress, i: nat): Progress {
    p.(owners := p.owners + FileOwners(p.inodes, i))
  }

  lemma NothingClaimed(img: seq<byte>, g: Geometry, p: Progress, hi: nat)
    requires InProgress(img, g, p, hi) && Adding(g, p)
    ensures Claiming(p, 0) == p && Surrounds(img, hi, img, hi, g) && SlackAt(p.files[p.inodes], 0) == 0
    ensures Addresses(g, |p.owners|, 0) == []
  {
    assert p.owners + [] == p.owners;
  }

  lemma ClaimingNext(g: Geometry, p: Progress, i: nat)
    requires Adding(g, p)
    ensures Claiming(p, i).files == p.files && Claiming(p, i).inodes == p.inodes && Adding(g, Claiming(p, i))
    ensures |Claiming(p, i).owners| == |p.owners| + i + if i > DIRECT then 1 else 0
    ensures var q := if i == DIRECT then WithOwner(Claiming(p, i), Indirect(p.inodes)) else Claiming(p, i);
      WithOwner(q, Data(p.inodes, i)) == Claiming(p, i + 1)
  {
  }

  lemma AllSlackTaken(f: File)
    ensures SlackAt(f, BlocksOf(f)) == Slack(f)
  {
  }

  lemma PointerBytes(g: Geometry, base: nat, n: nat)
    requires DIRECT < n <= MAX_FILE_BLOCKS
    ensures var words := Addresses(g, base, n)[DIRECT..];
      PutAt(Zeros(BLOCK), 0, Le32s(words)) == IndirectBlock(g, base, n)
  {
  }

  lemma IndirectOwned(g: Geometry, files: seq<File>, f: File)
    requires |files| < MAX_FILES && BlocksOf(f) > DIRECT
    ensures var p := Stowed(g, files, f); var r := |Owners(files)| + DIRECT;
      r < |p.owners| && p.owners[r] == Indirect(|files|)
  {
    FileOwnersAt(|files|, BlocksOf(f), DIRECT);
  }

  // ---- the first block ----------------------------------------------------------------------------

  lemma AllocFirst(img: seq<byte>, g: Geometry)
    requires BitmapIs(img, g, 0)
    ensures FirstClear(img[Off(g, BITMAP_START)..Off(g, InodeTable(g))]) == 0
  {
    FirstClearOfBump(0, BitmapBlocks(g) * BLOCK);
  }

  lemma FirstRootBlock(g: Geometry)
    ensures [DataStart(g)] == RootBlocks(g, [])
  {
  }

  lemma FirstBit(img: seq<byte>, g: Geometry, hi: nat, img': seq<byte>)
    requires ZeroUpToFrom(img, g, hi) && BitmapIs(img, g, 0) && BitClaimed(img, g, 0, img') && DataBlocks(g) > 0
    ensures BitmapIs(img', g, 1) && |img'| == |img| && img'[Off(g, InodeTable(g))..] == img[Off(g, InodeTable(g))..]
    ensures Surrounds(img, hi, img', hi, g)
  {
    BitSet(img, g, 0, img');
    PutSurrounds(img, g, hi, Off(g, BITMAP_START), [img'[Off(g, BITMAP_START)]]);
  }

  lemma FirstVolume(img0: seq<byte>, g: Geometry, hi: nat, img1: seq<byte>, img2: seq<byte>)
    requires ZeroUpToFrom(img0, g, hi) && BitmapIs(img1, g, 1) && |img1| == |img0| && Surrounds(img0, hi, img1, hi, g)
    requires img1[Off(g, InodeTable(g))..] == img0[Off(g, InodeTable(g))..] && InodeOff(g, 0) + SLOT <= |img1|
    requires img2 == PutAt(img1, InodeOff(g, 0), EncodeInode(RootInode(RootBlocks(g, []))))
    ensures VolumeHolds(img2, g, [], hi) && Surrounds(img0, hi, img2, hi, g)
  {
    hide EncodeInode, Bump, RootBlocks;
    var lo := Off(g, InodeTable(g));
    assert forall k :: lo <= k < hi ==> img1[k] == img1[lo..][k - lo] == img0[lo..][k - lo] == 0;
    InodeOffLinear(g, 0);
    KeepsBelowAndZero(img1, g, 1, hi, InodeOff(g, 0), EncodeInode(RootInode(RootBlocks(g, []))));
    SurroundsTwice(img0, img1, img2, hi, g);
    FirstInodes(img1, g, hi, img2);
    FirstBlockIsCatalog(img2, g, hi);
  }

  lemma FirstInodes(img1: seq<byte>, g: Geometry, hi: nat, img2: seq<byte>)
    requires Off(g, DataStart(g)) <= hi <= |img1| && forall k :: Off(g, InodeTable(g)) <= k < hi ==> img1[k] == 0
    requires InodeOff(g, 0) + SLOT <= |img1|
    requires img2 == PutAt(img1, InodeOff(g, 0), EncodeInode(RootInode(RootBlocks(g, []))))
    ensures InodesAre(img2, g, Complete(g, []))
  {
    hide EncodeInode, RootBlocks;
    var root := EncodeInode(RootInode(RootBlocks(g, [])));
    InodeOffLinear(g, 0);
    forall num | 0 <= num < TOTAL_INODES ensures SlotOk(img2, g, Complete(g, []), num) {
      InodeOffLinear(g, num);
      if num > 0 {
        PutAtElsewhere(img1, InodeOff(g, 0), root, InodeOff(g, num), InodeOff(g, num) + SLOT);
        assert SlotAt(img1, g, num) == Zeros(SLOT);
      }
    }
  }

  lemma FirstBlockIsCatalog(img: seq<byte>, g: Geometry, hi: nat)
    requires ZeroUpTo(img, g, 1, hi) && forall k :: Off(g, DataStart(g)) <= k < hi ==> img[k] == 0
    ensures BlocksAre(img, g, Complete(g, []))
  {
    var p, block := Complete(g, []), BlockAt(img, g, DataStart(g));
    assert block == Zeros(BLOCK);
    forall e | 0 <= e < 16 ensures EntryOk(block, p, 0, e) {
      assert Zeros(BLOCK)[e * SLOT..e * SLOT + SLOT] == Zeros(SLOT);
    }
    assert BlockOk(img, g, p, 0);
  }

  // ---- room for every file -----------------------------------------------------------------------

  lemma {:induction false} SlackGrows(files: seq<File>, k: nat)
    requires k <= |files|
    ensures TotalSlack(files[..k]) <= TotalSlack(files)
  {
    if k < |files| {
      SlackGrows(files[..|files| - 1], k);
      assert files[..|files| - 1][..k] == files[..k];
    } else {
      assert files[..k] == files;
    }
  }

  lemma OwnersFit(g: Geometry, files: seq<File>, k: nat)
    requires k <= |files|
    ensures |Owners(files[..k])| <= |Owners(files)|
  {
    OwnersPrefix(files, k);
  }

  /** What is left of the window still has room for the next file. */
  lemma RoomShrinks(g: Geometry, files: seq<File>, k: nat, hi: nat)
    requires k <= |files| && Off(g, DataStart(g) + Min(|Owners(files)|, DataBlocks(g))) + TotalSlack(files) <= hi
    ensures TotalSlack(files[..k]) <= hi && DataBlocks(g) > 0
    ensures k < |files| ==> TotalSlack(files[..k + 1]) == TotalSlack(files[..k]) + Slack(files[k])
    ensures k < |files| ==>
      var last := DataStart(g) + Min(|Owners(files[..k + 1])|, DataBlocks(g));
      Off(g, last) + Slack(files[k]) <= hi - TotalSlack(files[..k])
  {
    hide Owners, Slack, BlocksOf;
    SlackGrows(files, k);
    if k < |files| {
      SlackGrows(files, k + 1);
      OwnersFit(g, files, k + 1);
      assert files[..k + 1][..k] == files[..k];
    }
  }

  lemma SurroundsMeans(img: seq<byte>, hi: nat, img': seq<byte>, hi': nat, g: Geometry)
    requires Surrounds(img, hi, img', hi', g)
    ensures hi' <= |img'| && img'[hi'..] == img[hi..] && Off(g, SUPER_BLOCK) <= |img| && Off(g, SUPER_BLOCK) <= |img'|
    ensures img'[..Off(g, SUPER_BLOCK)] == img[..Off(g, SUPER_BLOCK)]
    ensures Off(g, BITMAP_START) <= |img| && Off(g, BITMAP_START) <= |img'|
    ensures img'[..Off(g, BITMAP_START)] == img[..Off(g, BITMAP_START)]
  {
    SliceOfSlice(img, 0, Off(g, BITMAP_START), 0, Off(g, SUPER_BLOCK));
    SliceOfSlice(img', 0, Off(g, BITMAP_START), 0, Off(g, SUPER_BLOCK));
  }

  /** Nothing is taken out of the image exactly when every file is a whole number of blocks. */
  lemma {:induction false} SlackFreeExactly(files: seq<File>)
    ensures TotalSlack(files) == 0 <==> forall k :: 0 <= k < |files| ==> |files[k].data| % BLOCK == 0
  {
    if |files| > 0 {
      var m := |files| - 1;
      SlackFreeExactly(files[..m]);
      NoSlackExactly(files[m]);
      assert forall k :: 0 <= k < m ==> files[..m][k] == files[k];
      hide Slack;
    }
  }

  lemma NoSlackExactly(f: File)
    ensures Slack(f) == 0 <==> |f.data| % BLOCK == 0
  {
  }

  /** Where the tail of the image ends up fixes its length: it is kept exactly when every file is a
      whole number of blocks. */
  lemma TailFixesLength(image: seq<byte>, image': seq<byte>, files: seq<File>, hi: nat)
    requires TotalSlack(files) <= hi <= |image| && hi - TotalSlack(files) <= |image'|
    requires image'[hi - TotalSlack(files)..] == image[hi..]
    ensures |image'| == |image| - TotalSlack(files)
    ensures |image'| == |image| <==> forall k :: 0 <= k < |files| ==> |files[k].data| % BLOCK == 0
  {
    hide TotalSlack;
    SlackFreeExactly(files);
  }

  lemma SuperStored(img: seq<byte>, g: Geometry, files: seq<File>, hi: nat, sb: seq<byte>, img': seq<byte>)
    requires VolumeHolds(img, g, files, hi) && |sb| == BLOCK && img' == PutAt(img, Off(g, SUPER_BLOCK), sb)
    ensures VolumeHolds(img', g, files, hi) && BlockAt(img', g, SUPER_BLOCK) == sb
    ensures BitmapList(img', g) == BitmapList(img, g)
    ensures img'[..Off(g, SUPER_BLOCK)] == img[..Off(g, SUPER_BLOCK)] && img'[hi..] == img[hi..]
  {
    hide InodesAre, BlocksAre, Bump, Owners, RootBlocks, PutAt;
    var at, lo, mid := Off(g, SUPER_BLOCK), Off(g, BITMAP_START), Off(g, InodeTable(g));
    PutAtElsewhere(img, at, sb, lo, mid);
    PutAtSides(img, at, sb, at, hi);
    ZeroFrame(img, at, sb, g, |Owners(files)|, hi);
    AboveBitmap(img, g, Complete(g, files), at, sb);
    forall b | 0 <= b < BitmapBlocks(g) ensures BitmapList(img', g)[b] == BitmapList(img, g)[b] {
      OtherBlock(img, g, SUPER_BLOCK, 0, sb, BITMAP_START + b);
    }
  }

  lemma SuperReadable(img: seq<byte>, g: Geometry, files: seq<File>, hi: nat)
    requires VolumeHolds(img, g, files, hi)
    ensures Off(g, SUPER_BLOCK) + BLOCK <= Off(g, InodeTable(g)) <= |img| && |files| <= MAX_FILES && hi <= |img|
  {
  }

  lemma ZeroedMeans(img: seq<byte>, g: Geometry, files: seq<File>, hi: nat)
    requires ZeroedFor(img, g, files, hi)
    ensures ZeroUpToFrom(img, g, hi) && DataBlocks(g) > 0 && TotalSlack(files[..0]) == 0 && files[..0] == []
    ensures Off(g, DataStart(g) + Min(|Owners(files)|, DataBlocks(g))) + TotalSlack(files) <= hi
    ensures |Owners(files[..0])| <= DataBlocks(g)
  {
    assert files[..0] == [];
  }
}
