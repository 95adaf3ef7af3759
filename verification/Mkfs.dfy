/** The OWFS formatter: a volume object that edits a disk image step by step. */
module Mkfs {
  import opened Bytes
  import opened Crc32c
  import opened Fletcher64
  import opened Layout
  import opened Bitmap
  import opened Ownership
  import opened Contents
  import opened Steps
  import Superblock

  /** The `put32`/`put16`/slice stores of a structure, in order. */
  method StoreFields(base: seq<byte>, es: seq<Edit>) returns (r: seq<byte>)
    requires Fit(|base|, es)
    ensures r == Apply(base, es)
  {
    r := base;
    for k := 0 to |es|
      invariant Fit(|base|, es[..k]) && r == Apply(base, es[..k])
    {
      assert es[..k + 1] == es[..k] + [es[k]];
      ApplySnoc(base, es[..k], es[k]);
      r := PutAt(r, es[k].at, es[k].bytes);
    }
    assert es[..|es|] == es;
  }

  /** `for i, b in enumerate(words): put32(buf, at + i * 4, b)`. */
  method PutWords(buf: seq<byte>, at: nat, words: seq<nat>) returns (r: seq<byte>)
    requires at + 4 * |words| <= |buf|
    ensures r == PutAt(buf, at, Le32s(words))
  {
    r := buf;
    assert words[..0] == [];
    assert PutAt(buf, at, []) == buf;
    for i := 0 to |words|
      invariant r == PutAt(buf, at, Le32s(words[..i]))
    {
      WordsNext(buf, at, words, i);
      r := PutAt(r, at + i * 4, Le32(words[i]));
    }
    assert words[..|words|] == words;
  }

  lemma WordsNext(buf: seq<byte>, at: nat, words: seq<nat>, i: nat)
    requires at + 4 * |words| <= |buf| && i < |words|
    ensures PutAt(PutAt(buf, at, Le32s(words[..i])), at + i * 4, Le32(words[i]))
         == PutAt(buf, at, Le32s(words[..i + 1]))
  {
    assert words[..i + 1][..i] == words[..i];
    assert Le32s(words[..i + 1]) == Le32s(words[..i]) + Le32(words[i]);
    PutTwice(buf, at, Le32s(words[..i]), Le32(words[i]));
  }

  class Volume {
    const g: Geometry
    const volumeLabel: seq<byte>
    var image: seq<byte>
    var freeBlocks: int
    var freeInodes: int
    var rootBlocks: seq<nat>

    constructor (image: seq<byte>, g: Geometry, volumeLabel: seq<byte>)
      ensures this.image == image && this.g == g && this.volumeLabel == volumeLabel
      ensures freeBlocks == DataBlocks(g) && freeInodes == TOTAL_INODES - 1 && rootBlocks == []
    {
      this.g, this.image, this.volumeLabel := g, image, volumeLabel;
      freeBlocks, freeInodes, rootBlocks := DataBlocks(g), TOTAL_INODES - 1, [];
    }

    // ---- blocks ---------------------------------------------------------------------------

    function BitmapBytes(): seq<byte>
      requires Off(g, InodeTable(g)) <= |image|
      reads this
    {
      image[Off(g, BITMAP_START)..Off(g, InodeTable(g))]
    }

    /** First fit: claims the first clear bit, or fails leaving everything as it was. */
    method AllocBlock() returns (r: Option<nat>)
      requires Off(g, InodeTable(g)) <= |image|
      modifies `image, `freeBlocks
      ensures var k := FirstClear(old(BitmapBytes()));
        if k < DataBlocks(g) then
          && r == Some(DataStart(g) + k) && freeBlocks == old(freeBlocks) - 1 && BitClaimed(old(image), g, k, image)
        else r == None && image == old(image) && freeBlocks == old(freeBlocks)
    {
      hide FirstClear, LowClear, SetBit;
      var dataBlocks := DataBlocks(g);
      ghost var bm := BitmapBytes();
      for b := 0 to BitmapBlocks(g)
        invariant image == old(image) && freeBlocks == old(freeBlocks)
        invariant forall j :: 0 <= j < b * BLOCK ==> bm[j] == 0xFF
      {
        var base := Off(g, BITMAP_START + b);
        for byteIdx := 0 to BLOCK
          invariant image == old(image) && freeBlocks == old(freeBlocks)
          invariant forall j :: 0 <= j < b * BLOCK + byteIdx ==> bm[j] == 0xFF
        {
          var val := image[base + byteIdx];
          assert val == bm[b * BLOCK + byteIdx];
          if val == 0xFF {
            continue;
          }
          var bit := LowestClearBit(val);
          var rel := (b * BLOCK + byteIdx) * 8 + bit;
          FoundFirst(bm, b * BLOCK + byteIdx, bit);
          if rel >= dataBlocks {
            return None;
          }
          image := image[base + byteIdx := SetBit(val, bit)];
          freeBlocks := freeBlocks - 1;
          return Some(DataStart(g) + rel);
        }
      }
      FirstClearSkips(bm, |bm|);
      BitmapBlocksIsLeast(g);
      return None;
    }

    // ---- inodes ----------------------------------------------------------------------------

    method WriteInode(num: nat, f: InodeFields)
      requires FitsSlot(f) && InodeOff(g, num) + SLOT <= |image|
      modifies `image
      ensures image == PutAt(old(image), InodeOff(g, num), EncodeInode(f))
    {
      var off := InodeOff(g, num);
      var ino := EncodedInode(f);
      SpliceIsPutAt(image, off, off + SLOT, ino);
      image := Splice(image, off, off + SLOT, ino);
    }

    /** The first slot whose type byte is zero. */
    method AllocInode() returns (r: Option<nat>)
      requires Off(g, DataStart(g)) <= |image|
      modifies `freeInodes
      ensures forall k :: 0 <= k < (if r.Some? then r.value else TOTAL_INODES) ==> SlotInUse(image, g, k)
      ensures r.Some? ==> r.value < TOTAL_INODES && !SlotInUse(image, g, r.value)
      ensures freeInodes == old(freeInodes) - if r.Some? then 1 else 0
    {
      for num := 0 to TOTAL_INODES
        invariant freeInodes == old(freeInodes)
        invariant forall k :: 0 <= k < num ==> SlotInUse(image, g, k)
      {
        InodeOffLinear(g, num);
        var off := InodeOff(g, num);
        if image[off + 4] == 0 {
          freeInodes := freeInodes - 1;
          return Some(num);
        }
      }
      return None;
    }

    method WriteRootInode()
      requires |rootBlocks| <= DIRECT && InodeOff(g, 0) + SLOT <= |image|
      modifies `image
      ensures image == PutAt(old(image), InodeOff(g, 0), EncodeInode(RootInode(rootBlocks)))
    {
      WriteInode(0, InodeFields(0, ENTRY_CATALOG, 1, 0x1FF, 0, 0, |rootBlocks|, 0, rootBlocks, 0, [0x2F]));
    }

    // ---- catalog -----------------------------------------------------------------------------

    method WriteCatalogEntry(base: nat, e: nat, target: nat, entryType: byte, name: seq<byte>)
      requires |name| <= NAME_BYTES && base + e * SLOT + SLOT <= |image|
      modifies `image
      ensures image == PutAt(old(image), base + e * SLOT, EncodeEntry(target, entryType, name))
    {
      var off := base + e * SLOT;
      var ent := EncodedEntry(target, entryType, name);
      SpliceIsPutAt(image, off, off + SLOT, ent);
      image := Splice(image, off, off + SLOT, ent);
    }

    ghost predicate RootsInRange()
      reads this
    {
      forall c :: 0 <= c < |rootBlocks| ==> Off(g, rootBlocks[c]) + BLOCK <= |image|
    }

    function TypeAt(i: nat): byte
      requires RootsInRange() && i < 16 * |rootBlocks|
      reads this
    {
      TypeIn(image, g, rootBlocks, i)
    }

    /** The first unused or deleted catalog slot. */
    method FreeEntry() returns (r: Option<nat>)
      requires RootsInRange()
      ensures forall i :: 0 <= i < (if r.Some? then r.value else 16 * |rootBlocks|) ==>
        i < 16 * |rootBlocks| && !IsFree(TypeAt(i))
      ensures r.Some? ==> r.value < 16 * |rootBlocks| && IsFree(TypeAt(r.value))
    {
      for c := 0 to |rootBlocks|
        invariant forall i :: 0 <= i < 16 * c ==> !IsFree(TypeAt(i))
      {
        var base := Off(g, rootBlocks[c]);
        for e := 0 to 16
          invariant forall i :: 0 <= i < 16 * c + e ==> !IsFree(TypeAt(i))
        {
          var t := image[base + e * SLOT + 4];
          assert t == TypeAt(16 * c + e);
          if IsFree(t) {
            return Some(16 * c + e);
          }
        }
      }
      return None;
    }

    /** `alloc_block` while the bitmap is a counter. */
    method NextBlock(ghost p: Progress, ghost hi: nat) returns (r: Option<nat>)
      requires InProgress(image, g, p, hi) && |p.owners| <= DataBlocks(g)
      modifies `image, `freeBlocks
      ensures r == if |p.owners| < DataBlocks(g) then Some(DataStart(g) + |p.owners|) else None
      ensures r == None ==> image == old(image) && freeBlocks == old(freeBlocks)
      ensures r.Some? ==> freeBlocks == old(freeBlocks) - 1 && Surrounds(old(image), hi, image, hi, g)
      ensures r.Some? ==> BitmapIs(image, g, |p.owners| + 1) && InodesAre(image, g, p) && BlocksAre(image, g, p)
      ensures r.Some? ==> ZeroUpTo(image, g, |p.owners|, hi)
    {
      hide FirstClear, InodesAre, BlocksAre, ZeroUpTo, BitClaimed, Surrounds;
      AllocIsBump(image, g, p, hi);
      ghost var before := image;
      r := AllocBlock();
      if r.Some? {
        AllocKeeps(before, g, p, hi, image);
      }
    }

    /** Puts an entry into the first free slot, adding a catalog block when there is none. */
    method CatalogInsert(name: seq<byte>, target: nat, entryType: byte, ghost p: Progress,
          ghost hi: nat) returns (ok: bool)
      requires InProgress(image, g, p, hi) && RootsOwn(g, p) && rootBlocks == p.roots && |p.owners| <= DataBlocks(g)
      requires p.entries < |p.files| <= MAX_FILES && name == p.files[p.entries].name
      requires target == p.entries + 1 && entryType == ENTRY_FILE
      requires NeedsBlock(p) && |p.owners| < DataBlocks(g) ==> Off(g, DataStart(g) + |p.owners|) + BLOCK <= hi
      modifies `image, `freeBlocks, `rootBlocks
      ensures ok <==> (NeedsBlock(p) ==> |p.owners| < DataBlocks(g))
      ensures ok ==> InProgress(image, g, Inserted(g, p), hi)
      ensures ok ==> RootsOwn(g, Inserted(g, p))
      ensures ok ==> rootBlocks == Inserted(g, p).roots
      ensures ok ==> freeBlocks == old(freeBlocks) - (if NeedsBlock(p) then 1 else 0)
      ensures ok ==> Surrounds(old(image), hi, image, hi, g)
    {
      hide InProgress, RootsOwn, InodesAre, BlocksAre, EncodeEntry, EncodeInode, BitmapIs, ZeroUpTo, Surrounds;
      hide OwnsNextSlot, TypeIn, IsFree, Off, DataStart, DataBlocks;
      FreeEntryIsNext(image, g, p, hi);
      var slot := FreeEntry();
      assert p.entries < 16 * |p.roots| ==> IsFree(TypeAt(p.entries));
      if slot.Some? {
        NextSlotOwned(g, p);
        ghost var before := image;
        WriteCatalogEntry(Off(g, rootBlocks[slot.value / 16]), slot.value % 16, target, entryType, name);
        EntryStored(before, g, p, hi, p.roots[p.entries / 16] - DataStart(g), image);
        EntryKeepsRoots(g, p);
        ok := true;
      } else {
        ok := InsertInNewBlock(name, target, entryType, p, hi);
      }
    }

    method InsertInNewBlock(name: seq<byte>, target: nat, entryType: byte, ghost p: Progress,
          ghost hi: nat) returns (ok: bool)
      requires InProgress(image, g, p, hi) && RootsOwn(g, p) && rootBlocks == p.roots && |p.owners| <= DataBlocks(g)
      requires p.entries < |p.files| <= MAX_FILES && name == p.files[p.entries].name
      requires target == p.entries + 1 && entryType == ENTRY_FILE && NeedsBlock(p)
      requires |p.owners| < DataBlocks(g) ==> Off(g, DataStart(g) + |p.owners|) + BLOCK <= hi
      modifies `image, `freeBlocks, `rootBlocks
      ensures ok <==> |p.owners| < DataBlocks(g)
      ensures ok ==> InProgress(image, g, Inserted(g, p), hi)
      ensures ok ==> RootsOwn(g, Inserted(g, p))
      ensures ok ==> rootBlocks == Inserted(g, p).roots
      ensures ok ==> freeBlocks == old(freeBlocks) - 1 && Surrounds(old(image), hi, image, hi, g)
    {
      hide InProgress, InodesAre, BlocksAre, BitmapIs, ZeroUpTo, Surrounds, RootsOwn, OwnsNextSlot, NeedsBlock;
      ghost var before := image;
      var bnum := NextBlock(p, hi);
      if bnum.None? {
        return false;
      }
      CatalogBlockReady(image, g, p, hi);
      NewSlotOwned(g, p);
      BlockKeepsRoots(g, p);
      ghost var middle := image;
      FillNewBlock(bnum.value, name, target, entryType, p, hi);
      SurroundsTwice(before, middle, image, hi, g);
      return true;
    }

    /** The new catalog block's first entry, and the root inode that points to the block. */
    method FillNewBlock(bnum: nat, name: seq<byte>, target: nat, entryType: byte, ghost p: Progress, ghost hi: nat)
      requires NeedsBlock(p) && |p.roots| < DIRECT && p.entries % 16 == 0 && |p.roots| == CatalogCount(p.entries)
      requires InProgress(image, g, WithCatalogBlock(p), hi) && OwnsNextSlot(WithCatalogBlock(p), |p.owners|)
      requires rootBlocks == p.roots && bnum == DataStart(g) + |p.owners| && Off(g, bnum) + BLOCK <= |image|
      requires p.entries < |p.files| <= MAX_FILES && name == p.files[p.entries].name
      requires target == p.entries + 1 && entryType == ENTRY_FILE
      modifies `image, `rootBlocks
      ensures InProgress(image, g, Inserted(g, p), hi) && rootBlocks == Inserted(g, p).roots
      ensures Surrounds(old(image), hi, image, hi, g)
    {
      hide InProgress, InodesAre, BlocksAre, EncodeEntry, EncodeInode, BitmapIs, ZeroUpTo, Surrounds, OwnsNextSlot;
      ghost var before, p1 := image, WithCatalogBlock(p);
      rootBlocks := rootBlocks + [bnum];
      WriteCatalogEntry(Off(g, bnum), 0, target, entryType, name);
      ghost var middle := image;
      InodeOffLinear(g, 0);
      EntryStored(before, g, p1, hi, |p.owners|, middle);
      WriteRootInode();
      RootRewritten(middle, g, p1.(entries := p1.entries + 1), hi, rootBlocks, image);
      SurroundsTwice(before, middle, image, hi, g);
    }

    // ---- files --------------------------------------------------------------------------------

    method ReserveIndirect(ghost p: Progress, ghost hi: nat) returns (r: Option<nat>)
      requires InProgress(image, g, p, hi) && Adding(g, p) && BlocksOf(p.files[p.inodes]) > DIRECT
      requires |p.owners| <= DataBlocks(g)
      requires (|p.owners| < DataBlocks(g) ==> Off(g, DataStart(g) + |p.owners|) + BLOCK <= hi)
      modifies `image, `freeBlocks
      ensures r == if |p.owners| < DataBlocks(g) then Some(DataStart(g) + |p.owners|) else None
      ensures r.Some? ==> InProgress(image, g, WithOwner(p, Indirect(p.inodes)), hi)
      ensures r.Some? ==> Surrounds(old(image), hi, image, hi, g)
      ensures r.Some? ==> freeBlocks == old(freeBlocks) - 1
    {
      hide InProgress, InodesAre, BlocksAre, BitmapIs, ZeroUpTo, Surrounds;
      r := NextBlock(p, hi);
      if r.Some? {
        IndirectStep(image, g, p, hi);
      }
    }

    /** Claims the next block for chunk `i` and splices the chunk over it. */
    method StoreChunk(data: seq<byte>, i: nat, ghost p: Progress, ghost hi: nat,
          ghost hi': nat) returns (r: Option<nat>)
      requires InProgress(image, g, p, hi) && Adding(g, p) && data == p.files[p.inodes].data
      requires i < BlocksOf(p.files[p.inodes])
      requires hi' + BLOCK == hi + |Chunk(p.files[p.inodes], i)|
      requires |p.owners| <= DataBlocks(g)
      requires (|p.owners| < DataBlocks(g) ==> Off(g, DataStart(g) + |p.owners|) + BLOCK <= hi')
      modifies `image, `freeBlocks
      ensures r == if |p.owners| < DataBlocks(g) then Some(DataStart(g) + |p.owners|) else None
      ensures r.Some? ==> InProgress(image, g, WithOwner(p, Data(p.inodes, i)), hi')
      ensures r.Some? ==> Surrounds(old(image), hi, image, hi', g)
      ensures r.Some? ==> freeBlocks == old(freeBlocks) - 1
    {
      hide InProgress, InodesAre, BlocksAre, BitmapIs, ZeroUpTo, Surrounds;
      ghost var before := image;
      r := NextBlock(p, hi);
      if r.Some? {
        ghost var middle := image;
        var at := Off(g, r.value);
        image := Splice(image, at, at + BLOCK, data[i * BLOCK..Min((i + 1) * BLOCK, |data|)]);
        DataStep(middle, g, p, hi, i, image, hi');
        SurroundsChain(before, hi, middle, hi, image, hi', g);
      }
    }

    /** Claims and writes the data blocks of the file being added. */
    method StoreBlocks(data: seq<byte>, nblocks: nat, ghost p: Progress, ghost hi: nat)
      returns (ok: bool, direct: seq<nat>, indirect: nat)
      requires InProgress(image, g, p, hi) && Adding(g, p) && |p.owners| <= DataBlocks(g)
      requires data == p.files[p.inodes].data && nblocks == BlocksOf(p.files[p.inodes])
      requires var last := DataStart(g) + Min(|p.owners| + |FileOwners(p.inodes, nblocks)|, DataBlocks(g));
        Off(g, last) + Slack(p.files[p.inodes]) <= hi
      modifies `image, `freeBlocks
      ensures ok <==> |p.owners| + |FileOwners(p.inodes, nblocks)| <= DataBlocks(g)
      ensures ok ==> direct == Addresses(g, |p.owners|, nblocks)
      ensures ok ==> indirect == if nblocks > DIRECT then DataStart(g) + |p.owners| + DIRECT else 0
      ensures ok ==> freeBlocks == old(freeBlocks) - |FileOwners(p.inodes, nblocks)|
      ensures ok ==> InProgress(image, g, Claiming(p, nblocks), hi - Slack(p.files[p.inodes]))
      ensures ok ==> Surrounds(old(image), hi, image, hi - Slack(p.files[p.inodes]), g)
    {
      hide InProgress, InodesAre, BlocksAre, BitmapIs, ZeroUpTo, Surrounds, Chunk, Addresses, FileOwners;
      hide Claiming, SlackAt, Slack, DataBlocks, DataStart;
      ghost var f, base, before := p.files[p.inodes], |p.owners|, image;
      ghost var h := hi;
      direct, indirect := [], 0;
      NothingClaimed(image, g, p, hi);
      for i := 0 to nblocks
        invariant SlackAt(f, i) <= Slack(f) && h == hi - SlackAt(f, i)
        invariant InProgress(image, g, Claiming(p, i), h) && Surrounds(before, hi, image, h, g)
        invariant |Claiming(p, i).owners| <= DataBlocks(g)
        invariant direct == Addresses(g, base, i)
        invariant indirect == if i > DIRECT then DataStart(g) + base + DIRECT else 0
        invariant freeBlocks == old(freeBlocks) - |FileOwners(p.inodes, i)|
      {
        ghost var q := Claiming(p, i);
        ChunkSlack(f, i);
        ClaimingNext(g, p, i);
        if i >= DIRECT && indirect == 0 {
          ghost var img := image;
          var taken := ReserveIndirect(q, h);
          if taken.None? {
            return false, [], 0;
          }
          indirect := taken.value;
          q := WithOwner(q, Indirect(p.inodes));
          SurroundsChain(before, hi, img, h, image, h, g);
        }
        ghost var img, h' := image, hi - SlackAt(f, i + 1);
        var block := StoreChunk(data, i, q, h, h');
        if block.None? {
          return false, [], 0;
        }
        SurroundsChain(before, hi, img, h, image, h', g);
        direct := direct + [block.value];
        AddressesNext(g, base, i);
        h := h';
      }
      AllSlackTaken(f);
      ClaimingNext(g, p, nblocks);
      ok := true;
    }

    /** The pointer block of a file with more than ten blocks. */
    method StorePointers(direct: seq<nat>, indirect: nat, ghost p: Progress, ghost hi: nat, ghost base: nat)
      requires InProgress(image, g, p, hi) && Adding(g, p) && BlocksOf(p.files[p.inodes]) > DIRECT
      requires base + DIRECT < |p.owners| && p.owners[base + DIRECT] == Indirect(p.inodes)
      requires indirect == DataStart(g) + base + DIRECT && direct == Addresses(g, base, BlocksOf(p.files[p.inodes]))
      modifies `image
      ensures InProgress(image, g, p, hi) && Surrounds(old(image), hi, image, hi, g)
      ensures PointersIn(image, g, base, p.files[p.inodes])
    {
      hide InProgress, InodesAre, BlocksAre, BitmapIs, Surrounds, Addresses, IndirectBlock, PointersIn, BlockAt;
      hide ZeroUpTo;
      hide BlocksOf, DataStart, Le32s, Splice, PutAt, Zeros;
      ClaimedReadable(image, g, p, hi, base + DIRECT);
      var ibuf := Zeros(BLOCK);
      ibuf := PutWords(ibuf, 0, direct[DIRECT..]);
      PointerBytes(g, base, BlocksOf(p.files[p.inodes]));
      var at := Off(g, indirect);
      SpliceIsPutAt(image, at, at + BLOCK, ibuf);
      ghost var before := image;
      image := Splice(image, at, at + BLOCK, ibuf);
      PointersStored(before, g, p, hi, base, image);
    }

    ghost predicate Tallies(files: seq<File>)
      reads this
    {
      && rootBlocks == RootBlocks(g, files) && freeBlocks == DataBlocks(g) - |Owners(files)|
      && freeInodes == TOTAL_INODES - 1 - |files|
    }

    /** Pointer block, inode and catalog entry of the file whose blocks have been stored. */
    method FinishFile(num: nat, name: seq<byte>, size: nat, nblocks: nat, blocks: seq<nat>, indirect: nat,
                      ghost files: seq<File>, ghost f: File, ghost hi: nat) returns (ok: bool)
      requires |files| < MAX_FILES && InProgress(image, g, Stowed(g, files, f), hi)
      requires rootBlocks == RootBlocks(g, files)
      requires num == |files| + 1 && name == f.name && size == |f.data| && nblocks == BlocksOf(f)
      requires blocks == Addresses(g, |Owners(files)|, nblocks)
      requires indirect == if nblocks > DIRECT then DataStart(g) + |Owners(files)| + DIRECT else 0
      requires |Owners(files)| + |FileOwners(|files|, nblocks)| <= DataBlocks(g)
      requires Off(g, DataStart(g) + Min(|Owners(files + [f])|, DataBlocks(g))) <= hi
      modifies `image, `freeBlocks, `rootBlocks
      ensures ok <==> |Owners(files + [f])| <= DataBlocks(g)
      ensures ok ==> VolumeHolds(image, g, files + [f], hi) && Surrounds(old(image), hi, image, hi, g)
      ensures ok ==> rootBlocks == RootBlocks(g, files + [f])
      ensures ok ==> freeBlocks == old(freeBlocks) - |CatalogOwners(|files|)|
    {
      hide InProgress, InodesAre, BlocksAre, BitmapIs, ZeroUpTo, Surrounds, Addresses, FileOwners, Owners, RootBlocks;
      hide PointersIn, RootsOwn, Inserted, EncodeInode, DataBlocks, BlocksOf, DataStart;
      ghost var img0, p := image, Stowed(g, files, f);
      var direct := blocks;
      if indirect != 0 {
        IndirectOwned(g, files, f);
        StorePointers(direct, indirect, p, hi, |Owners(files)|);
        direct := direct[..DIRECT];
      } else {
        NoPointers(image, g, files, f, hi);
      }
      assert direct == Addresses(g, |Owners(files)|, nblocks)[..Min(nblocks, DIRECT)];
      ghost var img1 := image;
      InodeTableReadable(img1, g, p, hi);
      WriteInode(num, InodeFields(num, ENTRY_FILE, |name|, 0x1A4, 0, size, nblocks, 0, direct, indirect, name));
      InodeStored(img1, g, files, f, hi, image);
      ghost var img2, p2 := image, p.(inodes := num);
      RootsOwnDuring(g, files, f);
      InsertedCompletes(g, files, f);
      OwnersGrow(files, f);
      ok := CatalogInsert(name, num, ENTRY_FILE, p2, hi);
      if ok {
        SurroundsTwice(img0, img1, img2, hi, g);
        SurroundsTwice(img0, img2, image, hi, g);
      }
    }

    method AddFile(name: seq<byte>, data: seq<byte>, ghost files: seq<File>, ghost hi: nat) returns (r: Option<nat>)
      requires |name| <= NAME_BYTES && |data| <= MAX_FILE_BLOCKS * BLOCK
      requires VolumeHolds(image, g, files, hi) && |files| < MAX_FILES && Tallies(files)
      requires |Owners(files)| <= DataBlocks(g)
      requires var all := files + [RawFile(name, data)];
        Off(g, DataStart(g) + Min(|Owners(all)|, DataBlocks(g))) + Slack(RawFile(name, data)) <= hi
      modifies this
      ensures r == if |Owners(files + [RawFile(name, data)])| <= DataBlocks(g) then Some(|files| + 1) else None
      ensures r.Some? ==> var f: File := RawFile(name, data);
        && VolumeHolds(image, g, files + [f], hi - Slack(f)) && Tallies(files + [f])
        && Surrounds(old(image), hi, image, hi - Slack(f), g)
    {
      hide InProgress, InodesAre, BlocksAre, BitmapIs, ZeroUpTo, Surrounds, Chunk, Addresses, FileOwners, Owners;
      hide RootBlocks;
      hide DataBlocks, DataStart, Slack;
      ghost var f: File, before := RawFile(name, data), image;
      OwnersGrow(files, f);
      StartAdding(image, g, files, f, hi);
      NextInodes(image, g, Started(g, files, f), hi);
      assert !SlotInUse(image, g, |files| + 1);
      var num := AllocInode();
      var nblocks := (|data| + BLOCK - 1) / BLOCK;
      var ok, direct, indirect := StoreBlocks(data, nblocks, Started(g, files, f), hi);
      if !ok {
        return None;
      }
      ghost var h, middle := hi - Slack(f), image;
      ok := FinishFile(num.value, name, |data|, nblocks, direct, indirect, files, f, h);
      if !ok {
        return None;
      }
      SurroundsChain(before, hi, middle, h, image, h, g);
      return num;
    }

    /** Claims the root catalog block and writes the root inode. */
    method Begin(ghost hi: nat)
      requires ZeroUpToFrom(image, g, hi) && DataBlocks(g) > 0 && rootBlocks == []
      requires freeBlocks == DataBlocks(g) && freeInodes == TOTAL_INODES - 1
      modifies `image, `freeBlocks, `rootBlocks
      ensures VolumeHolds(image, g, [], hi) && Tallies([]) && Surrounds(old(image), hi, image, hi, g)
    {
      hide InodesAre, BlocksAre, VolumeHolds, BitClaimed, FirstClear, EncodeInode, Surrounds;
      ghost var img0 := image;
      EmptyVolume(img0, g, hi);
      AllocFirst(img0, g);
      var rootBlock := AllocBlock();
      ghost var img1 := image;
      rootBlocks := rootBlocks + [rootBlock.value];
      FirstRootBlock(g);
      assert rootBlocks == [DataStart(g)];
      InodeOffLinear(g, 0);
      FirstBit(img0, g, hi, img1);
      WriteRootInode();
      FirstVolume(img0, g, hi, img1, image);
    }

    method WriteSuperblock(ghost files: seq<File>, ghost hi: nat)
      requires VolumeHolds(image, g, files, hi) && Tallies(files) && |Owners(files)| <= DataBlocks(g)
      modifies `image
      ensures VolumeHolds(image, g, files, hi) && HasSuper(image, g, files, volumeLabel)
      ensures Superblock.ReadsAs(image, g, files, volumeLabel)
      ensures image[..Off(g, SUPER_BLOCK)] == old(image[..Off(g, SUPER_BLOCK)]) && image[hi..] == old(image[hi..])
      ensures |image| == |old(image)|
    {
      hide InodesAre, BlocksAre, EncodeSuper, Owners, RootBlocks, VolumeHolds, BitmapBlocks, InodeTable;
      hide Superblock.ReadsAs;
      SuperReadable(image, g, files, hi);
      var sum := BitmapChecksum();
      var sb := EncodedSuper(SuperFields(g.total, freeBlocks, freeInodes, BitmapBlocks(g), InodeTable(g), DataStart(g),
                                         sum, volumeLabel[..Min(|volumeLabel|, LABEL_BYTES)]));
      var at := Off(g, SUPER_BLOCK);
      SpliceIsPutAt(image, at, at + BLOCK, sb);
      ghost var before := image;
      image := Splice(image, at, at + BLOCK, sb);
      SuperStored(before, g, files, hi, sb, image);
      SuperReadable(image, g, files, hi);
      StoredSuper(files, hi);
    }

    lemma StoredSuper(files: seq<File>, hi: nat)
      requires VolumeHolds(image, g, files, hi) && HasSuper(image, g, files, volumeLabel)
      ensures Superblock.ReadsAs(image, g, files, volumeLabel)
    {
      hide VolumeHolds, HasSuper;
      Superblock.ReadsBack(image, g, files, hi, volumeLabel);
    }

    method BitmapChecksum() returns (sum: nat)
      requires Off(g, InodeTable(g)) <= |image|
      ensures sum == Checksum(BitmapList(image, g))
    {
      hide Checksum;
      var blocks := [];
      for b := 0 to BitmapBlocks(g)
        invariant |blocks| == b && forall k :: 0 <= k < b ==> blocks[k] == BitmapList(image, g)[k]
      {
        var off := Off(g, BITMAP_START + b);
        blocks := blocks + [image[off..off + BLOCK]];
      }
      assert blocks == BitmapList(image, g);
      sum := Fletcher(blocks);
    }
  }

  method LowestClearBit(val: byte) returns (bit: nat)
    requires val != 0xFF
    ensures bit == LowClear(val) && bit < 8 && SetBit(val, bit) < 0x100
  {
    assert Pow2(8) == 0x100;
    LowClearMeans(val, 8);
    bit := 0;
    while BitOf(val, bit) != 0
      invariant bit <= LowClear(val) < 8
      decreases 8 - bit
    {
      assert bit != LowClear(val);
      bit := bit + 1;
    }
    SetBitFits(val, bit, 8);
  }

  lemma FoundFirst(bm: seq<byte>, p: nat, bit: nat)
    requires p < |bm| && bm[p] != 0xFF && bit == LowClear(bm[p]) && bit < 8
    requires forall j :: 0 <= j < p ==> bm[j] == 0xFF
    ensures FirstClear(bm) == 8 * p + bit
  {
    FirstClearSkips(bm, p);
  }

  method EncodedInode(f: InodeFields) returns (ino: seq<byte>)
    requires FitsSlot(f)
    ensures ino == EncodeInode(f)
  {
    hide Apply, CrcStruct, InodeEdits;
    ino := StoreFields(Zeros(SLOT), InodeEdits(f));
    var crc := PyCrc32cStruct(ino, SLOT_CK);
    ino := PutAt(ino, SLOT_CK, Le32(crc));
  }

  method EncodedEntry(target: nat, entryType: byte, name: seq<byte>) returns (ent: seq<byte>)
    requires |name| <= NAME_BYTES
    ensures ent == EncodeEntry(target, entryType, name)
  {
    hide Apply, CrcStruct, EntryEdits;
    ent := StoreFields(Zeros(SLOT), EntryEdits(target, entryType, name));
    var crc := PyCrc32cStruct(ent, SLOT_CK);
    ent := PutAt(ent, SLOT_CK, Le32(crc));
  }

  method EncodedSuper(f: SuperFields) returns (sb: seq<byte>)
    requires |f.volumeLabel| <= LABEL_BYTES
    ensures sb == EncodeSuper(f)
  {
    hide Apply, CrcStruct, SuperEdits;
    sb := StoreFields(Zeros(BLOCK), SuperEdits(f));
    var crc := PyCrc32cStruct(sb, SUPER_CK);
    sb := PutAt(sb, SUPER_CK, Le32(crc));
  }

  /** `format_owfs`: null stands for the exception the formatter raises. The zeroed region reaches
      up to `hi`, far enough for the blocks needed plus what short last chunks take out. */
  method FormatOwfs(image: seq<byte>, total: nat, volumeLabel: seq<byte>, files: seq<File>, allocSuper: bool,
                    start: nat, ghost hi: nat) returns (vol: Volume?)
    requires |files| <= MAX_FILES
    requires total >= FIXED_OVERHEAD + 2 ==> ZeroedFor(image, RawGeometry(start, total), files, hi)
    ensures vol == null <==> total < FIXED_OVERHEAD + 2 || |Owners(files)| > DataBlocks(RawGeometry(start, total))
    ensures vol != null ==> fresh(vol) && vol.g == RawGeometry(start, total) && vol.Tallies(files)
    ensures vol != null ==> VolumeHolds(vol.image, vol.g, files, hi - TotalSlack(files))
    ensures vol != null && allocSuper ==>
      HasSuper(vol.image, vol.g, files, volumeLabel) && Superblock.ReadsAs(vol.image, vol.g, files, volumeLabel)
    ensures vol != null ==> vol.image[..Off(vol.g, SUPER_BLOCK)] == image[..Off(vol.g, SUPER_BLOCK)]
    ensures vol != null && !allocSuper ==> vol.image[..Off(vol.g, BITMAP_START)] == image[..Off(vol.g, BITMAP_START)]
    ensures vol != null ==> vol.image[hi - TotalSlack(files)..] == image[hi..]
    ensures vol != null ==> |vol.image| == |image| - TotalSlack(files)
    ensures vol != null ==> (|vol.image| == |image| <==> forall k :: 0 <= k < |files| ==> |files[k].data| % BLOCK == 0)
  {
    hide InProgress, BlocksAre, InodesAre, Surrounds, Owners, RootBlocks, VolumeHolds, HasSuper, TotalSlack, Slack;
    hide DataBlocks, DataStart, Off, BlocksOf, ZeroedFor, Superblock.ReadsAs;
    if total < FIXED_OVERHEAD + 2 {
      return null;
    }
    var g: Geometry := RawGeometry(start, total);
    vol := new Volume(image, g, volumeLabel);
    ZeroedMeans(image, g, files, hi);
    vol.Begin(hi);
    ghost var h := hi - TotalSlack(files[..0]);
    for k := 0 to |files|
      invariant fresh(vol) && vol.g == g && vol.volumeLabel == volumeLabel
      invariant TotalSlack(files[..k]) <= hi && h == hi - TotalSlack(files[..k])
      invariant VolumeHolds(vol.image, g, files[..k], h) && vol.Tallies(files[..k])
      invariant Surrounds(image, hi, vol.image, h, g) && |Owners(files[..k])| <= DataBlocks(g)
    {
      RoomShrinks(g, files, k, hi);
      ghost var before := vol.image;
      assert files[..k + 1] == files[..k] + [files[k]];
      var inode := vol.AddFile(files[k].name, files[k].data, files[..k], h);
      if inode.None? {
        OwnersFit(g, files, k + 1);
        return null;
      }
      ghost var h' := h - Slack(files[k]);
      SurroundsChain(image, hi, before, h, vol.image, h', g);
      h := h';
    }
    assert files[..|files|] == files;
    SurroundsMeans(image, hi, vol.image, h, g);
    TailFixesLength(image, vol.image, files, hi);
    if allocSuper {
      vol.WriteSuperblock(files, h);
    }
  }
}
