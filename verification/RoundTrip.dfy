/** Format, then probe, enumerate and load: the driver gives the files back. */
module RoundTrip {
  import opened Bytes
  import opened Crc32c
  import opened Layout
  import opened Ownership
  import opened Contents
  import opened Reader
  import opened Enumeration
  import opened OnDisk
  import Steps
  import Text = Names

  // ---- loading ------------------------------------------------------------------------------------

  /** The bytes of a file in its first `j` blocks. */
  function UpTo(f: File, j: nat): seq<byte> {
    f.data[..Min(j * BLOCK, |f.data|)]
  }

  /** The part of block `j` the driver takes is the chunk the formatter wrote. */
  lemma TakesChunk(g: Geometry, files: seq<File>, i: nat, j: nat)
    requires i < |files| && j < BlocksOf(files[i])
    ensures DataBlock(files[i], j)[..TakeLen(FileSeen(g, files, i), j)] == Chunk(files[i], j)
    ensures UpTo(files[i], j) + Chunk(files[i], j) == UpTo(files[i], j + 1)
  {
    hide FileInode, DirectTable, Base;
  }

  /** The copying loop from block `j` on, when the first `j` blocks are already there. */
  lemma {:induction false} LoadsRest(d: Disk, t: nat, g: Geometry, files: seq<File>, i: nat,
                                     j: nat, history: seq<Diag.Code>)
    requires Cataloged(d, g, files) && i < |files| && j <= BlocksOf(files[i])
    requires Mappable(FileSeen(g, files, i))
    ensures var r := LoadFrom(d, t, FileSeen(g, files, i), j, UpTo(files[i], j), history);
      r.rc == Diag.COM_KERNEL_LOAD_OK && r.size == Some(|files[i].data|) && r.content == files[i].data
      && r.raised == [Diag.COM_KERNEL_LOAD_OK]
    decreases BlocksOf(files[i]) - j
  {
    hide Cataloged, FetchBlock, TakeLen, UpTo, Chunk, DataBlock, FileInode, Base, BlocksOf;
    if j < BlocksOf(files[i]) {
      FetchesBlock(d, t, g, files, i, j);
      TakesChunk(g, files, i, j);
      LoadsRest(d, if j < DIRECT then t + 1 else t + 2, g, files, i, j + 1, history);
    } else {
      AllUpTo(files[i]);
    }
  }

  lemma AllUpTo(f: File)
    ensures UpTo(f, BlocksOf(f)) == f.data && UpTo(f, 0) == []
  {
  }

  /** Loading the inode of a stored file gives its bytes and its size; only files under 16 bytes
      are refused. */
  lemma LoadsFile(d: Disk, t: nat, g: Geometry, files: seq<File>, i: nat, history: seq<Diag.Code>)
    requires Cataloged(d, g, files) && i < |files| && SlotOk(d.bytes, g, Complete(g, files), i + 1)
    ensures MappableIfRead(ReadInode(d, t, SuperSeen(g), i + 1))
    ensures var r := Load(d, t, SuperSeen(g), i + 1, history);
      && r.raised == [r.rc]
      && if |files[i].data| < 16 then r.rc == Diag.SOFT_KERNEL_TOO_SMALL && r.size == None && r.content == []
         else r.rc == Diag.COM_KERNEL_LOAD_OK && r.size == Some(|files[i].data|) && r.content == files[i].data
  {
    hide ReadInode, LoadFrom, Rooted, BlocksAre, FileInode, Base, BlocksOf, UpTo, SlotOk;
    ReadsFileInode(d, t, g, files, i);
    AllUpTo(files[i]);
    LoadsRest(d, t + 1, g, files, i, 0, history);
  }

  // ---- enumeration -----------------------------------------------------------------------------------

  /** The menu entry of file `k`. */
  function Expected(files: seq<File>, k: nat): Entry
    requires k < |files|
  {
    Entry(k + 1, ENTRY_FILE, Text.Ascii(files[k].name, Text.NAME_MAX - 1), 0)
  }

  /** The menu entries of files `lo..`, in the order they were added. */
  function Menu(files: seq<File>, lo: nat, hi: nat): (es: seq<Entry>)
    requires lo <= hi <= |files|
    ensures |es| == hi - lo
    ensures forall k :: lo <= k < hi ==> es[k - lo] == Expected(files, k)
  {
    seq(hi - lo, k requires 0 <= k < hi - lo => Expected(files, lo + k))
  }

  /** An encoded slot is read back as its entry; an unused slot gives nothing. */
  lemma KeepsEncoded(v: seq<byte>, target: nat, name: seq<byte>)
    requires |v| == SLOT + OVERHANG && |name| <= NAME_BYTES && target < TWO_32
    requires v[..SLOT] == EncodeEntry(target, ENTRY_FILE, name)
    ensures Live(v) && Sound(v) && NameInside(v)
    ensures EntryOf(v) == Entry(target, ENTRY_FILE, Text.Ascii(name, Text.NAME_MAX - 1), 0)
  {
    hide EncodeEntry, CrcStruct, Text.Ascii, Get32;
    EntryRoundTrip(target, ENTRY_FILE, name);
    var s := v[..SLOT];
    assert Intact(s, SLOT_CK);
    Get32Slice(v, SLOT_CK, 0, SLOT);
    Get32Slice(v, 0, 0, SLOT);
    assert v[4] == s[4] && v[5] == s[5];
    assert v[6..6 + |name|] == s[6..6 + |name|];
  }

  lemma UnusedSlot(v: seq<byte>)
    requires |v| == SLOT + OVERHANG && v[..SLOT] == Zeros(SLOT)
    ensures !Live(v) && NameInside(v)
  {
    assert v[4] == v[..SLOT][4] && v[5] == v[..SLOT][5];
  }

  /** A slot the formatter would reuse is one the driver does not list, and no other. */
  lemma FreeIsUnlisted(v: seq<byte>)
    requires |v| == SLOT + OVERHANG
    ensures Steps.IsFree(v[4]) <==> !Live(v)
    ensures Steps.IsFree(v[4]) <==> v[4] == 0 || v[4] / 0x80 % 2 == 1
  {
  }

  /** Slot `e` of catalog block `c` contributes file `16c + e`, if there is one. */
  lemma KeepsSlot(block: seq<byte>, past: seq<byte>, g: Geometry, files: seq<File>, c: nat, e: nat)
    requires |block| == BLOCK && |past| == OVERHANG && |files| <= MAX_FILES && e < 16
    requires IsCatalog(block, Complete(g, files), c)
    ensures var v, k := SlotView(block + past, e), 16 * c + e;
      NameInside(v) && (Live(v) <==> k < |files|) && (k < |files| ==> Sound(v) && EntryOf(v) == Expected(files, k))
  {
    hide EncodeEntry, Live, Sound, EntryOf, NameInside, Owners, RootBlocks;
    var v, k := SlotView(block + past, e), 16 * c + e;
    assert EntryOk(block, Complete(g, files), c, e);
    assert v[..SLOT] == block[e * SLOT..e * SLOT + SLOT];
    if k < |files| {
      KeepsEncoded(v, k + 1, files[k].name);
    } else {
      UnusedSlot(v);
    }
  }

  lemma {:induction false} SeesBlock(block: seq<byte>, past: seq<byte>, g: Geometry, files: seq<File>, c: nat, e: nat)
    requires |block| == BLOCK && |past| == OVERHANG && |files| <= MAX_FILES && e <= 16
    requires IsCatalog(block, Complete(g, files), c)
    ensures Sights(block + past, e, 16) == AsFound(Menu(files, Min(16 * c + e, |files|), Min(16 * c + 16, |files|)))
    decreases 16 - e
  {
    hide Sight, IsCatalog, Complete, Expected, Menu, AsFound;
    var k, end := 16 * c + e, Min(16 * c + 16, |files|);
    if e < 16 {
      SeesSlot(block, past, g, files, c, e);
      SeesBlock(block, past, g, files, c, e + 1);
      if k < |files| {
        MenuFirst(files, k, end);
      } else {
        assert [] + AsFound(Menu(files, |files|, |files|)) == AsFound(Menu(files, |files|, |files|));
      }
    } else {
      NoMenu(files, end);
    }
  }

  lemma SeesSlot(block: seq<byte>, past: seq<byte>, g: Geometry, files: seq<File>, c: nat, e: nat)
    requires |block| == BLOCK && |past| == OVERHANG && |files| <= MAX_FILES && e < 16
    requires IsCatalog(block, Complete(g, files), c)
    ensures Sight(block + past, e)
         == if 16 * c + e < |files| then [Found(Expected(files, 16 * c + e))] else []
  {
    hide Live, Sound, EntryOf, NameInside, SlotView, IsCatalog, Complete, Expected;
    KeepsSlot(block, past, g, files, c, e);
  }

  lemma MenuFirst(files: seq<File>, lo: nat, hi: nat)
    requires lo < hi <= |files|
    ensures AsFound(Menu(files, lo, hi)) == [Found(Expected(files, lo))] + AsFound(Menu(files, lo + 1, hi))
  {
    hide Expected;
  }

  lemma NoMenu(files: seq<File>, k: nat)
    requires k <= |files|
    ensures AsFound(Menu(files, k, k)) == []
  {
  }

  lemma MenuSplit(files: seq<File>, lo: nat, mid: nat)
    requires lo <= mid <= |files|
    ensures AsFound(Menu(files, lo, mid)) + AsFound(Menu(files, mid, |files|)) == AsFound(Menu(files, lo, |files|))
  {
    hide Expected;
    assert Menu(files, lo, mid) + Menu(files, mid, |files|) == Menu(files, lo, |files|);
  }

  lemma NoneLeft(files: seq<File>)
    ensures Min(16 * CatalogCount(|files|), |files|) == |files| && AsFound(Menu(files, |files|, |files|)) == []
  {
  }

  /** The catalog blocks of a formatted volume show all files, in order and undamaged. */
  lemma {:induction false} SeesCatalog(d: Disk, g: Geometry, files: seq<File>, past: seq<byte>, c: nat)
    requires Cataloged(d, g, files) && c <= CatalogCount(|files|) && |past| == OVERHANG
    requires HasCatalog(d.bytes, g, files)
    ensures AreBlocks(CatalogFrom(d.bytes, g, files, c))
    ensures SightsAll(CatalogFrom(d.bytes, g, files, c), past) == AsFound(Menu(files, Min(16 * c, |files|), |files|))
    decreases CatalogCount(|files|) - c
  {
    hide Mounted, InodesAre, BlocksAre, HasSuper, Sights, CatalogBlock, Owners, Menu, HasCatalog, IsCatalog, Complete;
    hide AsFound;
    if c == CatalogCount(|files|) {
      NoneLeft(files);
    }
    CatalogBlocksAre(d.bytes, g, files, c);
    if c < CatalogCount(|files|) {
      SeesCatalog(d, g, files, past, c + 1);
      HoldsCatalog(d, g, files, c);
      SeesBlock(CatalogBlock(d.bytes, g, files, c), past, g, files, c, 0);
      MenuSplit(files, Min(16 * c, |files|), Min(16 * c + 16, |files|));
      assert CatalogFrom(d.bytes, g, files, c)[1..] == CatalogFrom(d.bytes, g, files, c + 1);
    }
  }

  lemma {:induction false} CatalogBlocksAre(img: seq<byte>, g: Geometry, files: seq<File>, c: nat)
    requires HasCatalog(img, g, files) && c <= CatalogCount(|files|)
    ensures AreBlocks(CatalogFrom(img, g, files, c))
    ensures forall b :: c <= b < CatalogCount(|files|) ==>
      CatalogFrom(img, g, files, c)[b - c] == CatalogBlock(img, g, files, b)
    decreases CatalogCount(|files|) - c
  {
    hide HasCatalog, CatalogBlock;
    if c < CatalogCount(|files|) {
      CatalogBlocksAre(img, g, files, c + 1);
    }
  }

  lemma HoldsCatalog(d: Disk, g: Geometry, files: seq<File>, c: nat)
    requires Cataloged(d, g, files) && c < CatalogCount(|files|) && HasCatalog(d.bytes, g, files)
    ensures IsCatalog(CatalogBlock(d.bytes, g, files, c), Complete(g, files), c)
  {
    hide HasSuper, InodesAre, Owners, IsCatalog, RelOf, RootBlocks;
    CatalogInside(g, files, c);
    NamedBlock(files, Catalog(c));
    assert BlockOk(d.bytes, g, Complete(g, files), RelOf(files, Catalog(c)));
  }

  /** The root of a mounted volume can be read block by block. */
  lemma {:induction false} FetchesFrom(d: Disk, t: nat, g: Geometry, files: seq<File>, c: nat)
    requires Rooted(d, g, files) && HasCatalog(d.bytes, g, files) && c <= CatalogCount(|files|)
    requires Mappable(RootSeen(g, files))
    ensures Fetches(d, t, RootSeen(g, files), c, CatalogFrom(d.bytes, g, files, c))
    decreases CatalogCount(|files|) - c
  {
    hide Rooted, HasCatalog, FetchBlock, CatalogBlock, RootBlocks;
    if c < CatalogCount(|files|) {
      FetchesCatalog(d, t, g, files, c);
      FetchesFrom(d, t + 1, g, files, c + 1);
      assert CatalogFrom(d.bytes, g, files, c)[1..] == CatalogFrom(d.bytes, g, files, c + 1);
    }
  }

  /** Whatever its catalog blocks hold, enumerating a mounted root filters them. */
  lemma SeesRoot(d: Disk, t: nat, g: Geometry, files: seq<File>, max: nat, past: seq<byte>)
    requires Rooted(d, g, files) && HasCatalog(d.bytes, g, files) && |past| == OVERHANG
    ensures MappableIfRead(ReadInode(d, t, SuperSeen(g), 0)) && AreBlocks(CatalogFrom(d.bytes, g, files, 0))
    ensures var l, ss := Enumerate(d, t, SuperSeen(g), max, past), SightsAll(CatalogFrom(d.bytes, g, files, 0), past);
      && l.entries == Take(Entries(ss), max) && l.rc == |l.entries|
      && l.raised == Reports(ss, max) + Telemetry(|Entries(ss)|, max)
  {
    hide Rooted, HasCatalog, Enumerate, Fetches, ReadInode, CatalogFrom, RootBlocks;
    ReadsRoot(d, t, g, files);
    FetchesFrom(d, t + 1, g, files, 0);
    CatalogBlocksAre(d.bytes, g, files, 0);
    EnumerateSees(d, t, SuperSeen(g), max, past, CatalogFrom(d.bytes, g, files, 0));
  }

  /** Enumerating a formatted volume lists the first `max` files in the order they were added, and
      reports no fault. */
  lemma ListsFiles(d: Disk, t: nat, g: Geometry, files: seq<File>, max: nat, past: seq<byte>)
    requires Cataloged(d, g, files) && |past| == OVERHANG
    ensures MappableIfRead(ReadInode(d, t, SuperSeen(g), 0))
    ensures var l := Enumerate(d, t, SuperSeen(g), max, past);
      l.rc == Min(|files|, max) && l.entries == Menu(files, 0, Min(|files|, max)) && l.raised == Telemetry(|files|, max)
  {
    hide Enumerate, ReadInode, InodesAre, BlocksAre, HasSuper, Mounted, CatalogFrom, SightsAll, Owners, Expected;
    hide Entries, Reports, Telemetry, AsFound;
    SeesRoot(d, t, g, files, max, past);
    SeesCatalog(d, g, files, past, 0);
    FoundIsQuiet(Menu(files, 0, |files|), max);
    assert Take(Menu(files, 0, |files|), max) == Menu(files, 0, Min(|files|, max));
  }
}
