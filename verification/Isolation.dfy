/** Damage to one catalog entry of a formatted volume costs that entry and no other. */
module Isolation {
  import opened Bytes
  import opened Crc32c
  import opened Layout
  import opened Ownership
  import opened Contents
  import opened Reader
  import opened Enumeration
  import opened OnDisk
  import opened RoundTrip

  /** Image offset of the catalog entry of file `k`. */
  ghost function EntryOff(g: Geometry, files: seq<File>, k: nat): nat
    requires k < |files| && |files| <= MAX_FILES
  {
    Off(g, RootBlocks(g, files)[k / 16]) + k % 16 * SLOT
  }

  /** At most four consecutive bytes of the entry of file `k` differ, wholly inside or wholly outside
      its checksum field. */
  ghost predicate DamagesEntry(img: seq<byte>, img': seq<byte>, g: Geometry, files: seq<File>, k: nat, p: nat, m: nat) {
    && k < |files| <= MAX_FILES && m <= 4 && p + m <= SLOT && (p + m <= SLOT_CK || p >= SLOT_CK)
    && img != img' && DifferWithin(img, img', EntryOff(g, files, k) + p, m)
  }

  /** Enumeration of the damaged volume gives the undamaged listing with exactly that entry removed,
      and reports one fault: not when the damage makes the slot look unused, or lies past the cut. */
  lemma DamageIsIsolated(d: Disk, d': Disk, t: nat, g: Geometry, files: seq<File>, max: nat,
                         past: seq<byte>, k: nat, p: nat, m: nat)
    requires Cataloged(d, g, files) && Mounted(d', g) && |past| == OVERHANG
    requires DamagesEntry(d.bytes, d'.bytes, g, files, k, p, m)
    ensures MappableIfRead(ReadInode(d', t, SuperSeen(g), 0)) && HasCatalog(d'.bytes, g, files)
    ensures var l := Enumerate(d', t, SuperSeen(g), max, past);
      && l.entries == Take(Menu(files, 0, k) + Menu(files, k + 1, |files|), max) && l.rc == Min(|files| - 1, max)
      && l.raised == (if StillLive(d'.bytes, g, files, k, past) && k <= max then [Diag.BAN_CATALOG_CHECKSUM] else [])
                     + Telemetry(|files| - 1, max)
  {
    hide Enumerate, ReadInode, Cataloged, Rooted, Mounted, CatalogFrom, SightsAll, HasCatalog, DifferWithin, EntryOff;
    hide Entries, Reports, Telemetry, AsFound, StillLive, Menu;
    DamageKeepsRoot(d, d', g, files, k, p, m);
    SeesRoot(d', t, g, files, max, past);
    DamagedSights(d, d', g, files, past, k, p, m);
    OneFaultReported(Menu(files, 0, k), Menu(files, k + 1, |files|), max);
    assert AsFound(Menu(files, 0, k)) + [] == AsFound(Menu(files, 0, k));
  }

  /** The damaged slot still looks in use. */
  ghost predicate StillLive(img: seq<byte>, g: Geometry, files: seq<File>, k: nat, past: seq<byte>)
    requires HasCatalog(img, g, files) && k < |files| && |past| == OVERHANG
  {
    Live(SlotView(CatalogBlock(img, g, files, k / 16) + past, k % 16))
  }

  /** The root inode and the table it lies in are out of reach of the damage. */
  lemma DamageKeepsRoot(d: Disk, d': Disk, g: Geometry, files: seq<File>, k: nat, p: nat, m: nat)
    requires Cataloged(d, g, files) && Mounted(d', g)
    requires DamagesEntry(d.bytes, d'.bytes, g, files, k, p, m)
    ensures Rooted(d', g, files) && HasCatalog(d.bytes, g, files) && HasCatalog(d'.bytes, g, files)
  {
    hide HasSuper, BlocksAre, Mounted, Owners, RootBlocks, SlotOk;
    CatalogInside(g, files, k / 16);
    InodeOffLinear(g, 0);
    OutsideSame(d.bytes, d'.bytes, EntryOff(g, files, k) + p, m, InodeOff(g, 0), InodeOff(g, 0) + SLOT);
    SameSlotOk(d.bytes, d'.bytes, g, Complete(g, files), 0);
  }

  lemma SameSlotOk(img: seq<byte>, img': seq<byte>, g: Geometry, p: Progress, num: nat)
    requires SlotOk(img, g, p, num) && InodeOff(g, num) + SLOT <= |img'| && SlotAt(img', g, num) == SlotAt(img, g, num)
    ensures SlotOk(img', g, p, num)
  {
    hide InodeSlot;
  }

  lemma DamagedSights(d: Disk, d': Disk, g: Geometry, files: seq<File>, past: seq<byte>, k: nat, p: nat, m: nat)
    requires Cataloged(d, g, files) && HasCatalog(d.bytes, g, files) && HasCatalog(d'.bytes, g, files)
    requires DamagesEntry(d.bytes, d'.bytes, g, files, k, p, m) && |past| == OVERHANG
    ensures AreBlocks(CatalogFrom(d'.bytes, g, files, 0))
    ensures SightsAll(CatalogFrom(d'.bytes, g, files, 0), past) == AsFound(Menu(files, 0, k))
      + (if StillLive(d'.bytes, g, files, k, past) then [Fault] else []) + AsFound(Menu(files, k + 1, |files|))
  {
    hide Cataloged, HasCatalog, SightsAll, Sights, CatalogFrom, Live, Sound, EntryOf, NameInside, SlotView;
    hide DamagesSlot, DifferWithin, AsFound, SightsBefore, SightsAfter, Menu;
    hide Owners, IsCatalog, Complete, RootBlocks, CatalogBlock;
    var c, e := k / 16, k % 16;
    var blocks := CatalogFrom(d.bytes, g, files, 0);
    CatalogBlocksAre(d.bytes, g, files, 0);
    var block, block' := CatalogBlock(d.bytes, g, files, c), CatalogBlock(d'.bytes, g, files, c);
    OneBlockDiffers(d.bytes, d'.bytes, g, files, k, p, m);
    DamageInBlock(d.bytes, d'.bytes, g, files, k, p, m, past);
    HoldsCatalog(d, g, files, c);
    SlotsInside(block, past, g, files, c);
    KeepsSlot(block, past, g, files, c, e);
    assert blocks[c - 0] == block && Seen(blocks, past, c) == block + past;
    DamageSeenAmong(blocks, c, block', past, e, p, m);
    SeesCatalog(d, g, files, past, 0);
    AfterIsRest(d, g, files, past, k);
    SplitMenu(files, k, SightsBefore(blocks, past, c, e), Found(EntryOf(SlotView(block + past, e))),
              SightsAfter(blocks, past, c, e));
  }

  lemma SlotsInside(block: seq<byte>, past: seq<byte>, g: Geometry, files: seq<File>, c: nat)
    requires |block| == BLOCK && |past| == OVERHANG && |files| <= MAX_FILES && IsCatalog(block, Complete(g, files), c)
    ensures forall e :: 0 <= e < 16 ==> NameInside(SlotView(block + past, e))
  {
    hide IsCatalog, NameInside, SlotView, Live, Sound, EntryOf, Complete;
    forall e | 0 <= e < 16 ensures NameInside(SlotView(block + past, e)) {
      KeepsSlot(block, past, g, files, c, e);
    }
  }

  lemma SplitMenu(files: seq<File>, k: nat, before: seq<Sighting>, x: Sighting, after: seq<Sighting>)
    requires k < |files| && before + [x] + after == AsFound(Menu(files, 0, |files|)) && |after| == |files| - k - 1
    ensures before == AsFound(Menu(files, 0, k)) && after == AsFound(Menu(files, k + 1, |files|))
  {
    hide Expected;
    var all := AsFound(Menu(files, 0, |files|));
    assert before == all[..k] == AsFound(Menu(files, 0, k));
    assert after == all[k + 1..] == AsFound(Menu(files, k + 1, |files|));
  }

  /** As many slots in use are seen after slot `k` as there are files after `k`. */
  lemma AfterIsRest(d: Disk, g: Geometry, files: seq<File>, past: seq<byte>, k: nat)
    requires Cataloged(d, g, files) && HasCatalog(d.bytes, g, files) && k < |files| <= MAX_FILES
    requires |past| == OVERHANG && AreBlocks(CatalogFrom(d.bytes, g, files, 0))
    ensures |SightsAfter(CatalogFrom(d.bytes, g, files, 0), past, k / 16, k % 16)| == |files| - k - 1
  {
    hide Cataloged, HasCatalog, SightsAll, Sights, CatalogFrom, CatalogBlock, IsCatalog, Complete, Expected;
    var c, e := k / 16, k % 16;
    var blocks, rest := CatalogFrom(d.bytes, g, files, 0), CatalogFrom(d.bytes, g, files, c + 1);
    CatalogBlocksAre(d.bytes, g, files, 0);
    CatalogBlocksAre(d.bytes, g, files, c + 1);
    assert blocks[c + 1..] == rest by {
      forall b | 0 <= b < |rest| ensures blocks[c + 1..][b] == rest[b] {
        assert blocks[c + 1 + b - 0] == CatalogBlock(d.bytes, g, files, c + 1 + b);
        assert rest[c + 1 + b - (c + 1)] == CatalogBlock(d.bytes, g, files, c + 1 + b);
      }
    }
    HoldsCatalog(d, g, files, c);
    SeesBlock(blocks[c], past, g, files, c, e + 1);
    SeesCatalog(d, g, files, past, c + 1);
  }

  /** Only catalog block `k / 16` differs. */
  lemma OneBlockDiffers(img: seq<byte>, img': seq<byte>, g: Geometry, files: seq<File>, k: nat, p: nat, m: nat)
    requires HasCatalog(img, g, files) && HasCatalog(img', g, files) && DamagesEntry(img, img', g, files, k, p, m)
    ensures AreBlocks(CatalogFrom(img', g, files, 0))
    ensures AreBlocks(CatalogFrom(img, g, files, 0))
    ensures CatalogFrom(img', g, files, 0)
         == Damaged(CatalogFrom(img, g, files, 0), k / 16, CatalogBlock(img', g, files, k / 16))
  {
    hide HasCatalog, CatalogBlock, CatalogFrom, DifferWithin, EntryOff;
    CatalogBlocksAre(img, g, files, 0);
    CatalogBlocksAre(img', g, files, 0);
    var bs, bs' := CatalogFrom(img, g, files, 0), CatalogFrom(img', g, files, 0);
    forall b | 0 <= b < |bs| && b != k / 16 ensures bs'[b] == bs[b] {
      assert bs[b - 0] == CatalogBlock(img, g, files, b) && bs'[b - 0] == CatalogBlock(img', g, files, b);
      OtherCatalogSame(img, img', g, files, k, p, m, b);
    }
    assert bs'[k / 16 - 0] == CatalogBlock(img', g, files, k / 16);
  }

  lemma OtherCatalogSame(img: seq<byte>, img': seq<byte>, g: Geometry, files: seq<File>, k: nat, p: nat, m: nat, b: nat)
    requires HasCatalog(img, g, files) && HasCatalog(img', g, files) && DamagesEntry(img, img', g, files, k, p, m)
    requires b < CatalogCount(|files|) && b != k / 16
    ensures CatalogBlock(img', g, files, b) == CatalogBlock(img, g, files, b)
  {
    hide Owners, RootBlocks, RelOf, DifferWithin;
    CatalogInside(g, files, b);
    CatalogInside(g, files, k / 16);
    NamedBlock(files, Catalog(b));
    NamedBlock(files, Catalog(k / 16));
    var lo := Off(g, RootBlocks(g, files)[b]);
    OutsideSame(img, img', EntryOff(g, files, k) + p, m, lo, lo + BLOCK);
  }

  /** The damage, seen inside that block. */
  lemma DamageInBlock(img: seq<byte>, img': seq<byte>, g: Geometry, files: seq<File>, k: nat, p: nat, m: nat,
        past: seq<byte>)
    requires HasCatalog(img, g, files) && HasCatalog(img', g, files) && DamagesEntry(img, img', g, files, k, p, m)
    requires |past| == OVERHANG
    ensures DamagesSlot(CatalogBlock(img, g, files, k / 16) + past, CatalogBlock(img', g, files, k / 16) + past, k % 16,
                        p, m)
  {
    hide Owners, RootBlocks, RelOf, DifferWithin;
    CatalogInside(g, files, k / 16);
    var lo := Off(g, RootBlocks(g, files)[k / 16]);
    DifferInside(img, img', lo, lo + BLOCK, k % 16 * SLOT + p, m);
    DifferBefore(CatalogBlock(img, g, files, k / 16), CatalogBlock(img', g, files, k / 16), past, k % 16 * SLOT + p, m);
  }

  lemma DifferBefore(a: seq<byte>, b: seq<byte>, after: seq<byte>, at: nat, m: nat)
    requires DifferWithin(a, b, at, m) && a != b
    ensures DifferWithin(a + after, b + after, at, m) && a + after != b + after
  {
    assert (a + after)[..at] == a[..at] && (b + after)[..at] == b[..at];
    assert (a + after)[at + m..] == a[at + m..] + after && (b + after)[at + m..] == b[at + m..] + after;
    assert (a + after)[..|a|] == a && (b + after)[..|b|] == b;
  }
}
