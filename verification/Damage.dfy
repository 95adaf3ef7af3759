/** A formatted volume with the inode slot of one file changed. */
module Damage {
  import opened Bytes
  import opened Crc32c
  import opened Layout
  import opened Ownership
  import opened Contents
  import opened Reader
  import opened Enumeration
  import opened OnDisk
  import opened RoundTrip
  import opened Boot
  import opened EndToEnd

  // ---- any change to the slot -------------------------------------------------------------------------

  /** The volume with the inode slot of file `i` replaced by `slot`. */
  ghost predicate Replaced(d: Disk, d': Disk, g: Geometry, files: seq<File>, i: nat, slot: seq<byte>) {
    && i < |files| <= MAX_FILES && Laid(d, g, files) && Mounted(d', g) && |slot| == SLOT
    && InodeOff(g, i + 1) + SLOT <= |d.bytes| && d'.bytes == PutAt(d.bytes, InodeOff(g, i + 1), slot)
  }

  lemma ReplacedSlot(d: Disk, d': Disk, g: Geometry, files: seq<File>, i: nat, slot: seq<byte>, num: nat)
    requires Replaced(d, d', g, files, i, slot) && num < TOTAL_INODES
    ensures InodeOff(g, num) + SLOT <= |d'.bytes| && Off(g, DataStart(g)) <= |d'.bytes|
    ensures num == i + 1 ==> SlotAt(d'.bytes, g, num) == slot
    ensures num != i + 1 ==> SlotOk(d'.bytes, g, Complete(g, files), num)
  {
    hide Cataloged, InodeSlot, Complete, Mounted;
    assert SlotOk(d.bytes, g, Complete(g, files), num);
    InodeOffLinear(g, num);
    InodeOffLinear(g, i + 1);
    if num != i + 1 {
      PutAtElsewhere(d.bytes, InodeOff(g, i + 1), slot, InodeOff(g, num), InodeOff(g, num) + SLOT);
    }
  }

  lemma ReplacedKeepsCatalog(d: Disk, d': Disk, g: Geometry, files: seq<File>, i: nat, slot: seq<byte>)
    requires Replaced(d, d', g, files, i, slot)
    ensures Cataloged(d', g, files)
  {
    hide SlotOk, Owners, RootBlocks, InodesAre, Mounted, InodeOff;
    ReplacedSlot(d, d', g, files, i, slot, 0);
    SlotLeavesBlocks(d.bytes, g, Complete(g, files), i + 1, slot, d'.bytes);
  }

  /** The driver finds the new slot. */
  lemma ReplacedReads(d: Disk, d': Disk, t: nat, g: Geometry, files: seq<File>, i: nat, slot: seq<byte>)
    requires Replaced(d, d', g, files, i, slot)
    ensures i + 1 < TOTAL_INODES && SlotOf(d', t, SuperSeen(g), i + 1) == Some(slot)
  {
    hide Laid, ReadAt, InodeOff, Mounted;
    ReplacedSlot(d, d', g, files, i, slot, i + 1);
    ReadsSlotBytes(d', t, g, i + 1);
  }

  /** If the new slot does not make an inode that cannot be mapped, no inode of the volume is one. */
  lemma ReplacedIndexable(d: Disk, d': Disk, g: Geometry, files: seq<File>, i: nat, slot: seq<byte>, target: nat)
    requires Replaced(d, d', g, files, i, slot) && target == i + 1
    requires forall t :: MappableIfRead(ReadInode(d', t, SuperSeen(g), target))
    ensures Indexable(d', SuperSeen(g))
  {
    hide Replaced, ReadInode, MappableIfRead, SlotOk, Cataloged;
    ReplacedKeepsCatalog(d, d', g, files, i, slot);
    forall t: nat, num: nat ensures MappableIfRead(ReadInode(d', t, SuperSeen(g), num)) {
      if num != target {
        if num < TOTAL_INODES {
          ReplacedSlot(d, d', g, files, i, slot, num);
        }
        SlotMappable(d', t, g, files, num);
      }
    }
  }

  // ---- four damaged bytes ------------------------------------------------------------------------------

  /** At most four consecutive bytes of the inode of file `i` have changed, wholly inside or wholly outside
      its checksum field, and `slot` is what became of it. */
  ghost predicate InodeDamaged(d: Disk, d': Disk, g: Geometry, files: seq<File>, i: nat, slot: seq<byte>, p: nat,
                               m: nat) {
    && Replaced(d, d', g, files, i, slot) && slot != SlotAt(d.bytes, g, i + 1)
    && m <= 4 && p + m <= SLOT && (p + m <= SLOT_CK || p >= SLOT_CK)
    && DifferWithin(SlotAt(d.bytes, g, i + 1), slot, p, m)
  }

  /** The formatter's slot had a valid checksum, so the damaged one has not. */
  lemma DamagedSlotBroken(d: Disk, d': Disk, g: Geometry, files: seq<File>, i: nat, slot: seq<byte>, p: nat, m: nat)
    requires InodeDamaged(d, d', g, files, i, slot, p, m)
    ensures |slot| == SLOT && !Intact(slot, SLOT_CK)
  {
    hide Laid, Mounted, DifferWithin, Intact, EncodeInode;
    LaidSlot(d, g, files, i + 1);
    StoredIntact(g, files, i);
    DamageBreaks(SlotAt(d.bytes, g, i + 1), slot, SLOT_CK, p, m);
  }

  lemma StoredIntact(g: Geometry, files: seq<File>, i: nat)
    requires i < |files| <= MAX_FILES
    ensures Intact(InodeSlot(g, Complete(g, files), i + 1), SLOT_CK)
  {
    hide Intact, EncodeInode, Owners;
    InodeIntact(FileInode(g, i, Base(files, i), files[i]));
  }

  /** The driver refuses the damaged inode: with the checksum fault if the slot still looks in use, and
      without a code if it does not. */
  lemma DamagedInodeRefused(d: Disk, d': Disk, t: nat, g: Geometry, files: seq<File>, i: nat, slot: seq<byte>, p: nat,
                            m: nat)
    requires InodeDamaged(d, d', g, files, i, slot, p, m)
    ensures |slot| == SLOT
    ensures ReadInode(d', t, SuperSeen(g), i + 1)
         == if slot[4] != 0 then Bad(-4, [Diag.BAN_INODE_CHECKSUM], t + 1) else Bad(-3, [], t + 1)
  {
    hide Replaced, CrcStruct, ReadAt, ParseInode, SlotAt, DifferWithin;
    DamagedSlotBroken(d, d', g, files, i, slot, p, m);
    ReplacedReads(d, d', t, g, files, i, slot);
  }

  /** Loading it reports no size and copies nothing, and returns the checksum fault if the slot still looks
      in use. */
  lemma DamagedInodeNeverLoads(d: Disk, d': Disk, t: nat, g: Geometry, files: seq<File>, i: nat, slot: seq<byte>,
                               p: nat, m: nat, history: seq<Diag.Code>)
    requires InodeDamaged(d, d', g, files, i, slot, p, m)
    ensures MappableIfRead(ReadInode(d', t, SuperSeen(g), i + 1)) && |slot| == SLOT
    ensures var r := Load(d', t, SuperSeen(g), i + 1, history); r.size == None && r.content == []
    ensures slot[4] != 0 ==>
      Load(d', t, SuperSeen(g), i + 1, history)
      == Loaded(Diag.BAN_INODE_CHECKSUM, None, [], [Diag.BAN_INODE_CHECKSUM], t + 1)
  {
    hide InodeDamaged, ReadInode;
    DamagedInodeRefused(d, d', t, g, files, i, slot, p, m);
  }

  lemma DamagedIsReplaced(d: Disk, d': Disk, g: Geometry, files: seq<File>, i: nat, slot: seq<byte>, p: nat, m: nat)
    requires InodeDamaged(d, d', g, files, i, slot, p, m)
    ensures Replaced(d, d', g, files, i, slot) && i < |files| <= MAX_FILES
  {
    hide Laid, DifferWithin;
  }

  /** The menu offers every file; file `i` ends in a failed load, and every other as on the undamaged volume. */
  ghost predicate OneFileLost(d: Disk, t: nat, files: seq<File>, sb: seq<byte>, past: seq<byte>, i: nat)
    requires |sb| == BLOCK && |past| == OVERHANG && Indexable(d, ParseSuper(sb))
  {
    && Offered(d, t, sb, past).entries == Menu(files, 0, Min(|files|, MENU_MAX))
    && (i < MENU_MAX ==> Ends(d, t, sb, past, i) == LoadFailed)
    && forall j | 0 <= j < |files| && j < MENU_MAX && j != i :: BootsAs(d, t, files, sb, past, j)
  }

  ghost predicate BootsAs(d: Disk, t: nat, files: seq<File>, sb: seq<byte>, past: seq<byte>, j: nat)
    requires |sb| == BLOCK && |past| == OVERHANG && Indexable(d, ParseSuper(sb)) && j < |files|
  {
    if |files[j].data| < 16 then Ends(d, t, sb, past, j) == LoadFailed
    else
      && Ends(d, t, sb, past, j) == Handoff(|files[j].data|)
      && j < |Offered(d, t, sb, past).entries| && Picked(d, t, sb, past, j).content == files[j].data
  }

  /** Damage to one inode costs that file and no other. */
  lemma InodeDamageIsIsolated(d: Disk, d': Disk, t: nat, g: Geometry, files: seq<File>, sb: seq<byte>, past: seq<byte>,
                              i: nat, slot: seq<byte>, p: nat, m: nat)
    requires InodeDamaged(d, d', g, files, i, slot, p, m) && |past| == OVERHANG
    requires |sb| == BLOCK && ProbeSuper(sb) == (Diag.COM_VOLUME_PROBE_OK, []) && ParseSuper(sb) == SuperSeen(g)
    ensures Indexable(d', ParseSuper(sb)) && OneFileLost(d', t, files, sb, past, i)
  {
    hide InodeDamaged, Replaced, ProbeSuper, ParseSuper, Cataloged, Ends, Offered, ReadInode, SlotOk, Menu, Indexable;
    hide BootsAs;
    DamagedIsReplaced(d, d', g, files, i, slot, p, m);
    var target := i + 1;
    forall u ensures MappableIfRead(ReadInode(d', u, SuperSeen(g), target)) {
      DamagedInodeRefused(d, d', u, g, files, i, slot, p, m);
    }
    ReplacedIndexable(d, d', g, files, i, slot, target);
    ReplacedKeepsCatalog(d, d', g, files, i, slot);
    OffersFiles(d', t, g, files, sb, past);
    if i < MENU_MAX {
      DamagedPickFails(d, d', t, g, files, sb, past, i, slot, p, m);
    }
    forall j | 0 <= j < |files| && j < MENU_MAX && j != i ensures BootsAs(d', t, files, sb, past, j) {
      OtherBoots(d, d', t, g, files, sb, past, i, slot, j);
    }
  }

  lemma OtherBoots(d: Disk, d': Disk, t: nat, g: Geometry, files: seq<File>, sb: seq<byte>, past: seq<byte>, i: nat,
                   slot: seq<byte>, j: nat)
    requires Replaced(d, d', g, files, i, slot) && j < |files| && j < MENU_MAX && j != i && Cataloged(d', g, files)
    requires Probed(d', g, sb) && |past| == OVERHANG && Indexable(d', ParseSuper(sb))
    ensures BootsAs(d', t, files, sb, past, j)
  {
    hide Replaced, ProbeSuper, ParseSuper, Cataloged, Ends, Offered, Picked, SlotOk, Indexable, Reported, CleanReport;
    OtherWhole(d, d', g, files, i, slot, j);
    BootsPicked(d', t, g, files, sb, past, j);
  }

  lemma OtherWhole(d: Disk, d': Disk, g: Geometry, files: seq<File>, i: nat, slot: seq<byte>, j: nat)
    requires Replaced(d, d', g, files, i, slot) && j < |files| && j != i
    ensures SlotOk(d'.bytes, g, Complete(g, files), j + 1)
  {
    hide Laid, Mounted, SlotOk, InodeOff;
    ReplacedSlot(d, d', g, files, i, slot, j + 1);
  }

  lemma DamagedPickFails(d: Disk, d': Disk, t: nat, g: Geometry, files: seq<File>, sb: seq<byte>, past: seq<byte>,
                         i: nat, slot: seq<byte>, p: nat, m: nat)
    requires InodeDamaged(d, d', g, files, i, slot, p, m) && i < |files| && i < MENU_MAX && Cataloged(d', g, files)
    requires Probed(d', g, sb) && |past| == OVERHANG && Indexable(d', ParseSuper(sb))
    ensures Ends(d', t, sb, past, i) == LoadFailed
  {
    hide InodeDamaged, ProbeSuper, ParseSuper, Cataloged, Offered, ReadInode, Load, Indexable, Telemetry, CompleteLoad;
    OffersFiles(d', t, g, files, sb, past);
    var l := Offered(d', t, sb, past);
    assert l.entries[i] == Expected(files, i);
    DamagedInodeNeverLoads(d, d', l.t, g, files, i, slot, p, m, ProbeSuper(sb).1 + l.raised);
    HandoffIsSound(d', t, sb, past, i);
  }
}
