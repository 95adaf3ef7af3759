/** The whole loop: the formatter writes a volume, the boot loader reads it and hands over. */
module EndToEnd {
  import opened Bytes
  import opened Layout
  import opened Ownership
  import opened Contents
  import opened Reader
  import opened Owfs
  import opened Mkfs
  import opened OnDisk
  import opened RoundTrip
  import opened Boot
  import opened Enumeration

  /** On a formatted volume every readable inode can be mapped. */
  lemma LaidIndexable(d: Disk, g: Geometry, files: seq<File>)
    requires Laid(d, g, files)
    ensures Indexable(d, SuperSeen(g))
  {
    hide Laid, ReadInode, Mappable;
    forall t, num ensures MappableIfRead(ReadInode(d, t, SuperSeen(g), num)) {
      InodeIndexable(d, t, g, files, num);
    }
  }

  lemma InodeIndexable(d: Disk, t: nat, g: Geometry, files: seq<File>, num: nat)
    requires Laid(d, g, files)
    ensures MappableIfRead(ReadInode(d, t, SuperSeen(g), num))
  {
    hide Cataloged, InodesAre, SlotOk, ReadInode;
    if num < TOTAL_INODES {
      LaidSlot(d, g, files, num);
    }
    SlotMappable(d, t, g, files, num);
  }

  /** An inode whose slot the formatter wrote can be mapped. */
  lemma SlotMappable(d: Disk, t: nat, g: Geometry, files: seq<File>, num: nat)
    requires Cataloged(d, g, files) && (num < TOTAL_INODES ==> SlotOk(d.bytes, g, Complete(g, files), num))
    ensures MappableIfRead(ReadInode(d, t, SuperSeen(g), num))
  {
    hide BlocksAre, Mounted, Owners, ReadAt, Intact, RootBlocks, RootSeen, FileSeen, SlotOk;
    if num == 0 {
      ReadsRoot(d, t, g, files);
    } else if num <= |files| {
      ReadsFileInode(d, t, g, files, num - 1);
    } else if num < TOTAL_INODES {
      TableInside(g, files, |d.bytes|);
      ReadsSlot(d, t, g, files, num);
    }
  }

  /** The driver's superblock and first read, on a formatted volume. */
  ghost predicate Probed(d: Disk, g: Geometry, sb: seq<byte>) {
    && |sb| == BLOCK && ProbeSuper(sb) == (Diag.COM_VOLUME_PROBE_OK, []) && ParseSuper(sb) == SuperSeen(g)
    && Indexable(d, SuperSeen(g))
  }

  lemma ProbesFormatted(d: Disk, t: nat, g: Geometry, files: seq<File>, volumeLabel: seq<byte>)
    requires Formatted(d, g, files, volumeLabel)
    ensures ReadAt(d, t, SUPER_BLOCK).Some? && Probed(d, g, ReadAt(d, t, SUPER_BLOCK).value)
  {
    hide Laid, HasSuper, ProbeSuper, ParseSuper, Indexable, ReadAt;
    ProbeAccepts(d, t, g, files, volumeLabel);
    LaidIndexable(d, g, files);
  }

  lemma ProbedMappable(d: Disk, t: nat, g: Geometry, sb: seq<byte>, num: nat)
    requires Probed(d, g, sb)
    ensures MappableIfRead(Reader.ReadInode(d, t, SuperSeen(g), num))
  {
    hide ProbeSuper, ParseSuper, Reader.ReadInode;
  }

  /** The menu offers the first 32 files in order, and the driver reports no fault. */
  lemma OffersFiles(d: Disk, t: nat, g: Geometry, files: seq<File>, sb: seq<byte>, past: seq<byte>)
    requires Cataloged(d, g, files) && Probed(d, g, sb) && |past| == OVERHANG
    ensures var l := Offered(d, t, sb, past);
      && l.entries == Menu(files, 0, Min(|files|, MENU_MAX)) && l.rc == |l.entries|
      && l.raised == Telemetry(|files|, MENU_MAX)
  {
    hide Cataloged, ProbeSuper, ParseSuper, Indexable, Reader.Enumerate, Reader.ReadInode, Telemetry;
    ProbedMappable(d, t, g, sb, 0);
    ListsFiles(d, t, g, files, MENU_MAX, past);
  }

  /** Picking an entry loads exactly that file. */
  lemma LoadsPicked(d: Disk, t: nat, g: Geometry, files: seq<File>, sb: seq<byte>, past: seq<byte>, pick: nat)
    requires Cataloged(d, g, files) && Probed(d, g, sb) && |past| == OVERHANG
    requires pick < |files| && SlotOk(d.bytes, g, Complete(g, files), pick + 1)
    requires pick < |files| && pick < MENU_MAX && pick < |Offered(d, t, sb, past).entries|
    ensures |files[pick].data| < 16 ==> Picked(d, t, sb, past, pick).rc == Diag.SOFT_KERNEL_TOO_SMALL
    ensures var r := Picked(d, t, sb, past, pick);
      |files[pick].data| >= 16 ==>
        && r.rc == Diag.COM_KERNEL_LOAD_OK && r.raised == [r.rc]
        && r.size == Some(|files[pick].data|) && r.content == files[pick].data
  {
    hide Cataloged, SlotOk, ProbeSuper, ParseSuper, Indexable, Load, Reader.ReadInode, Telemetry, Offered;
    OffersFiles(d, t, g, files, sb, past);
    var l := Offered(d, t, sb, past);
    assert l.entries[pick] == Expected(files, pick);
    LoadsFile(d, l.t, g, files, pick, ProbeSuper(sb).1 + l.raised);
  }

  /** So a pick ends in a handoff of that file. */
  lemma BootsPicked(d: Disk, t: nat, g: Geometry, files: seq<File>, sb: seq<byte>, past: seq<byte>, pick: nat)
    requires Cataloged(d, g, files) && Probed(d, g, sb) && |past| == OVERHANG && pick < |files| && pick < MENU_MAX
    requires SlotOk(d.bytes, g, Complete(g, files), pick + 1)
    ensures |Offered(d, t, sb, past).entries| > pick
    ensures |files[pick].data| < 16 ==> Ends(d, t, sb, past, pick) == LoadFailed
    ensures |files[pick].data| >= 16 ==> Ends(d, t, sb, past, pick) == Handoff(|files[pick].data|)
    ensures |files[pick].data| >= 16 ==> Picked(d, t, sb, past, pick).content == files[pick].data
    ensures |files[pick].data| >= 16 ==> Reported(d, t, sb, past, pick) == CleanReport(files)
  {
    hide Cataloged, SlotOk, ProbeSuper, ParseSuper, Indexable, Telemetry, Offered, Picked;
    OffersFiles(d, t, g, files, sb, past);
    LoadsPicked(d, t, g, files, sb, past, pick);
  }

  lemma PickBoots(d: Disk, t: nat, g: Geometry, files: seq<File>, sb: seq<byte>, past: seq<byte>, pick: nat)
    requires Laid(d, g, files) && Probed(d, g, sb) && |past| == OVERHANG && pick < |files| && pick < MENU_MAX
    ensures |Offered(d, t, sb, past).entries| > pick
    ensures |files[pick].data| < 16 ==> Ends(d, t, sb, past, pick) == LoadFailed
    ensures |files[pick].data| >= 16 ==>
      && Ends(d, t, sb, past, pick) == Handoff(|files[pick].data|)
      && Picked(d, t, sb, past, pick).content == files[pick].data
      && Reported(d, t, sb, past, pick) == CleanReport(files)
  {
    hide Cataloged, InodesAre, ProbeSuper, ParseSuper, Indexable, SlotOk, Offered, Picked, Ends, Reported, CleanReport;
    LaidSlot(d, g, files, pick + 1);
    BootsPicked(d, t, g, files, sb, past, pick);
  }

  /** What an undisturbed run reports: no warning and no fault. */
  function CleanReport(files: seq<File>): seq<Diag.Code> {
    Telemetry(|files|, MENU_MAX) + [Diag.COM_KERNEL_LOAD_OK, COM_BOOT_HANDOFF_OK]
  }

  /** What must come of a run on a freshly formatted volume. */
  predicate RightOutcome(files: seq<File>, user: Session, o: Outcome) {
    match Chosen(Min(|files|, MENU_MAX), user)
    case None => o == MenuOpen
    case Some(pick) =>
      if pick < 0 then o == if pick == Screen.SHUTDOWN then Shutdown else Reboot
      else if |files[pick].data| < 16 then o == LoadFailed
      else o == Handoff(|files[pick].data|)
  }

  lemma RunsRight(d: Disk, t: nat, g: Geometry, files: seq<File>, sb: seq<byte>, past: seq<byte>, user: Session)
    requires Laid(d, g, files) && Probed(d, g, sb) && |past| == OVERHANG && |sb| == BLOCK
    requires Indexable(d, ParseSuper(sb))
    ensures RightOutcome(files, user, Finishes(d, t, sb, past, user))
    ensures Chosen(Offered(d, t, sb, past).rc, user) == Chosen(Min(|files|, MENU_MAX), user)
  {
    hide Cataloged, InodesAre, ProbeSuper, ParseSuper, Indexable, Chosen, Picked, Offered, CleanReport, Reported, Menu;
    OffersFiles(d, t, g, files, sb, past);
    var answer := Chosen(Min(|files|, MENU_MAX), user);
    if answer.Some? && answer.value >= 0 {
      PickBoots(d, t, g, files, sb, past, answer.value);
    }
  }

  /** The kernel the run handed over to is the picked file, and nothing but success was reported. */
  lemma HandsOverPicked(d: Disk, t: nat, g: Geometry, files: seq<File>, sb: seq<byte>,
                        past: seq<byte>, user: Session, size: nat, was: seq<byte>, now: seq<byte>,
                        history: seq<Diag.Code>)
    requires Laid(d, g, files) && Probed(d, g, sb) && |past| == OVERHANG && |sb| == BLOCK
    requires Indexable(d, ParseSuper(sb))
    requires Finishes(d, t, sb, past, user) == Handoff(size)
    requires HandedOver(d, t, sb, past, Chosen(Offered(d, t, sb, past).rc, user), size, was, now, history)
    ensures var answer := Chosen(Min(|files|, MENU_MAX), user);
      && answer.Some? && 0 <= answer.value < |files|
      && Launched(was, now, files[answer.value].data, |files[answer.value].data|) && history == CleanReport(files)
  {
    hide Laid, ProbeSuper, ParseSuper, Indexable, Chosen, Picked, Offered, CleanReport, Reported, Menu, Launched;
    RunsRight(d, t, g, files, sb, past, user);
    var answer := Chosen(Min(|files|, MENU_MAX), user);
    PickBoots(d, t, g, files, sb, past, answer.value);
  }

  lemma SizePublished(was: seq<byte>, now: seq<byte>, content: seq<byte>, size: nat)
    requires |now| == RAM_SIZE
    ensures Launched(was, now, content, size) ==> Get32(now, CONFIG_ADDR + 8) == size
  {
  }

  /** Formats `image`, boots from it with an untouched machine and any user: the run ends as the
      menu's answer says, and a picked file is in memory at the kernel address, byte for byte, with
      its size in the boot configuration. None stands for the formatter's exceptions. */
  method FormatAndBoot(image: seq<byte>, total: nat, volumeLabel: seq<byte>, files: seq<File>, ram: array<byte>,
        user: Session, ghost hi: nat)
    returns (o: Option<Outcome>, ghost history: seq<Diag.Code>)
    requires |files| <= MAX_FILES && ram.Length == RAM_SIZE && PARTITION_LBA + total * 8 < TWO_32
    requires total >= FIXED_OVERHEAD + 2 ==> ZeroedFor(image, RawGeometry(PARTITION_LBA * SECTOR, total), files, hi)
    modifies ram
    ensures o == None <==>
      total < FIXED_OVERHEAD + 2 || |Owners(files)| > DataBlocks(RawGeometry(PARTITION_LBA * SECTOR, total))
    ensures o.Some? ==> RightOutcome(files, user, o.value)
    ensures o.Some? && o.value.Handoff? ==> var answer := Chosen(Min(|files|, MENU_MAX), user);
      && answer.Some? && 0 <= answer.value < |files| && history == CleanReport(files)
      && Launched(old(ram[..]), ram[..], files[answer.value].data, |files[answer.value].data|)
      && Get32(ram[..], CONFIG_ADDR + 8) == |files[answer.value].data|
  {
    hide VolumeHolds, HasSuper, ZeroUpToFrom, Owners, DataBlocks, Launched, Formatted, Laid, Probed, Indexable;
    hide ParseSuper, ReadAt, Finishes, Offered, Superblock.ReadsAs;
    hide HandedOver, RightOutcome, Chosen, CleanReport;
    history := [];
    var vol := FormatOwfs(image, total, volumeLabel, files, true, PARTITION_LBA * SECTOR, hi);
    if vol == null {
      return None, [];
    }
    var d := Disk(vol.image, _ => false);
    ghost var g, was := vol.g, ram[..];
    assert Mounted(d, g);
    HeldIsFormatted(d, g, files, hi - TotalSlack(files), volumeLabel);
    ProbesFormatted(d, 0, g, files, volumeLabel);
    var drv := new Driver(d, ram);
    var entries := new Entry[MENU_MAX](_ => Entry(0, 0, [], 0));
    ghost var sb := ReadAt(d, 0, SUPER_BLOCK).value;
    ghost var past := drv.Past();
    ProbedIndexable(d, g, sb);
    RunsRight(d, 1, g, files, sb, past, user);
    var outcome := Kmain(drv, entries, user);
    history := drv.diag.history;
    if outcome.Handoff? {
      HandsOverPicked(d, 1, g, files, sb, past, user, outcome.size, was, ram[..], history);
      ghost var kernel := files[Chosen(Min(|files|, MENU_MAX), user).value].data;
      SizePublished(was, ram[..], kernel, |kernel|);
    }
    o := Some(outcome);
  }

  lemma ProbedIndexable(d: Disk, g: Geometry, sb: seq<byte>)
    requires Probed(d, g, sb)
    ensures |sb| == BLOCK && Indexable(d, ParseSuper(sb))
  {
    hide Indexable, ProbeSuper, ParseSuper;
  }

  // ---- the image around the volume --------------------------------------------------------------

  /** One byte of kernel shortens the image by 4095 bytes. */
  lemma OneByteFileShrinksImage(name: seq<byte>, b: byte)
    requires |name| <= NAME_BYTES
    ensures TotalSlack([RawFile(name, [b])]) == 4095
  {
    var f: File := RawFile(name, [b]);
    assert BlocksOf(f) == 1;
    assert [f][..0] == [];
    assert TotalSlack([f][..0]) == 0;
  }

  // ---- the image the builder makes ----------------------------------------------------------------

  const DISK_SECTORS: nat := 198656
  const BACKUP_GPT: nat := DISK_SECTORS - 33
  const SHIPPED_BLOCKS: nat := 2048

  /** The builder's volume has room for any kernel the format can hold, whatever its size, as long
      as the image is still zero between the bitmap and the backup GPT. */
  lemma ShippedImageFits(image: seq<byte>, kernel: File)
    requires |image| == DISK_SECTORS * SECTOR
    requires forall k :: (PARTITION_LBA + BITMAP_START * 8) * SECTOR <= k < BACKUP_GPT * SECTOR ==> image[k] == 0
    ensures var g: Geometry := RawGeometry(PARTITION_LBA * SECTOR, SHIPPED_BLOCKS);
      |Owners([kernel])| <= DataBlocks(g) && ZeroedFor(image, g, [kernel], BACKUP_GPT * SECTOR)
  {
    OneFile(kernel);
    hide Owners, TotalSlack, Slack, BlocksOf;
  }

  lemma OneFile(kernel: File)
    ensures |Owners([kernel])| <= MAX_FILE_BLOCKS + 2 && TotalSlack([kernel]) == Slack(kernel) < BLOCK
  {
    hide BlocksOf;
    assert [kernel][..0] == [];
  }
}
