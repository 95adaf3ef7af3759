/** The boot run of `kmain`: probe, enumerate, menu, load, hand off. */
module Boot {
  import opened Bytes
  import opened Crc32c
  import opened Layout
  import opened Reader
  import opened Owfs
  import opened Diag
  import opened Loading
  import Screen = Menu

  const KERNEL_ADDR: nat := 0x20_0000
  const MENU_MAX: nat := 32
  const COM_BOOT_HANDOFF_OK: Code := 0x0011_AC23
  const TIMEOUT: int := 10

  // ---- the boot configuration -----------------------------------------------------------------------

  const CONFIG_ADDR: nat := 0x510
  const CONFIG_BYTES: nat := 28
  const CONFIG_MAGIC: nat := 0x324C_424D
  const MODE_BASE: nat := 0

  /** The stores that publish the configuration for the kernel: magic, drive and size, then active and
      pending mode, restart flag and change count. `slack` is what the compiler leaves in the padding
      after the flag; the three declared padding bytes after the drive are not stored. */
  function ConfigStores(size: nat, slack: seq<byte>): (es: seq<Edit>)
    requires |slack| == 3
    ensures |es| == 8 && Ascending(es) && Fit(CONFIG_ADDR + CONFIG_BYTES, es)
  {
    [ Edit(CONFIG_ADDR, Le32(CONFIG_MAGIC)), Edit(CONFIG_ADDR + 4, [0]), Edit(CONFIG_ADDR + 8, Le32(size)),
      Edit(CONFIG_ADDR + 12, Le32(MODE_BASE)), Edit(CONFIG_ADDR + 16, Le32(MODE_BASE)), Edit(CONFIG_ADDR + 20, [0]),
      Edit(CONFIG_ADDR + 21, slack), Edit(CONFIG_ADDR + 24, Le32(0)) ]
  }

  /** The configuration as the kernel reads it. */
  predicate ConfigAt(memory: seq<byte>, size: nat)
    requires |memory| == RAM_SIZE
  {
    && Get32(memory, CONFIG_ADDR) == CONFIG_MAGIC && memory[CONFIG_ADDR + 4] == 0
    && Get32(memory, CONFIG_ADDR + 8) == size
    && Get32(memory, CONFIG_ADDR + 12) == Get32(memory, CONFIG_ADDR + 16) == MODE_BASE
    && memory[CONFIG_ADDR + 20] == 0 && Get32(memory, CONFIG_ADDR + 24) == 0
  }

  ghost predicate Published(was: seq<byte>, now: seq<byte>, size: nat) {
    && |was| == |now| == RAM_SIZE && ConfigAt(now, size)
    && now[..CONFIG_ADDR] == was[..CONFIG_ADDR]
    && now[CONFIG_ADDR + 5..CONFIG_ADDR + 8] == was[CONFIG_ADDR + 5..CONFIG_ADDR + 8]
    && now[CONFIG_ADDR + CONFIG_BYTES..] == was[CONFIG_ADDR + CONFIG_BYTES..]
  }

  lemma FitsRam(size: nat, slack: seq<byte>)
    requires |slack| == 3
    ensures Fit(RAM_SIZE, ConfigStores(size, slack))
  {
  }

  lemma ConfigStored(was: seq<byte>, size: nat, slack: seq<byte>, k: nat)
    requires |was| == RAM_SIZE && |slack| == 3 && Fit(RAM_SIZE, ConfigStores(size, slack)) && k < 8
    ensures var e := ConfigStores(size, slack)[k];
      Apply(was, ConfigStores(size, slack))[e.at..e.at + |e.bytes|] == e.bytes
  {
    hide Apply, ConfigStores, Ascending, Fit;
    var es := ConfigStores(size, slack);
    NothingApart(es[k].at, |es[k].bytes|);
    NothingFits(RAM_SIZE);
    AscendingReads(was, es, [], k);
    assert es + [] == es;
  }

  lemma NothingApplied(was: seq<byte>)
    ensures Fit(|was|, []) && Apply(was, []) == was
  {
  }

  lemma NothingApart(o: nat, n: nat)
    ensures Apart(o, n, [])
  {
  }

  lemma NothingFits(n: nat)
    ensures Fit(n, [])
  {
  }

  /** What the stores amount to. */
  lemma ConfigReads(was: seq<byte>, size: nat, slack: seq<byte>)
    requires |was| == RAM_SIZE && |slack| == 3 && size < TWO_32 && Fit(RAM_SIZE, ConfigStores(size, slack))
    ensures Published(was, Apply(was, ConfigStores(size, slack)), size)
  {
    hide Apply, Le32, Get32;
    var now := Apply(was, ConfigStores(size, slack));
    ConfigStored(was, size, slack, 0);
    ConfigStored(was, size, slack, 1);
    ConfigStored(was, size, slack, 2);
    ConfigStored(was, size, slack, 3);
    ConfigStored(was, size, slack, 4);
    ConfigStored(was, size, slack, 5);
    ConfigStored(was, size, slack, 7);
    FieldReads32(now, CONFIG_ADDR, CONFIG_MAGIC);
    FieldReads32(now, CONFIG_ADDR + 8, size);
    FieldReads32(now, CONFIG_ADDR + 12, MODE_BASE);
    FieldReads32(now, CONFIG_ADDR + 16, MODE_BASE);
    FieldReads32(now, CONFIG_ADDR + 24, 0);
    assert now[CONFIG_ADDR + 4..CONFIG_ADDR + 5][0] == now[CONFIG_ADDR + 4];
    assert now[CONFIG_ADDR + 20..CONFIG_ADDR + 21][0] == now[CONFIG_ADDR + 20];
    ConfigKeeps(was, size, slack);
  }

  lemma ConfigKeeps(was: seq<byte>, size: nat, slack: seq<byte>)
    requires |was| == RAM_SIZE && |slack| == 3 && Fit(RAM_SIZE, ConfigStores(size, slack))
    ensures var now, end := Apply(was, ConfigStores(size, slack)), CONFIG_ADDR + CONFIG_BYTES;
      && now[..CONFIG_ADDR] == was[..CONFIG_ADDR] && now[end..] == was[end..]
      && now[CONFIG_ADDR + 5..CONFIG_ADDR + 8] == was[CONFIG_ADDR + 5..CONFIG_ADDR + 8]
  {
    hide Apply, Le32;
    var es, end := ConfigStores(size, slack), CONFIG_ADDR + CONFIG_BYTES;
    var now := Apply(was, es);
    ApplyKeeps(was, es, 0, CONFIG_ADDR);
    ApplyKeeps(was, es, CONFIG_ADDR + 5, 3);
    ApplyKeeps(was, es, end, RAM_SIZE - end);
    assert now[..CONFIG_ADDR] == now[0..0 + CONFIG_ADDR] && was[..CONFIG_ADDR] == was[0..0 + CONFIG_ADDR];
    assert now[end..] == now[end..end + (RAM_SIZE - end)] && was[end..] == was[end..end + (RAM_SIZE - end)];
  }

  /** Publishes the boot configuration. */
  method PublishConfig(ram: array<byte>, size: nat)
    requires ram.Length == RAM_SIZE && size < TWO_32
    modifies ram
    ensures Published(old(ram[..]), ram[..], size)
  {
    hide Apply, ConfigStores, Published;
    ghost var was := ram[..];
    ghost var possible := Zeros(3);
    assert |possible| == 3;
    var slack: seq<byte> :| |slack| == 3;
    var es := ConfigStores(size, slack);
    FitsRam(size, slack);
    assert es[..0] == [];
    NothingApplied(was);
    for k := 0 to |es|
      invariant Fit(RAM_SIZE, es[..k]) && ram[..] == Apply(was, es[..k])
    {
      assert es[..k + 1] == es[..k] + [es[k]];
      ApplySnoc(was, es[..k], es[k]);
      Store(ram, es[k].at, es[k].bytes);
    }
    assert es[..|es|] == es;
    ConfigReads(was, size, slack);
  }

  // ---- the run ------------------------------------------------------------------------------------------

  datatype Outcome = ProbeFailed(code: Code) | MenuOpen | Reboot | Shutdown | LoadFailed | TooSmall | Handoff(size: nat)

  /** What happens at the keyboard and the clock while the menu is up. */
  datatype Session = Session(start: int, polls: seq<Screen.Poll>)

  /** The menu's answer to a session, when it offers `count` entries. */
  function Chosen(count: int, user: Session): (a: Option<int>)
    ensures a.Some? ==> a.value in {Screen.REBOOT, Screen.SHUTDOWN} || 0 <= a.value < count
  {
    if count <= 0 then
      EmptyChoice(user.polls, 0);
      Screen.EmptyAnswer(user.polls, 0)
    else
      Screen.StartShows(count);
      Screen.AnswerInRange(count, TIMEOUT, user.start, user.polls, 0, Screen.Window(0, 0));
      Screen.Answer(count, TIMEOUT, user.start, user.polls, 0, Screen.Window(0, 0))
  }

  lemma {:induction false} EmptyChoice(polls: seq<Screen.Poll>, k: nat)
    requires k <= |polls|
    ensures var a := Screen.EmptyAnswer(polls, k); a.Some? ==> a.value == Screen.REBOOT
    decreases |polls| - k
  {
    if k < |polls| {
      EmptyChoice(polls, k + 1);
    }
  }

  /** Left alone, with a steady clock, the menu picks the first entry once ten seconds have passed. */
  lemma UnattendedPicksFirst(count: int, user: Session, n: nat)
    requires count > 0 && Screen.NeverBackwards(user.start, user.polls) && Screen.Frequent(user.start, user.polls)
    requires n < |user.polls| && forall k :: 0 <= k <= n ==>
      user.polls[k].key !in {Screen.Enter, Screen.Esc, Screen.RebootKey, Screen.ShutdownKey}
    requires user.polls[n].time - user.start >= 10 && forall k :: 0 <= k < n ==> user.polls[k].time - user.start < 10
    ensures Chosen(count, user) == Some(0)
  {
    hide Screen.Answer, Screen.Shows, Screen.After, Screen.Keys;
    Screen.EndsExactly(count, TIMEOUT, user.start, user.polls, n);
  }

  /** Every inode that can be read has a block map the driver can index. */
  ghost predicate Indexable(d: Disk, s: Layout.Super) {
    forall t, num :: MappableIfRead(ReadInode(d, t, s, num))
  }

  /** The entries the menu offers. */
  ghost function Offered(d: Disk, t: nat, sb: seq<byte>, past: seq<byte>): Listing
    requires |sb| == BLOCK && |past| == OVERHANG && Indexable(d, ParseSuper(sb))
  {
    assert MappableIfRead(ReadInode(d, t, ParseSuper(sb), 0));
    Reader.Enumerate(d, t, ParseSuper(sb), MENU_MAX, past)
  }

  lemma {:induction false} CountsEntries(d: Disk, t: nat, ino: Inode, idx: nat, max: nat, past: seq<byte>,
        entries: seq<Entry>, raised: seq<Code>)
    requires Mappable(ino) && |past| == OVERHANG
    ensures var l := EnumFrom(d, t, ino, idx, max, past, entries, raised); l.rc < 0 || l.rc == |l.entries|
    decreases ino.blockCount - idx
  {
    hide FetchBlock, Scan;
    if idx < ino.blockCount {
      match FetchBlock(d, t, ino, idx, -4)
      case Bad(_, _, _) => FetchErrors(d, t, ino, idx);
      case Good(block, t') =>
        var s := Scan(block + past, 0, max, entries, raised);
        CountsEntries(d, t', ino, idx + 1, max, past, s.entries, s.raised);
    }
  }

  lemma FetchErrors(d: Disk, t: nat, ino: Inode, idx: nat)
    requires Mappable(ino)
    ensures FetchBlock(d, t, ino, idx, -4).Bad? ==> FetchBlock(d, t, ino, idx, -4).rc < 0
  {
  }

  lemma OfferedCounts(d: Disk, t: nat, sb: seq<byte>, past: seq<byte>)
    requires |sb| == BLOCK && |past| == OVERHANG && Indexable(d, ParseSuper(sb))
    ensures var l := Offered(d, t, sb, past); l.rc < 0 || l.rc == |l.entries|
  {
    hide EnumFrom;
    assert MappableIfRead(ReadInode(d, t, ParseSuper(sb), 0));
    match ReadInode(d, t, ParseSuper(sb), 0)
    case Bad(_, _, _) =>
    case Good(root, t') => CountsEntries(d, t', root, 0, MENU_MAX, past, [], []);
  }

  /** The load of the picked entry, with everything raised so far in the ring. */
  ghost function Picked(d: Disk, t: nat, sb: seq<byte>, past: seq<byte>, pick: nat): Loaded
    requires |sb| == BLOCK && |past| == OVERHANG && Indexable(d, ParseSuper(sb))
    requires pick < |Offered(d, t, sb, past).entries|
  {
    var l := Offered(d, t, sb, past);
    assert MappableIfRead(ReadInode(d, l.t, ParseSuper(sb), l.entries[pick].inode));
    Load(d, l.t, ParseSuper(sb), l.entries[pick].inode, ProbeSuper(sb).1 + l.raised)
  }

  function EndOfLoad(r: Loaded): Outcome {
    if r.rc != COM_KERNEL_LOAD_OK then LoadFailed
    else if r.size.None? || r.size.value < 16 then TooSmall
    else Handoff(r.size.value)
  }

  /** How the run ends when superblock `sb` could be read; `pick` is the menu's answer. */
  ghost function Ends(d: Disk, t: nat, sb: seq<byte>, past: seq<byte>, pick: int): Outcome
    requires |sb| == BLOCK && |past| == OVERHANG && Indexable(d, ParseSuper(sb))
  {
    if !IsSuccess(ProbeSuper(sb).0) then ProbeFailed(ProbeSuper(sb).0)
    else
      var l := Offered(d, t, sb, past);
      if pick == Screen.SHUTDOWN then Shutdown
      else if pick < 0 || pick >= l.rc then Reboot
      else
        OfferedCounts(d, t, sb, past);
        EndOfLoad(Picked(d, t, sb, past, pick))
  }

  /** How the run ends for whatever happens at the menu. */
  ghost function Finishes(d: Disk, t: nat, sb: seq<byte>, past: seq<byte>, user: Session): Outcome
    requires |sb| == BLOCK && |past| == OVERHANG && Indexable(d, ParseSuper(sb))
  {
    if !IsSuccess(ProbeSuper(sb).0) then ProbeFailed(ProbeSuper(sb).0)
    else
      match Chosen(Offered(d, t, sb, past).rc, user)
      case None => MenuOpen
      case Some(pick) => Ends(d, t, sb, past, pick)
  }

  /** The run gets past the probe exactly when the superblock is acceptable. */
  lemma ProbeStopsExactly(d: Disk, t: nat, sb: seq<byte>, past: seq<byte>, user: Session)
    requires |sb| == BLOCK && |past| == OVERHANG && Indexable(d, ParseSuper(sb))
    ensures Finishes(d, t, sb, past, user).ProbeFailed? <==> !Acceptable(sb)
  {
    hide ProbeSuper, ParseSuper, Acceptable, Offered, Picked, Chosen;
    ProbeSucceedsExactly(sb);
  }

  /** A damaged superblock stops the run. */
  lemma DamagedSuperStops(d: Disk, t: nat, sb: seq<byte>, sb': seq<byte>, past: seq<byte>, user: Session, p: nat,
                          m: nat)
    requires |sb| == |sb'| == BLOCK && |past| == OVERHANG && Indexable(d, ParseSuper(sb'))
    requires Acceptable(sb) && DifferWithin(sb, sb', p, m) && sb != sb' && m <= 4
    requires p + m <= 0x84 || 0x88 <= p || (0x84 <= p && p + m <= 0x88)
    ensures Finishes(d, t, sb', past, user).ProbeFailed?
    ensures (4 <= p && p + m <= 8) || 0x0C <= p ==> Finishes(d, t, sb', past, user) == ProbeFailed(BAN_SB_CHECKSUM)
  {
    hide ProbeSuper, ParseSuper, Acceptable, Offered, Picked, Chosen, DifferWithin;
    DamagedSuperRefused(sb, sb', p, m);
  }

  /** Control is handed over only after every block of a readable inode was copied and the size in
      that inode reported, and the driver's success code is never a stale one. As many bytes as that
      size were copied exactly when the inode's block count is honest. */
  lemma HandoffIsSound(d: Disk, t: nat, sb: seq<byte>, past: seq<byte>, pick: int)
    requires |sb| == BLOCK && |past| == OVERHANG && Indexable(d, ParseSuper(sb))
    ensures Ends(d, t, sb, past, pick) != TooSmall
    ensures Ends(d, t, sb, past, pick).Handoff? ==> SoundHandoff(d, t, sb, past, pick, Ends(d, t, sb, past, pick).size)
  {
    hide Load, ReadInode, ProbeSuper, Enumerate, HonestCount, LoadedBlocks;
    OfferedCounts(d, t, sb, past);
    var l := Offered(d, t, sb, past);
    if 0 <= pick < |l.entries| {
      var s, num := ParseSuper(sb), l.entries[pick].inode;
      assert MappableIfRead(ReadInode(d, t, s, 0)) && MappableIfRead(ReadInode(d, l.t, s, num));
      BootRunIsSound(d, sb, t, s, MENU_MAX, past, num);
      LoadSuccessExactly(d, l.t, s, num, ProbeSuper(sb).1 + l.raised);
      SizeHonestExactly(d, l.t, s, num, ProbeSuper(sb).1 + l.raised);
      SizeInRange(d, l.t, s, num, ProbeSuper(sb).1 + l.raised);
    }
  }

  /** What a handoff with `size` vouches for. */
  ghost predicate SoundHandoff(d: Disk, t: nat, sb: seq<byte>, past: seq<byte>, pick: int, size: nat)
    requires |sb| == BLOCK && |past| == OVERHANG && Indexable(d, ParseSuper(sb))
  {
    var l := Offered(d, t, sb, past);
    && 0 <= pick < |l.entries|
    && CompleteLoad(d, l.t, ParseSuper(sb), l.entries[pick].inode, size, Picked(d, t, sb, past, pick).content)
  }

  /** The inode could be read, `content` is all its blocks and `size` its size. */
  ghost predicate CompleteLoad(d: Disk, t: nat, s: Layout.Super, num: nat, size: nat, content: seq<byte>) {
    var i := ReadInode(d, t, s, num);
    && i.Good? && Mappable(i.value) && size == i.value.size
    && AllCopied(d, i.t, i.value, 0, content) && LoadedBlocks(d, i.t, i.value, content)
    && (|content| == size <==> HonestCount(i.value))
  }

  /** A picked inode of 100 bytes and no blocks ends in a handoff of 100 bytes of which none was copied. */
  lemma HollowHandoff(d: Disk, t: nat, sb: seq<byte>, past: seq<byte>, pick: int)
    requires |sb| == BLOCK && |past| == OVERHANG && Indexable(d, ParseSuper(sb)) && IsSuccess(ProbeSuper(sb).0)
    requires var l := Offered(d, t, sb, past);
      0 <= pick < l.rc && pick < |l.entries| && HollowAt(d, l.t, ParseSuper(sb), l.entries[pick].inode)
    ensures Ends(d, t, sb, past, pick) == Handoff(100) && Picked(d, t, sb, past, pick).content == []
  {
    hide ProbeSuper, ParseSuper, Offered, ReadInode, Load, HollowAt;
    var l := Offered(d, t, sb, past);
    HollowFile(d, l.t, ParseSuper(sb), l.entries[pick].inode, ProbeSuper(sb).1 + l.raised);
  }

  lemma SizeInRange(d: Disk, t: nat, s: Layout.Super, num: nat, history: seq<Code>)
    requires MappableIfRead(ReadInode(d, t, s, num))
    ensures var r := Load(d, t, s, num, history); r.size.Some? ==> 16 <= r.size.value <= KERNEL_MAX
  {
    hide ReadInode, LoadFrom, AllCopied;
    match ReadInode(d, t, s, num)
    case Bad(_, _, _) =>
    case Good(ino, t') => LoadFromSucceeds(d, t', ino, 0, [], history);
  }

  /** A load never copies more than the blocks of one inode. */
  lemma {:induction false} LoadFromLength(d: Disk, t: nat, ino: Inode, idx: nat, done: seq<byte>, history: seq<Code>)
    requires Mappable(ino) && idx <= ino.blockCount
    ensures |LoadFrom(d, t, ino, idx, done, history).content| <= |done| + (ino.blockCount - idx) * BLOCK
    decreases ino.blockCount - idx
  {
    hide FetchBlock, TakeLen;
    if idx < ino.blockCount {
      match FetchBlock(d, t, ino, idx, -4)
      case Bad(_, _, _) =>
      case Good(block, t') => LoadFromLength(d, t', ino, idx + 1, done + block[..TakeLen(ino, idx)], history);
    }
  }

  /** So a kernel at its load address stays clear of the staging buffer. */
  lemma KernelClearOfStaging(d: Disk, t: nat, s: Layout.Super, num: nat, history: seq<Code>)
    requires MappableIfRead(ReadInode(d, t, s, num))
    ensures ClearOfStaging(KERNEL_ADDR, |Load(d, t, s, num, history).content|)
  {
    hide ReadInode, LoadFrom;
    match ReadInode(d, t, s, num)
    case Bad(_, _, _) =>
    case Good(ino, t') => LoadFromLength(d, t', ino, 0, [], history);
  }

  /** Memory the kernel starts with: its content at the load address, the configuration with its size,
      and everything outside these and the staging buffer untouched. */
  ghost predicate Launched(was: seq<byte>, now: seq<byte>, content: seq<byte>, size: nat) {
    && |was| == |now| == RAM_SIZE && KERNEL_ADDR + |content| <= TWO_32
    && now[KERNEL_ADDR..KERNEL_ADDR + |content|] == content && ConfigAt(now, size)
    && forall k :: 0 <= k < RAM_SIZE && !Written(k, |content|) ==> now[k] == was[k]
  }

  /** Addresses the boot run writes: staging buffer, kernel, and the configuration but for the declared
      padding after the drive. */
  predicate Written(k: nat, n: nat) {
    || FS_BUF <= k < FS_BUF + BLOCK || KERNEL_ADDR <= k < KERNEL_ADDR + n
    || CONFIG_ADDR <= k < CONFIG_ADDR + 5 || CONFIG_ADDR + 8 <= k < CONFIG_ADDR + CONFIG_BYTES
  }

  /** Publishing the configuration disturbs nothing else. */
  lemma LaunchedByPublishing(was: seq<byte>, middle: seq<byte>, now: seq<byte>, content: seq<byte>, size: nat)
    requires CopiedTo(was, middle, KERNEL_ADDR, content) && Published(middle, now, size)
    ensures Launched(was, now, content, size)
  {
    hide ConfigAt;
    var end := CONFIG_ADDR + CONFIG_BYTES;
    forall k | 0 <= k < RAM_SIZE && (k < CONFIG_ADDR || CONFIG_ADDR + 5 <= k < CONFIG_ADDR + 8 || end <= k)
      ensures now[k] == middle[k]
    {
      if k < CONFIG_ADDR {
        assert now[..CONFIG_ADDR][k] == middle[..CONFIG_ADDR][k];
      } else if k < end {
        assert now[CONFIG_ADDR + 5..CONFIG_ADDR + 8][k - CONFIG_ADDR - 5]
             == middle[CONFIG_ADDR + 5..CONFIG_ADDR + 8][k - CONFIG_ADDR - 5];
      } else {
        assert now[end..][k - end] == middle[end..][k - end];
      }
    }
    assert now[KERNEL_ADDR..KERNEL_ADDR + |content|] == middle[KERNEL_ADDR..KERNEL_ADDR + |content|];
  }

  /** Memory after a handoff of the picked kernel with `size`. */
  ghost predicate InMemory(d: Disk, t: nat, sb: seq<byte>, past: seq<byte>, pick: int, size: nat, was: seq<byte>,
                           now: seq<byte>)
    requires |sb| == BLOCK && |past| == OVERHANG && Indexable(d, ParseSuper(sb))
  {
    0 <= pick < |Offered(d, t, sb, past).entries| && Launched(was, now, Picked(d, t, sb, past, pick).content, size)
  }

  /** Everything raised in a run that ends in a handoff. */
  ghost function Reported(d: Disk, t: nat, sb: seq<byte>, past: seq<byte>, pick: nat): seq<Code>
    requires |sb| == BLOCK && |past| == OVERHANG && Indexable(d, ParseSuper(sb))
    requires pick < |Offered(d, t, sb, past).entries|
  {
    ProbeSuper(sb).1 + Offered(d, t, sb, past).raised + Picked(d, t, sb, past, pick).raised + [COM_BOOT_HANDOFF_OK]
  }

  /** Memory and diagnostics after a handoff. */
  ghost predicate HandedOver(d: Disk, t: nat, sb: seq<byte>, past: seq<byte>, answer: Option<int>, size: nat,
                             was: seq<byte>, now: seq<byte>, history: seq<Code>)
    requires |sb| == BLOCK && |past| == OVERHANG && Indexable(d, ParseSuper(sb))
  {
    && answer.Some? && InMemory(d, t, sb, past, answer.value, size, was, now)
    && history == Reported(d, t, sb, past, answer.value)
  }

  lemma LaunchedSince(was: seq<byte>, middle: seq<byte>, now: seq<byte>, content: seq<byte>, size: nat)
    requires |was| == |middle| == RAM_SIZE && Launched(middle, now, content, size)
    requires middle[..FS_BUF] == was[..FS_BUF] && middle[FS_BUF + BLOCK..] == was[FS_BUF + BLOCK..]
    ensures Launched(was, now, content, size)
  {
    hide ConfigAt;
    assert forall k :: 0 <= k < FS_BUF ==> middle[k] == middle[..FS_BUF][k] == was[..FS_BUF][k] == was[k];
    assert forall k :: FS_BUF + BLOCK <= k < RAM_SIZE ==>
      middle[k] == middle[FS_BUF + BLOCK..][k - FS_BUF - BLOCK] == was[FS_BUF + BLOCK..][k - FS_BUF - BLOCK] == was[k];
  }

  /** `kmain` up to the publication of the boot configuration. */
  method Kmain(drv: Driver, entries: array<Entry>, user: Session) returns (o: Outcome)
    requires drv.Valid() && drv.diag.history == [] && entries.Length == MENU_MAX
    requires var r := ReadAt(drv.disk, drv.issued, SUPER_BLOCK); r.Some? ==> Indexable(drv.disk, ParseSuper(r.value))
    modifies drv`issued, drv.sb, drv.blockBuf, drv.ram, drv.diag, drv.diag.ring, entries
    ensures drv.Valid()
    ensures match ReadAt(drv.disk, old(drv.issued), SUPER_BLOCK)
      case None => o == ProbeFailed(BAN_IO_ERROR)
      case Some(sb) =>
        var d, t, past := drv.disk, old(drv.issued) + 1, old(drv.Past());
        && o == Finishes(d, t, sb, past, user)
        && (o.Handoff? ==>
              HandedOver(d, t, sb, past, Chosen(Offered(d, t, sb, past).rc, user), o.size, old(drv.ram[..]),
                         drv.ram[..], drv.diag.history))
  {
    hide ProbeSuper, Reader.Enumerate, Load, Reader.ReadInode, CopiedTo, EndOfLoad, ParseSuper, Chosen, Launched;
    hide Screen.Answer, Screen.EmptyAnswer;
    ghost var d, t, past, was := drv.disk, drv.issued, drv.Past(), drv.ram[..];
    var rc := drv.Probe();
    if !IsSuccess(rc) {
      return ProbeFailed(rc);
    }
    ghost var sb := drv.sb[..];
    assert MappableIfRead(ReadInode(d, drv.issued, ParseSuper(sb), 0));
    var count := drv.Enumerate(entries, MENU_MAX);
    ghost var l := Offered(d, t + 1, sb, past);
    OfferedCounts(d, t + 1, sb, past);
    if count < 0 {
      count := 0;
    }
    var answer := AskUser(count, user);
    NegativeIsEmpty(l.rc, user);
    if answer.None? {
      return MenuOpen;
    }
    var pick := answer.value;
    if pick == Screen.SHUTDOWN {
      return Shutdown;
    }
    if pick < 0 || pick >= count {
      return Reboot;
    }
    ghost var middle := drv.ram[..];
    assert entries[pick] == l.entries[pick];
    assert MappableIfRead(ReadInode(d, drv.issued, ParseSuper(sb), l.entries[pick].inode));
    assert drv.diag.history == ProbeSuper(sb).1 + l.raised;
    assert drv.Super() == ParseSuper(sb) && l.t == drv.issued;
    o := HandOff(drv, entries[pick].inode);
    if o.Handoff? {
      LaunchedSince(was, middle, drv.ram[..], Picked(d, t + 1, sb, past, pick).content, o.size);
    }
  }

  lemma NegativeIsEmpty(count: int, user: Session)
    ensures count < 0 ==> Chosen(count, user) == Chosen(0, user)
  {
  }

  method AskUser(count: int, user: Session) returns (answer: Option<int>)
    ensures answer == Chosen(count, user)
  {
    var remaining;
    ghost var passes;
    answer, remaining, passes := Screen.Run(count, TIMEOUT, user.start, user.polls);
  }

  /** Loads the picked kernel and publishes the boot configuration. */
  method HandOff(drv: Driver, inode: nat) returns (o: Outcome)
    requires drv.Valid() && MappableIfRead(ReadInode(drv.disk, drv.issued, drv.Super(), inode))
    modifies drv`issued, drv.blockBuf, drv.ram, drv.diag, drv.diag.ring
    ensures drv.Valid()
    ensures var r := Load(drv.disk, old(drv.issued), old(drv.Super()), inode, old(drv.diag.history));
      && o == EndOfLoad(r)
      && (!o.Handoff? ==> CopiedTo(old(drv.ram[..]), drv.ram[..], KERNEL_ADDR, r.content))
      && (o.Handoff? ==> Launched(old(drv.ram[..]), drv.ram[..], r.content, o.size))
      && (o.Handoff? ==> drv.diag.history == old(drv.diag.history) + r.raised + [COM_BOOT_HANDOFF_OK])
  {
    hide Load, Reader.ReadInode, CopiedTo, Launched, Published, FileInMemory;
    ghost var was := drv.ram[..];
    ghost var r := Load(drv.disk, drv.issued, drv.Super(), inode, drv.diag.history);
    KernelClearOfStaging(drv.disk, drv.issued, drv.Super(), inode, drv.diag.history);
    SizeInRange(drv.disk, drv.issued, drv.Super(), inode, drv.diag.history);
    var rc, size := drv.LoadFile(inode, KERNEL_ADDR);
    if rc != COM_KERNEL_LOAD_OK {
      o := LoadFailed;
    } else if size.None? || size.value < 16 {
      drv.diag.Raise(SOFT_KERNEL_TOO_SMALL);
      o := TooSmall;
    } else {
      ghost var middle := drv.ram[..];
      PublishConfig(drv.ram, size.value);
      LaunchedByPublishing(was, middle, drv.ram[..], r.content, size.value);
      drv.diag.Raise(COM_BOOT_HANDOFF_OK);
      o := Handoff(size.value);
    }
  }
}
