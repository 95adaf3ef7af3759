/** The boot partition: a FAT32 file system holding one file, written by the image builder. */
module Fat32 {
  import opened Bytes

  const SECTOR: nat := 512
  const ESP_BASE: nat := 128 * SECTOR
  const ESP_SECTORS: nat := 131072
  const RESERVED: nat := 32
  const FAT_SECTORS: nat := 1024
  const FAT_BYTES: nat := 524288
  const END_OF_CHAIN: nat := 0x0FFF_FFFF
  const END_MIN: nat := 0x0FFF_FFF8
  const FIRST: nat := 5

  /** Sectors of the partition left for the file after tables and three directories. */
  const MAX_CLUSTERS: nat := 128989

  function FatOff(copy: nat): nat {
    ESP_BASE + (RESERVED + copy * FAT_SECTORS) * SECTOR
  }

  /** Image offset of cluster `c`, past the reserved sectors and both tables. */
  function ClusterOff(c: nat): nat
    requires c >= 2
  {
    FatOff(2) + (c - 2) * SECTOR
  }

  function ClustersFor(data: seq<byte>): nat {
    (|data| + SECTOR - 1) / SECTOR
  }

  // ---- tables and directories ---------------------------------------------------------------------

  const HEAD: seq<nat> := [END_MIN, END_OF_CHAIN, END_OF_CHAIN, END_OF_CHAIN, END_OF_CHAIN]

  /** Table entries of the first `k` of a file's `n` clusters. */
  function Links(n: nat, k: nat): (ws: seq<nat>)
    ensures |ws| == k
  {
    seq(k, j requires 0 <= j < k => if j + 1 < n then FIRST + j + 1 else END_OF_CHAIN)
  }

  function Table(n: nat, k: nat): (t: seq<byte>)
    requires k <= MAX_CLUSTERS
    ensures |t| == FAT_BYTES
  {
    PutAt(Padded(Le32s(HEAD), FAT_BYTES), 4 * FIRST, Le32s(Links(n, k)))
  }

  const EFI: seq<byte> := [0x45, 0x46, 0x49, 0x20, 0x20, 0x20, 0x20, 0x20, 0x20, 0x20, 0x20]
  const DOT: seq<byte> := [0x2E, 0x20, 0x20, 0x20, 0x20, 0x20, 0x20, 0x20, 0x20, 0x20, 0x20]
  const DOTDOT: seq<byte> := [0x2E, 0x2E, 0x20, 0x20, 0x20, 0x20, 0x20, 0x20, 0x20, 0x20, 0x20]
  const BOOT: seq<byte> := [0x42, 0x4F, 0x4F, 0x54, 0x20, 0x20, 0x20, 0x20, 0x20, 0x20, 0x20]
  const BOOTX64_EFI: seq<byte> := [0x42, 0x4F, 0x4F, 0x54, 0x58, 0x36, 0x34, 0x20, 0x45, 0x46, 0x49]
  /** An 11-character name. */
  function Spelled(name: string): seq<byte>
    requires |name| == 11 && forall k :: 0 <= k < 11 ==> name[k] < 128 as char
  {
    seq(11, k requires 0 <= k < 11 => name[k] as int)
  }

  lemma NamesSpelled()
    ensures EFI == Spelled("EFI        ") && BOOT == Spelled("BOOT       ") && BOOTX64_EFI == Spelled("BOOTX64 EFI")
    ensures DOT == Spelled(".          ") && DOTDOT == Spelled("..         ")
  {
  }

  const DIRECTORY: byte := 0x10
  const ARCHIVE: byte := 0x20

  /** The stores of one 32-byte directory entry. */
  function EntryStores(o: nat, name: seq<byte>, attribute: byte, cluster: nat, size: nat): (es: seq<Edit>)
    requires |name| == 11 && o + 32 <= SECTOR
    ensures Fit(SECTOR, es) && |es| == 5
  {
    [ Edit(o, name), Edit(o + 11, [attribute]), Edit(o + 20, Le16(0)), Edit(o + 26, Le16(cluster)),
      Edit(o + 28, Le32(size)) ]
  }

  /** A directory cluster: `.` and `..`, unless it is the root, and one entry. */
  function Directory(stores: seq<Edit>): (d: seq<byte>)
    requires Fit(SECTOR, stores)
    ensures |d| == SECTOR
  {
    Apply(Zeros(SECTOR), stores)
  }

  function RootDir(): (d: seq<byte>)
    ensures |d| == SECTOR
  {
    Directory(EntryStores(0, EFI, DIRECTORY, 3, 0))
  }

  function EfiDir(): (d: seq<byte>)
    ensures |d| == SECTOR
  {
    Directory(EntryStores(0, DOT, DIRECTORY, 3, 0) + EntryStores(32, DOTDOT, DIRECTORY, 0, 0)
              + EntryStores(64, BOOT, DIRECTORY, 4, 0))
  }

  function BootDir(size: nat): (d: seq<byte>)
    ensures |d| == SECTOR
  {
    Directory(EntryStores(0, DOT, DIRECTORY, 4, 0) + EntryStores(32, DOTDOT, DIRECTORY, 3, 0)
              + EntryStores(64, BOOTX64_EFI, ARCHIVE, FIRST, size))
  }

  /** Everything the builder stores in the partition, in order; `bpb` and `info` are its two constant
      sectors. */
  function EspStores(bpb: seq<byte>, info: seq<byte>, data: seq<byte>): (es: seq<Edit>)
    requires |bpb| == |info| == SECTOR && ClustersFor(data) <= MAX_CLUSTERS
    ensures |es| == 10
  {
    var table := Table(ClustersFor(data), ClustersFor(data));
    [ Edit(ESP_BASE, bpb), Edit(ESP_BASE + 6 * SECTOR, bpb),
      Edit(ESP_BASE + SECTOR, info), Edit(ESP_BASE + 7 * SECTOR, info),
      Edit(ClusterOff(2), RootDir()), Edit(ClusterOff(3), EfiDir()), Edit(ClusterOff(4), BootDir(|data|)),
      Edit(ClusterOff(FIRST), data), Edit(FatOff(0), table), Edit(FatOff(1), table) ]
  }

  /** All of it lies inside the partition, and no two stores meet. */
  lemma StoresApart(bpb: seq<byte>, info: seq<byte>, data: seq<byte>)
    requires |bpb| == |info| == SECTOR && ClustersFor(data) <= MAX_CLUSTERS
    ensures var es := EspStores(bpb, info, data);
      forall k :: 0 <= k < 10 ==> ESP_BASE <= es[k].at && es[k].at + |es[k].bytes| <= ESP_BASE + ESP_SECTORS * SECTOR
    ensures var es := EspStores(bpb, info, data);
      forall j, k :: 0 <= j < k < 10 ==>
        es[j].at + |es[j].bytes| <= es[k].at || es[k].at + |es[k].bytes| <= es[j].at
  {
    hide Table, RootDir, EfiDir, BootDir;
  }

  // ---- the writer -----------------------------------------------------------------------------------

  class DiskImage {
    var image: seq<byte>

    constructor (image: seq<byte>)
      ensures this.image == image
    {
      this.image := image;
    }

    /** `image[at:at + len(b)] = b`. */
    method Put(at: nat, b: seq<byte>)
      requires at + |b| <= |image|
      modifies this
      ensures image == PutAt(old(image), at, b)
    {
      SpliceIsPutAt(image, at, at + |b|, b);
      image := Splice(image, at, at + |b|, b);
    }

    method WriteEsp(bpb: seq<byte>, info: seq<byte>, data: seq<byte>)
      requires |bpb| == |info| == SECTOR && ClustersFor(data) <= MAX_CLUSTERS
      requires ESP_BASE + ESP_SECTORS * SECTOR <= |image|
      modifies this
      ensures Fit(|old(image)|, EspStores(bpb, info, data)) && image == Apply(old(image), EspStores(bpb, info, data))
    {
      hide Table, RootDir, EfiDir, BootDir, Apply, EspStores;
      ghost var es, was := EspStores(bpb, info, data), image;
      StoresFit(bpb, info, data, |was|);
      StoresAre(bpb, info, data);
      WriteReserved(bpb, info, was, es);
      WriteDirectories(|data|, was, es);
      var fat := WriteChain(data);
      StoreNext(was, es, 7);
      Put(FatOff(0), fat);
      StoreNext(was, es, 8);
      Put(FatOff(1), fat);
      StoreNext(was, es, 9);
      assert es[..10] == es;
    }

    method WriteReserved(bpb: seq<byte>, info: seq<byte>, ghost was: seq<byte>, ghost es: seq<Edit>)
      requires |bpb| == |info| == SECTOR && Fit(|was|, es) && |es| >= 4 && image == was
      requires es[0] == Edit(ESP_BASE, bpb) && es[1] == Edit(ESP_BASE + 6 * SECTOR, bpb)
      requires es[2] == Edit(ESP_BASE + SECTOR, info) && es[3] == Edit(ESP_BASE + 7 * SECTOR, info)
      modifies this
      ensures Fit(|was|, es[..4]) && image == Apply(was, es[..4])
    {
      hide Apply, PutAt;
      NoStores(was, es);
      StoreNext(was, es, 0);
      StoreNext(was, es, 1);
      StoreNext(was, es, 2);
      StoreNext(was, es, 3);
      Put(ESP_BASE, bpb);
      Put(ESP_BASE + 6 * SECTOR, bpb);
      Put(ESP_BASE + SECTOR, info);
      Put(ESP_BASE + 7 * SECTOR, info);
    }

    method WriteDirectories(size: nat, ghost was: seq<byte>, ghost es: seq<Edit>)
      requires Fit(|was|, es) && |es| >= 7 && Fit(|was|, es[..4]) && image == Apply(was, es[..4])
      requires es[4] == Edit(ClusterOff(2), RootDir()) && es[5] == Edit(ClusterOff(3), EfiDir())
      requires es[6] == Edit(ClusterOff(4), BootDir(size))
      modifies this
      ensures Fit(|was|, es[..7]) && image == Apply(was, es[..7])
    {
      hide Apply, RootDir, EfiDir, BootDir;
      StoreNext(was, es, 4);
      StoreNext(was, es, 5);
      StoreNext(was, es, 6);
      Put(ClusterOff(2), RootDir());
      Put(ClusterOff(3), EfiDir());
      Put(ClusterOff(4), BootDir(size));
    }

    /** The loop that stores the file cluster by cluster and links each to the next. */
    method WriteChain(data: seq<byte>) returns (fat: seq<byte>)
      requires ClustersFor(data) <= MAX_CLUSTERS && ESP_BASE + ESP_SECTORS * SECTOR <= |image|
      modifies this
      ensures image == PutAt(old(image), ClusterOff(FIRST), data)
      ensures fat == Table(ClustersFor(data), ClustersFor(data))
    {
      hide Table, Le32, Links, Rest, FileSoFar, ClustersFor, PutAt;
      ghost var n, was := ClustersFor(data), image;
      fat := Padded(Le32s(HEAD), FAT_BYTES);
      EmptyTable(n);
      NothingStored(was, data);
      var cluster, remaining := FIRST, data;
      while |remaining| > 0
        invariant FIRST <= cluster <= FIRST + n && remaining == Rest(data, cluster - FIRST)
        invariant |remaining| == 0 <==> cluster == FIRST + n
        invariant image == FileSoFar(was, data, cluster - FIRST) && fat == Table(n, cluster - FIRST)
        decreases |remaining|
      {
        ghost var k := cluster - FIRST;
        var chunk := remaining[..Min(SECTOR, |remaining|)];
        ChunkNext(was, data, k);
        remaining := remaining[Min(SECTOR, |remaining|)..];
        Put(ClusterOff(cluster), chunk);
        LinkNext(n, k);
        fat := PutAt(fat, cluster * 4, Le32(if |remaining| > 0 then cluster + 1 else END_OF_CHAIN));
        cluster := cluster + 1;
      }
      AllStored(was, data);
    }
  }

  /** What is left of the file after `k` clusters, and the image with those clusters stored. */
  function Rest(data: seq<byte>, k: nat): seq<byte> {
    data[Min(k * SECTOR, |data|)..]
  }

  function FileSoFar(was: seq<byte>, data: seq<byte>, k: nat): (r: seq<byte>)
    requires ClustersFor(data) <= MAX_CLUSTERS && ESP_BASE + ESP_SECTORS * SECTOR <= |was|
    ensures |r| == |was|
  {
    PutAt(was, ClusterOff(FIRST), data[..Min(k * SECTOR, |data|)])
  }

  lemma NothingStored(was: seq<byte>, data: seq<byte>)
    requires ClustersFor(data) <= MAX_CLUSTERS && ESP_BASE + ESP_SECTORS * SECTOR <= |was|
    ensures FileSoFar(was, data, 0) == was && Rest(data, 0) == data && (|data| == 0 <==> ClustersFor(data) == 0)
  {
    assert PutAt(was, ClusterOff(FIRST), []) == was;
  }

  lemma AllStored(was: seq<byte>, data: seq<byte>)
    requires ClustersFor(data) <= MAX_CLUSTERS && ESP_BASE + ESP_SECTORS * SECTOR <= |was|
    ensures FileSoFar(was, data, ClustersFor(data)) == PutAt(was, ClusterOff(FIRST), data)
  {
    assert data[..|data|] == data;
  }

  lemma EmptyTable(n: nat)
    ensures Table(n, 0) == Padded(Le32s(HEAD), FAT_BYTES)
  {
    assert Links(n, 0) == [];
    assert Le32s([]) == [];
  }

  lemma LinkNext(n: nat, k: nat)
    requires k < n <= MAX_CLUSTERS
    ensures Table(n, k + 1)
         == PutAt(Table(n, k), (FIRST + k) * 4, Le32(if k + 1 < n then FIRST + k + 1 else END_OF_CHAIN))
  {
    hide Le32;
    assert Links(n, k + 1)[..k] == Links(n, k);
    PutTwice(Padded(Le32s(HEAD), FAT_BYTES), 4 * FIRST, Le32s(Links(n, k)), Le32(Links(n, k + 1)[k]));
  }

  lemma ChunkNext(was: seq<byte>, data: seq<byte>, k: nat)
    requires k < ClustersFor(data) <= MAX_CLUSTERS && ESP_BASE + ESP_SECTORS * SECTOR <= |was|
    ensures var rest := Rest(data, k); var chunk := rest[..Min(SECTOR, |rest|)];
      && ClusterOff(FIRST + k) + |chunk| <= |was|
      && PutAt(FileSoFar(was, data, k), ClusterOff(FIRST + k), chunk) == FileSoFar(was, data, k + 1)
      && rest[Min(SECTOR, |rest|)..] == Rest(data, k + 1)
      && (|Rest(data, k + 1)| == 0 <==> k + 1 == ClustersFor(data))
  {
    var rest := Rest(data, k);
    var chunk := rest[..Min(SECTOR, |rest|)];
    assert data[..k * SECTOR] + chunk == data[..Min((k + 1) * SECTOR, |data|)];
    PutTwice(was, ClusterOff(FIRST), data[..k * SECTOR], chunk);
  }

  lemma StoresFit(bpb: seq<byte>, info: seq<byte>, data: seq<byte>, size: nat)
    requires |bpb| == |info| == SECTOR && ClustersFor(data) <= MAX_CLUSTERS && ESP_BASE + ESP_SECTORS * SECTOR <= size
    ensures Fit(size, EspStores(bpb, info, data))
  {
    hide EspStores, ClustersFor;
    StoresApart(bpb, info, data);
  }

  lemma StoresAre(bpb: seq<byte>, info: seq<byte>, data: seq<byte>)
    requires |bpb| == |info| == SECTOR && ClustersFor(data) <= MAX_CLUSTERS
    ensures var es := EspStores(bpb, info, data); var t := Table(ClustersFor(data), ClustersFor(data));
      && es[0] == Edit(ESP_BASE, bpb) && es[1] == Edit(ESP_BASE + 6 * SECTOR, bpb)
      && es[2] == Edit(ESP_BASE + SECTOR, info) && es[3] == Edit(ESP_BASE + 7 * SECTOR, info)
      && es[4] == Edit(ClusterOff(2), RootDir()) && es[5] == Edit(ClusterOff(3), EfiDir())
      && es[6] == Edit(ClusterOff(4), BootDir(|data|)) && es[7] == Edit(ClusterOff(FIRST), data)
      && es[8] == Edit(FatOff(0), t) && es[9] == Edit(FatOff(1), t)
  {
  }

  lemma NoStores(was: seq<byte>, es: seq<Edit>)
    requires Fit(|was|, es)
    ensures Fit(|was|, es[..0]) && Apply(was, es[..0]) == was
  {
  }

  lemma StoreNext(was: seq<byte>, es: seq<Edit>, k: nat)
    requires Fit(|was|, es) && k < |es|
    ensures Fit(|was|, es[..k]) && Fit(|was|, es[..k + 1])
    ensures Apply(was, es[..k + 1]) == PutAt(Apply(was, es[..k]), es[k].at, es[k].bytes)
  {
    hide Apply, PutAt, Fit;
    FitsPrefix(|was|, es, k);
    FitsPrefix(|was|, es, k + 1);
    FitsOne(|was|, es, k);
    assert es[..k + 1] == es[..k] + [es[k]];
    ApplySnoc(was, es[..k], es[k]);
  }

  lemma FitsPrefix(n: nat, es: seq<Edit>, k: nat)
    requires Fit(n, es) && k <= |es|
    ensures Fit(n, es[..k])
  {
    forall j | 0 <= j < k ensures es[..k][j].at + |es[..k][j].bytes| <= n {
      assert es[..k][j] == es[j];
    }
  }

  lemma FitsOne(n: nat, es: seq<Edit>, k: nat)
    requires Fit(n, es) && k < |es|
    ensures es[k].at + |es[k].bytes| <= n
  {
  }

  // ---- a reader ----------------------------------------------------------------------------------------

  function Window(image: seq<byte>, at: nat, n: nat): seq<byte>
    requires at + n <= |image|
  {
    image[at..at + n]
  }

  function TableEntry(fat: seq<byte>, c: nat): nat
    requires 4 * c + 4 <= |fat|
  {
    Get32(fat, 4 * c) % 0x1000_0000
  }

  /** The cluster chain from `c`: broken if it meets a free or reserved entry or is too long. */
  function Follow(fat: seq<byte>, c: nat, fuel: nat): Option<seq<nat>>
    decreases fuel
  {
    if fuel == 0 || c < 2 || 4 * c + 4 > |fat| then None
    else if TableEntry(fat, c) >= END_MIN then Some([c])
    else
      match Follow(fat, TableEntry(fat, c), fuel - 1)
      case None => None
      case Some(rest) => Some([c] + rest)
  }

  /** A directory entry as the reader sees it. */
  datatype DirEntry = DirEntry(attribute: byte, cluster: nat, size: nat) {
    predicate IsDirectory() {
      attribute / 0x10 % 2 == 1
    }
  }

  /** The entry called `name`; one starting with zero ends the list. */
  function Lookup(dir: seq<byte>, name: seq<byte>, e: nat): Option<DirEntry>
    requires |dir| == SECTOR && e <= 16
    decreases 16 - e
  {
    if e == 16 || dir[32 * e] == 0 then None
    else if dir[32 * e..32 * e + 11] == name then
      Some(DirEntry(dir[32 * e + 11], Get16(dir, 32 * e + 20) * 0x1_0000 + Get16(dir, 32 * e + 26),
                    Get32(dir, 32 * e + 28)))
    else Lookup(dir, name, e + 1)
  }

  function ClusterAt(image: seq<byte>, c: nat): (r: Option<seq<byte>>)
    ensures r.Some? ==> |r.value| == SECTOR
  {
    if c < 2 || ClusterOff(c) + SECTOR > |image| then None else Some(Window(image, ClusterOff(c), SECTOR))
  }

  function Gather(image: seq<byte>, chain: seq<nat>): Option<seq<byte>> {
    if |chain| == 0 then Some([])
    else
      match (ClusterAt(image, chain[0]), Gather(image, chain[1..]))
      case (Some(block), Some(rest)) => Some(block + rest)
      case _ => None
  }

  /** The entry called `name` in the directory at cluster `dir`, if it is of the kind wanted. */
  function Find(image: seq<byte>, dir: nat, name: seq<byte>, directory: bool): Option<DirEntry> {
    match ClusterAt(image, dir)
    case None => None
    case Some(block) =>
      match Lookup(block, name, 0)
      case None => None
      case Some(entry) => if entry.IsDirectory() == directory then Some(entry) else None
  }

  function Contents(image: seq<byte>, first: nat, size: nat): Option<seq<byte>> {
    if FatOff(0) + FAT_BYTES > |image| then None
    else
      match Follow(Window(image, FatOff(0), FAT_BYTES), first, FAT_BYTES / 4)
      case None => None
      case Some(chain) =>
        match Gather(image, chain)
        case Some(all) => if size <= |all| then Some(all[..size]) else None
        case None => None
  }

  /** What firmware reads at `\EFI\BOOT\BOOTX64.EFI`. */
  function ReadBootFile(image: seq<byte>): Option<seq<byte>> {
    match Find(image, 2, EFI, true)
    case None => None
    case Some(efi) =>
      match Find(image, efi.cluster, BOOT, true)
      case None => None
      case Some(boot) =>
        match Find(image, boot.cluster, BOOTX64_EFI, false)
        case None => None
        case Some(file) => Contents(image, file.cluster, file.size)
  }

  // ---- the round trip -------------------------------------------------------------------------------

  /** The partition as the builder leaves it. */
  ghost predicate Written(image: seq<byte>, was: seq<byte>, bpb: seq<byte>, info: seq<byte>, data: seq<byte>) {
    && |bpb| == |info| == SECTOR && ClustersFor(data) <= MAX_CLUSTERS && ESP_BASE + ESP_SECTORS * SECTOR <= |was|
    && Fit(|was|, EspStores(bpb, info, data)) && image == Apply(was, EspStores(bpb, info, data))
  }

  /** Every store is still there at the end. */
  lemma StoreReads(image: seq<byte>, was: seq<byte>, bpb: seq<byte>, info: seq<byte>, data: seq<byte>, k: nat)
    requires Written(image, was, bpb, info, data) && k < 10
    ensures var e := EspStores(bpb, info, data)[k];
      e.at + |e.bytes| <= |image| && Window(image, e.at, |e.bytes|) == e.bytes
  {
    hide EspStores, Apply, ClustersFor;
    var es := EspStores(bpb, info, data);
    StoresApart(bpb, info, data);
    var later := es[k + 1..];
    forall j | 0 <= j < |later|
      ensures later[j].at + |later[j].bytes| <= es[k].at || es[k].at + |es[k].bytes| <= later[j].at
    {
      assert later[j] == es[k + 1 + j];
    }
    ApplyReads(was, es, k);
  }

  /** Both tables are equal and nothing outside the partition changes. */
  lemma PartitionOnly(image: seq<byte>, was: seq<byte>, bpb: seq<byte>, info: seq<byte>, data: seq<byte>)
    requires Written(image, was, bpb, info, data)
    ensures |image| == |was| && FatOff(1) + FAT_BYTES <= |image|
    ensures Window(image, FatOff(0), FAT_BYTES) == Window(image, FatOff(1), FAT_BYTES)
         == Table(ClustersFor(data), ClustersFor(data))
    ensures image[..ESP_BASE] == was[..ESP_BASE]
    ensures image[ESP_BASE + ESP_SECTORS * SECTOR..] == was[ESP_BASE + ESP_SECTORS * SECTOR..]
  {
    hide Apply, Table, RootDir, EfiDir, BootDir, ClustersFor;
    var es := EspStores(bpb, info, data);
    StoresApart(bpb, info, data);
    StoreReads(image, was, bpb, info, data, 8);
    StoreReads(image, was, bpb, info, data, 9);
    ApplyKeeps(was, es, 0, ESP_BASE);
    var end := ESP_BASE + ESP_SECTORS * SECTOR;
    ApplyKeeps(was, es, end, |was| - end);
    assert image[..ESP_BASE] == image[0..0 + ESP_BASE] && was[..ESP_BASE] == was[0..0 + ESP_BASE];
    assert image[end..] == image[end..end + (|was| - end)] && was[end..] == was[end..end + (|was| - end)];
  }

  /** A table entry of a finished chain. */
  lemma TableReads(n: nat, c: nat)
    requires n <= MAX_CLUSTERS && c < FIRST + n
    ensures TableEntry(Table(n, n), c) == (HEAD + Links(n, n))[c]
  {
    hide Le32s, Get32, Links, Table, Le32;
    SmallLinks(n);
    TableBytes(n, c);
    FieldReads32(Table(n, n), 4 * c, (HEAD + Links(n, n))[c]);
  }

  lemma TableBytes(n: nat, c: nat)
    requires n <= MAX_CLUSTERS && c < FIRST + n
    ensures Table(n, n)[4 * c..4 * c + 4] == Le32((HEAD + Links(n, n))[c])
  {
    hide Le32s, Links, Le32;
    var head, links := Padded(Le32s(HEAD), FAT_BYTES), Le32s(Links(n, n));
    var t := PutAt(head, 4 * FIRST, links);
    if c < FIRST {
      Le32sAt(HEAD, c);
      PutAtElsewhere(head, 4 * FIRST, links, 4 * c, 4 * c + 4);
      assert head[4 * c..4 * c + 4] == Le32s(HEAD)[4 * c..4 * c + 4];
    } else {
      var o := 4 * (c - FIRST);
      Le32sAt(Links(n, n), c - FIRST);
      SliceOfSlice(t, 4 * FIRST, 4 * FIRST + |links|, o, o + 4);
    }
  }

  lemma SmallLinks(n: nat)
    requires n <= MAX_CLUSTERS
    ensures forall c :: 0 <= c < FIRST + n ==> (HEAD + Links(n, n))[c] < 0x1000_0000
  {
  }

  /** The chain visits clusters `c, c + 1, …` up to the file's last, each once, none of them a directory. */
  lemma {:induction false} ChainFollowed(n: nat, c: nat, fuel: nat)
    requires FIRST <= c < FIRST + n && n <= MAX_CLUSTERS && fuel >= FIRST + n - c
    ensures Follow(Table(n, n), c, fuel) == Some(seq(FIRST + n - c, j requires 0 <= j < FIRST + n - c => c + j))
    decreases fuel
  {
    hide Table, TableEntry;
    TableReads(n, c);
    if c + 1 < FIRST + n {
      ChainFollowed(n, c + 1, fuel - 1);
      assert [c] + seq(FIRST + n - c - 1, j requires 0 <= j < FIRST + n - c - 1 => c + 1 + j)
        == seq(FIRST + n - c, j requires 0 <= j < FIRST + n - c => c + j);
    } else {
      assert seq(1, j requires 0 <= j < 1 => c + j) == [c];
    }
  }

  /** With no clusters the first entry is free, so there is no chain. */
  lemma NoChain(fuel: nat)
    ensures Follow(Table(0, 0), FIRST, fuel) == None
  {
    var t := Table(0, 0);
    EmptyTable(0);
    hide Table, Le32s;
    assert t[20] == 0 && t[21] == 0 && t[22] == 0 && t[23] == 0;
    assert TableEntry(t, FIRST) == 0;
  }

  /** The clusters of the chain from block `j` of the file on, glued together, start with the rest of the file. */
  lemma {:induction false} GathersRest(image: seq<byte>, data: seq<byte>, j: nat)
    requires j <= ClustersFor(data) <= MAX_CLUSTERS && ESP_BASE + ESP_SECTORS * SECTOR <= |image|
    requires Window(image, ClusterOff(FIRST), |data|) == data
    ensures var n := ClustersFor(data) - j; var r := Gather(image, seq(n, k requires 0 <= k < n => FIRST + j + k));
      r.Some? && |r.value| == n * SECTOR && |data| - Min(j * SECTOR, |data|) <= |r.value|
      && r.value[..|data| - Min(j * SECTOR, |data|)] == data[Min(j * SECTOR, |data|)..]
    decreases ClustersFor(data) - j
  {
    hide Window, ClusterAt, ClusterOff;
    var n := ClustersFor(data) - j;
    if n > 0 {
      var chain := seq(n, k requires 0 <= k < n => FIRST + j + k);
      assert chain[1..] == seq(n - 1, k requires 0 <= k < n - 1 => FIRST + j + 1 + k);
      GathersRest(image, data, j + 1);
      BlockOfFile(image, data, j);
      GlueRest(ClusterAt(image, FIRST + j).value, Gather(image, chain[1..]).value, data, j);
    }
  }

  lemma GlueRest(block: seq<byte>, rest: seq<byte>, data: seq<byte>, j: nat)
    requires |block| == SECTOR && j * SECTOR < |data|
    requires var m := Min(SECTOR, |data| - j * SECTOR); block[..m] == data[j * SECTOR..j * SECTOR + m]
    requires var next := Min((j + 1) * SECTOR, |data|); |data| - next <= |rest| && rest[..|data| - next] == data[next..]
    ensures |data| - j * SECTOR <= |block + rest| && (block + rest)[..|data| - j * SECTOR] == data[j * SECTOR..]
  {
    var at, n := j * SECTOR, |data| - j * SECTOR;
    if n <= SECTOR {
      assert (block + rest)[..n] == block[..n];
    } else {
      assert (block + rest)[..n] == block + rest[..n - SECTOR];
      assert data[at..] == data[at..at + SECTOR] + data[at + SECTOR..];
    }
  }

  lemma BlockOfFile(image: seq<byte>, data: seq<byte>, j: nat)
    requires j < ClustersFor(data) <= MAX_CLUSTERS && ESP_BASE + ESP_SECTORS * SECTOR <= |image|
    requires Window(image, ClusterOff(FIRST), |data|) == data
    ensures var m := Min(SECTOR, |data| - j * SECTOR);
      ClusterAt(image, FIRST + j).Some? && ClusterAt(image, FIRST + j).value[..m] == data[j * SECTOR..j * SECTOR + m]
  {
    var m, at := Min(SECTOR, |data| - j * SECTOR), ClusterOff(FIRST + j);
    assert at == ClusterOff(FIRST) + j * SECTOR;
    SliceOfSlice(image, ClusterOff(FIRST), ClusterOff(FIRST) + |data|, j * SECTOR, j * SECTOR + m);
    SliceOfSlice(image, at, at + SECTOR, 0, m);
  }

  // ---- directories --------------------------------------------------------------------------------------

  /** Entry `i` of a directory, at offset `o`. */
  ghost predicate HasEntry(d: seq<byte>, o: nat, name: seq<byte>, attribute: byte, cluster: nat, size: nat) {
    && o + 32 <= |d| && |name| == 11 && d[o..o + 11] == name && d[o + 11] == attribute
    && Get16(d, o + 20) == 0 && Get16(d, o + 26) == cluster && Get32(d, o + 28) == size
  }

  lemma StoredFieldReads(es: seq<Edit>, k: nat)
    requires Fit(SECTOR, es) && Ascending(es) && k < |es|
    ensures Directory(es)[es[k].at..es[k].at + |es[k].bytes|] == es[k].bytes
  {
    hide Apply, Ascending;
    AscendingReads(Zeros(SECTOR), es, [], k);
    assert es + [] == es;
  }

  lemma StoresRead(es: seq<Edit>, i: nat, o: nat, name: seq<byte>, attribute: byte, cluster: nat, size: nat)
    requires Fit(SECTOR, es) && Ascending(es) && 5 * i + 5 <= |es| && |name| == 11 && o + 32 <= SECTOR
    requires es[5 * i..5 * i + 5] == EntryStores(o, name, attribute, cluster, size)
    ensures var d := Directory(es);
      && d[o..o + 11] == name && d[o + 11..o + 12] == [attribute] && d[o + 20..o + 22] == Le16(0)
      && d[o + 26..o + 28] == Le16(cluster) && d[o + 28..o + 32] == Le32(size)
  {
    hide Directory, Ascending, Le16, Le32, Fit;
    var mine := EntryStores(o, name, attribute, cluster, size);
    assert es[5 * i] == mine[0] && es[5 * i + 1] == mine[1] && es[5 * i + 2] == mine[2];
    assert es[5 * i + 3] == mine[3] && es[5 * i + 4] == mine[4];
    StoredFieldReads(es, 5 * i);
    StoredFieldReads(es, 5 * i + 1);
    StoredFieldReads(es, 5 * i + 2);
    StoredFieldReads(es, 5 * i + 3);
    StoredFieldReads(es, 5 * i + 4);
  }

  lemma EntryReads(es: seq<Edit>, i: nat, o: nat, name: seq<byte>, attribute: byte, cluster: nat, size: nat)
    requires Fit(SECTOR, es) && Ascending(es) && 5 * i + 5 <= |es| && |name| == 11 && o + 32 <= SECTOR
    requires cluster < 0x1_0000 && size < TWO_32
    requires es[5 * i..5 * i + 5] == EntryStores(o, name, attribute, cluster, size)
    ensures HasEntry(Directory(es), o, name, attribute, cluster, size)
  {
    hide Directory, Ascending, Le16, Le32, Get16, Get32, Fit;
    StoresRead(es, i, o, name, attribute, cluster, size);
    assert Directory(es)[o + 11..o + 12][0] == Directory(es)[o + 11];
    FieldReads16(Directory(es), o + 20, 0);
    FieldReads16(Directory(es), o + 26, cluster);
    FieldReads32(Directory(es), o + 28, size);
  }

  lemma FindsEntry(d: seq<byte>, e: nat, name: seq<byte>, attribute: byte, cluster: nat, size: nat)
    requires |d| == SECTOR && e < 16 && HasEntry(d, 32 * e, name, attribute, cluster, size) && name[0] != 0
    ensures Lookup(d, name, e) == Some(DirEntry(attribute, cluster, size))
  {
    hide Get16, Get32;
    assert d[32 * e] == d[32 * e..32 * e + 11][0];
  }

  lemma SkipsEntry(d: seq<byte>, e: nat, other: seq<byte>, name: seq<byte>, attribute: byte, cluster: nat, size: nat)
    requires |d| == SECTOR && e < 16 && HasEntry(d, 32 * e, other, attribute, cluster, size)
    requires other[0] != 0 && other != name
    ensures Lookup(d, name, e) == Lookup(d, name, e + 1)
  {
    hide Get16, Get32;
    assert d[32 * e] == d[32 * e..32 * e + 11][0];
  }

  lemma RootHasEfi()
    ensures Lookup(RootDir(), EFI, 0) == Some(DirEntry(0x10, 3, 0))
  {
    var es := EntryStores(0, EFI, DIRECTORY, 3, 0);
    hide Lookup, Directory, HasEntry;
    assert es[5 * 0..5 * 0 + 5] == es;
    EntryReads(es, 0, 0, EFI, DIRECTORY, 3, 0);
    FindsEntry(RootDir(), 0, EFI, DIRECTORY, 3, 0);
  }

  /** A directory with `.`, `..` and a third entry. */
  lemma ThirdEntry(parent: nat, this_: nat, name: seq<byte>, attribute: byte, cluster: nat, size: nat)
    requires |name| == 11 && name[0] != 0 && name != DOT && name != DOTDOT
    requires parent < 0x1_0000 && this_ < 0x1_0000 && cluster < 0x1_0000 && size < TWO_32
    ensures var es := EntryStores(0, DOT, DIRECTORY, this_, 0) + EntryStores(32, DOTDOT, DIRECTORY, parent, 0)
        + EntryStores(64, name, attribute, cluster, size);
      && Fit(SECTOR, es) && Lookup(Directory(es), name, 0) == Some(DirEntry(attribute, cluster, size))
      && Lookup(Directory(es), DOT, 0) == Some(DirEntry(0x10, this_, 0))
      && Lookup(Directory(es), DOTDOT, 0) == Some(DirEntry(0x10, parent, 0))
  {
    hide Lookup, Directory, HasEntry, EntryStores, Ascending, Fit;
    var a, b, c := EntryStores(0, DOT, DIRECTORY, this_, 0), EntryStores(32, DOTDOT, DIRECTORY, parent, 0),
      EntryStores(64, name, attribute, cluster, size);
    var es := a + b + c;
    ThreeEntries(this_, parent, name, attribute, cluster, size);
    InFives(a, b, c);
    EntryReads(es, 0, 0, DOT, DIRECTORY, this_, 0);
    EntryReads(es, 1, 32, DOTDOT, DIRECTORY, parent, 0);
    EntryReads(es, 2, 64, name, attribute, cluster, size);
    SkipsEntry(Directory(es), 0, DOT, name, DIRECTORY, this_, 0);
    SkipsEntry(Directory(es), 1, DOTDOT, name, DIRECTORY, parent, 0);
    FindsEntry(Directory(es), 2, name, attribute, cluster, size);
    FindsEntry(Directory(es), 0, DOT, DIRECTORY, this_, 0);
    SkipsEntry(Directory(es), 0, DOT, DOTDOT, DIRECTORY, this_, 0);
    FindsEntry(Directory(es), 1, DOTDOT, DIRECTORY, parent, 0);
  }

  lemma InFives<T>(a: seq<T>, b: seq<T>, c: seq<T>)
    requires |a| == |b| == |c| == 5
    ensures (a + b + c)[5 * 0..5 * 0 + 5] == a && (a + b + c)[5 * 1..5 * 1 + 5] == b
    ensures (a + b + c)[5 * 2..5 * 2 + 5] == c
  {
  }

  lemma ThreeEntries(this_: nat, parent: nat, name: seq<byte>, attribute: byte, cluster: nat, size: nat)
    requires |name| == 11
    ensures var es := EntryStores(0, DOT, DIRECTORY, this_, 0) + EntryStores(32, DOTDOT, DIRECTORY, parent, 0)
        + EntryStores(64, name, attribute, cluster, size);
      Fit(SECTOR, es) && Ascending(es)
  {
  }

  /** `.` is the directory itself and `..` the one above, the root counting as cluster 0. */
  lemma DotsResolve(size: nat)
    requires size < TWO_32
    ensures Lookup(EfiDir(), DOT, 0) == Some(DirEntry(0x10, 3, 0))
    ensures Lookup(EfiDir(), DOTDOT, 0) == Some(DirEntry(0x10, 0, 0))
    ensures Lookup(BootDir(size), DOT, 0) == Some(DirEntry(0x10, 4, 0))
    ensures Lookup(BootDir(size), DOTDOT, 0) == Some(DirEntry(0x10, 3, 0))
  {
    hide Directory, Lookup, EntryStores;
    ThirdEntry(0, 3, BOOT, DIRECTORY, 4, 0);
    ThirdEntry(3, 4, BOOTX64_EFI, ARCHIVE, FIRST, size);
  }

  /** Each directory is one cluster, and the two reserved entries are the media byte and the end mark. */
  lemma DirectoriesAreSingle(n: nat, c: nat, fuel: nat)
    requires n <= MAX_CLUSTERS && 2 <= c < 5 && fuel > 0
    ensures Follow(Table(n, n), c, fuel) == Some([c])
    ensures Get32(Table(n, n), 0) == 0x0FFF_FFF8 && Get32(Table(n, n), 4) == 0x0FFF_FFFF
  {
    hide Table, Links, Get32, Le32;
    HeadReads(n, 0);
    HeadReads(n, 1);
    HeadReads(n, c);
  }

  lemma HeadReads(n: nat, c: nat)
    requires n <= MAX_CLUSTERS && c < FIRST
    ensures Get32(Table(n, n), 4 * c) == HEAD[c]
  {
    hide Le32s, Get32, Links, Table, Le32;
    TableBytes(n, c);
    FieldReads32(Table(n, n), 4 * c, HEAD[c]);
  }

  /** The three directories lead from the root to the file. */
  lemma PathResolves(image: seq<byte>, was: seq<byte>, bpb: seq<byte>, info: seq<byte>, data: seq<byte>)
    requires Written(image, was, bpb, info, data)
    ensures ReadBootFile(image) == Contents(image, FIRST, |data|)
  {
    hide Apply, Table, Directory, EspStores, Lookup, Contents, EntryStores;
    StoreReads(image, was, bpb, info, data, 4);
    StoreReads(image, was, bpb, info, data, 5);
    StoreReads(image, was, bpb, info, data, 6);
    StoresAre(bpb, info, data);
    RootHasEfi();
    ThirdEntry(0, 3, BOOT, DIRECTORY, 4, 0);
    ThirdEntry(3, 4, BOOTX64_EFI, ARCHIVE, FIRST, |data|);
  }

  /** The boot file reads back exactly when it is not empty: an empty one leaves its directory entry
      pointing at a free cluster. */
  lemma BootFileReads(image: seq<byte>, was: seq<byte>, bpb: seq<byte>, info: seq<byte>, data: seq<byte>)
    requires Written(image, was, bpb, info, data)
    ensures ReadBootFile(image) == Some(data) <==> |data| > 0
    ensures |data| == 0 ==> ReadBootFile(image) == None
  {
    hide ReadBootFile, EspStores, Apply, Table, Follow, Gather, ClustersFor;
    PathResolves(image, was, bpb, info, data);
    PartitionOnly(image, was, bpb, info, data);
    if |data| == 0 {
      assert ClustersFor(data) == 0 by { NoClusters(data); }
      NoChain(FAT_BYTES / 4);
    } else {
      SomeClusters(data);
      ChainFollowed(ClustersFor(data), FIRST, FAT_BYTES / 4);
      StoreReads(image, was, bpb, info, data, 7);
      StoresAre(bpb, info, data);
      GathersRest(image, data, 0);
      var n := ClustersFor(data);
      assert seq(n, k requires 0 <= k < n => FIRST + 0 + k)
           == seq(FIRST + n - FIRST, j requires 0 <= j < FIRST + n - FIRST => FIRST + j);
    }
  }

  lemma NoClusters(data: seq<byte>)
    requires |data| == 0
    ensures ClustersFor(data) == 0
  {
  }

  lemma SomeClusters(data: seq<byte>)
    requires |data| > 0
    ensures ClustersFor(data) > 0
  {
  }
}
