/** What a formatted OWFS volume contains: block ownership and contents as a function of the
    files added so far. */
module Ownership {
  import opened Bytes
  import opened Layout

  // ---- geometry -----------------------------------------------------------------------

  datatype RawGeometry = RawGeometry(start: nat, total: nat)

  const FIXED_OVERHEAD: nat := 273

  /** `start` is the byte offset of block 0 in the image. */
  type Geometry = g: RawGeometry | g.total >= FIXED_OVERHEAD + 2 witness RawGeometry(0, FIXED_OVERHEAD + 2)

  function BitmapBlocks(g: Geometry): nat {
    (g.total - FIXED_OVERHEAD + 32768) / 32769
  }

  function InodeTable(g: Geometry): nat {
    BITMAP_START + BitmapBlocks(g)
  }

  function DataStart(g: Geometry): nat {
    InodeTable(g) + INODE_TABLE_BLOCKS
  }

  function DataBlocks(g: Geometry): nat {
    g.total - DataStart(g)
  }

  /** The bitmap is the smallest one with a bit for every block it leaves for data. */
  lemma BitmapBlocksIsLeast(g: Geometry)
    ensures 8 * BLOCK * BitmapBlocks(g) >= DataBlocks(g)
    ensures forall b: nat :: 8 * BLOCK * b >= g.total - FIXED_OVERHEAD - b ==> b >= BitmapBlocks(g)
  {
  }

  function Off(g: Geometry, b: nat): nat {
    g.start + b * BLOCK
  }

  function InodeOff(g: Geometry, num: nat): nat {
    Off(g, InodeTable(g) + num / 16) + num % 16 * SLOT
  }

  lemma InodeOffLinear(g: Geometry, num: nat)
    ensures InodeOff(g, num) == Off(g, InodeTable(g)) + num * SLOT
    ensures num < TOTAL_INODES ==> InodeOff(g, num) + SLOT <= Off(g, DataStart(g))
  {
  }

  function BlockAt(img: seq<byte>, g: Geometry, b: nat): (r: seq<byte>)
    requires Off(g, b) + BLOCK <= |img|
    ensures |r| == BLOCK
  {
    img[Off(g, b)..Off(g, b) + BLOCK]
  }

  function SlotAt(img: seq<byte>, g: Geometry, num: nat): (r: seq<byte>)
    requires InodeOff(g, num) + SLOT <= |img|
    ensures |r| == SLOT
  {
    img[InodeOff(g, num)..InodeOff(g, num) + SLOT]
  }

  // ---- files and block ownership ---------------------------------------------------------

  const MAX_FILES: nat := 160          // 10 catalog blocks of 16 entries

  datatype RawFile = RawFile(name: seq<byte>, data: seq<byte>)

  type File = f: RawFile | |f.name| <= NAME_BYTES && |f.data| <= MAX_FILE_BLOCKS * BLOCK
    witness RawFile([], [])

  function BlocksOf(f: File): (n: nat)
    ensures n <= MAX_FILE_BLOCKS && n * BLOCK < |f.data| + BLOCK && |f.data| <= n * BLOCK
  {
    (|f.data| + BLOCK - 1) / BLOCK
  }

  /** What a data-region block is for. */
  datatype Owner = Catalog(c: nat) | Data(file: nat, index: nat) | Indirect(file: nat)

  /** Blocks claimed, in order, for the first `n` blocks of file `i`. */
  function FileOwners(i: nat, n: nat): (os: seq<Owner>)
    ensures |os| == if n > DIRECT then n + 1 else n
  {
    if n == 0 then [] else FileOwners(i, n - 1) + (if n - 1 == DIRECT then [Indirect(i)] else []) + [Data(i, n - 1)]
  }

  function CatalogOwners(m: nat): seq<Owner> {
    if m % 16 == 0 && m > 0 then [Catalog(m / 16)] else []
  }

  /** Everything the formatter has allocated, in allocation order. */
  function Owners(files: seq<File>): (os: seq<Owner>)
    ensures |os| > 0
  {
    if |files| == 0 then [Catalog(0)]
    else
      var m := |files| - 1;
      Owners(files[..m]) + FileOwners(m, BlocksOf(files[m])) + CatalogOwners(m)
  }

  function Base(files: seq<File>, i: nat): nat
    requires i <= |files|
  {
    |Owners(files[..i])|
  }

  /** Data-region index of block `j` of a file whose first block is `base`. */
  function DataRel(base: nat, j: nat): nat {
    base + j + if j >= DIRECT then 1 else 0
  }

  function CatalogRel(files: seq<File>, c: nat): nat
    requires c == 0 || 16 * c < |files|
  {
    if c == 0 then 0 else |Owners(files[..16 * c + 1])| - 1
  }

  function CatalogCount(n: nat): nat {
    if n == 0 then 1 else (n + 15) / 16
  }

  /** The index an owner implies. */
  function RelOf(files: seq<File>, o: Owner): nat
    requires CalledFor(files, o)
  {
    match o
    case Catalog(c) => CatalogRel(files, c)
    case Data(i, j) => DataRel(Base(files, i), j)
    case Indirect(i) => Base(files, i) + DIRECT
  }

  /** `o` is a block the file list calls for. */
  predicate CalledFor(files: seq<File>, o: Owner) {
    match o
    case Catalog(c) => c < CatalogCount(|files|)
    case Data(i, j) => i < |files| && j < BlocksOf(files[i])
    case Indirect(i) => i < |files| && BlocksOf(files[i]) > DIRECT
  }

  lemma {:induction false} FileOwnersAt(i: nat, n: nat, r: nat)
    requires r < |FileOwners(i, n)|
    ensures FileOwners(i, n)[r] == if n > DIRECT && r == DIRECT then Indirect(i)
                                   else if r > DIRECT then Data(i, r - 1) else Data(i, r)
  {
    if r < |FileOwners(i, n - 1)| {
      FileOwnersAt(i, n - 1, r);
    }
  }

  lemma {:induction false} OwnersPrefix(files: seq<File>, m: nat)
    requires m <= |files|
    ensures Owners(files[..m]) <= Owners(files)
  {
    hide FileOwners, CatalogOwners, BlocksOf;
    if m < |files| {
      var k := |files| - 1;
      OwnersPrefix(files[..k], m);
      assert files[..k][..m] == files[..m];
    } else {
      assert files[..m] == files;
    }
  }

  /** Every allocated block has an owner the file list calls for, at the index the owner implies. */
  lemma {:induction false} OwnerAt(files: seq<File>, r: nat)
    requires r < |Owners(files)|
    ensures CalledFor(files, Owners(files)[r]) && RelOf(files, Owners(files)[r]) == r
  {
    if |files| > 0 {
      var m := |files| - 1;
      var before := Owners(files[..m]);
      var mine := FileOwners(m, BlocksOf(files[m]));
      if r < |before| {
        OwnerAt(files[..m], r);
        RelStable(files[..m], files, Owners(files)[r]);
      } else if r < |before| + |mine| {
        FileOwnersAt(m, BlocksOf(files[m]), r - |before|);
      } else {
        assert files[..16 * (m / 16) + 1] == files;
      }
    }
  }

  /** Adding files moves no block. */
  lemma RelStable(files: seq<File>, more: seq<File>, o: Owner)
    requires CalledFor(files, o) && files <= more
    ensures CalledFor(more, o) && RelOf(more, o) == RelOf(files, o)
  {
    match o
    case Catalog(c) => if c > 0 { assert more[..16 * c + 1] == files[..16 * c + 1]; }
    case Data(i, j) => assert more[..i] == files[..i];
    case Indirect(i) => assert more[..i] == files[..i];
  }

  lemma NewestNamed(files: seq<File>, o: Owner)
    requires |files| > 0 && CalledFor(files, o) && !CalledFor(files[..|files| - 1], o)
    ensures RelOf(files, o) < |Owners(files)| && Owners(files)[RelOf(files, o)] == o
  {
    hide BlocksOf, FileOwners;
    var m := |files| - 1;
    var n := BlocksOf(files[m]);
    var before, mine := Owners(files[..m]), FileOwners(m, n);
    assert Owners(files) == before + mine + CatalogOwners(m);
    match o
    case Catalog(c) =>
      NewestCatalog(files, c);
    case Data(i, j) =>
      assert i == m;
      OwnsAt(before, mine, CatalogOwners(m), m, n, if j >= DIRECT then j + 1 else j);
    case Indirect(i) =>
      assert i == m;
      OwnsAt(before, mine, CatalogOwners(m), m, n, DIRECT);
  }

  lemma NewestCatalog(files: seq<File>, c: nat)
    requires |files| > 0 && CatalogCount(|files| - 1) <= c < CatalogCount(|files|)
    ensures RelOf(files, Catalog(c)) < |Owners(files)| && Owners(files)[RelOf(files, Catalog(c))] == Catalog(c)
  {
    hide BlocksOf, FileOwners;
    var m := |files| - 1;
    assert c == m / 16 && CatalogOwners(m) == [Catalog(c)];
    assert files[..16 * c + 1] == files;
  }

  lemma OwnsAt(before: seq<Owner>, mine: seq<Owner>, after: seq<Owner>, m: nat, n: nat, r: nat)
    requires mine == FileOwners(m, n) && r < |mine|
    ensures (before + mine + after)[|before| + r] == if n > DIRECT && r == DIRECT then Indirect(m)
                                                     else if r > DIRECT then Data(m, r - 1) else Data(m, r)
  {
    FileOwnersAt(m, n, r);
  }

  /** Every block the file list calls for is allocated, at the index its name implies. */
  lemma {:induction false} NamedBlock(files: seq<File>, o: Owner)
    requires CalledFor(files, o)
    ensures RelOf(files, o) < |Owners(files)| && Owners(files)[RelOf(files, o)] == o
  {
    if |files| > 0 {
      var before := files[..|files| - 1];
      if CalledFor(before, o) {
        NamedBlock(before, o);
        RelStable(before, files, o);
        OwnersPrefix(files, |before|);
        hide RelOf, CalledFor, Owners;
      } else {
        NewestNamed(files, o);
      }
    }
  }

  /** No block has two names and no name has two blocks. */
  lemma NamedExactlyOnce(files: seq<File>, r: nat, s: nat, o: Owner)
    requires r < |Owners(files)| && s < |Owners(files)|
    ensures Owners(files)[r] == Owners(files)[s] ==> r == s
    ensures o in Owners(files) <==> CalledFor(files, o)
  {
    OwnerAt(files, r);
    OwnerAt(files, s);
    if CalledFor(files, o) {
      NamedBlock(files, o);
    }
    if o in Owners(files) {
      var k :| 0 <= k < |Owners(files)| && Owners(files)[k] == o;
      OwnerAt(files, k);
    }
  }
}
