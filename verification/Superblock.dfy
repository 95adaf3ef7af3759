/** The superblock of a formatted volume, field by field. */
module Superblock {
  import opened Bytes
  import opened Crc32c
  import opened Layout
  import opened Bitmap
  import opened Fletcher64
  import opened Ownership
  import opened Contents

  /** The superblock as anyone can read it at its offsets: the free blocks are those whose bit is clear, the
      free inodes those of no file, and the checksum is that of the bitmap's words. */
  ghost predicate ReadsAs(img: seq<byte>, g: Geometry, files: seq<File>, volumeLabel: seq<byte>) {
    && Off(g, InodeTable(g)) <= |img|
    && var s, bitmap := BlockAt(img, g, 16), AllWords(BitmapList(img, g));
       && Get32(s, 0x00) == 0x4F57_4653 && Get16(s, 0x04) == 1 && Get16(s, 0x06) == 2 && Get32(s, 0x08) == 4096
       && Get32(s, 0x0C) == g.total % TWO_32
       && Get32(s, 0x10) == (DataBlocks(g) - SetBits(BitmapOf(img, g))) % TWO_32
       && Get32(s, 0x14) == 4096 && Get32(s, 0x18) == 4095 - |files|
       && Get32(s, 0x1C) == 17 && Get32(s, 0x20) == BitmapBlocks(g) % TWO_32
       && Get32(s, 0x24) == (17 + BitmapBlocks(g)) % TWO_32 && Get32(s, 0x28) == 256
       && Get32(s, 0x2C) == (273 + BitmapBlocks(g)) % TWO_32
       && Get32(s, 0x30) == Get32(s, 0x34) == Get32(s, 0x38) == Get32(s, 0x88) == 0
       && Get32(s, 0x3C) == Sum(bitmap) % 0xFFFF_FFFF && Get32(s, 0x40) == WeightedSum(bitmap) % 0xFFFF_FFFF
       && HasLabel(s, volumeLabel[..Min(|volumeLabel|, 64)]) && s[0x8C..] == Zeros(BLOCK - 0x8C)
       && CrcStruct(s, 0x84) == Get32(s, 0x84)
  }

  lemma ReadsBack(img: seq<byte>, g: Geometry, files: seq<File>, hi: nat, volumeLabel: seq<byte>)
    requires VolumeHolds(img, g, files, hi) && HasSuper(img, g, files, volumeLabel)
    ensures ReadsAs(img, g, files, volumeLabel)
  {
    hide VolumeHolds, Owners, SetBits, EncodeSuper, Sum, WeightedSum, AllWords, CrcStruct, HasLabel, Get32, Get16;
    SetBitsAreOwners(img, g, files, hi);
    SuperReadsBack(SuperOf(img, g, files, volumeLabel));
    TwoHalves(WeightedSum(AllWords(BitmapList(img, g))) % MODULUS, Sum(AllWords(BitmapList(img, g))) % MODULUS);
  }

  /** As many bits are set as blocks are owned. */
  lemma SetBitsAreOwners(img: seq<byte>, g: Geometry, files: seq<File>, hi: nat)
    requires VolumeHolds(img, g, files, hi) && |Owners(files)| <= DataBlocks(g)
    ensures Off(g, InodeTable(g)) <= |img| && SetBits(BitmapOf(img, g)) == |Owners(files)|
  {
    hide InodesAre, BlocksAre, Owners, SetBits, DataStart;
    BitmapBlocksIsLeast(g);
    SetBitsOfBump(|Owners(files)|, BitmapBlocks(g) * BLOCK);
  }

  lemma TwoHalves(high: nat, low: nat)
    requires high < TWO_32 && low < TWO_32
    ensures (high * TWO_32 + low) % TWO_32 == low && (high * TWO_32 + low) / TWO_32 % TWO_32 == high
  {
  }
}
