# The OWFS boot volume: formatter, driver and boot run

A Dafny model of the storage path of the Modular Bootloader. A Python formatter writes an OWFS
volume into a disk image; an independent C driver probes it, lists its root catalog and streams a
kernel into memory. The two share nothing but byte offsets. The central result,
`EndToEnd.FormatAndBoot`, composes the two with the boot menu: whatever files are formatted and
whatever the user does, the run ends as the menu's answer says, and a handoff leaves exactly the
picked file's bytes at the kernel address, its size in the boot configuration at 0x510, and nothing
but success codes in the ring.

`dafny verify dfyconfig.toml` checks everything.

## How the model is built

- **Bytes.** Images, blocks and memory are byte sequences and arrays at the source's own offsets.
  A packed structure is a list of little-endian stores (`Bytes.Edit`); `Bytes.Splice` is Python's slice
  assignment, which may change the length of a bytearray.
- **The formatter** (`Mkfs.Volume`) is a class that edits its image with the source's nested loops. Each
  method is proved against what the volume contains as a function of the files added so far
  (`Ownership.Owners`, `Contents.VolumeHolds`): the bitmap, each inode slot, each claimed block, and a
  zero window after the last claimed block.
- **The driver** (`Owfs.Driver`) is a class with the driver's globals, one staging buffer inside a 4 GiB
  memory array, and the diagnostic ring. Its methods are proved against the functions of `Reader`, which
  take the disk, the number of the next read and the codes raised so far. Any block read may fail; a
  failed read leaves unspecified bytes in its buffer.
- **Where they meet.** `OnDisk` reads every structure of a formatted volume back through the driver's
  functions; `RoundTrip`, `Isolation`, `Damage`, `Boot` and `EndToEnd` build on it. `Superblock` reads every
  superblock field back at its offset, and `Accounting` relates the bitmap to the pointers the driver can
  follow on the disk.
- **Decisions are stated on bytes.** Beside each function of `Reader` stands a lemma, named `...Exactly`, that
  says in terms of the bytes read, their offsets and the checksum when the driver accepts, refuses, warns,
  lists, maps or loads.
- **What enumeration sees** is a list of sightings, entries and faults in slot order
  (`Enumeration.SightsAll`); entries found and codes raised are functions of that list.
- **Checksums.** The two CRC32c engines compute one fold. `Remainder` proves that the fold is division of
  the message, as a polynomial over the field of two elements, by the generator of section 12.1 of RFC 3720
  given as its list of exponents (`Polynomial`), and that the remainder is unique. Burst detection follows
  from linearity and injectivity of the shift step, through the generic folds of `Iteration`.
- **Beside the volume:** the SUTF-8 codec, the name decoder, the FAT32 boot partition and the boot menu.

## Where the code and its description differ

- The slice assignment at `tools/owfs_mkfs.py:226` replaces a whole block by a possibly shorter last
  chunk, so the image shrinks. The model keeps this. The volume stays correct as long as the zeroed
  region is long enough to absorb the loss (`Contents.ZeroedFor`), but everything after the region moves
  down by the slack, including the backup GPT that `tools/build_image.py` writes before formatting. The
  image keeps its length if and only if every file is a whole number of blocks (`Mkfs.FormatOwfs`).
- `owfs_load_file` promises to propagate the specific fault its helper raised. `owfs_read_inode` fails
  without raising anything for an inode number out of range and for an unused slot, so the code returned
  can be an old one, even the success code (`Reader.StaleSuccess`). `Reader.LoadSuccessExactly` and
  `Reader.SilentExactly` say exactly when; within one boot run it cannot happen (`Boot.HandoffIsSound`).
- The size reported is the number of bytes copied if and only if the inode's block count is honest
  (`Loading.SizeHonestExactly`); `kmain` hands over a dishonest one unnoticed (`Hollow.HollowVolumeBoots`).
- An empty EFI binary leaves a directory entry that points at a free cluster (`Fat32.BootFileReads`).
- The countdown is exact if and only if reads of the clock are less than a minute apart
  (`Menu.ExactIffFrequent`).
- The formatter's own description places the partition at LBA 128; the driver looks only at LBA 131200,
  the value the image builder passes, and so does `EndToEnd.FormatAndBoot`.

## Model

| member | source | states |
|---|---|---|
| EndToEnd.FormatAndBoot | src/main.c:65-126 | formatting fails exactly when the volume is too small or too few data blocks exist; otherwise the run ends as the menu's answer calls for, and a handoff carries the picked file's size, its exact bytes at the kernel address, the boot configuration at 0x510 from which that size reads back, memory untouched outside these and the staging buffer, and no code but success codes |
| EndToEnd.RunsRight | src/main.c:75-118 | on a formatted volume: menu open, reboot, shutdown, load failure for a file under 16 bytes, or handoff with the file's size, exactly as the menu answers among the first 32 files |
| EndToEnd.HandsOverPicked | src/main.c:105-126 | after such a handoff the picked file is in memory, the boot configuration published with its size, other memory untouched, and only success was reported |
| EndToEnd.OffersFiles | src/main.c:80-83 | the menu offers the first 32 files in insertion order, and no fault is reported |
| EndToEnd.LoadsPicked | src/main.c:105-106 | any pick is loaded byte for byte |
| EndToEnd.BootsPicked | src/main.c:105-126 | and handed over with its size |
| EndToEnd.LaidIndexable | src/owfs.c:179-228 | every inode the driver can read on a formatted volume has at most 1034 blocks |
| EndToEnd.ShippedImageFits | tools/build_image.py:337-347 | the image and the 2048 blocks the builder uses meet the formatter's needs for one kernel of any size up to 1034 blocks, the backup GPT lying past the zeroed region |
| Damage.InodeDamageIsIsolated | src/main.c:75-111 | at most four damaged bytes in one file's inode, wholly inside or outside its checksum field, cost that file and no other: every file is still offered, the damaged one ends in a failed load, and any other is handed over byte for byte |
| Damage.DamagedInodeNeverLoads | src/owfs.c:179-197 | loading it reports no size and copies nothing, and returns the inode-checksum fault when the slot still looks in use |
| Steps.SlackFreeExactly | tools/owfs_mkfs.py:222-227 | no bytes are lost exactly when every file is a whole number of blocks |
| EndToEnd.OneByteFileShrinksImage | tools/owfs_mkfs.py:226 | a one-byte file takes 4095 bytes out of the image |
| Mkfs.FormatOwfs | tools/owfs_mkfs.py:284-301 | fails exactly for fewer than 275 blocks or too few data blocks; otherwise the image holds the volume the file list calls for, the superblock reads back field by field (or is left alone on request), bytes before it are kept, bytes past the zeroed region are kept but moved down by the total slack, and the image keeps its length if and only if every file size is a multiple of 4096 |
| Mkfs.Volume.AllocBlock | tools/owfs_mkfs.py:131-147 | claims the first clear bit of the bitmap and nothing else, or fails exactly when that bit is past the data region, changing nothing |
| Mkfs.Volume.NextBlock | tools/owfs_mkfs.py:131-147 | on a volume in progress the scan is a counter: block number data start plus blocks claimed so far, full exactly when all data blocks are claimed; contents are kept |
| Mkfs.Volume.WriteInode | tools/owfs_mkfs.py:149-166 | the 256-byte slot of the inode holds the sealed encoding and no other byte changes |
| Mkfs.Volume.AllocInode | tools/owfs_mkfs.py:168-175 | the first slot whose type byte is zero, or none if all 4096 are in use |
| Mkfs.Volume.WriteRootInode | tools/owfs_mkfs.py:187-200 | slot 0 holds the root inode over the current catalog blocks |
| Mkfs.Volume.WriteCatalogEntry | tools/owfs_mkfs.py:177-185 | the entry's 256 bytes hold the sealed encoding and no other byte changes |
| Mkfs.Volume.FreeEntry | tools/owfs_mkfs.py:203-207 | the first catalog slot, in block order, that is unused or deleted |
| Mkfs.Volume.CatalogInsert | tools/owfs_mkfs.py:202-215 | the next file's entry is added in its place, with a new root block and a rewritten root inode exactly when the catalog is full; fails only if that block is not available |
| Mkfs.Volume.StoreChunk | tools/owfs_mkfs.py:225-226 | the next block is claimed and reads as the chunk padded with zeros although the image shrinks |
| Mkfs.Volume.StoreBlocks | tools/owfs_mkfs.py:222-227 | claims the file's blocks in order, the indirect block before the eleventh, and stores every chunk; fails exactly when the blocks do not suffice |
| Mkfs.Volume.StorePointers | tools/owfs_mkfs.py:228-233 | the indirect block holds the addresses from the eleventh on |
| Mkfs.Volume.AddFile | tools/owfs_mkfs.py:217-250 | returns inode k+1 for the k-th file, and the volume then holds the files with this one appended, with matching free counts; fails exactly when the blocks do not suffice |
| Mkfs.Volume.Begin | tools/owfs_mkfs.py:293-296 | a zeroed region becomes the volume that holds no files |
| Mkfs.Volume.WriteSuperblock | tools/owfs_mkfs.py:252-281 | block 16 holds the superblock, every field at its own offset: total, free blocks as data blocks less set bitmap bits, 4095 less the files as free inodes, bitmap and table geometry, label, zeros, a valid CRC, and the Fletcher-64 halves as the two closed sums over the bitmap's words; the volume and the rest of the image are kept |
| Superblock.ReadsBack | tools/owfs_mkfs.py:252-281 | any volume with the formatter's superblock reads so, with free blocks plus set bits equal to the data blocks |
| Contents.SpliceAtWindow | tools/owfs_mkfs.py:226 | splicing a short chunk over a zero block inside a zero window acts as zero-padding followed by loss of the slack from the window |
| Bytes.FieldWraps32 | tools/owfs_mkfs.py:74-75 | the low 32 bits of whatever was stored are read back, lowest byte first (`Bytes.LittleEndian`, `Bytes.LittleEndian16`) |
| Accounting.FreePlusSetIsAll | tools/owfs_mkfs.py:131-147 | free blocks plus set bitmap bits equal the data blocks |
| Accounting.SetExactlyWhenPointedTo | src/owfs.c:179-228 | on the disk itself, with no failing read: every pointer the driver can follow, from a readable inode's block map or to its indirect block, leads into the data region; a data block's bit is set exactly when such a pointer leads to it, and then only one does |
| Accounting.CalledForIsPointedTo | src/owfs.c:200-228 | every block the file list calls for is reached by the pointer of its role |
| Accounting.PointedToIsCalledFor | src/owfs.c:200-228 | whatever a pointer reaches is called for in the role of that pointer; no pointer reaches anything else |
| Accounting.SetExactlyWhenCalledFor | tools/owfs_mkfs.py:131-250 | a data block's bit is set exactly when the file list calls for the block, in one role only |
| Ownership.BitmapBlocksIsLeast | tools/owfs_mkfs.py:91-107 | the bitmap size formula is the least count that covers the data region it leaves |
| Ownership.OwnerAt | tools/owfs_mkfs.py:202-250 | every allocated block is called for by the file list, at the index its role implies |
| Ownership.NamedBlock | tools/owfs_mkfs.py:202-250 | every block the file list calls for is allocated at that index |
| Ownership.NamedExactlyOnce | tools/owfs_mkfs.py:202-250 | no two blocks have the same role and no role is missing or foreign |
| Bitmap.FirstClearIsFirst | tools/owfs_mkfs.py:133-146 | the bit first fit chooses is clear and all before it are set |
| Bitmap.FirstClearOfBump | tools/owfs_mkfs.py:133-146 | first fit on a bitmap with exactly k leading bits set is k |
| Bitmap.BumpAdvances | tools/owfs_mkfs.py:144 | setting that bit gives the bitmap of k+1 |
| Bitmap.BitsByWorth | tools/owfs_mkfs.py:141-145 | bit k of a byte is worth two to the k, lowest first |
| Bitmap.SetBitAdds | tools/owfs_mkfs.py:144 | setting a clear bit adds its worth |
| Fletcher64.Fletcher | tools/owfs_mkfs.py:60-68 | high half is the weighted sum (n-i)·w_i and low half the plain sum, each modulo 2^32-1; the result fits 64 bits |
| Crc32c.Crc32cByte | src/owfs.c:45-56 | the branching loop is one byte step of the fold |
| Crc32c.Crc32cStruct | src/owfs.c:59-71 | CRC of the structure with the checksum field read as zero |
| Crc32c.PyCrc32c | tools/owfs_mkfs.py:43-49 | the masked loop computes the same fold from any initial value |
| Crc32c.PyCrc32cStruct | tools/owfs_mkfs.py:52-57 | the formatter's checksum equals the driver's on every input |
| Crc32c.BitsValue | src/owfs.c:47 | the bits xored into the register are the byte |
| Remainder.FoldIsRemainder | tools/owfs_mkfs.py:43-49 | for every register and message, the folded register is the remainder of the message after division by the generator, and nothing else is |
| Remainder.StructIsRemainder | src/owfs.c:59-71 | a number is the checksum of a structure if and only if its complement is the remainder of 32 ones followed by the structure with its field cleared |
| Remainder.MessageBits | src/owfs.c:45-56 | the message polynomial has the message's bits in order, lowest bit of each byte first |
| Remainder.CoeffsOfPoly | src/owfs.c:50 | the constant of both engines is the generator less its highest power |
| Polynomial.RemainderUnique | tools/owfs_mkfs.py:43-49 | no polynomial has two remainders of degree below 32 |
| Crc32c.StructIgnoresField | src/owfs.c:59-71 | the four bytes of the checksum field do not influence it |
| Crc32c.ShiftLinear | src/owfs.c:48-54 | one shift step distributes over exclusive or |
| Crc32c.ShiftInjective | src/owfs.c:48-54 | no two states shift to the same state |
| Crc32c.FoldIsShifts | src/owfs.c:45-56 | folding up to four bytes is that many times eight shifts of the state xor the word |
| Crc32c.BurstDetected | src/owfs.c:45-71 | two buffers of equal length that differ only within four consecutive bytes have different CRCs |
| Crc32c.StructBurstDetected | src/owfs.c:59-71 | the same for structures, when the bytes lie outside the checksum field |
| Layout.SealedIsIntact | tools/owfs_mkfs.py:165 | whatever the formatter seals passes the driver's check |
| Layout.DamageBreaks | src/owfs.c:193 | damage within four bytes, wholly inside or wholly outside the checksum field, fails the check |
| Layout.InodeRoundTrip | include/mbl.h:117-136 | the driver reads from an encoded inode the fields that were stored, zero for unused pointers, with a valid checksum |
| Layout.InodeReadsBack | tools/owfs_mkfs.py:149-166 | number, name length, permissions, flags, parent and name are at their offsets, and the gaps are zero |
| Layout.EntryRoundTrip | include/mbl.h:139-146 | the same for a catalog entry and its name |
| Layout.SuperRoundTrip | include/mbl.h:89-114 | the same for the superblock |
| Layout.SuperReadsBack | tools/owfs_mkfs.py:252-281 | every superblock field reads back at its own offset, the rest being zero |
| OnDisk.ReadsBlock | src/bios_disk.c:39-42 | the sector address of a block is the formatter's byte offset of that block |
| OnDisk.ProbeAccepts | src/owfs.c:135-177 | the probe of a formatted volume returns the probe-ok code and raises nothing |
| OnDisk.ReadsFileInode | src/owfs.c:179-197 | inode k+1 of a formatted volume reads as file k's size, block count and pointers |
| OnDisk.ReadsRoot | src/owfs.c:179-197 | inode 0 reads as a catalog over the root blocks |
| OnDisk.FileTitled | tools/owfs_mkfs.py:234-247 | the slot of file k holds number k+1, the default file permissions and the name |
| OnDisk.RootTitled | tools/owfs_mkfs.py:187-200 | the root's slot holds number 0, the default directory permissions and the name `/` |
| OnDisk.MapsBlock | src/owfs.c:200-228 | the block map of a stored file gives the address the allocator assigned, through the indirect block from the eleventh on |
| OnDisk.FetchesBlock | src/owfs.c:312-320 | fetching block j of a stored file gives chunk j padded with zeros |
| OnDisk.FetchesCatalog | src/owfs.c:243-252 | fetching block c of the root gives that catalog block |
| RoundTrip.LoadsFile | src/owfs.c:281-338 | loading a stored file gives its bytes and size and the success code, or the too-small code under 16 bytes |
| RoundTrip.ListsFiles | src/owfs.c:230-279 | enumerating a formatted volume gives the first min(n, max) files in insertion order: inode k+1, type file, decoded name; and reports no fault |
| RoundTrip.FreeIsUnlisted | tools/owfs_mkfs.py:203-207 | a catalog slot the formatter would reuse is exactly one the driver does not list |
| Isolation.DamageIsIsolated | src/owfs.c:243-272 | at most four damaged bytes in one entry remove that entry from the listing and no other, and raise one catalog-checksum fault exactly when the slot still looks in use and lies before the cut |
| Enumeration.ScanSees | src/owfs.c:253-272 | one block contributes its live, intact slots in order and one fault for each live slot that fails its checksum; the scan stops early only when one more entry would not fit |
| Enumeration.SightExactly | src/owfs.c:253-270 | on the bytes of a slot: nothing is seen exactly of an unused or deleted one, a fault exactly of a live one with a wrong checksum, and else its inode, type and decoded name |
| Enumeration.EnumerateSees | src/owfs.c:230-279 | on any readable root the nested loops return the first `max` live, intact slots in block order, and raise a fault for each damaged live slot met before the cut, then the success code when something was listed and nothing cut off |
| Enumeration.UncutReportsEveryFault | src/owfs.c:256-261 | when nothing is cut off, exactly one code for every fault |
| Enumeration.OneFaultReported | src/owfs.c:253-272 | one fault among entries is reported exactly when at most `max` entries come before it |
| Enumeration.DamageSeen | src/owfs.c:256-261 | damage to one slot of any catalog block turns its entry into a fault, or into nothing if it no longer looks in use, and no other sighting changes |
| Enumeration.DamageSeenAmong | src/owfs.c:243-272 | the same among several catalog blocks |
| Reader.LoadFromSucceeds | src/owfs.c:310-337 | the copying loop reports a size exactly when every block was copied, cut to the bytes of the file |
| Reader.LoadSuccessExactly | src/owfs.c:281-338 | the success code means a complete copy with the recorded size, or an inode failure that leaves no code, after an earlier success code; and nothing else returns it |
| Reader.LoadReturnsItsCode | src/owfs.c:286-337 | the code returned is the one code the load raised, but for failures that leave none, which return the last code of earlier calls or the load-failed code |
| Reader.SilentExactly | src/owfs.c:179-197 | an inode failure leaves no code exactly for a number out of range and for a readable slot whose type byte is zero |
| Reader.StaleSuccess | src/owfs.c:287-296 | that second case, concretely |
| Reader.ProbeNeverLoads | src/owfs.c:135-177 | probing never raises the load-success code |
| Reader.EnumerateNeverLoads | src/owfs.c:230-279 | enumerating never raises it |
| Reader.BootRunIsSound | src/main.c:75-108 | in a probe, enumerate, load run from an empty ring the success code means a size was reported |
| Reader.ProbeSucceedsExactly | src/owfs.c:135-177 | the probe succeeds if and only if magic, block size and checksum are right, the major version is at most 1 and the encrypted bit is clear |
| Reader.RefusesExactly | src/owfs.c:143-174 | when each refusal is the verdict, and what it raises |
| Reader.WarnsExactly | src/owfs.c:119-133 | each warning is raised exactly for its flag |
| Reader.WarnsInOrder | src/owfs.c:119-133 | in the order of the source, each at most once |
| Reader.DamagedSuperRefused | src/owfs.c:157-161 | at most four damaged bytes of a superblock, wholly inside or outside its checksum field, are never accepted, and give the checksum fault where magic and block size are untouched |
| Reader.ReadableExactly | src/owfs.c:179-197 | an inode is read if and only if its number is in range, its block reads, its type byte is not zero and its stored checksum is that of its slot |
| Reader.RefusesInode | src/owfs.c:179-197 | error and codes of every other case |
| Reader.MapsExactly | src/owfs.c:200-228 | a block is mapped if and only if the inode counts it and its pointer, through a readable indirect block from the eleventh on, is not zero; and then to that pointer |
| Reader.FetchFaults | src/owfs.c:312-320 | a failed fetch raises the I/O fault exactly when a disk read failed, and the bad-map fault otherwise |
| Reader.DeletedNeverListed | src/owfs.c:230-279 | on any disk no unused or deleted entry is listed, and nothing when inode 0 is unreadable or not a catalog |
| Loading.LoadsConcatenation | src/owfs.c:310-337 | the loop succeeds exactly when all blocks can be mapped and read, and then it has copied their concatenation up to the extent of the inode |
| Loading.FetchedLength | src/owfs.c:311-320 | that concatenation has one full block per counted block |
| Loading.LoadsExactly | src/owfs.c:281-338 | a load reports a size if and only if the inode is readable, has the file bit and 16 bytes to 16 MiB, and all its blocks can be mapped and read |
| Loading.OtherThanFileRefused | src/owfs.c:296-299 | an inode without the file bit gives the not-a-file code, no size and no content |
| Loading.SizeHonestExactly | src/owfs.c:281-338 | a load that reports a size has copied the inode's blocks, glued together and cut; the bytes copied are as many as the size says if and only if the block count is ceil(size/4096), or one more when the size is a whole number of blocks |
| Loading.HollowFile | src/owfs.c:281-338 | an intact inode of 100 bytes and no blocks loads with success and size 100, and copies nothing |
| Loading.HollowDisk | src/owfs.c:281-338 | a disk on which that happens |
| Owfs.Driver.ReadBlock | src/bios_disk.c:39-42 | fills one block of the buffer with the disk's bytes or fails; the rest of the buffer is kept |
| Owfs.Driver.Probe | src/owfs.c:135-177 | verdict and raised codes as `Reader.ProbeSuper` says, whose decisions are `Reader.ProbeSucceedsExactly` and `Reader.RefusesExactly`; a failed read gives the I/O fault |
| Owfs.Driver.WarnVolumeCondition | src/owfs.c:119-133 | raises exactly the warnings the flags call for, in order |
| Owfs.Driver.ReadInode | src/owfs.c:179-197 | the inode or the error `Reader.ReadInode` says, whose decisions are `Reader.ReadableExactly` and `Reader.RefusesInode` |
| Owfs.Driver.BlockmapGet | src/owfs.c:200-228 | the mapped address or an error; memory outside the staging buffer is kept |
| Owfs.Driver.ScanStaged | src/owfs.c:253-272 | fills the entries with what the specification of the scan says |
| Owfs.Driver.CheckSlot | src/owfs.c:254-270 | type test, checksum test and entry of one staged slot |
| Owfs.Driver.Enumerate | src/owfs.c:230-279 | result, entries and raised codes as the specification says, touching memory only in the staging buffer |
| Owfs.Driver.CopyBytes | src/owfs.c:82-88 | copies between disjoint ranges and changes nothing else |
| Owfs.Driver.Propagate | src/owfs.c:289-292 | the last code raised, or the load-failed code on an empty ring |
| Owfs.Driver.LoadFile | src/owfs.c:281-338 | return code, size, raised codes as the specification says; for a destination clear of the staging buffer the content lies there and other memory is unchanged, although the same buffer carries block maps and data; for any inode with an honest block count, memory there is its blocks cut to its size |
| Owfs.Driver.LoadBlocks | src/owfs.c:310-337 | the same for the copying loop |
| Boot.Kmain | src/main.c:65-126 | for any disk, failing reads included, and any user: how the run ends, and after a handoff the kernel is in memory at its address, the boot configuration holds the size, other memory is untouched and everything raised is in the ring |
| Boot.UnattendedPicksFirst | src/menu.c:232-244 | left alone with a steady clock, the menu boots the first entry once ten seconds have passed |
| Boot.HandOff | src/main.c:105-126 | the load, the second size check, and the boot configuration, published exactly when control is handed over |
| Boot.ProbeStopsExactly | src/main.c:75-79 | the run ends at the probe if and only if the superblock is not acceptable |
| Boot.DamagedSuperStops | src/main.c:75-79 | a superblock so damaged stops the run |
| Boot.PublishConfig | src/main.c:120-125 | magic, drive, size and the initial SUCS configuration read back from 0x510; the declared padding and all other memory are kept |
| Boot.HandoffIsSound | src/main.c:75-111 | for any disk: a handoff means the inode was readable, every block was copied and the size is the recorded one; as many bytes were copied if and only if the block count is honest; the second size check never fires |
| Boot.HollowHandoff | src/main.c:105-126 | picking an inode of 100 bytes and no blocks hands over 100 bytes of which none was copied |
| Hollow.HollowVolumeBoots | src/main.c:75-126 | a formatted volume with one file's inode replaced so still offers the file and hands it over |
| Boot.KernelClearOfStaging | include/mbl.h:13-15 | a kernel loaded at its address never reaches the staging buffer or the end of 32-bit memory |
| Sutf8.Encode | include/sutf/sutf8.h:24-41 | an encoding is as long as the codepoint length function says |
| Sutf8.EncodingForm | src/sutf/sutf8.c:3-52 | lead byte marks, continuation bytes and payload bits, for all six lengths |
| Sutf8.LengthsExactly | include/sutf/sutf8.h:24-41 | which codepoints are valid and how long each is |
| Sutf8.EncodeChar | src/sutf/sutf8.c:3-52 | writes the encoding when it is valid and fits the buffer, else nothing |
| Sutf8.DecodeEncode | src/sutf/sutf8.c:3-154 | decoding an encoding followed by anything gives the codepoint and its length |
| Sutf8.EncodeDecode | src/sutf/sutf8.c:54-154 | whatever is accepted is the one encoding of the value returned: no overlong or misframed form |
| Sutf8.PrefixFree | src/sutf/sutf8.c:3-52 | no encoding is a prefix of another |
| Sutf8.AcceptsExactly | src/sutf/sutf8.c:54-154 | the decoder accepts exactly the strings that start with an encoding and otherwise yields the invalid codepoint |
| Names.NameToAscii | src/owfs.c:91-110 | for any bytes and any length: writes the decoded text and a NUL, at most 128 bytes, and keeps the rest of the buffer |
| Names.AsciiOfStream | src/owfs.c:91-110 | a stream of encodings gives one character per codepoint, itself if ASCII and a question mark otherwise, up to the room |
| Names.RejectedByteAlone | src/owfs.c:91-110 | a byte at which no encoding starts is dropped alone and shown as a question mark |
| Names.EncodingShown | src/owfs.c:91-110 | an encoding is used up whole |
| Names.PlainText | src/owfs.c:91-110 | an ASCII name is shown as it is, up to 127 bytes |
| Diag.TrapGovernsItsRange | include/bancode/bancode_all.h:140-168 | a trap is resolved for a code exactly when the code lies in the range the trap reports |
| Diag.RecordsExactly | src/bancode/bancode_boot.c:23-35 | a record has the slot of the 128-code cluster its code lies in, and slot 15 with no trap outside the fifteen clusters |
| Diag.OnlyCompletionSucceeds | include/bancode/bancode_all.h:41-42 | success is exactly the completion range, which holds no fault, warning or refusal |
| Diag.DiagRing.Raise | src/bancode/bancode_boot.c:23-35 | the ring refines the list of all codes raised |
| Diag.DiagRing.Last | src/bancode/bancode_boot.c:37-44 | the record of the last code raised, with its trap slot, or none |
| Diag.DiagRing.Count | src/bancode/bancode_boot.c:46-48 | min(n, 8) after n raises |
| Diag.RaiseKeepsTail | src/bancode/bancode_boot.c:23-35 | overwriting the slot at the head forgets only the oldest code |
| Diag.ReadBack | src/bancode/bancode_boot.c:37-44 | reading k slots back from the head finds the k-th most recent code |
| Fat32.DiskImage.WriteEsp | tools/build_image.py:171-311 | the image is the old one with ten stores, both tables equal |
| Fat32.DiskImage.WriteChain | tools/build_image.py:294-305 | the file lies in consecutive clusters from 5 and the table links each to the next |
| Fat32.StoresApart | tools/build_image.py:218-311 | all stores lie inside the partition and none overlaps another: boot sectors, tables, directories and file are disjoint |
| Fat32.PartitionOnly | tools/build_image.py:307-311 | the two tables are equal and nothing outside the partition changes |
| Fat32.ChainFollowed | tools/build_image.py:294-305 | following the table visits exactly the file's clusters, each once, none a directory, and ends at the end mark |
| Fat32.PathResolves | tools/build_image.py:246-292 | the path \EFI\BOOT\BOOTX64.EFI leads through three directories, each entry marked as the directory or file it is, to cluster 5 and the file's size |
| Fat32.DotsResolve | tools/build_image.py:246-292 | `.` leads to the directory itself and `..` to the one above, 0 for the root |
| Fat32.DirectoriesAreSingle | tools/build_image.py:294-305 | each directory is a chain of one cluster, and the two reserved table entries hold the media byte and the end mark |
| Fat32.NamesSpelled | tools/build_image.py:246-292 | the directory names are the 8.3 names the path asks for |
| Fat32.BootFileReads | tools/build_image.py:171-311 | the file read back along path and chain equals the input if and only if it is not empty |
| Menu.Cursor.HandleKey | src/menu.c:130-188 | action and new window after any key, as `Menu.Next` says, whose laws are `Menu.DownsGoRound`, `Menu.EndsOfTheList` and `Menu.JumpsAreSteps`; the highlighted entry stays drawn |
| Menu.Cursor.Scroll | src/menu.c:172-187 | from any scroll position the guarded assignments end inside the list with the selection drawn |
| Menu.WindowKept | src/menu.c:130-188 | after any keys the window is within bounds and each key scrolls it as little as possible |
| Menu.DownsGoRound | src/menu.c:138-143 | n presses of Down move the selection n places around the ring |
| Menu.UpUndoesDown | src/menu.c:132-143 | Up and Down undo each other |
| Menu.EndsOfTheList | src/menu.c:144-149 | Home and End go to the first and the last entry, and one step past either is the other |
| Menu.JumpsAreSteps | src/menu.c:144-161 | Home, End, PgUp and PgDn are so many presses of Up or Down, at most 18 for a page, never round the ring |
| Menu.OtherKeysStay | src/menu.c:130-171 | no other key moves selection or window |
| Menu.Run | src/menu.c:190-246 | the loop over sampled clock seconds returns what the specification over true times returns; `remaining` is the timeout minus what was counted |
| Menu.AnswerInRange | src/menu.c:190-246 | the answer is reboot, shutdown or an existing entry |
| Menu.NeverCountsTooMuch | src/menu.c:233-237 | the countdown never runs ahead of the clock |
| Menu.ExactIffFrequent | src/menu.c:233-237 | it is exact at every poll if and only if polls are less than a minute apart |
| Menu.EndsExactly | src/menu.c:216-246 | with such polls the menu ends at the first poll with a deciding key or at which the timeout has truly elapsed, and returns accordingly; the key comes first |
| Menu.KeyDecides | src/menu.c:162-171 | Enter answers the selected entry, Esc and the reboot key -1, the shutdown key -2, and with none of them the timeout answers 0 |
| Menu.EnterBoots | src/menu.c:216-246 | the entry Enter boots right after each kind of key |
| Menu.EmptyEndsExactly | src/menu.c:199-206 | with no entries only Esc or the reboot key ends the menu, and it reboots |

## Left out

- Mkfs.Volume.AddFile: at most 160 files, names of at most 128 bytes, files of at most 1034 blocks, for the reasons given for `Mkfs.FormatOwfs`.
- Mkfs.FormatOwfs: at most 160 files, names of at most 128 bytes, files of at most 1034 blocks; beyond these the formatter overruns its structures or raises a packing error, and the format has no room. The label is given as bytes, its UTF-8 encoding is not modelled. The image must be zero from the bitmap up to an offset that leaves room for the blocks and the slack.
- Owfs.Driver.BlockmapGet: an inode with more than 1034 blocks makes the driver index past the staged indirect block; such inodes are excluded, here and in the members below, by `Reader.Mappable` and `Reader.MappableIfRead`.
- Owfs.Driver.Enumerate: a root inode with more than 1034 blocks, for the same reason.
- Owfs.Driver.LoadBlocks: an inode with more than 1034 blocks, for the same reason.
- Owfs.Driver.LoadFile: the same; and what memory holds when the destination meets the staging buffer or wraps around 32 bits is not stated.
- Owfs.Driver.ReadBlock: a failed read leaves unspecified bytes in its own block only; the superblock, the inode scratch block and memory are three separate arrays.
- EndToEnd.FormatAndBoot: reads never fail there, and sector addresses do not wrap; failing reads are covered by `Boot.Kmain`.
- Boot.Kmain: disks on which some readable inode has more than 1034 blocks are excluded; the failure screens end the run; the exit from boot services and the jump to the kernel are not modelled.
- Boot.PublishConfig: the layout is that of a compiler with four-byte enumerations and natural alignment; the three bytes after the restart flag, alignment padding, may end with any value.
- Menu.Run: a finite run of the endless loop, one key and one true time for each pass; drawing and the status line are output and not modelled. Integers are unbounded.
- Fat32.DiskImage.WriteEsp: the contents of the boot sector and of the information sector are parameters; binaries of more than 128989 sectors, which would run past the partition, are excluded.
- Sutf8.EncodeChar, Crc32c.Crc32cStruct: bit tests and shifts on bytes are quotients and remainders; only the CRC state is a 32-bit vector.
- Mkfs.Volume.WriteSuperblock: the volume's dictionary is its few varying entries; constants are written where they are stored.
- The `fired` field of a diagnostic record: declared, never set.
- The protective MBR and the GPT: constants and random identifiers.
- Code names and hexadecimal text of diagnostics, BANcode and later SUCS mode switches: tables and formatting.
- The framebuffer, the font, the keyboard, the real-time clock and the UEFI calls behind block reads: foreign calls.
- Build scripts, the QEMU driver and the compatibility test.
