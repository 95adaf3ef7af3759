/** A volume on which the size handed over is not the number of bytes copied. */
module Hollow {
  import opened Bytes
  import opened Layout
  import opened Ownership
  import opened Reader
  import opened Loading
  import opened OnDisk
  import opened RoundTrip
  import opened Boot
  import opened EndToEnd
  import opened Damage

  lemma HollowedReads(d: Disk, d': Disk, t: nat, g: Geometry, files: seq<File>, i: nat)
    requires Replaced(d, d', g, files, i, EncodeInode(HOLLOW))
    ensures HollowAt(d', t, SuperSeen(g), i + 1)
  {
    hide Replaced, EncodeInode, ReadAt;
    ReplacedReads(d, d', t, g, files, i, EncodeInode(HOLLOW));
  }

  /** With the inode of file `i` replaced by one of 100 bytes and no blocks, `kmain` still offers the file
      and hands over 100 bytes, of which it copied none. */
  lemma HollowVolumeBoots(d: Disk, d': Disk, t: nat, g: Geometry, files: seq<File>, sb: seq<byte>, past: seq<byte>,
                          i: nat)
    requires Replaced(d, d', g, files, i, EncodeInode(HOLLOW)) && i < |files| && i < MENU_MAX && |past| == OVERHANG
    requires |sb| == BLOCK && ProbeSuper(sb) == (Diag.COM_VOLUME_PROBE_OK, []) && ParseSuper(sb) == SuperSeen(g)
    ensures Indexable(d', ParseSuper(sb)) && i < |Offered(d', t, sb, past).entries|
    ensures Ends(d', t, sb, past, i) == Handoff(100) && Picked(d', t, sb, past, i).content == []
  {
    hide Replaced, ProbeSuper, ParseSuper, Cataloged, Ends, Offered, HollowAt, Picked, ReadInode, EncodeInode;
    var target := i + 1;
    forall u ensures MappableIfRead(ReadInode(d', u, SuperSeen(g), target)) {
      HollowedReads(d, d', u, g, files, i);
      HollowFile(d', u, SuperSeen(g), target, []);
    }
    ReplacedIndexable(d, d', g, files, i, EncodeInode(HOLLOW), target);
    ReplacedKeepsCatalog(d, d', g, files, i, EncodeInode(HOLLOW));
    OffersFiles(d', t, g, files, sb, past);
    var l := Offered(d', t, sb, past);
    assert l.entries[i] == Expected(files, i);
    HollowedReads(d, d', l.t, g, files, i);
    HollowHandoff(d', t, sb, past, i);
  }
}
