/** A volume on which a scan for free clusters keeps a wrong count. */
module CountWitness {
  import opened Bytes
  import opened Device
  import opened FatTable
  import opened FatGeometry
  import opened FatWindow
  import opened Chains
  import opened FreeCounts
  import opened FatVolumes

  /** Three clusters of one sector, behind a boot sector, one FAT12 table and a root directory of one sector. */
  const SMALL: Geometry := Geometry(FAT12, 1, 1, 16, 5, 1, 0, 1, 2, 3)

  /** The entry of cluster 3 is 1, and the clusters on both sides of it are free. */
  const ENTRIES: seq<nat> := [0xFF8, 0xFFF, 0, 1, 0]

  const TABLE: seq<byte> := [0xF8, 0xFF, 0xFF, 0, 0x10, 0, 0, 0]

  lemma SmallValid()
    ensures SMALL.Valid(6) && SMALL.AreaBase() == 2
  {
    assert ClusterSize(1);
  }

  lemma EntryOf(f: seq<byte>, i: nat)
    requires |f| >= 8 && f[..8] == TABLE && i < 5
    ensures Offset(FAT12, i) + 2 <= |f| && Entry(FAT12, f, i) == ENTRIES[i]
  {
    var o := Offset(FAT12, i);
    assert f[o] == f[..8][o] && f[o + 1] == f[..8][o + 1];
  }

  /** The volume behind a clean window. */
  lemma SmallTable(image: seq<byte>, shown: nat, win: seq<byte>)
    requires |image| == 3072 && image[512..520] == TABLE && |win| == 512
    ensures 1024 <= |Overlaid(SMALL, image, false, shown, win)| && TableBytes(FAT12, 5) <= 512
    ensures EntriesOf(SMALL, Overlaid(SMALL, image, false, shown, win)) == ENTRIES
  {
    var v := Overlaid(SMALL, image, false, shown, win);
    assert v == image;
    var f := TableOf(SMALL, v);
    assert f[..8] == image[512..520];
    forall i | 0 <= i < 5
      ensures Entries(FAT12, f, 5)[i] == ENTRIES[i]
    {
      EntryOf(f, i);
    }
  }

  lemma SmallCounts()
    ensures FreeCount(ENTRIES) == 2 && Zeros(ENTRIES, 2, 3) == 1
  {
    var f := ENTRIES;
    assert Zeros(f, 2, 2) == 0 && Zeros(f, 2, 3) == 1 && Zeros(f, 2, 4) == 1 && Zeros(f, 2, 5) == 2;
  }

  /** On a device that works, the count kept is 1 although two clusters are free. */
  method WrongCountKept() returns (fs: FatVolume, res: FResult, n: nat)
    ensures fs.Valid() && fs.g.Valid(fs.size) && fs.disk.Healthy() && fs.Fat() == ENTRIES
    ensures res == IntErr && fs.freeClst == n == 1 && FreeCount(fs.Fat()) == 2
  {
    hide FatVolume.Fat, FreeCount, Zeros, Mirrored, Overlaid, EntriesOf;
    SmallValid();
    SmallCounts();
    var image := Splice(Blank(3072), 512, TABLE);
    SplicedSlice(Blank(3072), 512, TABLE);
    var disk := new StorageDevice(image, _ => Works);
    fs := new FatVolume(disk, SMALL);
    SmallTable(image, fs.winsect, fs.win[..]);
    FatIs(fs);
    assert ENTRIES[3] == 1;
    ghost var scanned;
    res, n, scanned := fs.GetFree();
    assert scanned == 3;
  }

  lemma FatIs(fs: FatVolume)
    requires fs.Valid() && fs.g.Valid(fs.size)
    ensures fs.Fat() == EntriesOf(fs.g, Overlaid(fs.g, fs.disk.image, fs.wflag, fs.winsect, fs.win[..]))
  {
  }
}
