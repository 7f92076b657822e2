/** What the mounter accepts, and what it makes of it, stated over the bytes of the boot sector. */
module MountBytes {
  import opened Bytes
  import opened FatTable
  import opened FatGeometry
  import opened FormatPlan
  import opened BootSector
  import opened FatFormat

  function Word(w: seq<byte>, at: nat): int
    requires at + 2 <= |w|
  {
    w[at] as int + 0x100 * w[at + 1] as int
  }

  function Dword(w: seq<byte>, at: nat): int
    requires at + 4 <= |w|
  {
    w[at] as int + 0x100 * w[at + 1] as int + 0x1_0000 * w[at + 2] as int + 0x100_0000 * w[at + 3] as int
  }

  /** Sectors of a table, and of the volume: the 16-bit field unless that is 0. */
  function TableSize(w: seq<byte>): int
    requires |w| == 512
  {
    if Word(w, 22) == 0 then Dword(w, 36) else Word(w, 22)
  }

  function VolumeSize(w: seq<byte>): int
    requires |w| == 512
  {
    if Word(w, 19) == 0 then Dword(w, 32) else Word(w, 19)
  }

  /** Sectors of all tables, and in front of the data area: the reserved ones, the tables and the root directory, in 32
      bits. */
  function AllTables(w: seq<byte>): int
    requires |w| == 512
  {
    TableSize(w) * w[16] as int % 0x1_0000_0000
  }

  function InFront(w: seq<byte>): int
    requires |w| == 512
  {
    (Word(w, 14) + AllTables(w) + Word(w, 17) / 16) % 0x1_0000_0000
  }

  /** Number of clusters. */
  function ClusterCount(w: seq<byte>): int
    requires |w| == 512
  {
    if w[13] == 0 then 0 else (VolumeSize(w) - InFront(w)) / w[13] as int
  }

  /** Sectors a table of `n` clusters needs: 12, 16 or 32 bits for each of them and for two entries more. */
  function NeededSectors(n: int): int
  {
    if n <= 0xFF5 then ((n + 2) * 3 / 2 + (n + 2) % 2 + 511) / 512
    else if n <= 0xFFF5 then ((n + 2) * 2 + 511) / 512
    else ((n + 2) * 4 + 511) / 512
  }

  /** The checks: sectors of 512 bytes, one table or two, a cluster size that is a power of two, a root directory of
      whole sectors, some reserved sectors, a data area with clusters, and tables that are large enough. A FAT32 volume
      has version 0.0 and no root directory area, all others have one. */
  predicate Accepts(w: seq<byte>)
    requires |w| == 512
  {
    var n := ClusterCount(w);
    && w[11] == 0 && w[12] == 2 && (w[16] == 1 || w[16] == 2)
    && w[13] in [1, 2, 4, 8, 16, 32, 64, 128]
    && w[17] % 16 == 0 && (w[14] != 0 || w[15] != 0) && InFront(w) <= VolumeSize(w) && 1 <= n <= 0xFFF_FFF5
    && (if n > 0xFFF5 then w[42] == 0 && w[43] == 0 && w[17] == 0 && w[18] == 0 else w[17] != 0 || w[18] != 0)
    && TableSize(w) >= NeededSectors(n)
  }

  /** The volume at sector `b`. */
  predicate Describes(w: seq<byte>, b: nat, g: Geometry)
    requires |w| == 512
  {
    var n := ClusterCount(w);
    && g.fsType == (if n <= 0xFF5 then FAT12 else if n <= 0xFFF5 then FAT16 else FAT32)
    && g.nFats == w[16] && g.csize == w[13] && g.nRootdir == Word(w, 17) && g.nFatent == n + 2
    && g.fsize == TableSize(w) && g.volbase == b && g.fatbase == (b + Word(w, 14)) % 0x1_0000_0000
    && g.database == (b + InFront(w)) % 0x1_0000_0000
    && g.dirbase == if n > 0xFFF5 then Dword(w, 44) else (b + Word(w, 14) + AllTables(w)) % 0x1_0000_0000
  }

  lemma Loads(w: seq<byte>, at: nat)
    requires at + 4 <= |w|
    ensures LdWord(w, at) == Word(w, at) && LdDword(w, at) == Dword(w, at) && 0 <= Word(w, at) < 0x1_0000
  {
  }

  lemma AllLoads(w: seq<byte>)
    requires |w| == 512
    ensures forall at: nat :: at + 4 <= 512 ==> LdWord(w, at) == Word(w, at) && LdDword(w, at) == Dword(w, at)
  {
    forall at: nat | at + 4 <= 512
      ensures LdWord(w, at) == Word(w, at) && LdDword(w, at) == Dword(w, at)
    {
      Loads(w, at);
    }
  }

  lemma WordTests(w: seq<byte>)
    requires |w| == 512
    ensures Word(w, 11) == 512 <==> w[11] == 0 && w[12] == 2
    ensures Word(w, 17) % 16 == 0 <==> w[17] % 16 == 0
    ensures Word(w, 14) == 0 <==> w[14] == 0 && w[15] == 0
    ensures Word(w, 42) == 0 <==> w[42] == 0 && w[43] == 0
    ensures Word(w, 17) == 0 <==> w[17] == 0 && w[18] == 0
  {
  }

  /** The mounter accepts exactly that, and finds that volume. */
  lemma AcceptsExactly(w: seq<byte>, b: nat)
    requires |w| == 512
    ensures Analyze(w, b).Mounted? <==> Accepts(w)
    ensures Analyze(w, b).Mounted? ==> Describes(w, b, Analyze(w, b).g)
  {
    hide LdWord, LdDword, Word, Dword;
    AllLoads(w);
    WordTests(w);
  }

  /** The free count and the last cluster are taken from an FSInfo sector with all three signatures. */
  lemma ClaimsExactly(w: seq<byte>)
    requires |w| == 512
    ensures Claims(w) ==
      if && w[0] == 0x52 && w[1] == 0x52 && w[2] == 0x61 && w[3] == 0x41
         && w[484] == 0x72 && w[485] == 0x72 && w[486] == 0x41 && w[487] == 0x61 && w[510] == 0x55 && w[511] == 0xAA
        then (Dword(w, 488), Dword(w, 492)) else (0xFFFF_FFFF, 0xFFFF_FFFF)
  {
    hide Dword;
    Loads(w, 488);
    Loads(w, 492);
    FourBytes(w, 0, 0x52, 0x52, 0x61, 0x41);
    FourBytes(w, 484, 0x72, 0x72, 0x41, 0x61);
  }

  lemma FourBytes(w: seq<byte>, at: nat, a: byte, b: byte, c: byte, d: byte)
    requires at + 4 <= |w|
    ensures LdDword(w, at) == a as int + 0x100 * b as int + 0x1_0000 * c as int + 0x100_0000 * d as int
      <==> w[at] == a && w[at + 1] == b && w[at + 2] == c && w[at + 3] == d
  {
  }
}
