/** How a new volume is laid out: the FAT type, the cluster size and the sizes of its parts. */
module FormatPlan {
  import opened Bytes
  import opened Optional
  import opened FatTable
  import opened FatGeometry
  import opened FatWindow

  /** Sizes in sectors; `nClst` is the number of clusters. There is one table. */
  datatype Layout = Layout(fmt: FatType, pau: nat, szRsv: nat, szFat: nat, szDir: nat, nClst: nat)

  datatype Options = Options(fat: bool, fat32: bool)

  predicate PowerOfTwo(n: nat)
  {
    n == 1 || (n > 0 && n % 2 == 0 && PowerOfTwo(n / 2))
  }

  lemma {:induction false} SmallPower(n: nat)
    requires PowerOfTwo(n) && n <= 128
    ensures ClusterSize(n)
  {
    if n > 1 {
      SmallPower(n / 2);
    }
  }

  lemma EighthPower(n: nat)
    requires PowerOfTwo(n) && n >= 8
    ensures PowerOfTwo(n / 8)
  {
    assert PowerOfTwo(n / 2);
    assert PowerOfTwo(n / 2 / 2);
  }

  /** A power of two in bytes is one in sectors. */
  lemma PowerInSectors(n: nat)
    requires PowerOfTwo(n) && 512 <= n
    ensures PowerOfTwo(n / 512)
  {
    EighthPower(n);
    EighthPower(n / 8);
    EighthPower(n / 8 / 8);
    assert n / 8 / 8 / 8 == n / 512;
  }

  function Wrap(n: int): nat
  {
    n % 0x1_0000_0000
  }

  /** The cluster size for a volume size `n`: it doubles with every boundary reached. */
  function UnitFor(boundaries: seq<nat>, n: nat): (pau: nat)
    requires |boundaries| == 6
    ensures ClusterSize(pau) && pau <= 64
  {
    if n < boundaries[0] then 1 else if n < boundaries[1] then 2 else if n < boundaries[2] then 4
      else if n < boundaries[3] then 8
    else if n < boundaries[4] then 16 else if n < boundaries[5] then 32 else 64
  }

  /** The search for it in the table. */
  method PickUnit(boundaries: seq<nat>, n: nat) returns (pau: nat)
    requires |boundaries| == 6
    ensures pau == UnitFor(boundaries, n)
  {
    pau := 1;
    var i := 0;
    while i < 6 && boundaries[i] <= n
      invariant 0 <= i <= 6
      invariant pau == [1, 2, 4, 8, 16, 32, 64][i] && forall j :: 0 <= j < i ==> boundaries[j] <= n
    {
      i, pau := i + 1, pau * 2;
    }
  }

  datatype Verdict = Accept(c: Layout) | Abort | Retry(fmt: FatType, au: nat)

  /** The measure of the format loop: it switches to FAT32 at most once, and fixes the cluster size at most once. */
  function Rank(fmt: FatType, au: nat): nat
  {
    (if fmt.FAT32? then 0 else 2) + (if au == 0 then 1 else 0)
  }

  /** Number of clusters when `used` sectors are taken. */
  function Clusters(szVol: nat, used: nat, pau: nat): nat
    requires used <= szVol && ClusterSize(pau)
  {
    (szVol - used) / pau
  }

  /** A layout a volume of `szVol` sectors can have: the table has room for all clusters, the number of clusters
      is in the range of its FAT type, and all fields fit into the boot sector. */
  predicate Sound(szVol: nat, c: Layout)
  {
    && ClusterSize(c.pau)
    && c.szRsv == (if c.fmt.FAT32? then 32 else 1)
    && c.szDir == (if c.fmt.FAT32? then 0 else 32)
    && c.szRsv + c.szFat + c.szDir + 16 * c.pau <= szVol < 0x1_0000_0000
    && c.nClst == Clusters(szVol, c.szRsv + c.szFat + c.szDir, c.pau)
    && 0 < c.szFat && (!c.fmt.FAT32? ==> c.szFat < 0x1_0000)
    && TableBytes(c.fmt, c.nClst + 2) <= 512 * c.szFat
    && (match c.fmt
        case FAT12 => 0 < c.nClst <= 0xFF5
        case FAT16 => 0xFF5 < c.nClst <= 0xFFF5
        case FAT32 => 0xFFF5 < c.nClst <= 0xFFF_FFF5)
  }

  /** The table has as many sectors as the entries need that a volume without one would have, and two more. */
  predicate HasTableSize(szVol: nat, c: Layout)
    requires c.pau > 0
  {
    var n := szVol / c.pau;
    match c.fmt
    case FAT12 => c.szFat == ((3 * n + 1) / 2 + 3 + 511) / 512
    case FAT16 => c.szFat == (2 * n + 4 + 511) / 512
    case FAT32 => c.szFat == (4 * n + 8 + 511) / 512
  }

  /** The cluster sizes the formatter starts with, by the number of sectors. */
  lemma UnitsBySize(szVol: nat)
    ensures Unit16(szVol, 0) ==
      if szVol < 0x1000 then 1 else if szVol < 0x4000 then 2 else if szVol < 0x1_0000 then 4
      else if szVol < 0x4_0000 then 8 else if szVol < 0x10_0000 then 16 else if szVol < 0x20_0000 then 32 else 64
    ensures Unit32(szVol, 0) ==
      if szVol < 0x2_0000 then 1 else if szVol < 0x4_0000 then 2 else if szVol < 0x8_0000 then 4
      else if szVol < 0x10_0000 then 8 else if szVol < 0x20_0000 then 16 else if szVol < 0x40_0000 then 32 else 64
  {
  }

  /** Taking sectors away leaves no more clusters. */
  lemma Fewer(szVol: nat, used: nat, pau: nat)
    requires ClusterSize(pau) && used <= szVol
    ensures Clusters(szVol, used, pau) <= Clusters(szVol, 0, pau)
    ensures pau <= 128 && Clusters(szVol, 0, pau) <= szVol
    ensures szVol - used < Clusters(szVol, used, pau) * 128 + 128
  {
    if pau == 1 {} else if pau == 2 {} else if pau == 4 {} else if pau == 8 {}
    else if pau == 16 {} else if pau == 32 {} else if pau == 64 {} else {}
  }

  lemma Sound32(szVol: nat, pau: nat, szFat: nat)
    requires ClusterSize(pau) && 32 + szFat + pau * 16 <= szVol < 0x1_0000_0000
    requires szFat == Wrap(Clusters(szVol, 0, pau) * 4 + 8 + 511) / 512 && Clusters(szVol, 0, pau) <= 0xFFF_FFF5
    requires 0xFFF5 < Clusters(szVol, 32 + szFat, pau)
    ensures Sound(szVol, Layout(FAT32, pau, 32, szFat, 0, Clusters(szVol, 32 + szFat, pau)))
  {
    hide ClusterSize, Clusters;
    Fewer(szVol, 32 + szFat, pau);
  }

  function Unit32(szVol: nat, au: nat): (pau: nat)
    requires au == 0 || ClusterSize(au)
    ensures ClusterSize(pau) && (au != 0 ==> pau == au) && (au == 0 ==> pau <= 64)
  {
    if au != 0 then au else UnitFor([1, 2, 4, 8, 16, 32], szVol / 0x2_0000)
  }

  function Size32(szVol: nat, pau: nat): nat
    requires ClusterSize(pau)
  {
    Wrap(Clusters(szVol, 0, pau) * 4 + 8 + 511) / 512
  }

  /** What a round of the format loop comes to for a FAT32 volume with clusters of `pau` sectors; `free` says whether
      the formatter may change that. */
  function Round32(szVol: nat, pau: nat, free: bool): Verdict
    requires ClusterSize(pau)
  {
    var n, szFat := Clusters(szVol, 0, pau), Size32(szVol, pau);
    if n <= 0xFFF5 || n > 0xFFF_FFF5 || szVol < 32 + szFat + pau * 16 then Abort
    else if Clusters(szVol, 32 + szFat, pau) <= 0xFFF5 then
      if free && pau / 2 != 0 then Retry(FAT32, pau / 2) else Abort
    else Accept(Layout(FAT32, pau, 32, szFat, 0, Clusters(szVol, 32 + szFat, pau)))
  }

  /** One round of the format loop for a FAT32 volume. */
  method TryFat32(szVol: nat, au: nat) returns (v: Verdict)
    requires szVol < 0x1_0000_0000 && (au == 0 || ClusterSize(au))
    ensures v == Round32(szVol, Unit32(szVol, au), au == 0)
    ensures v.Accept? ==> v.c.fmt == FAT32 && Sound(szVol, v.c) && v.c.pau > 0 && HasTableSize(szVol, v.c)
  {
    hide Sound, Wrap, Clusters;
    var pau := au;
    if pau == 0 {
      pau := PickUnit([1, 2, 4, 8, 16, 32], szVol / 0x2_0000);
    }
    var n := Clusters(szVol, 0, pau);
    var szFat := Wrap(n * 4 + 8 + 511) / 512;
    if n <= 0xFFF5 || n > 0xFFF_FFF5 {
      return Abort;
    }
    if szVol < 32 + szFat + pau * 16 {
      return Abort;
    }
    var nClst := Clusters(szVol, 32 + szFat, pau);
    if nClst <= 0xFFF5 {
      if au == 0 && pau / 2 != 0 {
        return Retry(FAT32, pau / 2);
      }
      return Abort;
    }
    Sound32(szVol, pau, szFat);
    AllClusters(szVol, pau);
    Unwrapped(n * 4 + 8 + 511);
    v := Accept(Layout(FAT32, pau, 32, szFat, 0, nClst));
  }

  /** A FAT16 volume is too small for its table size to wrap around. */
  lemma Sound16(szVol: nat, pau: nat, szFat: nat)
    requires ClusterSize(pau) && 33 + szFat + pau * 16 <= szVol < 0x1_0000_0000
    requires szFat == Wrap(Wrap(Clusters(szVol, 0, pau) * 2 + 4) + 511) / 512
    requires 0xFF5 < Clusters(szVol, 33 + szFat, pau) <= 0xFFF5
    ensures Sound(szVol, Layout(FAT16, pau, 1, szFat, 32, Clusters(szVol, 33 + szFat, pau)))
  {
    hide ClusterSize, Clusters, Wrap;
    Fewer(szVol, 33 + szFat, pau);
    var n := Clusters(szVol, 0, pau);
    SizeOfEntry(szFat, Wrap(n * 2 + 4) + 511);
    Small16(szFat, n);
    FewSectors(szVol, pau, szFat, n);
  }

  lemma AllClusters(szVol: nat, pau: nat)
    requires ClusterSize(pau)
    ensures Clusters(szVol, 0, pau) == szVol / pau <= szVol
  {
    Fewer(szVol, 0, pau);
  }

  lemma Unwrapped(n: nat)
    ensures n < 0x1_0000_0000 ==> Wrap(n) == n
  {
  }

  /** The table size of an accepted volume did not wrap around. */
  lemma Size16Is(szVol: nat, pau: nat, szFat: nat)
    requires ClusterSize(pau) && 33 + szFat <= szVol
    requires szFat == Wrap(Wrap(Clusters(szVol, 0, pau) * 2 + 4) + 511) / 512
    requires Clusters(szVol, 33 + szFat, pau) <= 0xFFF5
    ensures pau > 0 && HasTableSize(szVol, Layout(FAT16, pau, 1, szFat, 32, Clusters(szVol, 33 + szFat, pau)))
  {
    hide ClusterSize, Clusters, Wrap;
    Fewer(szVol, 33 + szFat, pau);
    var n := Clusters(szVol, 0, pau);
    SizeOfEntry(szFat, Wrap(n * 2 + 4) + 511);
    Small16(szFat, n);
    AllClusters(szVol, pau);
  }

  lemma Size12Is(szVol: nat, pau: nat, szFat: nat)
    requires ClusterSize(pau) && 33 + szFat <= szVol
    requires szFat == Wrap((Clusters(szVol, 0, pau) * 3 + 1) / 2 + 3 + 511) / 512
    requires Clusters(szVol, 0, pau) <= 0xFF5
    ensures pau > 0 && HasTableSize(szVol, Layout(FAT12, pau, 1, szFat, 32, Clusters(szVol, 33 + szFat, pau)))
  {
    hide ClusterSize, Clusters, Wrap;
    Unwrapped((Clusters(szVol, 0, pau) * 3 + 1) / 2 + 3 + 511);
    AllClusters(szVol, pau);
  }

  lemma Small16(szFat: nat, n: nat)
    requires n < 0x200_0000 && szFat == Wrap(Wrap(n * 2 + 4) + 511) / 512
    ensures szFat == (n * 2 + 4 + 511) / 512
  {
  }

  lemma SizeOfEntry(szFat: nat, n: nat)
    requires szFat == Wrap(n) / 512
    ensures szFat < 0x80_0000
  {
  }

  /** Half of the sectors of a volume this small cannot be taken by its table. */
  lemma FewSectors(szVol: nat, pau: nat, szFat: nat, n: nat)
    requires ClusterSize(pau) && 33 + szFat <= szVol && n == Clusters(szVol, 0, pau) && szFat == (n * 2 + 4 + 511) / 512
    requires Clusters(szVol, 33 + szFat, pau) <= 0xFFF5
    ensures szFat < 0x1_0000
  {
    if pau == 1 {} else if pau == 2 {} else if pau == 4 {} else if pau == 8 {}
    else if pau == 16 {} else if pau == 32 {} else if pau == 64 {} else {}
  }

  lemma Sound12(szVol: nat, pau: nat, szFat: nat)
    requires ClusterSize(pau) && 33 + szFat + pau * 16 <= szVol < 0x1_0000_0000
    requires Clusters(szVol, 0, pau) <= 0xFF5
    requires szFat == Wrap((Clusters(szVol, 0, pau) * 3 + 1) / 2 + 3 + 511) / 512
    ensures Sound(szVol, Layout(FAT12, pau, 1, szFat, 32, Clusters(szVol, 33 + szFat, pau)))
  {
    hide ClusterSize, Clusters, Wrap;
    Fewer(szVol, 33 + szFat, pau);
    Small12(szFat, Clusters(szVol, 0, pau), Clusters(szVol, 33 + szFat, pau));
    AtLeastSixteen(szVol, 33 + szFat, pau);
  }

  lemma Small12(szFat: nat, n: nat, nClst: nat)
    requires nClst <= n <= 0xFF5 && szFat == Wrap((n * 3 + 1) / 2 + 3 + 511) / 512
    ensures 0 < szFat < 0x1_0000 && TableBytes(FAT12, nClst + 2) <= 512 * szFat
  {
    assert szFat == ((n * 3 + 1) / 2 + 3 + 511) / 512;
  }

  lemma AtLeastSixteen(szVol: nat, used: nat, pau: nat)
    requires ClusterSize(pau) && used + pau * 16 <= szVol
    ensures Clusters(szVol, used, pau) >= 16
  {
    if pau == 1 {} else if pau == 2 {} else if pau == 4 {} else if pau == 8 {}
    else if pau == 16 {} else if pau == 32 {} else if pau == 64 {} else {}
  }

  function Unit16(szVol: nat, au: nat): (pau: nat)
    requires au == 0 || ClusterSize(au)
    ensures ClusterSize(pau) && (au != 0 ==> pau == au) && (au == 0 ==> pau <= 64)
  {
    if au != 0 then au else UnitFor([1, 4, 16, 64, 256, 512], szVol / 0x1000)
  }

  function Size16(szVol: nat, pau: nat): nat
    requires ClusterSize(pau)
  {
    var n := Clusters(szVol, 0, pau);
    Wrap((if n > 0xFF5 then Wrap(n * 2 + 4) else (n * 3 + 1) / 2 + 3) + 511) / 512
  }

  /** What a round comes to for a FAT12 or FAT16 volume. With too many clusters, larger ones are tried and then FAT32,
      if that is allowed; with too few, larger ones, so that the next round makes it a FAT12 volume. */
  function Round16(szVol: nat, pau: nat, free: bool, fat32: bool): Verdict
    requires ClusterSize(pau)
  {
    var szFat := Size16(szVol, pau);
    if szVol < 33 + szFat + pau * 16 then Abort
    else
      var nClst := Clusters(szVol, 33 + szFat, pau);
      if Clusters(szVol, 0, pau) <= 0xFF5 then Accept(Layout(FAT12, pau, 1, szFat, 32, nClst))
      else if nClst > 0xFFF5 then
        if free && pau * 2 <= 64 then Retry(FAT16, pau * 2)
        else if fat32 then Retry(FAT32, if free then 0 else pau)
        else if free && pau * 2 <= 128 then Retry(FAT16, pau * 2)
        else Abort
      else if nClst <= 0xFF5 then if free && pau * 2 <= 128 then Retry(FAT16, pau * 2) else Abort
      else Accept(Layout(FAT16, pau, 1, szFat, 32, nClst))
  }

  /** One round of the format loop for a FAT12 or FAT16 volume. */
  method TryFat(szVol: nat, au: nat, fat32: bool) returns (v: Verdict)
    requires szVol < 0x1_0000_0000 && (au == 0 || ClusterSize(au))
    ensures v == Round16(szVol, Unit16(szVol, au), au == 0, fat32)
    ensures v.Accept? ==> !v.c.fmt.FAT32? && Sound(szVol, v.c) && v.c.pau > 0 && HasTableSize(szVol, v.c)
  {
    hide Sound, Wrap, Clusters, HasTableSize;
    var pau := au;
    if pau == 0 {
      pau := PickUnit([1, 4, 16, 64, 256, 512], szVol / 0x1000);
    }
    var n := Clusters(szVol, 0, pau);
    var fmt, bytes;
    if n > 0xFF5 {
      fmt, bytes := FAT16, Wrap(n * 2 + 4);
    } else {
      fmt, bytes := FAT12, (n * 3 + 1) / 2 + 3;
    }
    var szFat := Wrap(bytes + 511) / 512;
    if szVol < 33 + szFat + pau * 16 {
      return Abort;
    }
    var nClst := Clusters(szVol, 33 + szFat, pau);
    Fewer(szVol, 33 + szFat, pau);
    if fmt == FAT16 {
      if nClst > 0xFFF5 {
        if au == 0 && pau * 2 <= 64 {
          return Retry(FAT16, pau * 2);
        }
        if fat32 {
          return Retry(FAT32, au);
        }
        if au == 0 && pau * 2 <= 128 {
          return Retry(FAT16, pau * 2);
        }
        return Abort;
      }
      if nClst <= 0xFF5 {
        if au == 0 && pau * 2 <= 128 {
          return Retry(FAT16, pau * 2);
        }
        return Abort;
      }
      Sound16(szVol, pau, szFat);
      Size16Is(szVol, pau, szFat);
    } else {
      Size12Is(szVol, pau, szFat);
      Sound12(szVol, pau, szFat);
      if nClst > 0xFF5 {
        v := Abort;
        return;
      }
    }
    v := Accept(Layout(fmt, pau, 1, szFat, 32, nClst));
  }

  /** The cluster sizes in bytes that can be asked for; 0 leaves the choice to the formatter. */
  predicate ValidUnit(au: nat)
  {
    au == 0 || (512 <= au <= 0x100_0000 && PowerOfTwo(au))
  }

  /** They are 0 and the powers of two from 512 bytes to 16 MiB. */
  lemma UnitsListed(au: nat)
    ensures ValidUnit(au) <==>
      au in {0, 0x200, 0x400, 0x800, 0x1000, 0x2000, 0x4000, 0x8000, 0x1_0000, 0x2_0000, 0x4_0000, 0x8_0000, 0x10_0000,
             0x20_0000, 0x40_0000, 0x80_0000, 0x100_0000}
  {
    if 512 <= au <= 0x100_0000 {
      PowersListed(au);
    }
  }

  lemma {:induction false} PowersListed(n: nat)
    requires n <= 0x100_0000
    ensures PowerOfTwo(n) <==>
      n in {1, 2, 4, 8, 0x10, 0x20, 0x40, 0x80, 0x100, 0x200, 0x400, 0x800, 0x1000, 0x2000, 0x4000, 0x8000, 0x1_0000,
            0x2_0000, 0x4_0000, 0x8_0000, 0x10_0000, 0x20_0000, 0x40_0000, 0x80_0000, 0x100_0000}
  {
    if n > 1 {
      PowersListed(n / 2);
    }
  }

  /** What the format loop comes to from there on. It ends, for every retry lowers its rank. */
  function Planned(szVol: nat, fat32: bool, fmt: FatType, au: nat): Option<Layout>
    requires fmt != FAT12 && (au == 0 || ClusterSize(au))
    decreases Rank(fmt, au)
  {
    if fmt.FAT32? then
      match Round32(szVol, Unit32(szVol, au), au == 0)
      case Accept(c) => Some(c)
      case Abort => None
      case Retry(_, a) => Planned(szVol, fat32, FAT32, a)
    else
      match Round16(szVol, Unit16(szVol, au), au == 0, fat32)
      case Accept(c) => Some(c)
      case Abort => None
      case Retry(f, a) => Planned(szVol, fat32, f, a)
  }

  /** Left to itself, the formatter takes the cluster size it starts with, or else the next larger one. */
  lemma ChosenUnit16(szVol: nat, fat32: bool)
    requires Planned(szVol, fat32, FAT16, 0).Some? && !Planned(szVol, fat32, FAT16, 0).value.fmt.FAT32?
    ensures var u := Unit16(szVol, 0);
      Planned(szVol, fat32, FAT16, 0).value.pau == if Round16(szVol, u, true, fat32).Accept? then u else 2 * u
  {
    hide Clusters, Size16, Size32, ClusterSize, UnitFor;
    RoundRetries(szVol, 0, fat32);
    var v := Round16(szVol, Unit16(szVol, 0), true, fat32);
    if v.Retry? && v.fmt == FAT16 {
      RoundRetries(szVol, v.au, fat32);
    }
    OnlyFat32(szVol, fat32, 0);
  }

  /** On FAT32 it is the next smaller one. */
  lemma ChosenUnit32(szVol: nat, fat32: bool)
    requires Planned(szVol, fat32, FAT32, 0).Some?
    ensures var u := Unit32(szVol, 0);
      Planned(szVol, fat32, FAT32, 0).value.pau == if Round32(szVol, u, true).Accept? then u else u / 2
  {
    hide Clusters, Size32, ClusterSize, UnitFor;
    RoundRetries(szVol, 0, fat32);
    var v := Round32(szVol, Unit32(szVol, 0), true);
    if v.Retry? {
      RoundRetries(szVol, v.au, fat32);
    }
  }

  /** A FAT32 volume stays one. */
  lemma {:induction false} OnlyFat32(szVol: nat, fat32: bool, au: nat)
    requires au == 0 || ClusterSize(au)
    ensures Planned(szVol, fat32, FAT32, au).Some? ==> Planned(szVol, fat32, FAT32, au).value.fmt.FAT32?
    decreases Rank(FAT32, au)
  {
    hide Clusters, Size32, ClusterSize, UnitFor;
    RoundRetries(szVol, au, fat32);
    var v := Round32(szVol, Unit32(szVol, au), au == 0);
    if v.Retry? {
      OnlyFat32(szVol, fat32, v.au);
    }
  }

  /** The layout of a new volume: the FAT type is chosen from the options, and the loop retries with another
      cluster size or type. */
  method Plan(szVol: nat, opt: Options, bytesPerUnit: nat) returns (res: FResult, c: Layout)
    requires szVol < 0x1_0000_0000 && ValidUnit(bytesPerUnit)
    ensures res == Ok || res == InvalidParameter || res == MkfsAborted
    ensures szVol < 128 ==> res == MkfsAborted
    ensures szVol >= 128 ==> (res == InvalidParameter <==> bytesPerUnit / 512 > 128 || (!opt.fat && !opt.fat32))
    ensures res == Ok ==> Sound(szVol, c) && (if c.fmt.FAT32? then opt.fat32 else opt.fat)
    ensures res == Ok && bytesPerUnit != 0 ==> c.pau == bytesPerUnit / 512
    ensures res == Ok ==> c.pau > 0 && HasTableSize(szVol, c)
    ensures res != InvalidParameter && szVol >= 128 ==> bytesPerUnit == 0 || ClusterSize(bytesPerUnit / 512)
    ensures res != InvalidParameter && szVol >= 128 ==>
      Planned(szVol, opt.fat32, if opt.fat then FAT16 else FAT32, bytesPerUnit / 512) == if res == Ok then Some(c)
        else None
  {
    hide Sound, Round16, Round32, Unit16, Unit32;
    c := Layout(FAT16, 0, 0, 0, 0, 0);
    var au: nat := bytesPerUnit / 512;
    if szVol < 128 {
      return MkfsAborted, c;
    }
    if au > 128 {
      return InvalidParameter, c;
    }
    if au != 0 {
      PowerInSectors(bytesPerUnit);
      SmallPower(au);
    }
    var fmt := FAT16;
    if opt.fat32 && !opt.fat {
      fmt := FAT32;
    } else if !opt.fat {
      return InvalidParameter, c;
    }
    ghost var goal := Planned(szVol, opt.fat32, fmt, au);
    while true
      invariant fmt != FAT12 && (au == 0 || ClusterSize(au)) && (if fmt.FAT32? then opt.fat32 else opt.fat)
      invariant (bytesPerUnit != 0 ==> au == bytesPerUnit / 512) && Planned(szVol, opt.fat32, fmt, au) == goal
      decreases Rank(fmt, au)
    {
      RoundRetries(szVol, au, opt.fat32);
      var v;
      if fmt == FAT32 {
        v := TryFat32(szVol, au);
      } else {
        v := TryFat(szVol, au, opt.fat32);
      }
      match v
      case Accept(l) => return Ok, l;
      case Abort => return MkfsAborted, c;
      case Retry(f, a) => fmt, au := f, a;
    }
  }

  /** What a round may ask for next, and what it accepts. */
  lemma RoundRetries(szVol: nat, au: nat, fat32: bool)
    requires au == 0 || ClusterSize(au)
    ensures var v := Round32(szVol, Unit32(szVol, au), au == 0);
      && (v.Retry? ==> v.fmt == FAT32 && ClusterSize(v.au) && au == 0)
      && (v.Accept? && au != 0 ==> v.c.pau == au)
    ensures var v := Round16(szVol, Unit16(szVol, au), au == 0, fat32);
      && (v.Retry? ==> (v.fmt == FAT16 && ClusterSize(v.au) && au == 0) || (v.fmt == FAT32 && v.au == au && fat32))
      && (v.Accept? && au != 0 ==> v.c.pau == au)
  {
  }
}
