/** What the formatter writes, byte by byte. */
module FormatBytes {
  import opened Bytes
  import opened FatTable
  import opened FormatPlan
  import opened BootSector
  import opened FatFormat

  /** Byte `k` of a number, the lowest first. */
  function ByteOf(v: nat, k: nat): (b: byte)
    requires k < 4
  {
    v / [1, 0x100, 0x1_0000, 0x100_0000][k] % 256
  }

  /** Byte `i` of the boot sector of a new volume. */
  function BootByte(c: Layout, szVol: nat, vsn: nat, i: nat): int
    requires i < 512
  {
    if i < 3 then [0xEB, 0xFE, 0x90][i]
    else if i < 11 then "MSDOS5.0"[i - 3] as int
    else if i < 13 then ByteOf(512, i - 11)
    else if i == 13 then c.pau
    else if i < 16 then ByteOf(c.szRsv, i - 14)
    else if i == 16 then 1
    else if i < 19 then ByteOf(if c.fmt.FAT32? then 0 else 512, i - 17)
    else if i < 21 then (if szVol < 0x1_0000 then ByteOf(szVol, i - 19) else 0)
    else if i == 21 then 0xF8
    else if i < 24 then (if c.fmt.FAT32? then 0 else ByteOf(c.szFat, i - 22))
    else if i < 26 then ByteOf(63, i - 24)
    else if i < 28 then ByteOf(255, i - 26)
    else if i < 32 then 0
    else if i < 36 then (if szVol < 0x1_0000 then 0 else ByteOf(szVol, i - 32))
    else if i >= 510 then [0x55, 0xAA][i - 510]
    else if c.fmt.FAT32? then
      if i < 40 then ByteOf(c.szFat, i - 36)
      else if i == 44 then 2
      else if i == 48 then 1
      else if i == 50 then 6
      else if i == 64 then 0x80
      else if i == 66 then 0x29
      else if 67 <= i < 71 then ByteOf(vsn, i - 67)
      else if 71 <= i < 90 then "NO NAME    FAT32   "[i - 71] as int
      else 0
    else if i == 36 then 0x80
    else if i == 38 then 0x29
    else if 39 <= i < 43 then ByteOf(vsn, i - 39)
    else if 43 <= i < 62 then "NO NAME    FAT     "[i - 43] as int
    else 0
  }

  lemma WordByte(v: nat, k: nat)
    ensures k < 2 ==> WordBytes(v)[k] == ByteOf(v, k)
    ensures k < 4 ==> DwordBytes(v)[k] == ByteOf(v, k)
  {
    assert v / 256 / 256 == v / 0x1_0000 && v / 256 / 256 / 256 == v / 0x100_0000;
  }

  lemma Names(i: nat)
    ensures i < 11 ==> JUMP[i] == if i < 3 then [0xEB, 0xFE, 0x90][i] else "MSDOS5.0"[i - 3] as int
    ensures i < 19 ==> LABEL[i] == "NO NAME    FAT     "[i] as int && LABEL32[i] == "NO NAME    FAT32   "[i] as int
  {
  }

  /** The boot sector has these bytes. */
  lemma BootBytes(c: Layout, szVol: nat, vsn: nat, i: nat)
    requires c.pau < 256 && i < 512
    ensures Vbr(c, szVol, vsn)[i] == BootByte(c, szVol, vsn, i)
  {
    hide WordBytes, DwordBytes, ByteOf, CommonFields, TypeFields;
    CommonByte(c, szVol, i);
    TypeByte(CommonFields(c, szVol), c, vsn, i);
    if i < 11 {
      Names(i);
    } else if i < 36 {
      FirstFields(c, szVol, i);
    } else if i >= 510 {
      SmallByte(i - 510);
    } else if c.fmt.FAT32? {
      Fields32(c, vsn, i);
    } else {
      if 39 <= i < 43 {
        WordByte(vsn, i - 39);
      } else if 43 <= i < 62 {
        Names(i - 43);
      }
    }
  }

  lemma FirstFields(c: Layout, szVol: nat, i: nat)
    ensures 11 <= i < 13 ==> WordBytes(512)[i - 11] == ByteOf(512, i - 11)
    ensures 14 <= i < 16 ==> WordBytes(c.szRsv)[i - 14] == ByteOf(c.szRsv, i - 14)
    ensures 17 <= i < 19 ==> var n := if c.fmt.FAT32? then 0 else 512; WordBytes(n)[i - 17] == ByteOf(n, i - 17)
    ensures 19 <= i < 21 ==> WordBytes(szVol)[i - 19] == ByteOf(szVol, i - 19)
    ensures 22 <= i < 24 ==> WordBytes(c.szFat)[i - 22] == ByteOf(c.szFat, i - 22)
    ensures 24 <= i < 26 ==> WordBytes(63)[i - 24] == ByteOf(63, i - 24)
    ensures 26 <= i < 28 ==> WordBytes(255)[i - 26] == ByteOf(255, i - 26)
    ensures 32 <= i < 36 ==> DwordBytes(szVol)[i - 32] == ByteOf(szVol, i - 32)
  {
    hide WordBytes, DwordBytes, ByteOf;
    if 11 <= i < 13 {
      WordByte(512, i - 11);
    } else if 14 <= i < 16 {
      WordByte(c.szRsv, i - 14);
    } else if 17 <= i < 19 {
      WordByte(if c.fmt.FAT32? then 0 else 512, i - 17);
    } else if 19 <= i < 21 {
      WordByte(szVol, i - 19);
    } else if 22 <= i < 24 {
      WordByte(c.szFat, i - 22);
    } else if 24 <= i < 26 {
      WordByte(63, i - 24);
    } else if 26 <= i < 28 {
      WordByte(255, i - 26);
    } else if 32 <= i < 36 {
      WordByte(szVol, i - 32);
    }
  }

  lemma Fields32(c: Layout, vsn: nat, i: nat)
    ensures 36 <= i < 40 ==> DwordBytes(c.szFat)[i - 36] == ByteOf(c.szFat, i - 36)
    ensures 44 <= i < 48 ==> DwordBytes(2)[i - 44] == if i == 44 then 2 else 0
    ensures 48 <= i < 50 ==> WordBytes(1)[i - 48] == if i == 48 then 1 else 0
    ensures 50 <= i < 52 ==> WordBytes(6)[i - 50] == if i == 50 then 6 else 0
    ensures 67 <= i < 71 ==> DwordBytes(vsn)[i - 67] == ByteOf(vsn, i - 67)
    ensures 71 <= i < 90 ==> LABEL32[i - 71] == "NO NAME    FAT32   "[i - 71] as int
  {
    hide WordBytes, DwordBytes, ByteOf;
    if 36 <= i < 40 {
      WordByte(c.szFat, i - 36);
    } else if 44 <= i < 52 {
      SmallByte(i - 44);
      SmallByte(if i < 48 then 0 else if i < 50 then i - 48 else i - 50);
    } else if 67 <= i < 71 {
      WordByte(vsn, i - 67);
    } else if 71 <= i < 90 {
      Names(i - 71);
    }
  }

  lemma SmallByte(k: nat)
    ensures k < 2 ==> WordBytes(0xAA55)[k] == [0x55, 0xAA][k]
    ensures k < 4 ==> DwordBytes(2)[k] == if k == 0 then 2 else 0
    ensures k < 2 ==> WordBytes(1)[k] == (if k == 0 then 1 else 0) && WordBytes(6)[k] == (if k == 0 then 6 else 0)
  {
  }

  /** Byte `i` of the FSInfo sector: its three signatures, the number of free clusters and the cluster allocated
      last. */
  function InfoByte(free: nat, i: nat): int
    requires i < 512
  {
    if i < 4 then [0x52, 0x52, 0x61, 0x41][i]
    else if 484 <= i < 488 then [0x72, 0x72, 0x41, 0x61][i - 484]
    else if 488 <= i < 492 then ByteOf(free, i - 488)
    else if i == 492 then 2
    else if i >= 510 then [0x55, 0xAA][i - 510]
    else 0
  }

  lemma InfoBytes(free: nat, i: nat)
    requires i < 512
    ensures FsInfo(free)[i] == InfoByte(free, i)
  {
    hide WordBytes, DwordBytes, ByteOf;
    if i < 4 {
      Signatures(i);
    } else if 484 <= i < 488 {
      Signatures(i - 484);
    } else if 488 <= i < 492 {
      WordByte(free, i - 488);
    } else if 492 <= i < 496 {
      SmallByte(i - 492);
    } else if i >= 510 {
      SmallByte(i - 510);
    }
  }

  lemma Signatures(k: nat)
    requires k < 4
    ensures DwordBytes(0x4161_5252)[k] == [0x52, 0x52, 0x61, 0x41][k]
    ensures DwordBytes(0x6141_7272)[k] == [0x72, 0x72, 0x41, 0x61][k]
  {
  }

  /** Byte `i` of a new table: the two reserved entries, on FAT32 the root directory, and free entries. */
  function TableByte(t: FatType, i: nat): int
  {
    match t
    case FAT12 => if i < 3 then [0xF8, 0xFF, 0xFF][i] else 0
    case FAT16 => if i < 4 then [0xF8, 0xFF, 0xFF, 0xFF][i] else 0
    case FAT32 => if i < 12 then [0xF8, 0xFF, 0xFF, 0xFF, 0xFF, 0xFF, 0xFF, 0xFF, 0xFF, 0xFF, 0xFF, 0x0F][i] else 0
  }

  lemma NewTableBytes(t: FatType, n: nat, i: nat)
    requires n > 0 && i < 512 * n
    ensures NewTable(t, n)[i] == TableByte(t, i)
  {
  }

  /** A formatted device, byte by byte: the boot sector, the table behind the reserved sectors, and the root directory
      behind that, which is empty. */
  lemma FormattedBytes(image: seq<byte>, c: Layout, szVol: nat, vsn: nat, i: nat)
    requires IsFormatted(image, c, szVol, vsn) && i < |image|
    ensures i < 512 ==> image[i] == BootByte(c, szVol, vsn, i)
    ensures var t := 512 * c.szRsv; t <= i < t + 512 * c.szFat ==> image[i] == TableByte(c.fmt, i - t)
    ensures var r := 512 * (c.szRsv + c.szFat);
      r <= i < r + (if c.fmt.FAT32? then 512 * c.pau else 32 * 512) ==> image[i] == 0
  {
    hide Vbr, NewTable, Sound, TableByte, BootByte;
    var t, r := 512 * c.szRsv, 512 * RootStart(c);
    Sizes(szVol, c);
    if i < 512 {
      BootBytes(c, szVol, vsn, i);
      assert image[i] == image[..512][i];
    }
    if t <= i < t + 512 * c.szFat {
      NewTableBytes(c.fmt, c.szFat, i - t);
      assert image[i] == image[t..r][i - t];
    }
    if r <= i < r + 512 * RootSectors(c) {
      assert image[i] == image[r..r + 512 * RootSectors(c)][i - r];
    }
    RootSize(szVol, c);
  }

  lemma RootSize(szVol: nat, c: Layout)
    requires Sound(szVol, c)
    ensures RootSectors(c) == if c.fmt.FAT32? then c.pau else 32
  {
  }
}
