/** Which volumes can be formatted when the choice of the cluster size is left to the formatter. */
module FormatLimits {
  import opened Bytes
  import opened Optional
  import opened FatTable
  import opened FatGeometry
  import opened FormatPlan

  /** A FAT12 or FAT16 volume with clusters of a given size is accepted. */
  predicate Takes16(szVol: nat, pau: nat)
    requires ClusterSize(pau)
  {
    Round16(szVol, pau, false, false).Accept?
  }

  predicate Takes32(szVol: nat, pau: nat)
    requires ClusterSize(pau)
  {
    Round32(szVol, pau, false).Accept?
  }

  // One cluster size at a time

  /** Accepted, or the clusters are doubled and that is accepted. */
  predicate Doubles(szVol: nat, pau: nat, fat32: bool)
    requires ClusterSize(pau) && pau <= 64
  {
    var v := Round16(szVol, pau, true, fat32);
    v.Accept? || (v == Retry(FAT16, pau * 2) && Takes16(szVol, pau * 2))
  }

  lemma Small(szVol: nat, fat32: bool)
    requires 128 <= szVol < 0x1000
    ensures Doubles(szVol, 1, fat32)
  {
  }

  lemma Middle2(szVol: nat, fat32: bool)
    requires 0x1000 <= szVol < 0x4000
    ensures Doubles(szVol, 2, fat32)
  {
  }

  lemma Middle4(szVol: nat, fat32: bool)
    requires 0x4000 <= szVol < 0x1_0000
    ensures Doubles(szVol, 4, fat32)
  {
  }

  lemma Middle8(szVol: nat, fat32: bool)
    requires 0x1_0000 <= szVol < 0x4_0000
    ensures Doubles(szVol, 8, fat32)
  {
  }

  lemma Middle16(szVol: nat, fat32: bool)
    requires 0x4_0000 <= szVol < 0x10_0000
    ensures Doubles(szVol, 16, fat32)
  {
  }

  lemma Middle32(szVol: nat, fat32: bool)
    requires 0x10_0000 <= szVol < 0x20_0000
    ensures Doubles(szVol, 32, fat32)
  {
  }

  lemma Large(szVol: nat, fat32: bool)
    requires 0x20_0000 <= szVol <= 4193952
    ensures Doubles(szVol, 64, fat32)
  {
  }

  lemma TooLarge(szVol: nat, fat32: bool)
    requires 4193952 < szVol < 0x1_0000_0000
    ensures Round16(szVol, 64, true, fat32) == if fat32 then Retry(FAT32, 0) else Retry(FAT16, 128)
  {
    hide Size16;
    LargeTable(szVol);
    var z := 33 + Size16(szVol, 64);
    assert (szVol - z) / 64 >= 0xFFF6 && szVol / 64 > 0xFF5;
  }

  lemma LargeTable(szVol: nat)
    requires 4193952 < szVol < 0x1_0000_0000
    ensures 33 + Size16(szVol, 64) + 64 * 0xFFF6 <= szVol
  {
    var n := szVol / 64;
    assert 65530 <= n < 0x400_0000;
    var q, r := n / 256, n % 256;
    assert Size16(szVol, 64) == (n * 2 + 515) / 512 == q + (2 * r + 515) / 512;
  }

  lemma Largest(szVol: nat)
    requires 4193952 < szVol < 0x1_0000_0000
    ensures Takes16(szVol, 128) <==> szVol <= 8387616
  {
  }

  lemma Small32(szVol: nat)
    requires szVol < 0x2_0000
    ensures Takes32(szVol, 1) <==> szVol >= 66075
    ensures Round32(szVol, 1, true) == Round32(szVol, 1, false) && !Round32(szVol, 1, false).Retry?
  {
  }

  /** Accepted, or the clusters are halved and that is accepted. */
  predicate Halves(szVol: nat, pau: nat)
    requires ClusterSize(pau) && pau > 1
  {
    var v := Round32(szVol, pau, true);
    v.Accept? || (v == Retry(FAT32, pau / 2) && Takes32(szVol, pau / 2))
  }

  lemma Ample1(szVol: nat)
    requires 0x2_0000 <= szVol < 0x4_0000
    ensures Takes32(szVol, 1)
  {
  }

  lemma Halves2(szVol: nat)
    requires 0x2_0000 <= szVol < 0x4_0000
    ensures Halves(szVol, 2)
  {
    hide Takes32;
    Ample1(szVol);
  }

  lemma Ample2(szVol: nat)
    requires 0x4_0000 <= szVol < 0x8_0000
    ensures Takes32(szVol, 2)
  {
  }

  lemma Halves4(szVol: nat)
    requires 0x4_0000 <= szVol < 0x8_0000
    ensures Halves(szVol, 4)
  {
    hide Takes32;
    Ample2(szVol);
  }

  lemma Ample4(szVol: nat)
    requires 0x8_0000 <= szVol < 0x10_0000
    ensures Takes32(szVol, 4)
  {
  }

  lemma Halves8(szVol: nat)
    requires 0x8_0000 <= szVol < 0x10_0000
    ensures Halves(szVol, 8)
  {
    hide Takes32;
    Ample4(szVol);
  }

  lemma Ample8(szVol: nat)
    requires 0x10_0000 <= szVol < 0x20_0000
    ensures Takes32(szVol, 8)
  {
  }

  lemma Halves16(szVol: nat)
    requires 0x10_0000 <= szVol < 0x20_0000
    ensures Halves(szVol, 16)
  {
    hide Takes32;
    Ample8(szVol);
  }

  lemma Ample16(szVol: nat)
    requires 0x20_0000 <= szVol < 0x40_0000
    ensures Takes32(szVol, 16)
  {
  }

  lemma Halves32(szVol: nat)
    requires 0x20_0000 <= szVol < 0x40_0000
    ensures Halves(szVol, 32)
  {
    hide Takes32;
    Ample16(szVol);
  }

  lemma Ample32(szVol: nat)
    requires 0x40_0000 <= szVol < 0x1_0000_0000
    ensures Takes32(szVol, 32)
  {
  }

  lemma Halves64(szVol: nat)
    requires 0x40_0000 <= szVol < 0x1_0000_0000
    ensures Halves(szVol, 64)
  {
    hide Takes32;
    Ample32(szVol);
  }

  /** A fixed cluster size settles the matter. */
  lemma Fixed32(szVol: nat, pau: nat, fat32: bool)
    requires ClusterSize(pau)
    ensures Planned(szVol, fat32, FAT32, pau).Some? <==> Takes32(szVol, pau)
  {
  }

  lemma Fixed16(szVol: nat, pau: nat, fat32: bool)
    requires ClusterSize(pau)
    ensures Takes16(szVol, pau) ==> Planned(szVol, fat32, FAT16, pau).Some?
    ensures !Takes16(szVol, pau) ==> Planned(szVol, false, FAT16, pau).None?
  {
  }

  // All sizes

  /** Without FAT12 and FAT16. */
  lemma Formats32(szVol: nat, fat32: bool)
    requires 128 <= szVol < 0x1_0000_0000
    ensures Planned(szVol, fat32, FAT32, 0).Some? <==> szVol >= 66075
  {
    hide Round16, Round32, Takes16, Takes32, Halves;
    if szVol < 0x2_0000 {
      Small32(szVol);
      TakenAtOnce(szVol, 1);
    } else if szVol < 0x4_0000 {
      Halves2(szVol);
      TakenHalved(szVol, 2, fat32);
    } else if szVol < 0x8_0000 {
      Halves4(szVol);
      TakenHalved(szVol, 4, fat32);
    } else if szVol < 0x10_0000 {
      Halves8(szVol);
      TakenHalved(szVol, 8, fat32);
    } else if szVol < 0x20_0000 {
      Halves16(szVol);
      TakenHalved(szVol, 16, fat32);
    } else if szVol < 0x40_0000 {
      Halves32(szVol);
      TakenHalved(szVol, 32, fat32);
    } else {
      Halves64(szVol);
      TakenHalved(szVol, 64, fat32);
    }
  }

  lemma TakenAtOnce(szVol: nat, pau: nat)
    requires ClusterSize(pau)
    ensures Takes32(szVol, pau) <==> Round32(szVol, pau, false).Accept?
  {
  }

  lemma TakenHalved(szVol: nat, pau: nat, fat32: bool)
    requires ClusterSize(pau) && pau > 1 && Halves(szVol, pau) && Unit32(szVol, 0) == pau
    ensures Planned(szVol, fat32, FAT32, 0).Some?
  {
    hide Round32, Takes32;
    if Round32(szVol, pau, true).Retry? {
      Fixed32(szVol, pau / 2, fat32);
    }
  }

  lemma TakenDoubled(szVol: nat, pau: nat, fat32: bool)
    requires ClusterSize(pau) && pau <= 64 && Doubles(szVol, pau, fat32) && Unit16(szVol, 0) == pau
    ensures Planned(szVol, fat32, FAT16, 0).Some?
  {
    hide Round16, Takes16;
    if Round16(szVol, pau, true, fat32).Retry? {
      Fixed16(szVol, pau * 2, fat32);
    }
  }

  /** With FAT12 and FAT16. */
  lemma Formats16(szVol: nat, fat32: bool)
    requires 128 <= szVol < 0x1_0000_0000
    ensures Planned(szVol, fat32, FAT16, 0).Some? <==> fat32 || szVol <= 8387616
  {
    hide Round16, Round32, Takes32, Takes16, Doubles;
    if szVol < 0x1000 {
      Small(szVol, fat32);
      TakenDoubled(szVol, 1, fat32);
    } else if szVol < 0x4000 {
      Middle2(szVol, fat32);
      TakenDoubled(szVol, 2, fat32);
    } else if szVol < 0x1_0000 {
      Middle4(szVol, fat32);
      TakenDoubled(szVol, 4, fat32);
    } else if szVol < 0x4_0000 {
      Middle8(szVol, fat32);
      TakenDoubled(szVol, 8, fat32);
    } else if szVol < 0x10_0000 {
      Middle16(szVol, fat32);
      TakenDoubled(szVol, 16, fat32);
    } else if szVol < 0x20_0000 {
      Middle32(szVol, fat32);
      TakenDoubled(szVol, 32, fat32);
    } else {
      if szVol <= 4193952 {
        Large(szVol, fat32);
        TakenDoubled(szVol, 64, fat32);
      } else if fat32 {
        TooLarge(szVol, fat32);
        Formats32(szVol, fat32);
      } else {
        TooLarge(szVol, fat32);
        Largest(szVol);
        Fixed16(szVol, 128, false);
      }
    }
  }

  /** Formats exist for volumes of these sizes. */
  predicate CanFormat(szVol: nat, opt: Options)
  {
    if opt.fat then 128 <= szVol && (opt.fat32 || szVol <= 8387616) else opt.fat32 && 66075 <= szVol
  }

  /** The exact range of sizes the format loop finds a layout for on its own. */
  lemma FormatsExactly(szVol: nat, opt: Options)
    requires 128 <= szVol < 0x1_0000_0000 && (opt.fat || opt.fat32)
    ensures Planned(szVol, opt.fat32, if opt.fat then FAT16 else FAT32, 0).Some? <==> CanFormat(szVol, opt)
  {
    if opt.fat {
      Formats16(szVol, opt.fat32);
    } else {
      Formats32(szVol, opt.fat32);
    }
  }
}
