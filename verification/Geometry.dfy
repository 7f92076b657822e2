/** Where the parts of a mounted FAT volume lie. */
module FatGeometry {
  import opened Bytes
  import opened Device
  import opened FatTable

  /** Cluster sizes in sectors. */
  predicate ClusterSize(csize: nat)
    ensures ClusterSize(csize) ==> csize > 0
  {
    csize in {1, 2, 4, 8, 16, 32, 64, 128}
  }

  /** The members of the filesystem object that mounting computes and nothing changes afterwards. */
  datatype Geometry = Geometry(
    fsType: FatType,
    nFats: nat,
    csize: nat,
    nRootdir: nat,
    nFatent: nat,
    fsize: nat,
    volbase: nat,
    fatbase: nat,
    dirbase: nat,
    database: nat)
  {
    /** First sector behind the allocation tables. */
    function AreaBase(): nat
    {
      fatbase + fsize + (if nFats == 2 then fsize else 0)
    }

    /** The tables lie inside a device of `sectors` sectors. */
    predicate TablesFit(sectors: nat)
    {
      && (nFats == 1 || nFats == 2)
      && AreaBase() <= sectors < MAX32
    }

    /** A volume that lies inside a device of `sectors` sectors, with tables large enough for its clusters. */
    predicate Valid(sectors: nat)
    {
      && TablesFit(sectors)
      && ClusterSize(csize)
      && 3 <= nFatent <= MaxClusters(fsType) + 2
      && TableBytes(fsType, nFatent) <= 512 * fsize
      && volbase < fatbase
      && nRootdir % 16 == 0
      && database == AreaBase() + nRootdir / 16
      && (if fsType.FAT32? then nRootdir == 0 else nRootdir > 0 && dirbase == AreaBase())
      && database + csize * (nFatent - 2) <= sectors
    }

    /** Is this the address of a byte of the second table? */
    predicate InMirror(address: int)
    {
      nFats == 2 && 512 * (fatbase + fsize) <= address < 512 * (fatbase + fsize + fsize)
    }

    /** First sector of a cluster; 0 when there is no such cluster. The subtractions are unsigned. */
    function ClusterSector(clst: nat): (r: nat)
    {
      if Sub32(clst, 2) >= Sub32(nFatent, 2) then 0 else database + csize * Sub32(clst, 2)
    }
  }
}
