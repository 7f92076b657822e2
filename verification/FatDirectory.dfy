/** An open directory: a cursor over its entries, lookup, registration and removal. */
module FatDirectories {
  import opened Bytes
  import opened Device
  import opened FatTable
  import opened FatGeometry
  import opened FatWindow
  import opened Chains
  import opened FileModel
  import opened FileState
  import opened FatVolumes
  import opened LongNames
  import opened DirTable
  import opened DirLookup
  import opened DirState
  import opened DirFootprint
  import ShortNames

  class FatDirectory {
    const fs: FatVolume
    /** Upper case of a unit. */
    const up: unit -> unit
    /** Working buffer with the long name, and the short name with its flags. */
    const lfnbuf: array<unit>
    const sclust: nat
    var fn: seq<byte>
    var flags: byte
    var dptr: nat
    var clust: nat
    var sect: nat
    var blkOfs: nat
    ghost var chain: seq<nat>
    /** The state of the volume to compare with. */
    ghost var base: Base

    constructor (fs: FatVolume, up: unit -> unit, lfnbuf: array<unit>, sclust: nat, ghost chain: seq<nat>)
      requires fs.Valid() && fs.g.Valid(fs.size) && DirOk(fs.g, fs.size, fs.Fat(), chain, sclust)
      ensures this.fs == fs && this.up == up && this.lfnbuf == lfnbuf && this.sclust == sclust && this.chain == chain
      ensures Valid() && blkOfs == NO_BLOCK && base == Base(fs.Fat(), fs.Area(), chain)
    {
      this.fs, this.up, this.lfnbuf, this.sclust, this.chain := fs, up, lfnbuf, sclust, chain;
      fn, flags, dptr, clust, sect, blkOfs := [], 0, 0, 0, 0, NO_BLOCK;
      base := Base(fs.Fat(), fs.Area(), chain);
      OnlyDirStart(fs.g, fs.Fat(), fs.Area(), chain);
    }

    ghost predicate Valid()
      reads this`chain, this`base, fs`winsect, fs`wflag, fs.disk, fs.win
      ensures Valid() ==> fs.Valid() && fs.g.Valid(fs.size)
    {
      && fs.Valid() && fs.g.Valid(fs.size)
      && DirOk(fs.g, fs.size, fs.Fat(), chain, sclust)
      && OnlyDir(fs.g, base, fs.Fat(), fs.Area(), chain)
    }

    /** From now on the volume is compared with its present state. */
    ghost method Mark()
      requires Valid()
      modifies this`base
      ensures Valid() && Table() == old(Table()) && base == Base(fs.Fat(), fs.Area(), chain)
    {
      hide FatVolume.Valid, FatVolume.Fat, FatVolume.Area, Geometry.Valid, DirOk, OnlyDir, TableIn;
      base := Base(fs.Fat(), fs.Area(), chain);
      OnlyDirStart(fs.g, fs.Fat(), fs.Area(), chain);
    }

    /** Another chain is where it was at that state, apart from this directory's, and its clusters hold what they
        held. */
    lemma Others(o: seq<nat>)
      requires Valid() && IsChain(base.table, o) && Disjoint(o, base.chain)
      ensures IsChain(fs.Fat(), o) && Disjoint(o, chain) && SameBytes(fs.g, base.area, fs.Area(), o)
    {
      hide FatVolume.Valid, FatVolume.Fat, FatVolume.Area, Geometry.Valid, OnlyDir, SameBytes, DirOk;
      Placement();
      OthersUntouched(fs.g, fs.size, base, fs.Fat(), fs.Area(), chain, sclust, o);
    }

    lemma Placement()
      requires Valid()
      ensures ClusterSize(fs.g.csize) && (forall c :: c in chain ==> 2 <= c < fs.g.nFatent)
      ensures SectorsOk(fs.Area(), fs.g.AreaBase(), DirSectors(fs.g, chain)) && |DirSectors(fs.g, chain)| > 0
      ensures forall s :: s in DirSectors(fs.g, chain) ==> fs.g.AreaBase() <= s < fs.size && s > 0
      ensures fs.size < MAX32 && |fs.Area()| == 512 * (fs.size - fs.g.AreaBase())
    {
      hide FatVolume.Fat;
      AreaSize();
      DirSectorsOk(fs.g, fs.size, fs.Fat(), chain, sclust, fs.Area());
    }

    lemma AreaSize()
      requires Valid()
      ensures fs.g.AreaBase() <= fs.size < MAX32 && |fs.Area()| == 512 * (fs.size - fs.g.AreaBase())
    {
    }

    /** The entries of the directory. */
    ghost function Table(): (t: seq<seq<byte>>)
      requires Valid()
      reads this`chain, this`base, fs`winsect, fs`wflag, fs.disk, fs.win
      ensures IsTable(t)
    {
      Placement();
      TableIn(fs.Area(), fs.g.AreaBase(), DirSectors(fs.g, chain))
    }

    /** The cursor is at entry `e`. */
    ghost predicate Cursor(e: nat)
      requires Valid()
      reads this`chain, this`base, this`dptr, this`clust, this`sect, fs`winsect, fs`wflag, fs.disk, fs.win
    {
      Placement();
      CursorIn(fs.g, chain, dptr, clust, sect, e)
    }

    /** Follows the chain from its start to the cluster around byte `ofs` of the table. */
    method FollowTo(start: nat, ofs: nat) returns (res: FResult, clst: nat, o: nat, ghost j: nat)
      requires Valid() && chain != [] && start == chain[0] && ClusterSize(fs.g.csize)
      modifies fs`wflag, fs`winsect, fs.win, fs.disk
      ensures Valid() && Table() == old(Table()) && fs.Fat() == old(fs.Fat())
      ensures res == Ok || res == IntErr || res == DiskErr
      ensures res == Ok ==> j < |chain| && clst == chain[j] && o < 512 * fs.g.csize && ofs == 512 * fs.g.csize * j + o
      ensures res == IntErr ==> 512 * (fs.g.csize * |chain|) <= ofs
      ensures fs.disk.Healthy() ==> res != DiskErr
    {
      hide DirOk, OnlyDir, FatVolume.Valid, FatVolume.Fat, FatVolume.Area, Geometry.Valid, TableIn, SectorsOk,
        DirSectors, ClusterSize;
      ghost var g, size, f := fs.g, fs.size, fs.Fat();
      Placement();
      clst, o, j := start, ofs, 0;
      var csz := fs.g.csize * 512;
      res := Ok;
      while o >= csz
        invariant Valid() && Table() == old(Table()) && fs.Fat() == f
        invariant j < |chain| && clst == chain[j] && ofs == 512 * fs.g.csize * j + o
      {
        DirLink(g, size, f, chain, sclust, j);
        clst := fs.GetFat(clst);
        Steps(fs.g.csize, j, |chain|, o);
        if clst == MAX32 {
          return DiskErr, clst, o, j;
        }
        if clst < 2 || clst >= fs.g.nFatent {
          return IntErr, clst, o, j;
        }
        o, j := o - csz, j + 1;
      }
    }

    lemma Steps(csize: nat, j: nat, n: nat, o: nat)
      requires 512 * csize <= o && j < n
      ensures 512 * csize * (j + 1) == 512 * csize * j + 512 * csize
      ensures j + 1 == n ==> 512 * (csize * n) <= 512 * csize * j + o
    {
    }

    /** dir_sdi: sets the cursor to a byte offset of the table. */
    method Seek(ofs: nat) returns (res: FResult)
      requires Valid()
      modifies this`dptr, this`clust, this`sect, fs`wflag, fs`winsect, fs.win, fs.disk
      ensures Valid() && Table() == old(Table()) && fs.Fat() == old(fs.Fat())
      ensures res == Ok || res == IntErr || res == DiskErr
      ensures res == Ok ==> ofs % 32 == 0 && ofs / 32 < |Table()| && Cursor(ofs / 32)
      ensures res == IntErr ==> ofs % 32 != 0 || ofs / 32 >= |Table()|
      ensures fs.disk.Healthy() ==> res != DiskErr
    {
      hide DirOk, OnlyDir, FatVolume.Valid, FatVolume.Fat, FatVolume.Area, Geometry.Valid, TableIn, SectorsOk,
        DirSectors, ClusterSize, Geometry.ClusterSector, CursorIn;
      if ofs >= 0x20_0000 || ofs % 32 != 0 {
        return IntErr;
      }
      ghost var g, size, f := fs.g, fs.size, fs.Fat();
      Placement();
      DirStart(g, size, f, chain, sclust);
      dptr := ofs;
      var clst, o := StartCluster(fs.g, sclust), ofs;
      if clst == 0 {
        CursorInRoot(g, size, f, chain, sclust, ofs);
        if ofs / 32 >= fs.g.nRootdir {
          return IntErr;
        }
        sect := fs.g.dirbase;
      } else {
        ghost var j;
        res, clst, o, j := FollowTo(clst, ofs);
        BeyondChain(g, chain, ofs);
        if res != Ok {
          return;
        }
        CursorInChain(g, size, f, chain, sclust, j, o);
        sect := fs.g.ClusterSector(clst);
      }
      clust := clst;
      if sect == 0 {
        return IntErr;
      }
      sect := sect + o / 512;
      Inside(ofs / 32);
      res := Ok;
    }

    /** A cursor is at an entry of the table. */
    lemma Inside(e: nat)
      requires Valid() && Cursor(e)
      ensures e < |Table()|
    {
    }

    /** The table is `t` with entries appended that were never used, and what held of the volume holds. */
    ghost predicate Longer(t: seq<seq<byte>>, counted: bool, sane: bool)
      requires Valid()
      reads this`chain, this`base, fs, fs.disk, fs.win
      ensures 2 <= |fs.Fat()| && (Longer(t, counted, sane) <==> Grew(t, Table(), fs.Fat(), fs.freeClst, counted, sane))
    {
      && Extends(t, Table())
      && (counted ==> fs.CacheOk()) && (sane ==> Sane(fs.Fat()))
    }

    /** Nothing about the directory has changed. */
    ghost predicate Kept(t: seq<seq<byte>>, f: seq<nat>, ch: seq<nat>, free: nat)
      requires Valid()
      reads this`chain, this`base, fs, fs.disk, fs.win
      ensures Kept(t, f, ch, free) <==> Table() == t && fs.Fat() == f && chain == ch && fs.freeClst == free
    {
      Table() == t && fs.Fat() == f && chain == ch && fs.freeClst == free
    }

    /** What the volume shows, though the window may be out of step with the device: all chains but that of the
        directory are where they were, and their clusters hold what they held. */
    ghost predicate OthersSurvive()
      reads this`base, fs`winsect, fs`wflag, fs.disk, fs.win
    {
      && fs.win.Length == 512 && |fs.disk.image| == 512 * fs.size && fs.g.Valid(fs.size)
      && var v := Overlaid(fs.g, fs.disk.image, fs.wflag, fs.winsect, fs.win[..]);
         Survive(fs.g, base, EntriesOf(fs.g, v), AreaOf(fs.g, v))
    }

    lemma Surviving()
      requires Valid()
      ensures OthersSurvive()
    {
      hide Geometry.Valid, DirOk, OnlyDir, Survive, EntriesOf, AreaOf, Overlaid, Mirrored;
      Placement();
      OnlyDirSurvive(fs.g, fs.size, base, fs.Fat(), fs.Area(), chain, sclust);
    }

    /** Links a blank cluster behind the last one. */
    method Stretch(granted: nat) returns (res: FResult, clst: nat)
      requires Valid() && chain != [] && clust == chain[|chain| - 1]
      modifies this`chain, fs, fs.win, fs.disk
      ensures res == Ok || res == Denied || res == IntErr || res == DiskErr
      ensures res == Ok ==> Valid() && Longer(old(Table()), old(fs.CacheOk()), Sane(old(fs.Fat())))
      ensures res == Ok ==> chain == old(chain) + [clst] && (|Table()| > |old(Table())| || |Table()| == MAX_ENTRIES)
      ensures res == Denied ==> Valid() && Kept(old(Table()), old(fs.Fat()), old(chain), old(fs.freeClst)) && fs.Full()
      ensures res == IntErr ==> !Sane(old(fs.Fat()))
      ensures res == DiskErr ==> !fs.disk.Healthy() && OthersSurvive()
    {
      hide DirOk, OnlyDir, FatVolume.Valid, FatVolume.Fat, FatVolume.Area, FatVolume.Contents, Geometry.Valid, TableIn,
        SectorsOk,
        DirSectors, ClusterSize, Taken, Sane, FreeCount, AllUnused, OthersSurvive, Survive, OnlyFree, FatVolume.Full;
      Placement();
      fs.Limits();
      ghost var g, size, f, area := fs.g, fs.size, fs.Fat(), fs.Area();
      DirLink(g, size, f, chain, sclust, |chain| - 1);
      clst := fs.CreateChain(clust);
      if clst == 0 {
        return Denied, clst;
      }
      if clst == 1 {
        return IntErr, clst;
      }
      if clst == MAX32 {
        FailedSurvive(g, size, base, f, area, chain, sclust, clust, fs.Fat(), fs.Area(), 2);
        Shows();
        return DiskErr, clst;
      }
      res := Append(clst, granted, f, area);
      if res == Ok && Sane(f) {
        TakenSane(f, clust, clst, fs.Eoc());
      }
    }

    /** Clears a cluster that was just linked behind the last one. */
    method Append(clst: nat, granted: nat, ghost f: seq<nat>, ghost area: seq<byte>) returns (res: FResult)
      requires fs.Valid() && fs.g.Valid(fs.size) && DirOk(fs.g, fs.size, f, chain, sclust) && chain != []
      requires OnlyDir(fs.g, base, f, area, chain) && fs.Area() == area && |area| == 512 * (fs.size - fs.g.AreaBase())
      requires 2 <= clst < |f| && f[clst] == 0 && chain[|chain| - 1] < |f|
      requires fs.Fat() == Taken(f, chain[|chain| - 1], clst, fs.Eoc()) && OnlyFree(f, chain[|chain| - 1], fs.Fat())
      requires |f| == fs.g.nFatent <= fs.Eoc()
      requires ClusterSize(fs.g.csize) && (forall c :: c in chain ==> 2 <= c)
      requires SectorsOk(area, fs.g.AreaBase(), DirSectors(fs.g, chain))
      modifies this`chain, fs`wflag, fs`winsect, fs.win, fs.disk
      ensures res == Ok || res == DiskErr
      ensures res == Ok ==> Valid() && chain == old(chain) + [clst] && fs.Fat() == old(fs.Fat())
      ensures res == Ok ==>
        var t := TableIn(area, fs.g.AreaBase(), DirSectors(fs.g, old(chain)));
        Extends(t, Table()) && (|Table()| > |t| || |t| == MAX_ENTRIES)
      ensures res == DiskErr ==> OthersSurvive()
      ensures fs.disk.Healthy() ==> res == Ok
    {
      hide DirOk, OnlyDir, FatVolume.Valid, FatVolume.Fat, FatVolume.Area, FatVolume.Contents, Geometry.Valid, TableIn,
        SectorsOk,
        DirSectors, ClusterSize, IsCleared, Taken, AllUnused, OthersSurvive, OnlyFree, OnlyThere,
          Geometry.ClusterSector;
      ghost var g, size, f', v := fs.g, fs.size, fs.Fat(), fs.Contents();
      ghost var ch := chain;
      Parted();
      assert ch[|ch| - 1] in ch;
      res := fs.ClearCluster(clst, granted);
      if res != Ok {
        Spoilt(f, area, ch[|ch| - 1], f', v, clst);
        return DiskErr;
      }
      chain := chain + [clst];
      DirStretched(g, size, f, ch, sclust, area, clst, fs.Eoc(), f', fs.Area());
      NotLinked(g, size, f, ch, clst);
      OnlyDirGrown(g, base, f, area, ch, clst, fs.Eoc(), fs.Area());
    }

    lemma Parted()
      requires fs.Valid() && fs.g.Valid(fs.size)
      ensures fs.Fat() == EntriesOf(fs.g, fs.Contents()) && fs.Area() == AreaOf(fs.g, fs.Contents())
    {
    }

    lemma Shows()
      requires fs.Valid() && fs.g.Valid(fs.size) && Survive(fs.g, base, fs.Fat(), fs.Area())
      ensures OthersSurvive()
    {
    }

    lemma Spoilt(f: seq<nat>, area: seq<byte>, c: nat, f': seq<nat>, v: seq<byte>, r: nat)
      requires DirOk(fs.g, fs.size, f, chain, sclust) && |area| == 512 * (fs.size - fs.g.AreaBase())
      requires OnlyDir(fs.g, base, f, area, chain) && c in chain && OnlyFree(f, c, f') && 2 <= r < fs.g.nFatent == |f|
      requires f[r] == 0
      requires fs.win.Length == 512 && |v| == |fs.disk.image| == 512 * fs.size && fs.g.Valid(fs.size)
      requires f' == EntriesOf(fs.g, v) && area == AreaOf(fs.g, v)
      requires var seen := Overlaid(fs.g, fs.disk.image, fs.wflag, fs.winsect, fs.win[..]);
        OnlyThere(v, seen, fs.g.ClusterSector(r), fs.g.csize)
      ensures OthersSurvive()
    {
      hide DirOk, OnlyDir, Survive, EntriesOf, AreaOf, Overlaid, OnlyThere, OnlyFree;
      var v' := Overlaid(fs.g, fs.disk.image, fs.wflag, fs.winsect, fs.win[..]);
      ClusterNumber(fs.g, fs.size, r);
      ClusterSpoilt(fs.g, v, v', r, fs.g.ClusterSector(r));
      FailedSurvive(fs.g, fs.size, base, f, area, chain, sclust, c, f', AreaOf(fs.g, v'), r);
    }

    lemma NotLinked(g: Geometry, size: nat, f: seq<nat>, ch: seq<nat>, r: nat)
      requires DirOk(g, size, f, ch, sclust) && 2 <= r < |f| && f[r] == 0
      ensures r !in ch
    {
      if r in ch {
        var i :| 0 <= i < |ch| && ch[i] == r;
        LinkUsed(f, ch, i);
      }
    }

    /** At the end of a cluster: the next one of the chain, or a blank one linked behind it. */
    method NextCluster(stretch: bool, granted: nat, ghost j: nat) returns (res: FResult, clst: nat)
      requires Valid() && j < |chain| && clust == chain[j]
      modifies this`chain, this`sect, fs, fs.win, fs.disk
      ensures res == Ok || res == NoFile || res == Denied || res == IntErr || res == DiskErr
      ensures res == Ok ==>
        && Valid() && Longer(old(Table()), old(fs.CacheOk()), Sane(old(fs.Fat()))) && j + 1 < |chain|
        && clst == chain[j + 1] && (|chain| == |old(chain)| || |Table()| > |old(Table())| || |Table()| == MAX_ENTRIES)
      ensures !stretch ==> Valid() && Kept(old(Table()), old(fs.Fat()), old(chain), old(fs.freeClst))
      ensures res == NoFile ==>
        Valid() && Kept(old(Table()), old(fs.Fat()), old(chain), old(fs.freeClst)) && !stretch && j + 1 == |chain|
      ensures res == Denied ==>
        && Valid() && Kept(old(Table()), old(fs.Fat()), old(chain), old(fs.freeClst)) && stretch && j + 1 == |chain|
        && fs.Full()
      ensures res == IntErr ==> stretch && !Sane(old(fs.Fat()))
      ensures res == DiskErr ==> !fs.disk.Healthy() && OthersSurvive()
    {
      hide DirOk, OnlyDir, FatVolume.Valid, FatVolume.Fat, FatVolume.Area, Geometry.Valid, TableIn, SectorsOk,
        DirSectors, ClusterSize, Sane, FreeCount, OthersSurvive;
      Placement();
      fs.Limits();
      DirLink(fs.g, fs.size, fs.Fat(), chain, sclust, j);
      clst := fs.GetFat(clust);
      SameIsLonger(Table(), fs.CacheOk(), Sane(fs.Fat()));
      if clst <= 1 {
        res := IntErr;
      } else if clst == MAX32 {
        res := DiskErr;
        Surviving();
      } else if clst >= fs.g.nFatent {
        if !stretch {
          sect := 0;
          res := NoFile;
        } else {
          res, clst := Stretch(granted);
        }
      } else {
        res := Ok;
      }
    }

    /** A directory that has not changed has not lost anything. */
    lemma SameIsLonger(t: seq<seq<byte>>, counted: bool, sane: bool)
      requires Valid() && t == Table() && (counted ==> fs.CacheOk()) && (sane ==> Sane(fs.Fat()))
      ensures Longer(t, counted, sane)
    {
      ExtendsSame(t);
    }

    /** At the end of a sector: moves the cursor to the next one. */
    method NextSector(stretch: bool, granted: nat, ghost e: nat) returns (res: FResult)
      requires Valid() && Cursor(e) && (dptr + 32) % 512 == 0 && dptr + 32 < 0x20_0000
      modifies this`chain, this`dptr, this`clust, this`sect, fs, fs.win, fs.disk
      ensures res == Ok || res == NoFile || res == Denied || res == IntErr || res == DiskErr
      ensures res == Ok ==> Valid() && Longer(old(Table()), old(fs.CacheOk()), Sane(old(fs.Fat()))) && Cursor(e + 1)
      ensures !stretch ==> Valid() && Kept(old(Table()), old(fs.Fat()), old(chain), old(fs.freeClst))
      ensures res == NoFile ==>
        && Valid() && Kept(old(Table()), old(fs.Fat()), old(chain), old(fs.freeClst)) && e + 1 == |Table()|
        && (stretch ==> chain == [])
      ensures res == Denied ==>
        && Valid() && Kept(old(Table()), old(fs.Fat()), old(chain), old(fs.freeClst)) && stretch && e + 1 == |Table()|
        && fs.Full()
      ensures res == IntErr ==> stretch && !Sane(old(fs.Fat()))
      ensures res == DiskErr ==> !fs.disk.Healthy() && OthersSurvive()
    {
      hide DirOk, OnlyDir, FatVolume.Valid, FatVolume.Fat, FatVolume.Area, Geometry.Valid, SectorsOk, DirSectors,
        ClusterSize, Sane, CursorIn, Geometry.ClusterSector, TableIn, EntryCount, Longer, OthersSurvive;
      Placement();
      HasSector(e);
      ghost var g, size, f := fs.g, fs.size, fs.Fat();
      var ofs := dptr + 32;
      sect := sect + 1;
      if clust == 0 {
        NextInRoot(g, size, f, chain, sclust, dptr, clust, sect - 1, e);
        if ofs / 32 >= fs.g.nRootdir {
          sect := 0;
          return NoFile;
        }
        SameIsLonger(old(Table()), old(fs.CacheOk()), Sane(old(fs.Fat())));
      } else if ofs / 512 % fs.g.csize == 0 {
        ghost var j := AtClusterEnd(g, chain, dptr, clust, sect - 1, e);
        var clst;
        res, clst := NextCluster(stretch, granted, j);
        if res != Ok {
          return;
        }
        clust := clst;
        sect := fs.g.ClusterSector(clst);
        FirstInCluster(j + 1, ofs);
      } else {
        NextInCluster(g, chain, dptr, clust, sect - 1, e);
        SameIsLonger(old(Table()), old(fs.CacheOk()), Sane(old(fs.Fat())));
      }
      dptr := ofs;
      res := Ok;
    }

    /** dir_next: moves the cursor to the next entry. At the end of the table it stops, or appends a blank
        cluster first. */
    method Next(stretch: bool, granted: nat, ghost e: nat) returns (res: FResult)
      requires Valid() && Cursor(e)
      modifies this`chain, this`dptr, this`clust, this`sect, fs, fs.win, fs.disk
      ensures res == Ok || res == NoFile || res == Denied || res == IntErr || res == DiskErr
      ensures res == Ok ==> Valid() && Longer(old(Table()), old(fs.CacheOk()), Sane(old(fs.Fat()))) && Cursor(e + 1)
      ensures !stretch ==> Valid() && Kept(old(Table()), old(fs.Fat()), old(chain), old(fs.freeClst))
      ensures res == NoFile ==>
        && Valid() && Kept(old(Table()), old(fs.Fat()), old(chain), old(fs.freeClst)) && e + 1 == |Table()|
        && (stretch ==> chain == [] || |Table()| == MAX_ENTRIES)
      ensures res == Denied ==>
        && Valid() && Kept(old(Table()), old(fs.Fat()), old(chain), old(fs.freeClst)) && stretch && e + 1 == |Table()|
        && fs.Full()
      ensures res == IntErr ==> stretch && !Sane(old(fs.Fat()))
      ensures res == DiskErr ==> !fs.disk.Healthy() && OthersSurvive()
    {
      hide DirOk, OnlyDir, FatVolume.Valid, FatVolume.Fat, FatVolume.Area, Geometry.Valid, SectorsOk, DirSectors,
        ClusterSize, Sane, CursorIn, TableIn, Longer, OthersSurvive;
      Placement();
      HasSector(e);
      NextInSector(fs.g, chain, dptr, clust, sect, e);
      var ofs := dptr + 32;
      if sect == 0 || ofs >= 0x20_0000 {
        return NoFile;
      }
      if ofs % 512 == 0 {
        res := NextSector(stretch, granted, e);
      } else {
        dptr := ofs;
        SameIsLonger(old(Table()), old(fs.CacheOk()), Sane(old(fs.Fat())));
        res := Ok;
      }
    }

    lemma FirstInCluster(j: nat, ofs: nat)
      requires Valid() && j < |chain| && ClusterSize(fs.g.csize) && ofs == 512 * fs.g.csize * j && ofs < 0x20_0000
      ensures (forall c :: c in chain ==> 2 <= c)
      ensures CursorIn(fs.g, chain, ofs, chain[j], fs.g.ClusterSector(chain[j]), ofs / 32)
    {
      hide *;
      Opened();
      Placement();
      Aligned(fs.g.csize, j);
      CursorInChain(fs.g, fs.size, fs.Fat(), chain, sclust, j, 0);
    }

    lemma HasSector(e: nat)
      requires Valid() && Cursor(e)
      ensures sect != 0 && (clust == 0 <==> chain == []) && ClusterSize(fs.g.csize) && dptr == 32 * e && e < |Table()|
    {
      hide FatVolume.Valid, FatVolume.Fat, DirOk, CursorIn, DirSectors, ClusterSize, SectorsOk, EntryCount;
      Placement();
      CursorFacts(fs.g, chain, dptr, clust, sect, e);
    }

    lemma Opened()
      requires Valid()
      ensures DirOk(fs.g, fs.size, fs.Fat(), chain, sclust) && OnlyDir(fs.g, base, fs.Fat(), fs.Area(), chain)
    {
    }

    // Looking up

    /** What the name in the working buffer and its short form look up. */
    ghost function SearchKey(): Key
      reads this`fn, this`flags, lfnbuf
    {
      Key(lfnbuf[..], fn, flags % 2 == 1, flags / 64 % 2 == 1)
    }

    /** Brings the entry at the cursor into the window. */
    method Load(ghost e: nat) returns (res: FResult)
      requires Valid() && Cursor(e)
      modifies fs`wflag, fs`winsect, fs.win, fs.disk
      ensures Valid() && Kept(old(Table()), old(fs.Fat()), old(chain), old(fs.freeClst)) && Cursor(e)
      ensures res == Ok || res == DiskErr
      ensures e < |Table()| && fs.win.Length == 512 && dptr % 512 + 32 <= 512
      ensures res == Ok ==> fs.winsect == sect && fs.win[dptr % 512..dptr % 512 + 32] == Table()[e]
      ensures fs.disk.Healthy() ==> res == Ok
    {
      hide FatVolume.Valid, FatVolume.Contents, TableIn, DirOk, AreaOf, Geometry.InMirror;
      Here(e);
      res := fs.MoveWindow(sect);
      if res == Ok {
        Shown(e);
      }
    }

    lemma Here(e: nat)
      requires Valid() && Cursor(e)
      ensures fs.g.AreaBase() <= sect < fs.size < MAX32 && !fs.g.InMirror(512 * sect) && fs.win.Length == 512
      ensures dptr == 32 * e && dptr % 512 == 32 * (e % 16) && dptr % 512 + 32 <= 512 && e < |Table()|
    {
      hide FatVolume.Fat, DirOk, OnlyDir, CursorIn, DirSectors, ClusterSize, SectorsOk, EntryCount, Mirrored, Overlaid,
        TableIn;
      Placement();
      CursorFacts(fs.g, chain, dptr, clust, sect, e);
      EntryPlace(e);
    }

    lemma EntryPlace(e: nat)
      ensures 32 * e % 512 == 32 * (e % 16) && 32 * (e % 16) + 32 <= 512
    {
      assert 32 * e == 512 * (e / 16) + 32 * (e % 16);
    }

    /** The entry at the cursor, when the window shows its sector. */
    lemma Shown(e: nat)
      requires Valid() && Cursor(e) && fs.winsect == sect < fs.size
      requires fs.win[..] == fs.Contents()[512 * sect..512 * (sect + 1)]
      ensures fs.win.Length == 512 && dptr % 512 + 32 <= 512 && e < |Table()|
      ensures fs.win[dptr % 512..dptr % 512 + 32] == Table()[e]
    {
      hide FatVolume.Valid, FatVolume.Contents, FatVolume.Fat, DirOk, DirSectors, ClusterSize, SectorsOk, EntryCount,
        TableIn;
      Here(e);
      Placement();
      var ab, v := fs.g.AreaBase(), fs.Contents();
      EntrySlice(fs.Area(), ab, DirSectors(fs.g, chain), e);
      SubSlice(v, 512 * ab, |v|, 512 * (sect - ab), 512);
      assert v[512 * ab..|v|] == fs.Area();
      assert fs.win[..][dptr % 512..dptr % 512 + 32] == fs.win[dptr % 512..dptr % 512 + 32];
    }

    /** Examines one entry in use: is it the one looked for, and what is awaited next if not? */
    method Check(d: seq<byte>, ord: byte, sum: byte) returns (hit: bool, ord': byte, sum': byte)
      requires |d| == 32 && d[0] != 0 && lfnbuf.Length == MAX_LFN + 1 && |fn| == 11
      modifies this`blkOfs
      ensures hit <==> Examine(up, SearchKey(), Scan(ord, sum, old(blkOfs)), d, dptr / 32) == Hit
      ensures hit ==> blkOfs == old(blkOfs)
      ensures !hit ==>
        Examine(up, SearchKey(), Scan(ord, sum, old(blkOfs)), d, dptr / 32) == DirTable.Next(Scan(ord', sum', blkOfs))
    {
      hide PartMatches, Checksum;
      var c, a := d[0], d[11] % 64;
      hit, ord', sum' := false, ord, sum;
      if c == DELETED || (a / 8 % 2 == 1 && a != 0x0F) {
        ord', blkOfs := 0xFF, NO_BLOCK;
      } else if a == 0x0F {
        if flags / 64 % 2 == 0 {
          if IsLast(c) {
            sum' := d[13];
            c := c - 64;
            ord' := c;
            blkOfs := 32 * (dptr / 32);
          }
          var same := false;
          if c == ord' && sum' == d[13] {
            same := CmpLfn(up, lfnbuf, d);
          }
          ord' := if same then (ord' - 1) % 256 else 0xFF;
        }
      } else {
        var s := SumSfn(d[..11]);
        if ord == 0 && sum == s {
          return true, ord', sum';
        }
        if flags % 2 == 0 && d[..11] == fn {
          return true, ord', sum';
        }
        ord', blkOfs := 0xFF, NO_BLOCK;
      }
    }

    /** One round of the search: the entry at the cursor is examined, and the cursor moves on unless the search is
        over. */
    method FindStep(ghost e: nat, ord: byte, sum: byte) returns (res: FResult, more: bool, ord': byte, sum': byte)
      requires Valid() && lfnbuf.Length == MAX_LFN + 1 && |fn| == 11 && Cursor(e) && e < |Table()|
      modifies this`chain, this`dptr, this`clust, this`sect, this`blkOfs, fs, fs.win, fs.disk
      ensures Valid() && Kept(old(Table()), old(fs.Fat()), old(chain), old(fs.freeClst))
      ensures res == Ok || res == NoFile || res == DiskErr
      ensures res == Ok && !more ==> Cursor(dptr / 32) && old(Pending(e, ord, sum)) == At(dptr / 32, blkOfs)
      ensures res == Ok && more ==>
        Cursor(e + 1) && e + 1 < |Table()| && Pending(e + 1, ord', sum') == old(Pending(e, ord, sum))
      ensures res == NoFile ==> old(Pending(e, ord, sum)) == Missing
      ensures fs.disk.Healthy() ==> res != DiskErr
    {
      hide *;
      ghost var t, k := Table(), SearchKey();
      Proper();
      PendingIs(e, ord, sum);
      ord', sum', more := ord, sum, false;
      res := Load(e);
      if res != Ok {
        return;
      }
      var d := fs.win[dptr % 512..dptr % 512 + 32];
      PassStep(up, k, Scan(ord, sum, blkOfs), t, e);
      HasSector(e);
      if d[0] == 0 {
        res := NoFile;
        return;
      }
      var hit;
      hit, ord', sum' := Check(d, ord, sum);
      if hit {
        return;
      }
      res := Next(false, 0, e);
      if res != Ok {
        PassNothing(up, k, Scan(ord', sum', blkOfs), t, e + 1);
        return;
      }
      more := true;
      Inside(e + 1);
      PendingIs(e + 1, ord', sum');
    }

    /** What the rest of the search will find. */
    ghost function Pending(e: nat, ord: byte, sum: byte): Lookup
      requires Valid() && lfnbuf.Length == MAX_LFN + 1 && |fn| == 11 && e <= |Table()|
      reads this, fs, fs.disk, fs.win, lfnbuf
    {
      Proper();
      Result(Pass(up, SearchKey(), Scan(ord, sum, blkOfs), Table()[e..], e))
    }

    lemma PendingIs(e: nat, ord: byte, sum: byte)
      requires Valid() && lfnbuf.Length == MAX_LFN + 1 && |fn| == 11 && e <= |Table()|
      ensures ProperKey(SearchKey())
      ensures Pending(e, ord, sum) == Result(Pass(up, SearchKey(), Scan(ord, sum, blkOfs), Table()[e..], e))
    {
    }

    /** dir_find: looks the name up, entry by entry. */
    method FindEntry() returns (res: FResult)
      requires Valid() && lfnbuf.Length == MAX_LFN + 1 && |fn| == 11
      modifies this`chain, this`dptr, this`clust, this`sect, this`blkOfs, fs, fs.win, fs.disk
      ensures Valid() && Kept(old(Table()), old(fs.Fat()), old(chain), old(fs.freeClst))
      ensures res == Ok || res == NoFile || res == DiskErr
      ensures res == Ok ==> Cursor(dptr / 32) && Find(up, SearchKey(), Table()) == At(dptr / 32, blkOfs)
      ensures res == NoFile ==> Find(up, SearchKey(), Table()) == Missing
      ensures ProperKey(SearchKey())
      ensures res == Ok ==> Finds(up, SearchKey(), Table(), At(dptr / 32, blkOfs))
      ensures res == NoFile ==> Finds(up, SearchKey(), Table(), Missing)
      ensures fs.disk.Healthy() ==> res != DiskErr
    {
      hide *;
      Proper();
      LookupExactly(up, SearchKey(), Table());
      res := Seek(0);
      Sized();
      if res != Ok {
        return;
      }
      var more, ord, sum := true, 0xFF, 0xFF;
      blkOfs := NO_BLOCK;
      ghost var e: nat := 0;
      FromStart();
      ghost var t, found := Table(), Find(up, SearchKey(), Table());
      while more
        invariant Valid() && Kept(t, old(fs.Fat()), old(chain), old(fs.freeClst))
        invariant more ==> res == Ok && Cursor(e) && e < |t| && Pending(e, ord, sum) == found
        invariant res == Ok || res == NoFile || res == DiskErr
        invariant !more && res == Ok ==> Cursor(dptr / 32) && found == At(dptr / 32, blkOfs)
        invariant !more && res == NoFile ==> found == Missing
        invariant fs.disk.Healthy() ==> res != DiskErr
        decreases |t| - e, more
      {
        res, more, ord, sum := FindStep(e, ord, sum);
        if res != Ok {
          return;
        }
        if more {
          e := e + 1;
        }
      }
    }

    lemma FromStart()
      requires Valid() && lfnbuf.Length == MAX_LFN + 1 && |fn| == 11 && blkOfs == NO_BLOCK
      ensures ProperKey(SearchKey()) && Pending(0, 0xFF, 0xFF) == Find(up, SearchKey(), Table())
    {
      assert Table()[0..] == Table();
    }

    lemma Sized()
      requires Valid()
      ensures |Table()| > 0
    {
      Placement();
    }

    lemma Proper()
      requires lfnbuf.Length == MAX_LFN + 1 && |fn| == 11
      ensures ProperKey(SearchKey())
    {
    }

    // Registering

    lemma Counting()
      requires Valid()
      ensures 2 <= |fs.Fat()|
      ensures (fs.CacheOk() <==> (fs.freeClst <= |fs.Fat()| - 2 ==> fs.freeClst == FreeCount(fs.Fat())))
    {
      hide FatVolume.Valid, FatVolume.Fat, DirOk;
      fs.Limits();
    }

    /** There is no way to make the directory larger: it is the root directory of a volume without FAT32, has as many
        entries as a directory can have, or no cluster is free. */
    ghost predicate CannotGrow()
      requires Valid()
      reads this`chain, this`base, fs, fs.disk, fs.win
    {
      chain == [] || |Table()| == MAX_ENTRIES || fs.Full()
    }

    lemma Stuck(e: nat, n: nat, nent: nat)
      requires Valid() && Looked(Table(), e + 1, n, nent) && e + 1 == |Table()|
      requires chain == [] || |Table()| == MAX_ENTRIES || fs.Full()
      ensures NoBlock(Table(), |Table()|, nent) && CannotGrow()
    {
      hide IsFree, FreeRun;
      LookedAll(Table(), n, nent);
    }

    /** dir_alloc: finds the first block of `nent` free entries and leaves the cursor on its last one. It fails only
        when there is none and the directory cannot grow. */
    method Alloc(nent: nat, granted: nat) returns (res: FResult)
      requires Valid() && nent > 0 && Closed(Table())
      modifies this`chain, this`dptr, this`clust, this`sect, fs, fs.win, fs.disk
      ensures res == Ok || res == Denied || res == IntErr || res == DiskErr
      ensures res == Ok ==> Valid() && Longer(old(Table()), old(fs.CacheOk()), Sane(old(fs.Fat()))) && Cursor(dptr / 32)
      ensures res == Ok ==> FreeRun(Table(), dptr / 32 + 1, nent) && NoBlock(Table(), dptr / 32, nent)
      ensures res == Denied ==> Valid() && Longer(old(Table()), old(fs.CacheOk()), Sane(old(fs.Fat())))
      ensures res == Denied ==> NoBlock(Table(), |Table()|, nent) && CannotGrow()
      ensures res == IntErr ==> !Sane(old(fs.Fat()))
      ensures res == DiskErr ==> !fs.disk.Healthy() && OthersSurvive()
    {
      hide *;
      ghost var t0, counted, sane := Table(), fs.CacheOk(), Sane(fs.Fat());
      Sized();
      SameIsLonger(t0, counted, sane);
      res := Seek(0);
      if res != Ok {
        Surviving();
        return;
      }
      var n := 0;
      ghost var e: nat := 0;
      LookedStart(t0, nent);
      while true
        invariant Valid() && Longer(t0, counted, sane)
        invariant Cursor(e) && e < |Table()| && Looked(Table(), e, n, nent) && Closed(Table())
        decreases MAX_ENTRIES - e
      {
        res := Load(e);
        if res != Ok {
          Surviving();
          return;
        }
        HasSector(e);
        ghost var t := Table();
        LookedStep(t, e, n, nent);
        FreeHere(t[e]);
        var c := fs.win[dptr % 512];
        assert c == t[e][0];
        if c == DELETED || c == 0 {
          n := n + 1;
          if n == nent {
            return;
          }
        } else {
          n := 0;
        }
        ghost var f, free := fs.Fat(), fs.freeClst;
        Counting();
        res := Next(true, granted, e);
        if res == IntErr || res == DiskErr {
          NotSane(t0, t, f, free, counted, sane);
          return;
        }
        if res != Ok {
          Stuck(e, n, nent);
          return Denied;
        }
        GrewMore(t0, t, f, free, counted, sane, Table(), fs.Fat(), fs.freeClst);
        e := e + 1;
        Inside(e);
        Bounded();
        LookedExtends(t, Table(), e, n, nent);
        ExtendsClosed(t, Table());
      }
    }

    lemma NotSane(t0: seq<seq<byte>>, t: seq<seq<byte>>, f: seq<nat>, free: nat, counted: bool, sane: bool)
      requires IsTable(t) && 2 <= |f| && Grew(t0, t, f, free, counted, sane)
      ensures sane ==> Sane(f)
    {
    }

    lemma Bounded()
      requires Valid()
      ensures |Table()| <= MAX_ENTRIES
    {
      hide FatVolume.Valid, FatVolume.Fat, DirOk;
      Placement();
    }

    lemma FreeHere(e: seq<byte>)
      requires |e| == 32
      ensures IsFree(e) <==> e[0] == DELETED || e[0] == 0
    {
    }

    /** The table after bytes of the entry at the cursor were overwritten in the window. */
    lemma Overwritten(e: nat, f: seq<nat>, area: seq<byte>, t: seq<seq<byte>>, d: seq<byte>)
      requires fs.Valid() && fs.g.Valid(fs.size) && DirOk(fs.g, fs.size, f, chain, sclust) && fs.Fat() == f
      requires |area| == 512 * (fs.size - fs.g.AreaBase()) && |d| == 32
      requires ClusterSize(fs.g.csize) && (forall c :: c in chain ==> 2 <= c)
      requires CursorIn(fs.g, chain, dptr, clust, sect, e)
      requires SectorsOk(area, fs.g.AreaBase(), DirSectors(fs.g, chain))
      requires t == TableIn(area, fs.g.AreaBase(), DirSectors(fs.g, chain))
      requires fs.g.AreaBase() <= sect && 512 * (sect - fs.g.AreaBase()) + dptr % 512 + 32 <= |area|
      requires fs.Area() == Splice(area, 512 * (sect - fs.g.AreaBase()) + dptr % 512, d)
      requires OnlyDir(fs.g, base, f, area, chain)
      ensures Valid() && Cursor(e) && e < |t| && Table() == t[e := d]
    {
      hide FatVolume.Valid, FatVolume.Fat, FatVolume.Area, DirOk, SectorsOk, TableIn, ClusterSize, DirSectors, Splice,
        OnlyDir;
      EntryPatched(area, fs.g.AreaBase(), DirSectors(fs.g, chain), e, d);
      EntryPlace(e);
      assert sect in DirSectors(fs.g, chain);
      OnlyDirPatched(fs.g, base, f, area, chain, sect, dptr % 512, d);
    }

    lemma Unfolded(e: nat)
      requires Valid() && Cursor(e)
      ensures ClusterSize(fs.g.csize) && (forall c :: c in chain ==> 2 <= c)
      ensures CursorIn(fs.g, chain, dptr, clust, sect, e)
      ensures SectorsOk(fs.Area(), fs.g.AreaBase(), DirSectors(fs.g, chain))
      ensures Table() == TableIn(fs.Area(), fs.g.AreaBase(), DirSectors(fs.g, chain))
      ensures fs.g.AreaBase() <= sect
      ensures 512 * (sect - fs.g.AreaBase()) + dptr % 512 + 32 <= |fs.Area()| == 512 * (fs.size - fs.g.AreaBase())
    {
      hide FatVolume.Valid, FatVolume.Fat, FatVolume.Area, DirOk, SectorsOk, TableIn, ClusterSize, DirSectors, CursorIn;
      Placement();
      Here(e);
    }

    lemma EntryBehind(e: nat, o: nat, x: seq<byte>)
      requires Valid() && Cursor(e) && o + |x| <= 32
      ensures fs.g.AreaBase() <= sect && 512 * (sect - fs.g.AreaBase()) + dptr % 512 + 32 <= |fs.Area()|
      ensures e < |Table()|
      ensures Splice(fs.Area(), 512 * (sect - fs.g.AreaBase()) + (dptr % 512 + o), x)
           == Splice(fs.Area(), 512 * (sect - fs.g.AreaBase()) + dptr % 512, Splice(Table()[e], o, x))
    {
      hide FatVolume.Valid, FatVolume.Fat, FatVolume.Area, DirOk, SectorsOk, TableIn, ClusterSize, DirSectors, Splice;
      Unfolded(e);
      Here(e);
      EntryPiece(fs.Area(), fs.g.AreaBase(), DirSectors(fs.g, chain), e, o, x);
    }

    /** Overwrites bytes of the entry at the cursor. */
    method Store(o: nat, x: seq<byte>, ghost e: nat)
      requires Valid() && Cursor(e) && e < |Table()| && fs.winsect == sect && o + |x| <= 32
      modifies fs`wflag, fs.win
      ensures Valid() && Cursor(e) && Table() == old(Table())[e := Splice(old(Table())[e], o, x)]
      ensures fs.Fat() == old(fs.Fat())
    {
      hide *;
      Here(e);
      Opened();
      Unfolded(e);
      ghost var f, area, t := fs.Fat(), fs.Area(), Table();
      EntryBehind(e, o, x);
      fs.Patch(dptr % 512 + o, x);
      Overwritten(e, f, area, t, Splice(t[e], o, x));
    }

    /** Makes the entry at the cursor part `ord` of the long name in the working buffer. */
    method StorePart(ord: byte, sum: byte, ghost name: seq<unit>, ghost e: nat) returns (ghost d: seq<byte>)
      requires Valid() && Cursor(e) && e < |Table()| && fs.winsect == sect
      requires LongNames.Holds(lfnbuf[..], name) && 0xFFFF !in name && 1 <= ord < 64 && 13 * (ord - 1) < |name|
      modifies fs`wflag, fs.win
      ensures Valid() && Cursor(e) && Table() == old(Table())[e := d] && fs.Fat() == old(fs.Fat())
      ensures IsPart(d, name, ord, sum)
    {
      hide *;
      Here(e);
      Opened();
      Unfolded(e);
      fs.Before();
      Parted();
      ghost var f, area, t, w := fs.Fat(), fs.Area(), Table(), fs.win[..];
      var k := dptr % 512;
      PutLfn(lfnbuf, name, fs.win, k, ord, sum);
      d := fs.win[k..k + 32];
      SpliceSlice(w, fs.win[..], k, 32);
      fs.Touch(w, k, d);
      Overwritten(e, f, area, t, d);
    }

    /** A sequence of which only a slice has changed. */
    lemma SpliceSlice(w: seq<byte>, w': seq<byte>, k: nat, n: nat)
      requires |w'| == |w| && k + n <= |w|
      requires forall j :: 0 <= j < |w| && !(k <= j < k + n) ==> w'[j] == w[j]
      ensures w' == Splice(w, k, w'[k..k + n])
    {
    }

    /** Stores the parts of the long name, the last one first, from the cursor on. */
    method StoreParts(count: nat, sum: byte, ghost name: seq<unit>, ghost u: seq<seq<byte>>, ghost b: nat)
      returns (res: FResult, ghost es: seq<seq<byte>>)
      requires Valid() && Table() == u && Cursor(b) && b + count < |u|
      requires ProperName(name) && LongNames.Holds(lfnbuf[..], name) && count == PartCount(name)
      modifies this`chain, this`dptr, this`clust, this`sect, fs, fs.win, fs.disk
      ensures Valid() && (res == Ok || res == DiskErr)
      ensures res == Ok ==>
        && IsLfnBlock(es, name, sum) && |es| == count
        && Kept(DirTable.Replaced(u, b, es), old(fs.Fat()), old(chain), old(fs.freeClst)) && Cursor(b + count)
      ensures fs.disk.Healthy() ==> res == Ok
    {
      hide *;
      es := [];
      ReplacedNone(u, b);
      PartsOf(name);
      var nent: nat := count;
      while nent > 0
        invariant nent + |es| == count && PartsFrom(es, name, count, sum)
        invariant Valid() && Kept(DirTable.Replaced(u, b, es), old(fs.Fat()), old(chain), old(fs.freeClst))
        invariant Cursor(b + |es|)
      {
        res := Load(b + |es|);
        if res != Ok {
          return;
        }
        PartStarts(name, nent);
        ghost var d := StorePart(nent, sum, name, b + |es|);
        ReplacedNext(u, b, es, d);
        NextPart(es, name, count, sum, d);
        es := es + [d];
        res := Next(false, 0, b + |es| - 1);
        if res != Ok {
          return;
        }
        nent := nent - 1;
      }
      AllParts(es, name, count, sum);
      res := Ok;
    }

    lemma PartStarts(name: seq<unit>, n: nat)
      requires ProperName(name) && 0 < n <= PartCount(name)
      ensures 13 * (n - 1) < |name| && n < 64 && 0xFFFF !in name
    {
    }

    /** An entry has the short name with number `n`. */
    ghost predicate NumberUsed(sn: seq<byte>, name: seq<unit>, n: nat, t: seq<seq<byte>>)
      requires |sn| == 11 && lfnbuf.Length == MAX_LFN + 1 && n < 0x1_0000 && IsTable(t)
      reads lfnbuf
    {
      var digits := ShortNames.Hex(ShortNames.Number(name, n));
      |digits| <= 7 && Find(up, Key(lfnbuf[..], ShortNames.Numbered(sn, digits), false, true), t).At?
    }

    /** This is the short name with the least number that no entry has. */
    ghost predicate IsChosen(sn: seq<byte>, name: seq<unit>, chosen: seq<byte>, t: seq<seq<byte>>)
      requires |sn| == 11 && lfnbuf.Length == MAX_LFN + 1 && IsTable(t)
      reads lfnbuf
    {
      exists n :: 1 <= n < 100 && !NumberUsed(sn, name, n, t) && (forall i :: 1 <= i < n ==> NumberUsed(sn, name, i, t))
        && |ShortNames.Hex(ShortNames.Number(name, n))| <= 7
        && chosen == ShortNames.Numbered(sn, ShortNames.Hex(ShortNames.Number(name, n)))
    }

    lemma MakeChosen(sn: seq<byte>, name: seq<unit>, n: nat, t: seq<seq<byte>>)
      requires |sn| == 11 && lfnbuf.Length == MAX_LFN + 1 && 1 <= n < 100 && IsTable(t)
      requires !NumberUsed(sn, name, n, t) && forall i :: 1 <= i < n ==> NumberUsed(sn, name, i, t)
      requires |ShortNames.Hex(ShortNames.Number(name, n))| <= 7
      ensures IsChosen(sn, name, ShortNames.Numbered(sn, ShortNames.Hex(ShortNames.Number(name, n))), t)
    {
    }

    lemma Used(sn: seq<byte>, name: seq<unit>, n: nat, t: seq<seq<byte>>)
      requires |sn| == 11 && lfnbuf.Length == MAX_LFN + 1 && n < 0x1_0000 && IsTable(t)
      requires |ShortNames.Hex(ShortNames.Number(name, n))| <= 7
      requires flags == 0x40 && fn == ShortNames.Numbered(sn, ShortNames.Hex(ShortNames.Number(name, n)))
      ensures |fn| == 11 && SearchKey() == Key(lfnbuf[..], fn, false, true)
      ensures NumberUsed(sn, name, n, t) <==> Find(up, SearchKey(), t).At?
    {
    }

    /** Tries numbered short names until one is on no entry; gives up after 99 of them. */
    method ChooseNumber(sn: seq<byte>, ghost name: seq<unit>) returns (res: FResult)
      requires Valid() && |sn| == 11 && lfnbuf.Length == MAX_LFN + 1 && LongNames.Holds(lfnbuf[..], name)
      requires flags == 0x40
      modifies this`fn, this`chain, this`dptr, this`clust, this`sect, this`blkOfs, fs, fs.win, fs.disk
      ensures Valid() && Kept(old(Table()), old(fs.Fat()), old(chain), old(fs.freeClst))
      ensures res == Ok || res == Denied || res == DiskErr
      ensures res == Ok ==> |fn| == 11 && (fn[0] == sn[0] || fn[0] == 126) && fn[8..] == sn[8..]
      ensures res == Ok ==> Find(up, Key(lfnbuf[..], fn, false, true), Table()) == Missing
      ensures res == Ok ==> IsChosen(sn, name, fn, Table())
      ensures res == Denied ==> forall n :: 1 <= n < 100 ==> NumberUsed(sn, name, n, Table())
      ensures fs.disk.Healthy() ==> res != DiskErr
    {
      hide *;
      ghost var t := Table();
      var n: nat := 1;
      while n < 100
        invariant Valid() && Kept(t, old(fs.Fat()), old(chain), old(fs.freeClst)) && lfnbuf[..] == old(lfnbuf[..])
        invariant n <= 100 && forall i :: 1 <= i < n ==> NumberUsed(sn, name, i, t)
      {
        fn := ShortNames.GenNumname(sn, lfnbuf, name, n);
        ShortNames.NumberedFirst(sn, ShortNames.Hex(ShortNames.Number(name, n)));
        Used(sn, name, n, t);
        res := FindEntry();
        if res != Ok {
          if res == NoFile {
            Searched();
            MakeChosen(sn, name, n, t);
            res := Ok;
          }
          return;
        }
        n := n + 1;
      }
      res := Denied;
    }

    lemma Searched()
      requires flags == 0x40
      ensures SearchKey() == Key(lfnbuf[..], fn, false, true)
    {
    }

    /** Writes the entry with the short name at the cursor. */
    method StoreShort(ghost e: nat) returns (res: FResult, ghost d: seq<byte>)
      requires Valid() && Cursor(e) && e < |Table()| && |fn| == 11 && fn[0] != 0 && fn[0] != DELETED
      modifies fs`wflag, fs`winsect, fs.win, fs.disk
      ensures Valid() && (res == Ok || res == DiskErr)
      ensures res == Ok ==>
        && Kept(old(Table())[e := d], old(fs.Fat()), old(chain), old(fs.freeClst)) && |d| == 32 && d[..11] == fn
        && IsShort(d) && IsNewEntry(d, fn, flags)
      ensures fs.disk.Healthy() ==> res == Ok
    {
      hide *;
      d := [];
      res := Load(e);
      if res == Ok {
        var x := fn + [0, flags / 8 % 4 * 8] + Blank(19);
        ShortEntry(fn, flags, x);
        d := x;
        WholeBuffer(Table()[e], 0, x);
        Store(0, x, e);
      }
    }

    lemma ShortEntry(fn: seq<byte>, flags: byte, x: seq<byte>)
      requires |fn| == 11 && fn[0] != 0 && fn[0] != DELETED && x == fn + [0, flags / 8 % 4 * 8] + Blank(19)
      ensures |x| == 32 && x[..11] == fn && IsShort(x) && IsNewEntry(x, fn, flags)
    {
    }

    /** The bytes of the entry of a new file: its short name, the two flags for lower case, and zeros. */
    static predicate IsNewEntry(d: seq<byte>, fn: seq<byte>, flags: byte)
    {
      && |d| == 32 && |fn| == 11 && d[..11] == fn && d[11] == 0
      && d[12] as int == (if flags / 8 % 2 == 1 then 8 else 0) + (if flags / 16 % 2 == 1 then 16 else 0)
      && forall i :: 13 <= i < 32 ==> d[i] == 0
    }

    /** Length of the name in the working buffer. */
    method NameLength(ghost name: seq<unit>) returns (nlen: nat)
      requires LongNames.Holds(lfnbuf[..], name)
      ensures nlen == |name|
    {
      assert forall i :: 0 <= i < |name| ==> lfnbuf[i] == lfnbuf[..][..|name|][i] == name[i] && name[i] in name;
      nlen := 0;
      while lfnbuf[nlen] != 0
        invariant nlen <= |name|
        decreases |name| - nlen
      {
        nlen := nlen + 1;
      }
    }

    /** Allocates entries for the name and fills them in. */
    method Enter(long: bool, granted: nat, ghost name: seq<unit>)
      returns (res: FResult, ghost u: seq<seq<byte>>, ghost b: nat, ghost es: seq<seq<byte>>, ghost d: seq<byte>)
      requires Valid() && Closed(Table()) && lfnbuf.Length == MAX_LFN + 1
      requires ProperName(name) && LongNames.Holds(lfnbuf[..], name)
      requires |fn| == 11 && fn[0] != 0 && fn[0] != DELETED
      modifies this`chain, this`dptr, this`clust, this`sect, fs, fs.win, fs.disk
      ensures res == Ok || res == Denied || res == IntErr || res == DiskErr
      ensures res == Ok ==>
        Valid() && IsRegistered(old(Table()), u, b, es, d, long, name, fn, Table()) && IsNewEntry(d, fn, flags)
      ensures res == Ok ==>
        2 <= |fs.Fat()| && Grew(old(Table()), u, fs.Fat(), fs.freeClst, old(fs.CacheOk()), Sane(old(fs.Fat())))
      ensures res == Denied ==> Valid() && Longer(old(Table()), old(fs.CacheOk()), Sane(old(fs.Fat())))
      ensures res == Denied ==> NoBlock(Table(), |Table()|, if long then PartCount(name) + 1 else 1) && CannotGrow()
      ensures res == IntErr ==> !Sane(old(fs.Fat()))
      ensures res == DiskErr ==> !fs.disk.Healthy() && OthersSurvive()
    {
      hide *;
      u, b, es, d := [], 0, [], [];
      var nlen := NameLength(name);
      var nent := if long then (nlen + 12) / 13 + 1 else 1;
      IsCount(name, nlen);
      ghost var t := Table();
      res := Alloc(nent, granted);
      if res != Ok {
        return;
      }
      u := Table();
      HasSector(dptr / 32);
      RunFits(u, dptr / 32 + 1, nent);
      b := dptr / 32 + 1 - nent;
      res, es, d := FillIn(nent, name, u, b);
      if res == Ok {
        MakeRegistered(t, u, b, es, d, long, name, fn);
      } else {
        Surviving();
      }
    }

    /** Fills in `nent` entries from entry `b` on, of which the last is at the cursor: the parts of the long name,
        unless there is but one, and the short name. */
    method FillIn(nent: nat, ghost name: seq<unit>, ghost u: seq<seq<byte>>, ghost b: nat)
      returns (res: FResult, ghost es: seq<seq<byte>>, ghost d: seq<byte>)
      requires Valid() && Table() == u && nent > 0 && Cursor(b + nent - 1) && b + nent <= |u|
      requires ProperName(name) && LongNames.Holds(lfnbuf[..], name) && (nent > 1 ==> nent - 1 == PartCount(name))
      requires |fn| == 11 && fn[0] != 0 && fn[0] != DELETED
      modifies this`chain, this`dptr, this`clust, this`sect, fs, fs.win, fs.disk
      ensures Valid() && (res == Ok || res == DiskErr)
      ensures res == Ok ==> |es| == nent - 1 && |d| == 32 && d[..11] == fn && IsShort(d) && IsNewEntry(d, fn, flags)
      ensures res == Ok ==> if nent > 1 then IsLfnBlock(es, name, Checksum(fn)) else es == []
      ensures res == Ok ==>
        Kept(DirTable.Replaced(u, b, es + [d]), old(fs.Fat()), old(chain), old(fs.freeClst))
      ensures fs.disk.Healthy() ==> res == Ok
    {
      hide *;
      es, d := [], [];
      HasSector(b + nent - 1);
      if nent > 1 {
        res := Seek(dptr - (nent - 1) * 32);
        if res != Ok {
          return;
        }
        var sum := SumSfn(fn);
        res, es := StoreParts(nent - 1, sum, name, u, b);
        if res != Ok {
          return;
        }
      } else {
        ReplacedNone(u, b);
      }
      res, d := StoreShort(b + |es|);
      if res == Ok {
        ReplacedNext(u, b, es, d);
      }
    }

    lemma IsCount(name: seq<unit>, nlen: nat)
      requires nlen == |name| && ProperName(name)
      ensures (nlen + 12) / 13 == PartCount(name) > 0
    {
    }

    lemma RunFits(t: seq<seq<byte>>, e: nat, n: nat)
      requires IsTable(t) && FreeRun(t, e, n)
      ensures n <= e <= |t|
    {
    }

    lemma MakeRegistered(t: seq<seq<byte>>, u: seq<seq<byte>>, b: nat, es: seq<seq<byte>>, d: seq<byte>, long: bool,
                         name: seq<unit>, fn: seq<byte>)
      requires IsTable(t) && IsTable(u) && Extends(t, u) && b + |es| < |u| && FreeRun(u, b + |es| + 1, |es| + 1)
      requires NoBlock(u, b + |es|, |es| + 1)
      requires |fn| == 11 && |d| == 32 && d[..11] == fn && IsShort(d) && ProperName(name)
      requires if long then IsLfnBlock(es, name, Checksum(fn)) else es == []
      ensures IsRegistered(t, u, b, es, d, long, name, fn, DirTable.Replaced(u, b, es + [d]))
    {
    }

    /** dir_register: creates the entries of a new name. */
    method Register(granted: nat, ghost name: seq<unit>)
      returns (res: FResult, ghost u: seq<seq<byte>>, ghost b: nat, ghost es: seq<seq<byte>>, ghost d: seq<byte>)
      requires Valid() && Closed(Table()) && lfnbuf.Length == MAX_LFN + 1
      requires ProperName(name) && LongNames.Holds(lfnbuf[..], name)
      requires |fn| == 11 && fn[0] != 0 && fn[0] != DELETED && flags / 64 % 2 == 0
      requires (flags % 2 == 1 ==> flags / 2 % 2 == 1)
      modifies this`fn, this`flags, this`blkOfs, this`chain, this`dptr, this`clust, this`sect, fs, fs.win, fs.disk
      ensures res == Ok || res == InvalidName || res == Denied || res == IntErr || res == DiskErr
      ensures res == InvalidName <==> old(flags) / 32 % 2 == 1 || old(flags) / 128 == 1
      ensures res == InvalidName ==> Valid() && Kept(old(Table()), old(fs.Fat()), old(chain), old(fs.freeClst))
      ensures res == Ok ==>
        Valid() && flags == old(flags) && IsRegistered(old(Table()), u, b, es, d, flags / 2 % 2 == 1, name, fn, Table())
      ensures res == Ok ==>
        2 <= |fs.Fat()| && Grew(old(Table()), u, fs.Fat(), fs.freeClst, old(fs.CacheOk()), Sane(old(fs.Fat())))
      ensures res == Ok ==> IsNewEntry(d, fn, flags)
      ensures res == Ok && flags % 2 == 0 ==> fn == old(fn)
      ensures res == Ok && flags % 2 == 1 ==>
        |fn| == 11 && fn[8..] == old(fn)[8..] && Find(up, Key(lfnbuf[..], fn, false, true), old(Table())) == Missing
      ensures res == Ok && flags % 2 == 1 ==> IsChosen(old(fn), name, fn, old(Table()))
      ensures res == Denied ==> Valid() && Longer(old(Table()), old(fs.CacheOk()), Sane(old(fs.Fat())))
      ensures res == Denied ==>
        || (old(flags) % 2 == 1 && forall n :: 1 <= n < 100 ==> NumberUsed(old(fn), name, n, Table()))
        || (NoBlock(Table(), |Table()|, if old(flags) / 2 % 2 == 1 then PartCount(name) + 1 else 1) && CannotGrow())
      ensures res == IntErr ==> !Sane(old(fs.Fat()))
      ensures res == DiskErr ==> !fs.disk.Healthy() && OthersSurvive()
    {
      hide *;
      u, b, es, d := [], 0, [], [];
      if flags / 32 % 2 == 1 || flags / 128 == 1 {
        return InvalidName, u, b, es, d;
      }
      SameIsLonger(Table(), fs.CacheOk(), Sane(fs.Fat()));
      Counting();
      var sn, cf := fn, flags;
      if cf % 2 == 1 {
        flags := 0x40;
        res := ChooseNumber(sn, name);
        if res != Ok {
          Surviving();
          return;
        }
        Counting();
        TildeInUse();
        flags := cf;
      }
      res, u, b, es, d := Enter(cf / 2 % 2 == 1, granted, name);
    }

    lemma TildeInUse()
      ensures 126 != DELETED
    {
    }

    // Removing

    /** Marks the entry at the cursor as deleted. */
    method MarkEntry(ghost e: nat) returns (res: FResult)
      requires Valid() && Cursor(e) && e < |Table()|
      modifies fs`wflag, fs`winsect, fs.win, fs.disk
      ensures Valid() && (res == Ok || res == DiskErr)
      ensures res == Ok ==>
        && Cursor(e)
        && Kept(old(Table())[e := Splice(old(Table())[e], 0, [DELETED])], old(fs.Fat()), old(chain), old(fs.freeClst))
      ensures fs.disk.Healthy() ==> res == Ok
    {
      hide *;
      res := Load(e);
      if res == Ok {
        Store(0, [DELETED], e);
      }
    }

    /** dir_remove: marks the entries of the object at the cursor as deleted, from its first part on. */
    method Remove(ghost lo: nat, ghost hi: nat) returns (res: FResult)
      requires Valid() && Cursor(hi) && lo <= hi < |Table()|
      requires (if blkOfs == NO_BLOCK then lo == hi else blkOfs == 32 * lo)
      modifies this`chain, this`dptr, this`clust, this`sect, fs, fs.win, fs.disk
      ensures Valid() && (res == Ok || res == DiskErr)
      ensures res == Ok ==> Kept(Deleted(old(Table()), lo, hi), old(fs.Fat()), old(chain), old(fs.freeClst))
      ensures fs.disk.Healthy() ==> res == Ok
    {
      hide *;
      ghost var t := Table();
      HasSector(hi);
      var last := dptr;
      res := Ok;
      if blkOfs != NO_BLOCK {
        res := Seek(blkOfs);
        if res != Ok {
          return;
        }
      }
      ghost var e := lo;
      MarkedSome(t, lo, hi);
      while true
        invariant Valid() && lo <= e <= hi < |t| && IsTable(t)
        invariant Kept(Marked(t, lo, e), old(fs.Fat()), old(chain), old(fs.freeClst)) && Cursor(e)
        decreases hi - e
      {
        MarkedNext(t, lo, e);
        res := MarkEntry(e);
        if res != Ok {
          return;
        }
        HasSector(e);
        if dptr >= last {
          return;
        }
        res := Next(false, 0, e);
        if res != Ok {
          return;
        }
        e := e + 1;
      }
    }

    lemma MarkedSome(t: seq<seq<byte>>, lo: nat, hi: nat)
      requires IsTable(t) && lo <= hi < |t|
      ensures Marked(t, lo, lo) == t && Marked(t, lo, hi + 1) == Deleted(t, lo, hi)
    {
    }
  }
}
