/** A mounted FAT volume: the window, the allocation table seen through it, and the chains. */
module FatVolumes {
  import opened Bytes
  import opened Device
  import opened FatTable
  import opened FatGeometry
  import opened FatWindow
  import opened Chains
  import opened FreeCounts

  class FatVolume {
    const disk: StorageDevice
    const size: nat
    const g: Geometry
    const win: array<byte>
    /** Were the two tables equal when the volume was mounted? */
    ghost const twins: bool
    var winsect: nat
    var wflag: bool
    var lastClst: nat
    var freeClst: nat
    var fsiDirty: bool

    /** A volume whose window shows no sector yet. */
    constructor (disk: StorageDevice, g: Geometry)
      requires |disk.image| % 512 == 0 && g.TablesFit(|disk.image| / 512)
      ensures this.disk == disk && this.g == g && fresh(win)
      ensures Valid() && !wflag && winsect == MAX32 && lastClst == freeClst == MAX32
      ensures twins == Mirrored(g, size, disk.image, false, 0)
    {
      this.disk, this.g, size := disk, g, |disk.image| / 512;
      twins := Mirrored(g, |disk.image| / 512, disk.image, false, 0);
      win := new byte[512](_ => 0);
      winsect, wflag := MAX32, false;
      lastClst, freeClst, fsiDirty := MAX32, MAX32, false;
    }

    ghost predicate Valid()
      reads this`winsect, this`wflag, disk, win
    {
      && win.Length == 512
      && |disk.image| == 512 * size
      && g.TablesFit(size)
      && (wflag ==> winsect < size && !g.InMirror(512 * winsect))
      && (!wflag && winsect != MAX32 ==>
            winsect < size && win[..] == disk.image[512 * winsect..512 * (winsect + 1)])
      && (disk.Healthy() && twins ==> Mirrored(g, size, disk.image, wflag, winsect))
    }

    /** What the volume holds, as if the window were written back. */
    ghost function Contents(): (v: seq<byte>)
      requires Valid()
      reads this`winsect, this`wflag, disk, win
      ensures |v| == 512 * size
    {
      Overlaid(g, disk.image, wflag, winsect, win[..])
    }

    /** Writes the dirty window to its sector. */
    method WriteBack() returns (ok: bool)
      requires Valid() && wflag
      modifies disk
      ensures Valid() && Contents() == old(Contents())
      ensures ok ==> win[..] == disk.image[512 * winsect..512 * (winsect + 1)]
      ensures disk.Healthy() ==> ok
    {
      hide Overlaid, Mirrored, Splice;
      ghost var w := win[..];
      assert win[0..512] == w;
      ok := disk.Write(win, 0, winsect, 1);
      assert win[..] == w;
      if ok {
        SplicedSlice(old(disk.image), 512 * winsect, w);
      }
      Unseen(g, old(disk.image), disk.image, true, winsect, w);
      if ok && disk.Healthy() && twins {
        MirrorWritten(g, size, old(disk.image), winsect, w, disk.image);
      }
    }

    /** Copies the window, just written to the first table, to the second. The result of the write
        is ignored. */
    method Reflect()
      requires Valid() && wflag && win[..] == disk.image[512 * winsect..512 * (winsect + 1)]
      requires g.nFats == 2 && g.fatbase <= winsect < g.fatbase + g.fsize
      modifies this`wflag, disk
      ensures Valid() && !wflag && Contents() == old(Contents())
    {
      ghost var w := win[..];
      assert win[0..512] == w;
      hide Overlaid, Mirrored;
      var ok := disk.Write(win, 0, winsect + g.fsize, 1);
      assert win[..] == w;
      if ok && disk.Healthy() && twins {
        MirrorReflected(g, size, old(disk.image), winsect, w, disk.image);
      }
      Unseen(g, old(disk.image), disk.image, false, winsect, w);
      wflag := false;
    }

    /** A sector outside the first of two tables needs no copy. */
    method Settle()
      requires Valid() && wflag && win[..] == disk.image[512 * winsect..512 * (winsect + 1)]
      requires g.nFats == 2 ==> winsect < g.fatbase || g.fatbase + g.fsize <= winsect
      modifies this`wflag
      ensures Valid() && !wflag && Contents() == old(Contents())
    {
      if disk.Healthy() && twins {
        MirrorElsewhere(g, size, disk.image, winsect);
      }
      wflag := false;
    }

    method SyncWindow() returns (res: FResult)
      requires Valid()
      modifies this`wflag, disk
      ensures Valid() && Contents() == old(Contents())
      ensures res == Ok || res == DiskErr
      ensures res == Ok ==> !wflag
      ensures disk.Healthy() ==> res == Ok
    {
      res := Ok;
      if wflag {
        var ok := WriteBack();
        if ok {
          if Sub32(winsect, g.fatbase) < g.fsize && g.nFats == 2 {
            Reflect();
          } else {
            Settle();
          }
        } else {
          res := DiskErr;
        }
      }
    }

    /** Shows another sector in the window. What it shows of the second table is what the device has there. */
    method MoveWindow(sector: nat) returns (res: FResult)
      requires Valid() && sector < MAX32
      modifies this`wflag, this`winsect, win, disk
      ensures Valid() && Contents() == old(Contents())
      ensures res == Ok || res == DiskErr
      ensures res == Ok ==> winsect == sector < size
      ensures res == Ok && !g.InMirror(512 * sector) ==> win[..] == Contents()[512 * sector..512 * (sector + 1)]
      ensures res == Ok && g.InMirror(512 * sector) ==>
        !wflag && win[..] == disk.image[512 * sector..512 * (sector + 1)]
      ensures winsect == old(winsect) || winsect == MAX32 || winsect == sector
      ensures disk.Healthy() && sector < size ==> res == Ok
    {
      res := Ok;
      if sector != winsect {
        res := SyncWindow();
        if res == Ok {
          var ok := disk.Read(win, 0, sector, 1);
          if ok {
            winsect := sector;
          } else {
            winsect := MAX32;
            res := DiskErr;
          }
        }
      }
      if res == Ok && !g.InMirror(512 * sector) {
        Shown(g, disk.image, wflag, winsect, win[..]);
      }
    }

    /** Overwrites bytes of the window and marks it dirty. */
    method Edit(k: nat, d: seq<byte>)
      requires Valid() && k + |d| <= 512 && winsect < size && !g.InMirror(512 * winsect)
      modifies this`wflag, win
      ensures Valid() && wflag
      ensures Contents() == Splice(old(Contents()), 512 * winsect + k, d)
      ensures win[..] == Splice(old(win[..]), k, d)
    {
      Edited(g, disk.image, wflag, winsect, win[..], k, d);
      forall i | 0 <= i < |d| {
        win[k + i] := d[i];
      }
      wflag := true;
      assert win[..] == Splice(old(win[..]), k, d);
    }

    /** The allocation table as an array of entries. */
    ghost function Fat(): (f: seq<nat>)
      requires Valid() && g.Valid(size)
      reads this`winsect, this`wflag, disk, win
      ensures |f| == g.nFatent
    {
      EntriesOf(g, Contents())
    }

    /** Everything before the allocation tables. */
    ghost function Boot(): seq<byte>
      requires Valid()
      reads this`winsect, this`wflag, disk, win
    {
      BootOf(g, Contents())
    }

    /** The reserved bits of all entries of a FAT32 table. */
    ghost function ReservedBits(): seq<nat>
      requires Valid() && g.Valid(size) && g.fsType.FAT32?
      reads this`winsect, this`wflag, disk, win
    {
      ReservedOf(g, Contents())
    }

    /** Everything behind the allocation tables. */
    ghost function Area(): seq<byte>
      requires Valid()
      reads this`winsect, this`wflag, disk, win
    {
      AreaOf(g, Contents())
    }

    lemma InTable(q: nat)
      requires Valid() && q < g.fsize
      ensures g.fatbase + q < g.AreaBase() <= size
      ensures g.fatbase + q < size < MAX32 && !g.InMirror(512 * (g.fatbase + q))
    {
    }

    /** `n` bytes of the table from byte `r` of its sector `q` on. */
    method LoadFat(q: nat, r: nat, n: nat) returns (res: FResult, d: seq<byte>)
      requires Valid() && q < g.fsize && r + n <= 512
      modifies this`wflag, this`winsect, win, disk
      ensures Valid() && Contents() == old(Contents())
      ensures res == Ok || res == DiskErr
      ensures res == Ok ==> d == TableOf(g, Contents())[512 * q + r..512 * q + r + n]
      ensures winsect == old(winsect) || winsect == MAX32 || winsect < g.AreaBase()
      ensures disk.Healthy() ==> res == Ok
    {
      TableSlice(g, Contents(), q, r, n);
      d := [];
      res := MoveWindow(g.fatbase + q);
      if res == Ok {
        d := win[..][r..r + n];
      }
    }

    /** Overwrites bytes of the table from byte `r` of its sector `q` on. */
    method StoreFat(q: nat, r: nat, d: seq<byte>) returns (res: FResult)
      requires Valid() && q < g.fsize && r + |d| <= 512
      modifies this`wflag, this`winsect, win, disk
      ensures Valid()
      ensures res == Ok || res == DiskErr
      ensures Contents() == if res == Ok then Splice(old(Contents()), 512 * (g.fatbase + q) + r, d) else old(Contents())
      ensures winsect == old(winsect) || winsect == MAX32 || winsect < g.AreaBase()
      ensures disk.Healthy() ==> res == Ok
    {
      hide *;
      InTable(q);
      res := MoveWindow(g.fatbase + q);
      if res == Ok {
        Edit(r, d);
      }
    }

    lemma EntryHere(clst: nat)
      requires Valid() && g.Valid(size) && clst < g.nFatent
      ensures g.AreaBase() <= size && TableBytes(g.fsType, g.nFatent) <= 512 * g.fsize
      ensures Offset(g.fsType, clst) + Span(g.fsType) <= 512 * g.fsize
      ensures g.fsType.FAT12? ==> Offset(g.fsType, clst) == clst + clst / 2 && clst + clst / 2 + 2 <= 512 * g.fsize
      ensures Span(g.fsType) == if g.fsType.FAT32? then 4 else 2
    {
      EntryInside(g.fsType, g.nFatent, clst);
    }

    method GetFat12(clst: nat) returns (val: nat)
      requires Valid() && g.Valid(size) && g.fsType.FAT12? && 2 <= clst < g.nFatent
      modifies this`wflag, this`winsect, win, disk
      ensures Valid() && Contents() == old(Contents())
      ensures val == EntriesOf(g, Contents())[clst] || val == MAX32
      ensures winsect == old(winsect) || winsect == MAX32 || winsect < g.AreaBase()
      ensures disk.Healthy() ==> val != MAX32
    {
      hide *;
      EntryHere(clst);
      EntryBytes(g, Contents(), clst);
      val := MAX32;
      var bc := clst + clst / 2;
      TwoBytes(g, Contents(), bc);
      var res, lo := LoadFat(bc / 512, bc % 512, 1);
      if res == Ok {
        var res, hi := LoadFat((bc + 1) / 512, (bc + 1) % 512, 1);
        if res == Ok {
          val := Decode(FAT12, clst, lo + hi);
        }
      }
    }

    method GetFat16(clst: nat) returns (val: nat)
      requires Valid() && g.Valid(size) && g.fsType.FAT16? && 2 <= clst < g.nFatent
      modifies this`wflag, this`winsect, win, disk
      ensures Valid() && Contents() == old(Contents())
      ensures val == EntriesOf(g, Contents())[clst] || val == MAX32
      ensures winsect == old(winsect) || winsect == MAX32 || winsect < g.AreaBase()
      ensures disk.Healthy() ==> val != MAX32
    {
      hide *;
      EntryHere(clst);
      EntryBytes(g, Contents(), clst);
      WordSector(g, clst);
      val := MAX32;
      var res, d := LoadFat(clst / 256, clst * 2 % 512, 2);
      if res == Ok {
        val := Decode(FAT16, clst, d);
      }
    }

    method GetFat32(clst: nat) returns (val: nat)
      requires Valid() && g.Valid(size) && g.fsType.FAT32? && 2 <= clst < g.nFatent
      modifies this`wflag, this`winsect, win, disk
      ensures Valid() && Contents() == old(Contents())
      ensures val == EntriesOf(g, Contents())[clst] || val == MAX32
      ensures winsect == old(winsect) || winsect == MAX32 || winsect < g.AreaBase()
      ensures disk.Healthy() ==> val != MAX32
    {
      hide *;
      EntryHere(clst);
      EntryBytes(g, Contents(), clst);
      DwordSector(g, clst);
      val := MAX32;
      var res, d := LoadFat(clst / 128, clst * 4 % 512, 4);
      if res == Ok {
        val := Decode(FAT32, clst, d);
      }
    }

    /** The entry of a cluster; 1 for a number that is none, 0xFFFFFFFF on a device error. */
    method GetFat(clst: nat) returns (val: nat)
      requires Valid() && g.Valid(size)
      modifies this`wflag, this`winsect, win, disk
      ensures Valid() && Contents() == old(Contents()) && Fat() == old(Fat()) && OutsideKept()
      ensures !(2 <= clst < g.nFatent) ==> val == 1
      ensures 2 <= clst < g.nFatent ==> val == Fat()[clst] || val == MAX32
      ensures disk.Healthy() ==> val != MAX32
    {
      hide Valid, Contents, EntriesOf, AreaOf, BootOf, ReservedOf;
      if clst < 2 || clst >= g.nFatent {
        val := 1;
      } else {
        match g.fsType
        case FAT12 => val := GetFat12(clst);
        case FAT16 => val := GetFat16(clst);
        case FAT32 => val := GetFat32(clst);
      }
    }

    /** Merges one byte of a FAT12 entry into byte `o` of the table. */
    method PutFatByte(clst: nat, val: nat, o: nat, second: bool) returns (res: FResult)
      requires Valid() && o < 512 * g.fsize
      modifies this`wflag, this`winsect, win, disk
      ensures Valid()
      ensures res == Ok || res == DiskErr
      ensures Contents() == if res == Ok then WithByte(g, old(Contents()), clst, val, o, second) else old(Contents())
      ensures winsect == old(winsect) || winsect == MAX32 || winsect < g.AreaBase()
      ensures disk.Healthy() ==> res == Ok
    {
      hide *;
      var q, r := o / 512, o % 512;
      ghost var v := Contents();
      InTable(q);
      TableAt(g, v, o);
      WithByteAt(g, v, clst, val, o, second);
      res := MoveWindow(g.fatbase + q);
      if res == Ok {
        Edit(r, [MergedByte(clst, val, second, win[..][r])]);
      }
    }

    /** The two bytes may lie in two sectors, so the second may fail after the first was stored. */
    method PutFat12(clst: nat, val: nat) returns (res: FResult, ghost stored: nat)
      requires Valid() && g.Valid(size) && g.fsType.FAT12? && 2 <= clst < g.nFatent
      modifies this`wflag, this`winsect, win, disk
      ensures Valid()
      ensures res == Ok || res == DiskErr
      ensures Offset(g.fsType, clst) + Span(g.fsType) <= 512 * g.fsize
      ensures Contents() == old(Contents()) || Contents() == WithEntry(g, old(Contents()), clst, stored)
      ensures res == Ok ==> Contents() == WithEntry(g, old(Contents()), clst, val)
      ensures winsect == old(winsect) || winsect == MAX32 || winsect < g.AreaBase()
      ensures disk.Healthy() ==> res == Ok
    {
      hide *;
      EntryHere(clst);
      stored := ByteByByte(g, Contents(), clst, val);
      var bc := clst + clst / 2;
      res := PutFatByte(clst, val, bc, false);
      if res == Ok {
        res := PutFatByte(clst, val, bc + 1, true);
        if res == Ok {
          stored := val;
        }
      }
    }

    method PutFat16(clst: nat, val: nat) returns (res: FResult)
      requires Valid() && g.Valid(size) && g.fsType.FAT16? && 2 <= clst < g.nFatent
      modifies this`wflag, this`winsect, win, disk
      ensures Valid()
      ensures res == Ok || res == DiskErr
      ensures Offset(g.fsType, clst) + Span(g.fsType) <= 512 * g.fsize
      ensures Contents() == if res == Ok then WithEntry(g, old(Contents()), clst, val) else old(Contents())
      ensures winsect == old(winsect) || winsect == MAX32 || winsect < g.AreaBase()
      ensures disk.Healthy() ==> res == Ok
    {
      hide *;
      EntryHere(clst);
      WithWord(g, Contents(), clst, val);
      res := StoreFat(clst / 256, clst * 2 % 512, WordBytes(val));
    }

    method PutFat32(clst: nat, val: nat) returns (res: FResult)
      requires Valid() && g.Valid(size) && g.fsType.FAT32? && 2 <= clst < g.nFatent
      modifies this`wflag, this`winsect, win, disk
      ensures Valid()
      ensures res == Ok || res == DiskErr
      ensures Offset(g.fsType, clst) + Span(g.fsType) <= 512 * g.fsize
      ensures Contents() == if res == Ok then WithEntry(g, old(Contents()), clst, val) else old(Contents())
      ensures winsect == old(winsect) || winsect == MAX32 || winsect < g.AreaBase()
      ensures disk.Healthy() ==> res == Ok
    {
      hide *;
      EntryHere(clst);
      WithDword(g, Contents(), clst, val);
      var q, r := clst / 128, clst * 4 % 512;
      InTable(q);
      TableSlice(g, Contents(), q, r, 4);
      res := MoveWindow(g.fatbase + q);
      if res == Ok {
        Edit(r, DwordBytes(val % 0x1000_0000 + LdDword(win[..][r..r + 4], 0) / 0x1000_0000 * 0x1000_0000));
      }
    }

    /** Stores `val`, truncated to the width of an entry, in the entry of a cluster. Nothing else
        changes, unless the device fails: then that one entry may hold anything. */
    method PutFat(clst: nat, val: nat) returns (res: FResult)
      requires Valid() && g.Valid(size)
      modifies this`wflag, this`winsect, win, disk
      ensures Valid()
      ensures res == IntErr <==> !(2 <= clst < g.nFatent)
      ensures res == IntErr ==> Contents() == old(Contents()) && Fat() == old(Fat())
      ensures res != IntErr ==> res == Ok || res == DiskErr
      ensures res != IntErr ==> Fat() == old(Fat())[clst := Fat()[clst]]
      ensures res == Ok ==> Fat()[clst] == val % Modulus(g.fsType)
      ensures winsect == old(winsect) || winsect == MAX32 || winsect < g.AreaBase()
      ensures Boot() == old(Boot()) && Area() == old(Area())
      ensures g.fsType.FAT32? ==> ReservedBits() == old(ReservedBits())
      ensures disk.Healthy() && 2 <= clst < g.nFatent ==> res == Ok
    {
      hide EntriesOf, AreaOf, BootOf, ReservedOf, WithEntry, Overlaid, Mirrored, Offset, Span, TableBytes;
      res := IntErr;
      if 2 <= clst < g.nFatent {
        EntryHere(clst);
        ghost var v, stored := Contents(), val;
        match g.fsType {
          case FAT12 => res, stored := PutFat12(clst, val);
          case FAT16 => res := PutFat16(clst, val);
          case FAT32 => res := PutFat32(clst, val);
        }
        EntryWritten(g, v, clst, if res == Ok then val else stored);
      }
    }

    /** The value that ends a chain, truncated to the width of an entry. */
    function Eoc(): nat
    {
      MAX32 % Modulus(g.fsType)
    }

    /** It has all bits of the entry set, and is no cluster. */
    lemma EndMark()
      requires g.Valid(size)
      ensures Eoc() == match g.fsType case FAT12 => 0xFFF case FAT16 => 0xFFFF case FAT32 => 0xFFF_FFFF
      ensures Eoc() >= g.nFatent
    {
    }

    /** How many clusters can be had. */
    ghost function Room(): (n: nat)
      requires Valid() && g.Valid(size)
      reads this`freeClst, this`winsect, this`wflag, disk, win
    {
      RoomIn(Fat(), freeClst)
    }

    /** There is no cluster to be had. */
    ghost predicate Full()
      requires Valid() && g.Valid(size)
      reads this`freeClst, this`winsect, this`wflag, disk, win
    {
      NoneLeft(Fat(), freeClst)
    }

    lemma FullIsNoRoom()
      requires Valid() && g.Valid(size)
      ensures Full() <==> Room() == 0
    {
      RoomNone(Fat(), freeClst);
    }

    /** A cached count in the range of counts is the number of free clusters. */
    ghost predicate CacheOk()
      requires Valid() && g.Valid(size)
      reads this, disk, win
    {
      freeClst <= g.nFatent - 2 ==> freeClst == FreeCount(Fat())
    }

    lemma Limits()
      requires g.Valid(size)
      ensures 3 <= g.nFatent <= Eoc() < MAX32
    {
    }

    /** Finds a free cluster, searching from behind `scl` and around the end of the table. When there
        is none, `r` is the value the allocation fails with. */
    method FindFree(scl: nat) returns (found: bool, r: nat)
      requires Valid() && g.Valid(size) && 1 <= scl < g.nFatent
      modifies this`wflag, this`winsect, win, disk
      ensures Valid() && Contents() == old(Contents()) && Fat() == old(Fat()) && OutsideKept()
      ensures found ==> 2 <= r < g.nFatent && Fat()[r] == 0 && NoneBetween(Fat(), scl, r)
      ensures !found ==> r == 0 || r == 1 || r == MAX32
      ensures !found && r == 0 ==> forall c :: 2 <= c < g.nFatent ==> Fat()[c] != 0
      ensures !found && r == 1 ==> exists c :: 2 <= c < g.nFatent && Fat()[c] == 1 && NoneBetween(Fat(), scl, c)
      ensures !found && r == 1 ==> !Sane(Fat())
      ensures disk.Healthy() ==> r != MAX32
    {
      hide Valid, Contents, Fat, Boot, Area, ReservedBits, EntriesOf, AreaOf, BootOf, ReservedOf;
      Limits();
      ghost var f := Fat();
      var ncl := scl;
      ghost var wrapped := false;
      while true
        invariant Valid() && Contents() == old(Contents()) && f == Fat() && OutsideKept()
        invariant !wrapped ==> scl <= ncl < g.nFatent && forall c :: scl < c <= ncl ==> f[c] != 0
        invariant wrapped ==> 2 <= ncl < scl && forall c :: scl < c < g.nFatent || 2 <= c <= ncl ==> f[c] != 0
        decreases !wrapped, g.nFatent - ncl
      {
        ncl := ncl + 1;
        if ncl >= g.nFatent {
          ncl := 2;
          if ncl > scl {
            return false, 0;
          }
          wrapped := true;
        }
        var cs := GetFat(ncl);
        if cs == 0 {
          return true, ncl;
        }
        if cs == 1 || cs == MAX32 {
          return false, cs;
        }
        if ncl == scl {
          return false, 0;
        }
      }
    }

    /** Nothing outside the table has changed, and the window shows no other sector behind it. */
    twostate predicate OutsideKept()
      requires old(Valid()) && Valid() && g.Valid(size)
      reads this`winsect, this`wflag, disk, win
    {
      && Boot() == old(Boot()) && Area() == old(Area())
      && (g.fsType.FAT32? ==> ReservedBits() == old(ReservedBits()))
      && (winsect == old(winsect) || winsect == MAX32 || winsect < g.AreaBase())
    }

    /** Marks a free cluster as the end of a chain and links it from `clst`, if given. */
    method Take(clst: nat, ncl: nat) returns (r: nat)
      requires Valid() && g.Valid(size)
      requires 2 <= ncl < g.nFatent && Fat()[ncl] == 0 && freeClst != 0
      requires clst == 0 || (2 <= clst < g.nFatent && Fat()[clst] != 0)
      modifies this, win, disk
      ensures Valid() && OutsideKept()
      ensures r == ncl || r == MAX32
      ensures r == ncl ==> Fat() == Taken(old(Fat()), clst, ncl, Eoc()) && lastClst == ncl && fsiDirty
      ensures r == ncl ==> freeClst == if old(freeClst) <= g.nFatent - 2 then old(freeClst) - 1 else old(freeClst)
      ensures OnlyFree(old(Fat()), clst, Fat())
      ensures r == ncl ==> old(Room()) == Room() + 1
      ensures r == ncl && old(CacheOk()) ==> CacheOk()
      ensures disk.Healthy() ==> r == ncl
    {
      hide Valid, Contents, Fat, Boot, Area, ReservedBits, EntriesOf, AreaOf, BootOf, ReservedOf, FreeCount,
        RoomIn;
      Limits();
      ghost var f := Fat();
      var res := PutFat(ncl, MAX32);
      if res == Ok && clst != 0 {
        res := PutFat(clst, ncl);
      }
      if res == Ok {
        ghost var f' := Fat();
        assert f' == Taken(f, clst, ncl, Eoc());
        TakenCount(f, clst, ncl, Eoc());
        RoomTaken(f, freeClst, clst, ncl, Eoc());
        lastClst := ncl;
        if freeClst <= g.nFatent - 2 {
          freeClst := freeClst - 1;
        }
        fsiDirty := true;
        r := ncl;
      } else {
        r := 1;
        if res == DiskErr {
          r := MAX32;
        }
      }
    }

    /** Follows a chain from `clst`, stretching it when it ends there, or starts a new chain when `clst`
        is 0. The result is the next cluster, 0 when the volume is full, 1 when the table is insane,
        0xFFFFFFFF on a device error. */
    method CreateChain(clst: nat) returns (r: nat)
      requires Valid() && g.Valid(size)
      modifies this, win, disk
      ensures Valid() && OutsideKept()
      ensures r == 0 || r == 1 ==> Fat() == old(Fat()) && freeClst == old(freeClst) && Room() == old(Room())
      ensures r == 0 || r == 1 ==> lastClst == old(lastClst) && fsiDirty == old(fsiDirty)
      ensures r == 0 ==> Full() && (clst == 0 || (2 <= clst < g.nFatent && Fat()[clst] >= g.nFatent))
      ensures r == 1 ==> !Sane(Fat()) || (clst != 0 && (!(2 <= clst < g.nFatent) || Fat()[clst] == 0))
      ensures 1 < r != MAX32 ==> 2 <= r < g.nFatent && (clst == 0 || 2 <= clst < g.nFatent)
      ensures 1 < r != MAX32 && clst != 0 && old(Fat())[clst] < g.nFatent ==>
        && r == old(Fat())[clst] && Fat() == old(Fat()) && Room() == old(Room())
        && freeClst == old(freeClst) && lastClst == old(lastClst) && fsiDirty == old(fsiDirty)
      ensures 1 < r != MAX32 && (clst == 0 || old(Fat())[clst] >= g.nFatent) ==>
        && NextFit(old(Fat()), clst, old(lastClst), r) && Fat() == Taken(old(Fat()), clst, r, Eoc())
        && old(Room()) == Room() + 1 && lastClst == r && fsiDirty
        && freeClst == if old(freeClst) <= g.nFatent - 2 then old(freeClst) - 1 else old(freeClst)
      ensures OnlyFree(old(Fat()), clst, Fat())
      ensures r != MAX32 && old(CacheOk()) ==> CacheOk()
      ensures disk.Healthy() ==> r != MAX32
    {
      hide Valid, Contents, Fat, Boot, Area, ReservedBits, EntriesOf, AreaOf, BootOf, ReservedOf, FreeCount,
        RoomIn;
      Limits();
      var scl, cs, ncl;
      if clst == 0 {
        scl := lastClst;
        if scl == 0 || scl >= g.nFatent {
          scl := 1;
        }
      } else {
        cs := GetFat(clst);
        if cs < 2 {
          return 1;
        }
        if cs == MAX32 || cs < g.nFatent {
          return cs;
        }
        scl := clst;
      }
      if freeClst == 0 {
        return 0;
      }
      ncl := 0;
      if scl == clst {
        ncl := scl + 1;
        if ncl >= g.nFatent {
          ncl := 2;
        }
        cs := GetFat(ncl);
        if cs == 1 || cs == MAX32 {
          return cs;
        }
        if cs != 0 {
          cs := lastClst;
          if 2 <= cs < g.nFatent {
            scl := cs;
          }
          ncl := 0;
        }
      }
      if ncl == 0 {
        var found;
        found, ncl := FindFree(scl);
        if !found {
          return ncl;
        }
      }
      r := Take(clst, ncl);
    }

    /** The cached count is one of clusters in use. */
    predicate Counting()
      reads this`freeClst
    {
      freeClst < g.nFatent - 2
    }

    /** A cached count after one more cluster was freed. */
    function OneMoreFree(free: nat): nat
    {
      if free < g.nFatent - 2 then free + 1 else free
    }

    /** Frees one cluster in use. */
    method Release(clst: nat) returns (res: FResult)
      requires Valid() && g.Valid(size) && 2 <= clst < g.nFatent && Fat()[clst] != 0
      modifies this, win, disk
      ensures Valid() && OutsideKept()
      ensures res == Ok || res == DiskErr
      ensures res == Ok ==> Fat() == old(Fat())[clst := 0] && FreeCount(Fat()) == FreeCount(old(Fat())) + 1
      ensures lastClst == old(lastClst)
      ensures res == Ok ==> freeClst == OneMoreFree(old(freeClst)) && (fsiDirty <==> old(fsiDirty || Counting()))
      ensures res == Ok && old(CacheOk()) ==> CacheOk()
      ensures disk.Healthy() ==> res == Ok
    {
      hide Valid, Contents, Fat, Boot, Area, ReservedBits, EntriesOf, AreaOf, BootOf, ReservedOf;
      ghost var f := Fat();
      res := PutFat(clst, 0);
      if res == Ok {
        ZerosUpdate(f, clst, 0, 2, |f|);
        AllZeros(f, 2, |f|, clst);
        if freeClst < g.nFatent - 2 {
          freeClst := freeClst + 1;
          fsiDirty := true;
        }
      }
    }

    /** Frees the clusters from `clst` on, following the links. When its predecessor is given, the
        chain ends there. This terminates on every table. */
    method RemoveChain(clst: nat, pclst: nat) returns (res: FResult)
      requires Valid() && g.Valid(size)
      modifies this, win, disk
      ensures Valid() && OutsideKept()
      ensures !(2 <= clst < g.nFatent) ==> res == IntErr && Fat() == old(Fat())
      ensures pclst != 0 && !(2 <= pclst < g.nFatent) ==> res == IntErr && Fat() == old(Fat())
      ensures 2 <= clst < g.nFatent && (pclst == 0 || 2 <= pclst < g.nFatent) && res != DiskErr ==>
        && Fat() == Unlinked(Ended(old(Fat()), pclst, Eoc()), clst)
        && (res == if MeetsOne(Ended(old(Fat()), pclst, Eoc()), clst) then IntErr else Ok)
      ensures lastClst == old(lastClst)
      ensures 2 <= clst < g.nFatent && (pclst == 0 || 2 <= pclst < g.nFatent) && res != DiskErr ==>
        var n := FreeCount(Fat()) - FreeCount(Ended(old(Fat()), pclst, Eoc()));
        && n >= 0 && freeClst == MoreFree(old(freeClst), n, g.nFatent - 2)
        && (fsiDirty <==> old(fsiDirty) || (n > 0 && old(Counting())))
      ensures res != DiskErr && (pclst == 0 || (2 <= pclst < g.nFatent && old(Fat())[pclst] != 0)) && old(CacheOk()) ==>
        CacheOk()
      ensures disk.Healthy() ==> res != DiskErr
    {
      hide Valid, Contents, Fat, Boot, Area, ReservedBits, EntriesOf, AreaOf, BootOf, ReservedOf, Zeros;
      Limits();
      if clst < 2 || clst >= g.nFatent {
        return IntErr;
      }
      if pclst != 0 {
        res := PutFat(pclst, MAX32);
        if res != Ok {
          return;
        }
        ZerosUpdate(old(Fat()), pclst, Eoc(), 2, g.nFatent);
      }
      ghost var base := Fat();
      assert base == Ended(old(Fat()), pclst, Eoc());
      res := Ok;
      var c := clst;
      while true
        invariant Valid() && OutsideKept() && 2 <= c < g.nFatent
        invariant Unlinked(Fat(), c) == Unlinked(base, clst)
        invariant MeetsOne(Fat(), c) == MeetsOne(base, clst)
        invariant lastClst == old(lastClst) && FreeCount(Fat()) >= FreeCount(base)
        invariant freeClst == MoreFree(old(freeClst), FreeCount(Fat()) - FreeCount(base), g.nFatent - 2)
        invariant fsiDirty <==> old(fsiDirty) || (FreeCount(Fat()) > FreeCount(base) && old(Counting()))
        invariant (pclst == 0 || old(Fat())[pclst] != 0) && old(CacheOk()) ==> CacheOk()
        decreases g.nFatent - Zeros(Fat(), 0, g.nFatent)
      {
        ghost var f := Fat();
        var nxt := GetFat(c);
        if nxt == 0 {
          break;
        }
        if nxt == 1 {
          return IntErr;
        }
        if nxt == MAX32 {
          return DiskErr;
        }
        ZerosUpdate(f, c, 0, 0, g.nFatent);
        res := Release(c);
        if res != Ok {
          return;
        }
        c := nxt;
        if c >= g.nFatent {
          break;
        }
      }
      return Ok;
    }

    /** Counts free entries of a FAT12 table one by one, from cluster 2 on. An entry 1 stops it. */
    method ScanEntries() returns (res: FResult, nfree: nat, ghost scanned: nat)
      requires Valid() && g.Valid(size)
      modifies this`wflag, this`winsect, win, disk
      ensures Valid() && Contents() == old(Contents()) && Fat() == old(Fat()) && OutsideKept()
      ensures 2 <= scanned <= g.nFatent && nfree == Zeros(Fat(), 2, scanned)
      ensures res == Ok <==> scanned == g.nFatent
      ensures (forall c :: 2 <= c < scanned ==> Fat()[c] != 1) && (res == IntErr ==> Fat()[scanned] == 1)
      ensures disk.Healthy() ==> (res == Ok <==> Sane(Fat())) && res != DiskErr
      ensures res == Ok || res == IntErr || res == DiskErr
    {
      hide Valid, Contents, Fat, Boot, Area, ReservedBits, EntriesOf, AreaOf, BootOf, ReservedOf;
      Limits();
      ghost var f := Fat();
      res, nfree := Ok, 0;
      var clst := 2;
      while clst < g.nFatent
        invariant Valid() && Contents() == old(Contents()) && Fat() == f && OutsideKept()
        invariant 2 <= clst <= g.nFatent && nfree == Zeros(f, 2, clst)
        invariant forall c :: 2 <= c < clst ==> f[c] != 1
      {
        var stat := GetFat(clst);
        if stat == MAX32 {
          return DiskErr, nfree, clst;
        }
        if stat == 1 {
          return IntErr, nfree, clst;
        }
        if stat == 0 {
          nfree := nfree + 1;
        }
        clst := clst + 1;
      }
      scanned := clst;
    }

    /** Counts free entries of a FAT16 or FAT32 table sector by sector. The two reserved entries are
        counted like all others. */
    method ScanSectors() returns (res: FResult, nfree: nat, ghost scanned: nat)
      requires Valid() && g.Valid(size) && !g.fsType.FAT12?
      modifies this`wflag, this`winsect, win, disk
      ensures Valid() && Contents() == old(Contents()) && Fat() == old(Fat()) && OutsideKept()
      ensures scanned <= g.nFatent && nfree == Zeros(Fat(), 0, scanned)
      ensures res == Ok <==> scanned == g.nFatent
      ensures res == Ok || res == DiskErr
      ensures disk.Healthy() ==> res == Ok
    {
      hide Valid, Contents, EntriesOf, AreaOf, BootOf, ReservedOf, EntryAt, Offset, Span, TableBytes, Geometry.Valid;
      Limits();
      EntryHere(0);
      FirstEntry(g.fsType);
      ghost var v := Contents();
      ghost var f := Fat();
      var span := Span(g.fsType);
      var clst: nat, sect: nat, i: nat := g.nFatent, g.fatbase, 0;
      ghost var q: nat := 0;
      res, nfree, scanned := Ok, 0, 0;
      while clst > 0
        invariant Valid() && Contents() == v && res == Ok
        invariant winsect == old(winsect) || winsect == MAX32 || winsect < g.AreaBase()
        invariant clst + scanned == g.nFatent && nfree == Zeros(f, 0, scanned)
        invariant Offset(g.fsType, scanned) == 512 * q + i && i < 512
        invariant sect == g.fatbase + q + if i == 0 then 0 else 1
        invariant i != 0 ==> g.fatbase + q < size && win[..] == v[512 * (g.fatbase + q)..512 * (g.fatbase + q + 1)]
      {
        EntryInSector(g, v, scanned, q, i);
        NextEntry(g.fsType, scanned, q, i);
        if i == 0 {
          InTable(q);
          res := MoveWindow(sect);
          sect := sect + 1;
          if res != Ok {
            return;
          }
        }
        if EntryAt(g.fsType, win[..], i) == 0 {
          nfree := nfree + 1;
        }
        i := (i + span) % 512;
        if i == 0 {
          q := q + 1;
        }
        scanned := scanned + 1;
        clst := clst - 1;
      }
    }

    /** The number of free clusters: the cached one, if it is in range, or else a count that is then
        cached, also when the scan stopped early. */
    method GetFree() returns (res: FResult, nclst: nat, ghost scanned: nat)
      requires Valid() && g.Valid(size)
      modifies this, win, disk
      ensures Valid() && Contents() == old(Contents()) && Fat() == old(Fat()) && OutsideKept()
      ensures freeClst == nclst && (res == Ok || res == IntErr || res == DiskErr) && (disk.Healthy() ==> res != DiskErr)
      ensures old(freeClst) <= g.nFatent - 2 ==> res == Ok && nclst == old(freeClst)
      ensures old(freeClst) > g.nFatent - 2 ==>
        && (if g.fsType.FAT12? then 2 else 0) <= scanned <= g.nFatent
        && nclst == Zeros(Fat(), if g.fsType.FAT12? then 2 else 0, scanned)
        && (res == Ok <==> scanned == g.nFatent)
        && (disk.Healthy() ==> (res == Ok <==> !g.fsType.FAT12? || Sane(Fat())))
        && (g.fsType.FAT12? ==> forall c :: 2 <= c < scanned ==> Fat()[c] != 1)
        && (res == IntErr ==> g.fsType.FAT12? && scanned < g.nFatent && Fat()[scanned] == 1)
      ensures disk.Healthy() && old(freeClst) > g.nFatent - 2 ==>
        (freeClst == FreeCount(Fat()) <==> Countable(Fat(), g.fsType.FAT12?))
      ensures lastClst == old(lastClst)
    {
      hide Valid, Contents, Fat, Boot, Area, ReservedBits, EntriesOf, AreaOf, BootOf, ReservedOf, Zeros, FreeCount,
        Countable;
      Limits();
      res, scanned := Ok, g.nFatent;
      if freeClst <= g.nFatent - 2 {
        nclst := freeClst;
      } else {
        if g.fsType.FAT12? {
          res, nclst, scanned := ScanEntries();
          if disk.Healthy() {
            StoppedCount(Fat(), scanned);
          }
        } else {
          res, nclst, scanned := ScanSectors();
          WholeCount(Fat());
        }
        freeClst := nclst;
        fsiDirty := true;
      }
    }

    /** Are these sectors behind the tables, and not the one in the window? */
    predicate DataSectors(sector: nat, count: nat)
      reads this`winsect
    {
      g.AreaBase() <= sector && sector + count <= size && !(sector <= winsect < sector + count)
    }

    /** Reads sectors behind the tables, past the window. */
    method ReadData(buff: array<byte>, at: nat, sector: nat, count: nat) returns (ok: bool)
      requires Valid() && g.Valid(size) && DataSectors(sector, count) && buff != win && at + 512 * count <= buff.Length
      modifies disk`ops, buff
      ensures Valid() && Contents() == old(Contents()) && Fat() == old(Fat()) && Area() == old(Area())
      ensures 512 * (sector - g.AreaBase() + count) <= |Area()|
      ensures ok ==>
        buff[..] ==
          Splice(old(buff[..]), at, Area()[512 * (sector - g.AreaBase())..512 * (sector - g.AreaBase() + count)])
      ensures forall i :: 0 <= i < buff.Length && !(at <= i < at + 512 * count) ==> buff[i] == old(buff[i])
      ensures disk.Healthy() ==> ok
    {
      hide Overlaid, AreaOf, Mirrored, Splice;
      ghost var w := win[..];
      DataSeen(g, disk.image, wflag, winsect, w, sector, count);
      ok := disk.Read(buff, at, sector, count);
      assert win[..] == w;
    }

    /** Writes sectors behind the tables, past the window. */
    method WriteData(buff: array<byte>, at: nat, sector: nat, count: nat) returns (ok: bool)
      requires Valid() && g.Valid(size) && DataSectors(sector, count) && buff != win && at + 512 * count <= buff.Length
      modifies disk
      ensures Valid() && Fat() == old(Fat()) && Boot() == old(Boot())
      ensures g.fsType.FAT32? ==> ReservedBits() == old(ReservedBits())
      ensures |Area()| == old(|Area()|) && 512 * (sector - g.AreaBase() + count) <= |Area()|
      ensures ok ==> Area() == Splice(old(Area()), 512 * (sector - g.AreaBase()), buff[at..at + 512 * count])
      ensures disk.Healthy() ==> ok
    {
      hide Overlaid, Mirrored, TableOf, AreaOf, BootOf, Entries, Reserved, OnlyThere, Splice;
      ghost var w, v, image := win[..], Contents(), disk.image;
      ok := disk.Write(buff, at, sector, count);
      assert win[..] == w;
      ThereOnly(image, disk.image, sector, count);
      DataSpoilt(g, size, image, disk.image, wflag, winsect, w, sector, count);
      if ok {
        DataWritten(g, image, disk.image, wflag, winsect, w, sector, buff[at..at + 512 * count]);
        AreaWritten(g, v, sector, buff[at..at + 512 * count]);
      }
    }

    /** Overwrites bytes of the window while it shows a sector behind the tables. */
    method Patch(k: nat, d: seq<byte>)
      requires Valid() && g.Valid(size) && k + |d| <= 512 && g.AreaBase() <= winsect < size
      modifies this`wflag, win
      ensures Valid() && Fat() == old(Fat()) && Boot() == old(Boot())
      ensures g.fsType.FAT32? ==> ReservedBits() == old(ReservedBits())
      ensures 512 * (winsect - g.AreaBase() + 1) <= |old(Area())|
      ensures Area() == Splice(old(Area()), 512 * (winsect - g.AreaBase()) + k, d)
      ensures win[..] == Splice(old(win[..]), k, d)
    {
      hide Overlaid, Mirrored, AreaOf, TableOf, BootOf, Splice;
      AreaEdited(g, Contents(), winsect, k, d);
      Edit(k, d);
    }

    /** The volume is valid while the window holds `w`. */
    ghost predicate ValidWith(w: seq<byte>)
      reads this`winsect, this`wflag, disk
    {
      && win.Length == 512 && |w| == 512
      && |disk.image| == 512 * size
      && g.TablesFit(size)
      && g.AreaBase() <= winsect < size
      && (!wflag ==> w == disk.image[512 * winsect..512 * (winsect + 1)])
      && (disk.Healthy() && twins ==> Mirrored(g, size, disk.image, wflag, winsect))
    }

    lemma Before()
      requires Valid() && g.AreaBase() <= winsect < size
      ensures ValidWith(win[..]) && Contents() == Overlaid(g, disk.image, wflag, winsect, win[..])
    {
    }

    /** Marks the window dirty after bytes of it, which shows a sector behind the tables, were overwritten. */
    method Touch(ghost w: seq<byte>, ghost k: nat, ghost d: seq<byte>)
      requires ValidWith(w) && g.Valid(size) && k + |d| <= 512 && win[..] == Splice(w, k, d)
      modifies this`wflag
      ensures Valid() && wflag
      ensures |old(Overlaid(g, disk.image, wflag, winsect, w))| == 512 * size
      ensures Fat() == EntriesOf(g, old(Overlaid(g, disk.image, wflag, winsect, w)))
      ensures Boot() == BootOf(g, old(Overlaid(g, disk.image, wflag, winsect, w)))
      ensures g.fsType.FAT32? ==> ReservedBits() == ReservedOf(g, old(Overlaid(g, disk.image, wflag, winsect, w)))
      ensures 512 * (winsect - g.AreaBase() + 1) <= |AreaOf(g, old(Overlaid(g, disk.image, wflag, winsect, w)))|
      ensures var area := AreaOf(g, old(Overlaid(g, disk.image, wflag, winsect, w)));
        Area() == Splice(area, 512 * (winsect - g.AreaBase()) + k, d)
    {
      hide Splice, AreaOf, BootOf, TableOf, Entries, Reserved;
      Edited(g, disk.image, wflag, winsect, w, k, d);
      AreaEdited(g, Overlaid(g, disk.image, wflag, winsect, w), winsect, k, d);
      wflag := true;
    }

    /** How many sectors one write clears: up to 64, fewer when only `granted` bytes can be allocated. */
    method ChunkSize(granted: nat) returns (szb: nat, ghost times: nat)
      requires ClusterSize(g.csize)
      ensures 0 < szb && szb % 512 == 0 && g.csize == szb / 512 * times
    {
      szb := if g.csize * 512 >= 0x8000 then 0x8000 else g.csize * 512;
      times := if g.csize == 128 then 2 else 1;
      while szb > 512 && szb > granted
        invariant szb / 512 in {1, 2, 4, 8, 16, 32, 64} && szb % 512 == 0 && g.csize == szb / 512 * times
        decreases szb
      {
        szb, times := szb / 2, times * 2;
      }
    }

    /** Writes blank sectors over a cluster, `c` at a time. */
    method BlankSectors(ibuf: array<byte>, sector: nat, c: nat, ghost times: nat) returns (ok: bool)
      requires c > 0 && g.csize == c * times && ibuf.Length == 512 * c && ibuf[..] == Blank(512 * c)
      requires 512 * (sector + g.csize) <= |disk.image|
      modifies disk
      ensures |disk.image| == old(|disk.image|) && OnlyThere(old(disk.image), disk.image, sector, g.csize)
      ensures ok ==> disk.image == Splice(old(disk.image), 512 * sector, Blank(512 * g.csize))
      ensures disk.Healthy() ==> ok
    {
      hide Splice, Blank;
      var n: nat := 0;
      ghost var i: nat := 0;
      ghost var image := disk.image;
      assert ibuf[0..512 * c] == ibuf[..];
      ok := true;
      NoBlank(image, 512 * sector);
      while n < g.csize && ok
        invariant |disk.image| == |image| && OnlyThere(image, disk.image, sector, g.csize)
        invariant ok ==> i <= times && n == c * i && n <= g.csize
        invariant ok ==> disk.image == Splice(image, 512 * sector, Blank(512 * n))
        invariant disk.Healthy() ==> ok
        decreases ok, g.csize - n
      {
        Multiple(c, i, times);
        ok := disk.Write(ibuf, 0, sector + n, c);
        if ok {
          MoreBlank(image, 512 * sector, 512 * n, 512 * c);
          n, i := n + c, i + 1;
        }
      }
      if ok {
        assert n == g.csize;
      }
    }

    /** Fills the window with the first sector of a cluster that is about to be cleared, and the cluster. */
    method BlankCluster(sect: nat, granted: nat) returns (ok: bool)
      requires Valid() && !wflag && ClusterSize(g.csize)
      requires g.AreaBase() <= sect && sect + g.csize <= size
      modifies this`winsect, win, disk
      ensures ok ==> Valid() && Contents() == Splice(old(Contents()), 512 * sect, Blank(512 * g.csize))
      ensures win.Length == 512 && |disk.image| == 512 * size
      ensures OnlyThere(old(Contents()), Overlaid(g, disk.image, wflag, winsect, win[..]), sect, g.csize)
      ensures disk.Healthy() ==> ok
    {
      hide Overlaid, Mirrored, Splice, Blank, OnlyThere;
      ghost var image, shown, w := disk.image, winsect, win[..];
      var szb, times := ChunkSize(granted);
      winsect := sect;
      forall i | 0 <= i < 512 {
        win[i] := 0;
      }
      var ibuf := win;
      if szb > 512 {
        ibuf := new byte[szb](_ => 0);
      }
      BlankIs(ibuf[..]);
      BlankIs(win[..]);
      ok := BlankSectors(ibuf, sect, szb / 512, times);
      SeenThere(g, image, disk.image, shown, winsect, w, win[..], sect, g.csize);
      if ok {
        ghost var z := Blank(512 * g.csize);
        Cleared(g, image, shown, w, winsect, win[..], sect, z);
        BlankShown(image, sect, g.csize);
        if disk.Healthy() && twins {
          MirrorBlank(g, size, image, shown, sect, z);
        }
      }
    }

    /** Clears the cluster of a directory. The window shows its first sector afterwards. When the device
        fails, the window may show bytes the device does not have, and the cluster may hold anything, but nothing
        else has changed. */
    method ClearCluster(clst: nat, granted: nat) returns (res: FResult)
      requires Valid() && g.Valid(size) && 2 <= clst < g.nFatent
      modifies this`wflag, this`winsect, win, disk
      ensures res == Ok || res == DiskErr
      ensures res == Ok ==> Valid() && Fat() == old(Fat()) && Boot() == old(Boot())
      ensures res == Ok && g.fsType.FAT32? ==> ReservedBits() == old(ReservedBits())
      ensures res == Ok ==> IsCleared(g, old(Area()), clst, Area())
      ensures win.Length == 512 && |disk.image| == 512 * size
      ensures var seen := Overlaid(g, disk.image, wflag, winsect, win[..]);
        OnlyThere(old(Contents()), seen, g.ClusterSector(clst), g.csize)
      ensures disk.Healthy() ==> res == Ok
    {
      hide Valid, Contents, AreaOf, BootOf, TableOf, Splice, Blank, Geometry.Valid, IsCleared, Geometry.ClusterSector;
      ClusterPlace(clst);
      ghost var v := Contents();
      res := SyncWindow();
      Unspoilt(v, clst);
      if res == Ok {
        var sect := g.ClusterSector(clst);
        MakeCleared(g, Contents(), clst, sect);
        var ok := BlankCluster(sect, granted);
        res := if ok then Ok else DiskErr;
      }
    }

    lemma Unspoilt(v: seq<byte>, clst: nat)
      requires Valid() && Contents() == v
      ensures win.Length == 512 && |disk.image| == 512 * size
      ensures OnlyThere(v, Overlaid(g, disk.image, wflag, winsect, win[..]), g.ClusterSector(clst), g.csize)
    {
    }

    lemma ClusterPlace(clst: nat)
      requires Valid() && g.Valid(size) && 2 <= clst < g.nFatent
      ensures ClusterSize(g.csize)
      ensures g.AreaBase() <= g.database <= g.ClusterSector(clst) == g.database + g.csize * (clst - 2)
      ensures g.ClusterSector(clst) + g.csize <= size < MAX32 && |Contents()| == 512 * size
    {
      hide Overlaid, Mirrored;
      assert Sub32(clst, 2) == clst - 2 && Sub32(g.nFatent, 2) == g.nFatent - 2;
      OneMoreFits(g.csize, clst - 2, g.nFatent - 2);
    }

    lemma OneMoreFits(n: nat, a: nat, b: nat)
      requires a < b
      ensures 0 <= n * a <= n * a + n <= n * b
    {
      assert n * b == n * a + n + n * (b - a - 1);
    }
  }
}
