/** An open file: a cursor and a one-sector buffer over a cluster chain. */
module FatFiles {
  import opened Bytes
  import opened Device
  import opened FatTable
  import opened FatGeometry
  import opened FatWindow
  import opened Chains
  import opened FreeCounts
  import opened FileModel
  import opened FileState
  import opened FatVolumes

  class FatFile {
    const fs: FatVolume
    const buf: array<byte>
    const canRead: bool
    const canWrite: bool
    var err: FResult
    var sclust: nat
    var objsize: nat
    var fptr: nat
    var clust: nat
    var sect: nat
    var dirty: bool
    var modified: bool
    ghost var chain: seq<nat>
    ghost var slot: nat
    /** The state of the volume to compare with. */
    ghost var base: Base

    /** A file just opened: the cursor is at its start and the buffer holds no sector. */
    constructor (fs: FatVolume, sclust: nat, objsize: nat, canRead: bool, canWrite: bool, ghost chain: seq<nat>)
      requires fs.Valid() && fs.g.Valid(fs.size)
      requires ChainOk(fs.Fat(), chain, sclust) && Away(fs.g, fs.Fat(), chain, fs.winsect)
      requires objsize <= 512 * (fs.g.csize * |chain|)
      ensures base == Base(fs.Fat(), fs.Area(), chain)
      ensures this.fs == fs && this.canRead == canRead && this.canWrite == canWrite && this.chain == chain
      ensures err == Ok && fptr == 0 && this.objsize == objsize && fresh(buf)
      ensures ClusterSize(fs.g.csize) && Valid() && Cursor(0)
    {
      this.fs, this.canRead, this.canWrite := fs, canRead, canWrite;
      this.sclust, this.objsize, this.chain := sclust, objsize, chain;
      err, fptr, clust, sect, slot, dirty, modified := Ok, 0, 0, 0, 0, false, false;
      buf := new byte[512](_ => 0);
      base := Base(fs.Fat(), fs.Area(), chain);
      OnlyFileStart(fs.g, fs.Fat(), fs.Area(), chain);
    }

    /** The file as a value. */
    ghost function Snapshot(): File
      reads this`chain, this`sclust, this`objsize, this`sect, this`slot, this`dirty, this`base, buf
    {
      File(chain, sclust, objsize, sect, slot, dirty, buf[..], base)
    }

    ghost predicate Valid()
      reads this`chain, this`sclust, this`objsize, this`sect, this`slot, this`dirty, this`base, buf
      reads fs`winsect, fs`wflag, fs.disk, fs.win
      ensures Valid() ==> fs.Valid() && fs.g.Valid(fs.size) && buf != fs.win
    {
      && fs.Valid() && fs.g.Valid(fs.size)
      && buf != fs.win
      && Good(fs.g, fs.size, fs.Fat(), fs.Area(), fs.winsect, Snapshot())
    }

    /** The cursor would be in place at position `p`. */
    ghost predicate Cursor(p: nat)
      requires ClusterSize(fs.g.csize)
      reads this`chain, this`sect, this`slot, this`clust
    {
      CursorAt(fs.g, chain, sect, slot, clust, p)
    }

    /** What a file without an error keeps between operations. */
    ghost predicate Usable()
      reads this, buf, fs`winsect, fs`wflag, fs.disk, fs.win
      ensures Usable() ==> Valid() && ClusterSize(fs.g.csize) && fptr <= objsize <= MAX32
    {
      Valid() && ClusterSize(fs.g.csize) && Cursor(fptr) && fptr <= objsize <= MAX32
    }

    lemma Placement()
      requires Valid()
      ensures ClusterSize(fs.g.csize) && (forall c :: c in chain ==> 2 <= c < fs.g.nFatent) && buf.Length == 512
      ensures Placed(fs.g, fs.Area(), Snapshot()) && objsize <= 512 * |Sectors(fs.g, chain)|
      ensures fs.g.AreaBase() <= fs.size < MAX32
      ensures |fs.Area()| == 512 * (fs.size - fs.g.AreaBase())
    {
      GoodPlaced(fs.g, fs.size, fs.Fat(), fs.Area(), fs.winsect, Snapshot());
      CsizeOk(fs.g, fs.size);
      ChainMembers(fs.Fat(), chain, sclust);
    }

    /** All bytes of the clusters of the file. */
    ghost function Bytes(): (b: seq<byte>)
      requires Valid()
      reads this`chain, this`sclust, this`objsize, this`sect, this`slot, this`dirty, this`base, buf
      reads fs`winsect, fs`wflag, fs.disk, fs.win
      ensures objsize <= |b|
    {
      Placement();
      BytesOf(fs.g, fs.Area(), Snapshot())
    }

    /** The file as a plain sequence of bytes. */
    ghost function Content(): (c: seq<byte>)
      requires Valid()
      reads this`chain, this`sclust, this`objsize, this`sect, this`slot, this`dirty, this`base, buf
      reads fs`winsect, fs`wflag, fs.disk, fs.win
      ensures |c| == objsize
    {
      Bytes()[..objsize]
    }

    /** From now on the volume is compared with its present state. */
    ghost method Mark()
      requires Valid()
      modifies this`base
      ensures Valid() && Bytes() == old(Bytes()) && base == Base(fs.Fat(), fs.Area(), chain)
    {
      hide Good, BytesOf, Placed, FatVolume.Valid, FatVolume.Fat, FatVolume.Area, Geometry.Valid, ClusterSize;
      Placement();
      Rebased(fs.g, fs.size, fs.Fat(), fs.Area(), fs.winsect, Snapshot());
      base := Base(fs.Fat(), fs.Area(), chain);
    }

    /** Another chain is where it was at that state, apart from this file's, and its clusters hold what they held. */
    lemma Others(o: seq<nat>)
      requires Valid() && IsChain(base.table, o) && Disjoint(o, base.chain)
      ensures IsChain(fs.Fat(), o) && Disjoint(o, chain) && SameBytes(fs.g, base.area, fs.Area(), o)
    {
      hide FatVolume.Valid, FatVolume.Fat, FatVolume.Area, Geometry.Valid, ClusterSize, SameBytes, OnlyFile;
      Placement();
      OthersKept(fs.g, fs.size, base, fs.Fat(), fs.Area(), chain, o);
    }

    /** Writes the buffer back if it is dirty. */
    method Flush() returns (res: FResult)
      requires Valid()
      modifies this`dirty, fs.disk
      ensures fs.Valid() && (res == Ok || res == DiskErr)
      ensures res == Ok ==> Valid() && !dirty && Bytes() == old(Bytes()) && fs.Fat() == old(fs.Fat())
      ensures fs.disk.Healthy() ==> res == Ok
    {
      hide Good, BytesOf, Placed, FatVolume.Valid, FatVolume.Fat, FatVolume.Area, Geometry.Valid, ClusterSize;
      Placement();
      res := Ok;
      if dirty {
        ghost var g, size, f, area, x := fs.g, fs.size, fs.Fat(), fs.Area(), Snapshot();
        DirtyHasSector(g, size, f, area, fs.winsect, x);
        BufferSector(g, size, f, area, fs.winsect, x);
        var ok := fs.WriteData(buf, 0, sect, 1);
        assert buf[0..512] == x.buf;
        if ok {
          dirty := false;
          Flushed(g, size, f, area, fs.winsect, x, fs.Area());
        } else {
          res := DiskErr;
        }
      }
    }

    /** At a sector boundary before the end of the file: enters the next cluster if need be. */
    method FollowRead() returns (res: FResult)
      requires Valid() && ClusterSize(fs.g.csize) && Cursor(fptr) && fptr % 512 == 0 && fptr < objsize
      modifies this`clust, fs`wflag, fs`winsect, fs.win, fs.disk
      ensures fs.Valid()
      ensures res == Ok ==> Valid() && Bytes() == old(Bytes()) && fs.Fat() == old(fs.Fat())
      ensures res == Ok ==>
        LinkIndex(fs.g.csize, fptr / 512) < |chain| && clust == chain[LinkIndex(fs.g.csize, fptr / 512)]
      ensures fs.disk.Healthy() ==> res == Ok
    {
      hide Good, BytesOf, Placed, FatVolume.Valid, FatVolume.Fat, FatVolume.Area, Geometry.Valid, ClusterSize,
        CursorAt, LinkIndex;
      ghost var g, size, f, area, x, shown := fs.g, fs.size, fs.Fat(), fs.Area(), Snapshot(), fs.winsect;
      AtBoundary(g, x, clust, fptr);
      LinkHere(g, size, f, area, shown, x, fptr / 512);
      res := Ok;
      var csect := fptr / 512 % fs.g.csize;
      if csect == 0 {
        var clst := sclust;
        if fptr != 0 {
          clst := fs.GetFat(clust);
          WindowMoved(g, size, f, area, shown, fs.winsect, x);
        }
        if clst < 2 {
          return IntErr;
        }
        if clst == MAX32 {
          return DiskErr;
        }
        clust := clst;
      }
    }

    /** Copies `n` bytes of the buffer from index `o` on. */
    method CopyOut(dst: array<byte>, at: nat, o: nat, n: nat, ghost d: seq<byte>)
      requires o + n <= buf.Length && at + n <= dst.Length && dst != buf && d == buf[..][o..o + n]
      modifies dst
      ensures dst[..] == Splice(old(dst[..]), at, d)
    {
      forall i | 0 <= i < n {
        dst[at + i] := buf[o + i];
      }
    }

    /** Reads `cc` sectors that follow each other, from sector `s` on, directly into `dst`. A dirty
        buffer is newer than its sector. */
    method ReadRun(dst: array<byte>, at: nat, s: nat, cc: nat, ghost k: nat) returns (ok: bool)
      requires Valid() && ClusterSize(fs.g.csize) && (forall c :: c in chain ==> 2 <= c)
      requires 0 < cc && Run(Sectors(fs.g, chain), k, cc) && s == Sectors(fs.g, chain)[k]
      requires fs.DataSectors(s, cc)
      requires at + 512 * cc <= dst.Length && dst != buf && dst != fs.win
      modifies fs.disk`ops, dst
      ensures fs.Valid() && Valid() && Bytes() == old(Bytes()) && fs.Fat() == old(fs.Fat())
      ensures 512 * (k + cc) <= |Bytes()|
      ensures ok ==> dst[..] == Splice(old(dst[..]), at, Bytes()[512 * k..512 * (k + cc)])
      ensures fs.disk.Healthy() ==> ok
    {
      hide Good, BytesOf, Placed, FatVolume.Valid, Geometry.Valid, ClusterSize, Sectors, Run, Sub32, Splice;
      Placement();
      ghost var g, size, f, area, x, shown := fs.g, fs.size, fs.Fat(), fs.Area(), Snapshot(), fs.winsect;
      InRunTest(g, size, f, area, shown, x, k, cc);
      if dirty {
        DirtyHasSector(g, size, f, area, shown, x);
      }
      ghost var d := area[512 * (s - g.AreaBase())..512 * (s - g.AreaBase() + cc)];
      DirectlyRead(g, size, f, area, shown, x, k, cc, d);
      ghost var before, seen := dst[..], Bytes()[512 * k..512 * (k + cc)];
      ok := fs.ReadData(dst, at, s, cc);
      if ok {
        assert dst[..] == Splice(before, at, d);
        if dirty && Sub32(sect, s) < cc {
          var o := Sub32(sect, s) * 512;
          assert buf[..][0..512] == x.buf;
          SpliceTwice(before, at, d, o, x.buf);
          CopyOut(dst, at + o, 0, 512, x.buf);
        }
        assert dst[..] == Splice(before, at, seen);
      }
    }

    /** The sector the cursor is at, when the current cluster is `clust`. */
    lemma Here(k: nat)
      requires Valid() && ClusterSize(fs.g.csize)
      requires LinkIndex(fs.g.csize, k) < |chain| && clust == chain[LinkIndex(fs.g.csize, k)]
      ensures (forall c :: c in chain ==> 2 <= c) && k < |Sectors(fs.g, chain)|
      ensures k % fs.g.csize < fs.g.csize
      ensures fs.g.ClusterSector(clust) != 0 && fs.g.ClusterSector(clust) + k % fs.g.csize == Sectors(fs.g, chain)[k]
      ensures forall n {:trigger fs.DataSectors(Sectors(fs.g, chain)[k], n)} ::
        0 < n && k % fs.g.csize + n <= fs.g.csize ==>
        Run(Sectors(fs.g, chain), k, n) && fs.DataSectors(Sectors(fs.g, chain)[k], n)
    {
      hide Good, Run, Sectors, FatVolume.Valid, FatVolume.Fat, FatVolume.Area, ClusterSize, Geometry.Valid, LinkIndex,
        Geometry.ClusterSector;
      Placement();
      SectorNumber(fs.g, fs.size, fs.Fat(), fs.Area(), fs.winsect, Snapshot(), k);
      forall n | 0 < n && k % fs.g.csize + n <= fs.g.csize
        ensures Run(Sectors(fs.g, chain), k, n) && fs.DataSectors(Sectors(fs.g, chain)[k], n)
      {
        RunInCluster(fs.g, fs.size, fs.Fat(), fs.Area(), fs.winsect, Snapshot(), k, n);
      }
    }

    /** Reads as many whole sectors of the current cluster as fit, directly into `dst`. */
    method ReadDirect(dst: array<byte>, at: nat, btr: nat, s: nat) returns (res: FResult, rcnt: nat)
      requires Valid() && ClusterSize(fs.g.csize) && fptr % 512 == 0
      requires LinkIndex(fs.g.csize, fptr / 512) < |chain| && clust == chain[LinkIndex(fs.g.csize, fptr / 512)]
      requires (forall c :: c in chain ==> 2 <= c) && fptr / 512 < |Sectors(fs.g, chain)|
      requires s == Sectors(fs.g, chain)[fptr / 512]
      requires 512 <= btr && at + btr <= dst.Length && dst != buf && dst != fs.win
      modifies fs.disk`ops, dst
      ensures fs.Valid() && Valid() && Bytes() == old(Bytes()) && fs.Fat() == old(fs.Fat())
      ensures res == Ok || res == DiskErr
      ensures res == Ok ==> 0 < rcnt <= btr && fptr + rcnt <= |Bytes()| && Cursor(fptr + rcnt)
      ensures res == Ok ==> dst[..] == Splice(old(dst[..]), at, Bytes()[fptr..fptr + rcnt])
      ensures fs.disk.Healthy() ==> res == Ok
    {
      hide Valid, Bytes, Run, Sectors, ClusterSize, CursorAt, LinkIndex, Splice, FatVolume.DataSectors, Clip;
      ghost var k := fptr / 512;
      Here(k);
      var csect := fptr / 512 % fs.g.csize;
      Clipped(fs.g.csize, csect, fptr, btr);
      var cc := Clip(fs.g.csize, csect, btr / 512);
      assert fs.DataSectors(s, cc);
      rcnt := 512 * cc;
      CursorMoved(fs.g, Snapshot(), clust, k, fptr + rcnt);
      var ok := ReadRun(dst, at, s, cc, k);
      res := if ok then Ok else DiskErr;
    }

    /** Brings a sector of the file into the buffer. */
    method LoadSector(s: nat, ghost k: nat) returns (res: FResult)
      requires Valid() && ClusterSize(fs.g.csize) && (forall c :: c in chain ==> 2 <= c)
      requires k < |Sectors(fs.g, chain)| && s == Sectors(fs.g, chain)[k] && fs.DataSectors(s, 1)
      modifies this`sect, this`slot, this`dirty, buf, fs.disk
      ensures fs.Valid() && (res == Ok || res == DiskErr)
      ensures res == Ok ==>
        Valid() && sect == s != 0 && slot == k && Bytes() == old(Bytes()) && fs.Fat() == old(fs.Fat())
      ensures fs.disk.Healthy() ==> res == Ok
    {
      hide Good, BytesOf, Placed, FatVolume.Valid, FatVolume.Fat, Geometry.Valid, ClusterSize, Sectors, Splice;
      Placement();
      SameSlot(fs.g, fs.size, fs.Fat(), fs.Area(), fs.winsect, Snapshot(), k);
      if sect != s {
        res := Flush();
        if res != Ok {
          return;
        }
        Placement();
        ghost var x := Snapshot();
        var ok := fs.ReadData(buf, 0, s, 1);
        if !ok {
          return DiskErr;
        }
        sect, slot := s, k;
        WholeBuffer(x.buf, 0, fs.Area()[512 * (s - fs.g.AreaBase())..512 * (s - fs.g.AreaBase() + 1)]);
        assert Holds(fs.Area(), fs.g.AreaBase(), s, buf[..]);
        Loaded(fs.g, fs.size, fs.Fat(), fs.Area(), fs.winsect, x, k, Snapshot());
      }
      res := Ok;
    }

    /** At a sector boundary before the end of the file: finds the sector. */
    method ApproachRead() returns (res: FResult, s: nat)
      requires Valid() && ClusterSize(fs.g.csize) && Cursor(fptr) && fptr % 512 == 0 && fptr < objsize
      modifies this`clust, fs`wflag, fs`winsect, fs.win, fs.disk
      ensures fs.Valid()
      ensures res == Ok ==> Valid() && Bytes() == old(Bytes()) && fs.Fat() == old(fs.Fat())
      ensures res == Ok ==>
        LinkIndex(fs.g.csize, fptr / 512) < |chain| && clust == chain[LinkIndex(fs.g.csize, fptr / 512)]
      ensures res == Ok ==> (forall c :: c in chain ==> 2 <= c) && fptr / 512 < |Sectors(fs.g, chain)|
      ensures res == Ok ==> s == Sectors(fs.g, chain)[fptr / 512] && fs.DataSectors(s, 1)
      ensures fs.disk.Healthy() ==> res == Ok
    {
      hide Valid, Bytes, Run, Sectors, ClusterSize, CursorAt, LinkIndex, FatVolume.DataSectors, FatVolume.Valid,
        FatVolume.Fat, Geometry.ClusterSector;
      s := 0;
      res := FollowRead();
      if res == Ok {
        Here(fptr / 512);
        s := fs.g.ClusterSector(clust);
        if s == 0 {
          res := IntErr;
        }
        s := s + fptr / 512 % fs.g.csize;
        assert fs.DataSectors(s, 1);
      }
    }

    /** Copies the rest of the sector in the buffer, or less. */
    method ReadBuffer(dst: array<byte>, at: nat, btr: nat) returns (rcnt: nat)
      requires Valid() && ClusterSize(fs.g.csize) && sect != 0 && slot == fptr / 512
      requires LinkIndex(fs.g.csize, fptr / 512) < |chain| && clust == chain[LinkIndex(fs.g.csize, fptr / 512)]
      requires 0 < btr && at + btr <= dst.Length && dst != buf && dst != fs.win
      modifies dst
      ensures Valid() && Bytes() == old(Bytes()) && fs.Fat() == old(fs.Fat())
      ensures 0 < rcnt <= btr && fptr + rcnt <= |Bytes()| && Cursor(fptr + rcnt)
      ensures dst[..] == Splice(old(dst[..]), at, Bytes()[fptr..fptr + rcnt])
    {
      hide Valid, Bytes, ClusterSize, CursorAt, LinkIndex, Splice, FatVolume.Valid, FatVolume.Fat;
      rcnt := if 512 - fptr % 512 > btr then btr else 512 - fptr % 512;
      Seen(fptr, rcnt);
      AfterSector(fptr / 512);
      CursorMoved(fs.g, Snapshot(), clust, fptr / 512, fptr + rcnt);
      CopyOut(dst, at, fptr % 512, rcnt, Bytes()[fptr..fptr + rcnt]);
    }

    lemma AfterSector(k: nat)
      requires ClusterSize(fs.g.csize)
      ensures 512 * (k + 1) <= 512 * (k + fs.g.csize - k % fs.g.csize)
    {
      SectorInCluster(fs.g.csize, k, 0);
    }

    /** One round of reading: copies some of the next `btr` bytes of the file to `dst`. */
    method ReadStep(dst: array<byte>, at: nat, btr: nat) returns (res: FResult, rcnt: nat)
      requires Valid() && ClusterSize(fs.g.csize) && Cursor(fptr)
      requires 0 < btr && fptr + btr <= objsize && at + btr <= dst.Length && dst != buf && dst != fs.win
      modifies this`clust, this`sect, this`slot, this`dirty, buf, fs`wflag, fs`winsect, fs.win, fs.disk, dst
      ensures fs.Valid()
      ensures res == Ok ==> Valid() && Bytes() == old(Bytes()) && fs.Fat() == old(fs.Fat())
      ensures res == Ok ==> 0 < rcnt <= btr && Cursor(fptr + rcnt)
      ensures res == Ok ==> dst[..] == Splice(old(dst[..]), at, Bytes()[fptr..fptr + rcnt])
      ensures fs.disk.Healthy() ==> res == Ok
    {
      hide Valid, Bytes, Run, Sectors, ClusterSize, CursorAt, LinkIndex, Splice, FatVolume.DataSectors,
        FatVolume.Valid, FatVolume.Fat;
      ghost var before := dst[..];
      rcnt := 0;
      if fptr % 512 == 0 {
        var s;
        res, s := ApproachRead();
        if res != Ok {
          return;
        }
        assert dst[..] == before;
        if btr / 512 > 0 {
          res, rcnt := ReadDirect(dst, at, btr, s);
          return;
        }
        res := LoadSector(s, fptr / 512);
        if res != Ok {
          return;
        }
      } else {
        MidSector(fs.g, Snapshot(), clust, fptr);
      }
      assert dst[..] == before;
      rcnt := ReadBuffer(dst, at, btr);
      res := Ok;
    }

    /** The buffer shows the bytes of the file in its sector. */
    lemma Seen(p: nat, n: nat)
      requires Valid() && sect != 0 && slot == p / 512 && p % 512 + n <= 512
      ensures buf.Length == 512 && p + n <= |Bytes()| && buf[..][p % 512..p % 512 + n] == Bytes()[p..p + n]
    {
      hide Good, BytesOf, Placed, FatVolume.Valid, FatVolume.Fat, FatVolume.Area, Geometry.Valid, ClusterSize, Sectors;
      Placement();
      BufferSeen(fs.g, fs.size, fs.Fat(), fs.Area(), fs.winsect, Snapshot());
      SubSlice(Bytes(), 512 * slot, 512 * (slot + 1), p % 512, n);
    }

    /** Reads up to `btr` bytes at the cursor, less at the end of the file. */
    method Read(dst: array<byte>, btr: nat) returns (res: FResult, br: nat)
      requires btr <= dst.Length && dst != buf && dst != fs.win
      requires err == Ok ==> Usable()
      modifies this`err, this`fptr, this`clust, this`sect, this`slot, this`dirty, buf, fs`wflag, fs`winsect, fs.win,
        fs.disk, dst
      ensures old(err) != Ok ==> res == old(err) && br == 0
      ensures old(err) == Ok && !canRead ==> res == Denied && br == 0 && unchanged(this, buf, fs, fs.win, fs.disk)
      ensures old(err) == Ok && canRead && res == Ok ==>
        && Usable() && err == Ok && Content() == old(Content()) && fs.Fat() == old(fs.Fat())
        && br == (if btr <= objsize - old(fptr) then btr else objsize - old(fptr))
        && fptr == old(fptr) + br && dst[..] == Splice(old(dst[..]), 0, Content()[old(fptr)..fptr])
      ensures old(err) == Ok && canRead && res != Ok ==> err == res
      ensures fs.disk.Healthy() && old(err) == Ok && canRead ==> res == Ok
    {
      hide Valid, Bytes, ClusterSize, CursorAt, Splice, FatVolume.Valid, FatVolume.Fat;
      br := 0;
      if err != Ok {
        return err, 0;
      }
      if !canRead {
        return Denied, 0;
      }
      var left: nat := btr;
      if left > objsize - fptr {
        left := objsize - fptr;
      }
      ghost var total, start: nat, bytes, before := left, fptr, Bytes(), dst[..];
      Splice0(before);
      assert bytes[start..fptr] == [];
      while left > 0
        invariant Usable() && Bytes() == bytes && fs.Fat() == old(fs.Fat()) && err == Ok
        invariant br + left == total && fptr == start + br && fptr + left <= objsize <= |bytes|
        invariant br <= dst.Length && dst[..] == Splice(before, 0, bytes[start..fptr])
      {
        var rcnt;
        res, rcnt := ReadStep(dst, br, left);
        if res != Ok {
          err := res;
          return;
        }
        SpliceAppend(before, 0, bytes[start..fptr], bytes[fptr..fptr + rcnt]);
        SliceAppend(bytes, start, fptr, fptr + rcnt);
        left, br, fptr := left - rcnt, br + rcnt, fptr + rcnt;
      }
      assert bytes[start..fptr] == bytes[..objsize][start..fptr];
      res := Ok;
    }

    /** The chain has only grown at its end, by clusters there was room for, and the table is still in order. */
    twostate predicate Stretched()
      requires old(Valid()) && Valid()
      reads this, buf, fs, fs.disk, fs.win
    {
      && |old(chain)| <= |chain| && chain[..|old(chain)|] == old(chain)
      && |chain| + fs.Room() == |old(chain)| + old(fs.Room())
      && (old(fs.CacheOk()) ==> fs.CacheOk())
      && (Sane(old(fs.Fat())) ==> Sane(fs.Fat()))
    }

    /** Besides, no byte of the file has changed. */
    twostate predicate Grown()
      requires old(Valid()) && Valid()
      reads this, buf, fs, fs.disk, fs.win
    {
      && Stretched()
      && |old(Bytes())| <= |Bytes()| && Bytes()[..|old(Bytes())|] == old(Bytes())
    }

    /** The cursor is behind the last cluster. */
    ghost predicate AtEnd()
      reads this`chain, this`fptr
    {
      fptr == ClusterStart(fs.g.csize, |chain|)
    }

    /** A chain that had `n` links has only as many more as it takes to get to position `p`. */
    ghost predicate Needed(n: nat, p: nat)
      reads this`chain
    {
      n <= |chain| && (n < |chain| ==> ClusterStart(fs.g.csize, |chain| - 1) < p)
    }

    /** Link `j` of the chain, where `prev` is the one before it or 0; a new cluster behind the last
        link. The results 0, 1 and 0xFFFFFFFF are those of the allocation. */
    method Extend(prev: nat, ghost j: nat) returns (clst: nat)
      requires Valid() && j <= |chain| && (if j == 0 then prev == 0 && chain == [] else prev == chain[j - 1])
      modifies this`sclust, this`chain, fs, fs.win, fs.disk
      ensures fs.Valid()
      ensures clst == 0 ==> Valid() && Grown() && chain == old(chain) && sclust == old(sclust)
      ensures clst == 0 ==> fs.Full() && j == |chain|
      ensures 1 < clst != MAX32 ==> Valid() && Grown() && j < |chain| && clst == chain[j]
      ensures 1 < clst != MAX32 ==> |chain| == |old(chain)| || |chain| == j + 1
      ensures clst == 1 ==> !Sane(old(fs.Fat()))
      ensures clst == MAX32 ==> !fs.disk.Healthy()
    {
      hide Good, BytesOf, Placed, FatVolume.Valid, FatVolume.Fat, FatVolume.Area, Geometry.Valid, FatVolume.CacheOk,
        Sane, FreeCount, FatVolume.Room, FatVolume.Full;
      Placement();
      ghost var g, size, f, area, x, shown := fs.g, fs.size, fs.Fat(), fs.Area(), Snapshot(), fs.winsect;
      TailHere(g, size, f, area, shown, x, j);
      fs.Limits();
      clst := fs.CreateChain(prev);
      if clst == 0 {
        WindowMoved(g, size, f, area, shown, fs.winsect, x);
      } else if 1 < clst != MAX32 {
        if sclust == 0 {
          sclust := clst;
        }
        if j < |chain| {
          WindowMoved(g, size, f, area, shown, fs.winsect, x);
        } else {
          chain := chain + [clst];
          FileGrown(g, size, f, area, shown, x, clst, fs.Eoc(), fs.Fat(), fs.winsect, Snapshot());
          if Sane(f) {
            TakenSane(f, prev, clst, fs.Eoc());
          }
        }
      }
    }

    /** At a sector boundary: enters the next cluster if need be, and takes a new one at the end of the
        chain. */
    method FollowWrite() returns (res: FResult, full: bool)
      requires Valid() && ClusterSize(fs.g.csize) && Cursor(fptr) && fptr % 512 == 0
      modifies this`clust, this`sclust, this`chain, fs, fs.win, fs.disk
      ensures fs.Valid()
      ensures res == Ok ==> Valid() && Grown()
      ensures res == Ok && full ==> chain == old(chain) && sclust == old(sclust) && clust == old(clust)
      ensures res == Ok && full ==> fs.Full()
      ensures res == Ok && full ==> AtEnd()
      ensures res == Ok ==> Needed(|old(chain)|, fptr + 1)
      ensures res == Ok && !full ==>
        LinkIndex(fs.g.csize, fptr / 512) < |chain| && clust == chain[LinkIndex(fs.g.csize, fptr / 512)]
      ensures fs.disk.Healthy() && Sane(old(fs.Fat())) ==> res == Ok
    {
      hide Valid, Good, FatVolume.Valid, FatVolume.Fat, FatVolume.Area, Geometry.Valid, ClusterSize, CursorAt,
        LinkIndex, FatVolume.CacheOk, Sane, Bytes, FatVolume.Room, FatVolume.Full, ClusterStart;
      AtBoundary(fs.g, Snapshot(), clust, fptr);
      res, full := Ok, false;
      var csect := fptr / 512 % fs.g.csize;
      if csect == 0 {
        ghost var j := LinkIndex(fs.g.csize, fptr / 512);
        StartLink(fs.g.csize, fptr / 512);
        BoundaryStart(fs.g.csize, fptr);
        Starts();
        var clst := sclust;
        if fptr != 0 || clst == 0 {
          clst := Extend(if fptr == 0 then 0 else clust, j);
        }
        if clst == 0 {
          full := true;
          return;
        }
        if clst == 1 {
          res := IntErr;
          return;
        }
        if clst == MAX32 {
          res := DiskErr;
          return;
        }
        clust := clst;
      }
    }

    lemma Starts()
      requires Valid()
      ensures sclust == 0 <==> chain == []
      ensures sclust != 0 ==> chain[0] == sclust && 2 <= sclust < fs.g.nFatent < MAX32
    {
      hide FatVolume.Valid;
      TailHere(fs.g, fs.size, fs.Fat(), fs.Area(), fs.winsect, Snapshot(), 0);
      fs.Limits();
    }

    /** At a sector boundary: finds the sector to write, with the buffer written back. */
    method ApproachWrite() returns (res: FResult, full: bool, s: nat)
      requires Valid() && ClusterSize(fs.g.csize) && Cursor(fptr) && fptr % 512 == 0
      modifies this`clust, this`sclust, this`chain, this`dirty, fs, fs.win, fs.disk
      ensures fs.Valid()
      ensures res == Ok ==> Valid() && Grown()
      ensures res == Ok && full ==>
        chain == old(chain) && sclust == old(sclust) && clust == old(clust) && dirty == old(dirty)
      ensures res == Ok && full ==> fs.Full()
      ensures res == Ok && full ==> AtEnd()
      ensures res == Ok ==> Needed(|old(chain)|, fptr + 1)
      ensures res == Ok && !full ==>
        LinkIndex(fs.g.csize, fptr / 512) < |chain| && clust == chain[LinkIndex(fs.g.csize, fptr / 512)]
      ensures res == Ok && !full ==>
        !dirty && (forall c :: c in chain ==> 2 <= c) && fptr / 512 < |Sectors(fs.g, chain)|
      ensures res == Ok && !full ==> s == Sectors(fs.g, chain)[fptr / 512] && fs.DataSectors(s, 1)
      ensures fs.disk.Healthy() && Sane(old(fs.Fat())) ==> res == Ok
    {
      hide Valid, Bytes, Run, Sectors, ClusterSize, CursorAt, LinkIndex, FatVolume.DataSectors, FatVolume.Valid,
        FatVolume.Fat, Geometry.ClusterSector, Sane, FreeCount;
      s := 0;
      res, full := FollowWrite();
      if res == Ok && !full {
        res := Flush();
        if res == Ok {
          Here(fptr / 512);
          s := fs.g.ClusterSector(clust);
          if s == 0 {
            res := IntErr;
          }
          s := s + fptr / 512 % fs.g.csize;
          assert fs.DataSectors(s, 1);
        }
      }
    }

    /** Writes `cc` sectors that follow each other, from sector `s` on, directly from `src`. A clean
        buffer of one of them takes over the new bytes. */
    method WriteRun(src: array<byte>, at: nat, s: nat, cc: nat, ghost k: nat) returns (ok: bool)
      requires Valid() && !dirty && ClusterSize(fs.g.csize) && (forall c :: c in chain ==> 2 <= c)
      requires 0 < cc && Run(Sectors(fs.g, chain), k, cc) && s == Sectors(fs.g, chain)[k]
      requires fs.DataSectors(s, cc)
      requires at + 512 * cc <= src.Length && src != buf && src != fs.win
      modifies this`dirty, buf, fs.disk
      ensures fs.Valid() && fs.Fat() == old(fs.Fat())
      ensures ok ==> Valid() && !dirty && 512 * (k + cc) <= |old(Bytes())|
      ensures ok ==> Bytes() == Splice(old(Bytes()), 512 * k, src[at..at + 512 * cc])
      ensures fs.disk.Healthy() ==> ok
    {
      hide Good, BytesOf, Placed, FatVolume.Valid, FatVolume.Fat, FatVolume.Area, Geometry.Valid, ClusterSize, Sectors,
        Run, Sub32, Splice;
      Placement();
      ghost var g, size, f, area, x, shown := fs.g, fs.size, fs.Fat(), fs.Area(), Snapshot(), fs.winsect;
      InRunTest(g, size, f, area, shown, x, k, cc);
      RunFits(Sectors(g, chain), k, cc);
      ghost var d := src[at..at + 512 * cc];
      ok := fs.WriteData(src, at, s, cc);
      assert src[at..at + 512 * cc] == d;
      if ok {
        if Sub32(sect, s) < cc {
          var o := Sub32(sect, s) * 512;
          SubSlice(src[..], at, at + 512 * cc, o, 512);
          CopyIn(0, src, at + o, 512, d[o..o + 512]);
          WholeBuffer(x.buf, 0, d[o..o + 512]);
          dirty := false;
        }
        DirectlyWritten(g, size, f, area, shown, x, k, cc, d, fs.Area(), Snapshot());
      }
    }

    lemma RunFits(secs: seq<nat>, k: nat, n: nat)
      requires Run(secs, k, n)
      ensures 512 * (k + n) <= 512 * |secs|
    {
    }

    /** The larger of the size of the file and position `p`. */
    function SizeAt(p: nat): nat
      reads this`objsize
    {
      if p > objsize then p else objsize
    }

    /** Writes as many whole sectors of the current cluster as there are, directly from `src`. */
    method WriteDirect(src: array<byte>, at: nat, btw: nat, s: nat) returns (res: FResult, wcnt: nat)
      requires Valid() && !dirty && ClusterSize(fs.g.csize) && fptr % 512 == 0 && fptr <= objsize
      requires LinkIndex(fs.g.csize, fptr / 512) < |chain| && clust == chain[LinkIndex(fs.g.csize, fptr / 512)]
      requires (forall c :: c in chain ==> 2 <= c) && fptr / 512 < |Sectors(fs.g, chain)|
      requires s == Sectors(fs.g, chain)[fptr / 512]
      requires 512 <= btw && at + btw <= src.Length && src != buf && src != fs.win
      modifies this`dirty, buf, fs.disk
      ensures fs.Valid() && fs.Fat() == old(fs.Fat()) && (res == Ok || res == DiskErr)
      ensures res == Ok ==> Valid() && 0 < wcnt <= btw && Cursor(fptr + wcnt) && SizeAt(fptr + wcnt) <= |Bytes()|
      ensures res == Ok ==> Bytes()[..SizeAt(fptr + wcnt)] == Overwrite(old(Content()), fptr, src[at..at + wcnt])
      ensures fs.disk.Healthy() ==> res == Ok
    {
      hide Valid, Bytes, Run, Sectors, ClusterSize, CursorAt, LinkIndex, Splice, Overwrite, FatVolume.DataSectors,
        FatVolume.Valid, FatVolume.Fat, Clip;
      ghost var k := fptr / 512;
      Here(k);
      var csect := fptr / 512 % fs.g.csize;
      Clipped(fs.g.csize, csect, fptr, btw);
      var cc := Clip(fs.g.csize, csect, btw / 512);
      assert fs.DataSectors(s, cc);
      wcnt := 512 * cc;
      ghost var b, d := Bytes(), src[at..at + wcnt];
      var ok := WriteRun(src, at, s, cc, k);
      res := DiskErr;
      if ok {
        SpliceIsOverwrite(b, objsize, fptr, d);
        CursorMoved(fs.g, Snapshot(), clust, k, fptr + wcnt);
        res := Ok;
      }
    }

    /** Copies bytes into the buffer as sector `s` of the file and marks it dirty. At the end of the
        file the sector was not loaded: what the buffer holds behind the new bytes does not count. */
    method FillBuffer(src: array<byte>, at: nat, wcnt: nat, s: nat)
      requires Valid() && ClusterSize(fs.g.csize) && fptr <= objsize
      requires (forall c :: c in chain ==> 2 <= c) && fptr / 512 < |Sectors(fs.g, chain)|
      requires s == Sectors(fs.g, chain)[fptr / 512]
      requires sect == s || (!dirty && fptr % 512 == 0 && fptr == objsize)
      requires fptr % 512 + wcnt <= 512 && at + wcnt <= src.Length && src != buf
      modifies this`dirty, this`sect, this`slot, buf
      ensures Valid() && sect == s != 0 && slot == fptr / 512 && SizeAt(fptr + wcnt) <= |Bytes()|
      ensures Bytes()[..SizeAt(fptr + wcnt)] == Overwrite(old(Content()), fptr, src[at..at + wcnt])
    {
      hide Good, BytesOf, Placed, Sectors, ClusterSize, Splice, Overwrite, FatVolume.Valid, FatVolume.Fat,
        FatVolume.Area, Geometry.Valid;
      Placement();
      ghost var g, size, f, area, x, shown := fs.g, fs.size, fs.Fat(), fs.Area(), Snapshot(), fs.winsect;
      ghost var k, d := fptr / 512, src[at..at + wcnt];
      SameSlot(g, size, f, area, shown, x, k);
      sect, slot := s, k;
      CopyIn(fptr % 512, src, at, wcnt, d);
      dirty := true;
      assert 512 * k + fptr % 512 == fptr;
      BufferWritten(g, size, f, area, shown, x, k, fptr % 512, d, Snapshot());
    }

    /** Copies the next bytes into the buffer, up to its end. */
    method WriteBuffer(src: array<byte>, at: nat, btw: nat, s: nat) returns (wcnt: nat)
      requires Valid() && ClusterSize(fs.g.csize) && fptr <= objsize
      requires LinkIndex(fs.g.csize, fptr / 512) < |chain| && clust == chain[LinkIndex(fs.g.csize, fptr / 512)]
      requires (forall c :: c in chain ==> 2 <= c) && fptr / 512 < |Sectors(fs.g, chain)|
      requires s == Sectors(fs.g, chain)[fptr / 512]
      requires sect == s || (!dirty && fptr % 512 == 0 && fptr == objsize)
      requires 0 < btw && at + btw <= src.Length && src != buf
      modifies this`dirty, this`sect, this`slot, buf
      ensures Valid() && 0 < wcnt <= btw && Cursor(fptr + wcnt) && SizeAt(fptr + wcnt) <= |Bytes()|
      ensures Bytes()[..SizeAt(fptr + wcnt)] == Overwrite(old(Content()), fptr, src[at..at + wcnt])
    {
      hide Valid, Bytes, Sectors, ClusterSize, CursorAt, LinkIndex, Splice, Overwrite, FatVolume.Valid;
      wcnt := if 512 - fptr % 512 > btw then btw else 512 - fptr % 512;
      FillBuffer(src, at, wcnt, s);
      AfterSector(fptr / 512);
      CursorMoved(fs.g, Snapshot(), clust, fptr / 512, fptr + wcnt);
    }

    /** Copies `n` bytes into the buffer from index `o` on. */
    method CopyIn(o: nat, src: array<byte>, at: nat, n: nat, ghost d: seq<byte>)
      requires o + n <= buf.Length && at + n <= src.Length && src != buf && d == src[at..at + n]
      modifies buf
      ensures buf[..] == Splice(old(buf[..]), o, d) && src[at..at + n] == d
    {
      forall i | 0 <= i < n {
        buf[o + i] := src[at + i];
      }
    }

    /** One round of writing: takes some of the next `btw` bytes of `src`, or none when the volume is
        full. */
    method WriteStep(src: array<byte>, at: nat, btw: nat) returns (res: FResult, wcnt: nat)
      requires Valid() && ClusterSize(fs.g.csize) && Cursor(fptr) && fptr <= objsize
      requires 0 < btw && at + btw <= src.Length && src != buf && src != fs.win
      modifies this`clust, this`sclust, this`chain, this`sect, this`slot, this`dirty, buf, fs, fs.win, fs.disk
      ensures fs.Valid()
      ensures res == Ok ==>
        Valid() && Stretched() && wcnt <= btw && Cursor(fptr + wcnt) && SizeAt(fptr + wcnt) <= |Bytes()|
      ensures res == Ok ==> Bytes()[..SizeAt(fptr + wcnt)] == Overwrite(old(Content()), fptr, src[at..at + wcnt])
      ensures res == Ok ==> Needed(|old(chain)|, fptr + wcnt)
      ensures res == Ok && wcnt == 0 ==> fs.Full() && AtEnd()
      ensures fs.disk.Healthy() && Sane(old(fs.Fat())) ==> res == Ok
    {
      hide Valid, Bytes, Run, Sectors, ClusterSize, CursorAt, LinkIndex, Splice, Overwrite, FatVolume.DataSectors,
        FatVolume.Valid, FatVolume.Fat, Sane, FreeCount, FatVolume.Full, RoomIn, ClusterStart, AtEnd;
      ghost var c0, d := Content(), src[..];
      wcnt := 0;
      var s := sect;
      if fptr % 512 == 0 {
        var full;
        res, full, s := ApproachWrite();
        if res != Ok {
          return;
        }
        assert Content() == c0;
        assert src[..] == d;
        if full {
          OverwriteNothing(c0, fptr);
          return;
        }
        if btw / 512 > 0 {
          res, wcnt := WriteDirect(src, at, btw, s);
          return;
        }
        if sect != s && fptr < objsize {
          res := LoadSector(s, fptr / 512);
          if res != Ok {
            return;
          }
        }
      } else {
        MidSector(fs.g, Snapshot(), clust, fptr);
        BufferPlace();
      }
      assert Content() == c0;
      wcnt := WriteBuffer(src, at, btw, s);
      res := Ok;
    }

    lemma BufferPlace()
      requires Valid() && sect != 0
      ensures ClusterSize(fs.g.csize) && (forall c :: c in chain ==> 2 <= c)
      ensures slot < |Sectors(fs.g, chain)| && sect == Sectors(fs.g, chain)[slot]
    {
      Placement();
      GoodPlaced(fs.g, fs.size, fs.Fat(), fs.Area(), fs.winsect, Snapshot());
    }

    /** Changes the size of the file within its clusters. */
    method Resize(n: nat)
      requires Valid() && n <= |Bytes()|
      modifies this`objsize
      ensures Valid() && Bytes() == old(Bytes()) && objsize == n
    {
      hide Good, BytesOf, Placed, FatVolume.Valid, FatVolume.Fat, FatVolume.Area, Geometry.Valid;
      Placement();
      Resized(fs.g, fs.size, fs.Fat(), fs.Area(), fs.winsect, Snapshot(), n);
      objsize := n;
    }

    /** The number of bytes a request at position `p` may write: a file does not reach 4 GiB. */
    function Request(p: nat, btw: nat): (n: nat)
      requires p <= MAX32 && btw <= MAX32
      ensures n <= btw && p + n <= MAX32 && (p + btw <= MAX32 ==> n == btw)
    {
      if (p + btw) % 0x1_0000_0000 < p then MAX32 - p else btw
    }

    /** The effect of writing `data`: it was put at the cursor, which moved behind it. */
    twostate predicate Wrote(data: seq<byte>)
      requires old(Usable()) && Usable()
      reads this, buf, fs, fs.disk, fs.win
    {
      && Stretched() && err == Ok && Needed(|old(chain)|, fptr)
      && fptr == old(fptr) + |data| && Content() == Overwrite(old(Content()), old(fptr), data)
    }

    /** One round of writing, with the cursor and the size of the file brought up to date. */
    method WriteRound(src: array<byte>, at: nat, left: nat) returns (res: FResult, wcnt: nat)
      requires Usable() && err == Ok && 0 < left && fptr + left <= MAX32
      requires at + left <= src.Length && src != buf && src != fs.win
      modifies this`objsize, this`fptr, this`clust, this`sclust, this`chain, this`sect, this`slot, this`dirty
      modifies buf, fs, fs.win, fs.disk
      ensures res == Ok ==> Usable() && wcnt <= left && Wrote(src[at..at + wcnt])
      ensures res == Ok && wcnt == 0 ==> fs.Full() && AtEnd()
      ensures fs.disk.Healthy() && Sane(old(fs.Fat())) ==> res == Ok
    {
      hide Valid, Bytes, ClusterSize, CursorAt, Overwrite, FatVolume.Valid, FatVolume.Fat, Sane, FreeCount,
        FatVolume.Full, RoomIn, ClusterStart;
      res, wcnt := WriteStep(src, at, left);
      if res == Ok {
        fptr := fptr + wcnt;
        Resize(SizeAt(fptr));
      }
    }

    /** Writes bytes until all are written or the volume is full. */
    method WriteAll(src: array<byte>, want: nat) returns (res: FResult, bw: nat)
      requires Usable() && err == Ok && fptr + want <= MAX32
      requires want <= src.Length && src != buf && src != fs.win
      modifies this`err, this`objsize, this`fptr, this`clust, this`sclust, this`chain, this`sect, this`slot,
        this`dirty
      modifies buf, fs, fs.win, fs.disk
      ensures res == Ok ==> Usable() && bw <= want && Wrote(src[..bw])
      ensures res == Ok && bw < want ==> fs.Full() && AtEnd()
      ensures res != Ok ==> err == res
      ensures fs.disk.Healthy() && Sane(old(fs.Fat())) ==> res == Ok
    {
      hide Usable, Valid, Bytes, Content, Overwrite, FatVolume.Valid, FatVolume.Fat, Geometry.Valid, Sane,
        FatVolume.CacheOk, FatVolume.Full, FatVolume.Room, ClusterStart;
      bw := 0;
      var left := want;
      ghost var start: nat, c0, data := fptr, Content(), src[..];
      Fits();
      OverwriteNothing(c0, start);
      assert data[..0] == [];
      while left > 0
        invariant Usable() && Stretched() && err == Ok && Needed(|old(chain)|, fptr)
        invariant bw + left == want && fptr == start + bw && src[..] == data
        invariant Content() == Overwrite(c0, start, data[..bw])
      {
        var wcnt;
        res, wcnt := WriteRound(src, bw, left);
        if res != Ok {
          err := res;
          return;
        }
        assert src[..] == data;
        assert src[bw..bw + wcnt] == data[bw..bw + wcnt];
        OverwriteAppend(c0, start, data[..bw], data[bw..bw + wcnt]);
        assert data[..bw] + data[bw..bw + wcnt] == data[..bw + wcnt];
        left, bw := left - wcnt, bw + wcnt;
        if wcnt == 0 {
          break;
        }
      }
      assert src[..bw] == data[..bw];
      res := Ok;
    }

    lemma Fits()
      requires Usable()
      ensures fptr <= |Content()|
    {
    }

    /** Writes up to `btw` bytes at the cursor, less when the volume is full. */
    method Write(src: array<byte>, btw: nat) returns (res: FResult, bw: nat)
      requires btw <= src.Length && btw <= MAX32 && src != buf && src != fs.win
      requires err == Ok ==> Usable()
      modifies this`err, this`objsize, this`fptr, this`clust, this`sclust, this`chain, this`sect, this`slot,
        this`dirty, this`modified
      modifies buf, fs, fs.win, fs.disk
      ensures old(err) != Ok ==> res == old(err) && bw == 0
      ensures old(err) == Ok && !canWrite ==> res == Denied && bw == 0 && unchanged(this, buf, fs, fs.win, fs.disk)
      ensures old(err) == Ok && canWrite && res == Ok ==>
        && Usable() && bw <= Request(old(fptr), btw) && Wrote(src[..bw])
        && (bw < Request(old(fptr), btw) ==>
              fs.Full() && AtEnd() && fptr == ClusterStart(fs.g.csize, |old(chain)| + old(fs.Room())))
      ensures modified <==> old(modified) || (old(err) == Ok && canWrite && res == Ok)
      ensures old(err) == Ok && canWrite && res != Ok ==> err == res
      ensures fs.disk.Healthy() && old(err) == Ok && canWrite && Sane(old(fs.Fat())) ==> res == Ok
    {
      hide Valid, Bytes, ClusterSize, CursorAt, Overwrite, FatVolume.Valid, FatVolume.Fat, Sane, FreeCount,
        FatVolume.Full, FatVolume.Room, ClusterStart;
      bw := 0;
      if err != Ok {
        return err, 0;
      }
      if !canWrite {
        return Denied, 0;
      }
      res, bw := WriteAll(src, Request(fptr, btw));
      if res == Ok {
        modified := true;
        fs.FullIsNoRoom();
      }
    }

    /** The cluster before position `p` is current: `p` lies inside or at the end of link `j`. */
    ghost predicate At(j: nat, p: nat)
      requires ClusterSize(fs.g.csize)
      reads this`chain, this`clust
    {
      && j < |chain| && clust == chain[j]
      && ClusterStart(fs.g.csize, j) < p <= ClusterStart(fs.g.csize, j) + 512 * fs.g.csize
    }

    /** Follows the chain from link `j`, which starts at the cursor, until `ofs` bytes more lie inside a
        cluster. For writing the chain is stretched as needed; when the volume is full, the cursor
        stops at the end of the last cluster. */
    method Walk(from: nat, ghost j0: nat) returns (res: FResult, ofs: nat, ghost j: nat)
      requires Valid() && ClusterSize(fs.g.csize) && j0 < |chain| && clust == chain[j0]
      requires fptr == ClusterStart(fs.g.csize, j0) && 0 < from
      requires canWrite || fptr + from <= objsize
      modifies this`fptr, this`clust, this`sclust, this`chain, fs, fs.win, fs.disk
      ensures fs.Valid()
      ensures res == Ok ==> Valid() && Grown() && At(j, fptr + ofs) && fptr + ofs <= old(fptr) + from
      ensures res == Ok && fptr + ofs < old(fptr) + from ==>
        fs.Full() && canWrite && fptr + ofs == ClusterStart(fs.g.csize, |chain|)
      ensures res == Ok ==> Needed(|old(chain)|, fptr + ofs)
      ensures res == Ok ==> ofs == 0 || fptr == ClusterStart(fs.g.csize, j)
      ensures res == Ok && ofs == 0 ==> fptr == ClusterStart(fs.g.csize, j) + 512 * fs.g.csize
      ensures fs.disk.Healthy() && Sane(old(fs.Fat())) ==> res == Ok
    {
      hide Valid, Bytes, ClusterSize, ClusterStart, FatVolume.Valid, FatVolume.Fat, FatVolume.CacheOk, Sane,
        FatVolume.Full, Geometry.Valid, FatVolume.Room;
      ofs, j, res := from, j0, Ok;
      var bcs := fs.g.csize * 512;
      ghost var t := fptr + from;
      while ofs > bcs
        invariant Valid() && Grown() && j < |chain| && clust == chain[j] && res == Ok
        invariant fptr == ClusterStart(fs.g.csize, j) && 0 < ofs && fptr + ofs == t
        invariant |chain| == |old(chain)| || |chain| == j + 1
        decreases ofs
      {
        NextStart(fs.g.csize, j);
        ofs, fptr := ofs - bcs, fptr + bcs;
        var clst;
        if canWrite {
          clst := Extend(clust, j + 1);
          if clst == 0 {
            ofs := 0;
            break;
          }
        } else {
          NextThere(j, t);
          Members();
          assert chain[j + 1] in chain;
          clst := FollowLink(j);
        }
        if 1 < clst != MAX32 {
          Members();
          assert clst in chain;
        }
        if clst == MAX32 {
          res := DiskErr;
          return;
        }
        if clst <= 1 || clst >= fs.g.nFatent {
          res := IntErr;
          return;
        }
        clust := clst;
        j := j + 1;
      }
    }

    lemma NextThere(j: nat, t: nat)
      requires Valid() && ClusterSize(fs.g.csize) && ClusterStart(fs.g.csize, j) + 512 * fs.g.csize < t <= objsize
      ensures j + 1 < |chain|
    {
      Placement();
      NeedsNext(fs.g.csize, j, |chain|, t);
    }

    lemma Members()
      requires Valid()
      ensures forall c :: c in chain ==> 2 <= c < fs.g.nFatent
    {
      Placement();
    }

    /** The link behind link `j`, for reading. */
    method FollowLink(ghost j: nat) returns (clst: nat)
      requires Valid() && j < |chain| && clust == chain[j]
      modifies fs`wflag, fs`winsect, fs.win, fs.disk
      ensures fs.Valid()
      ensures clst != MAX32 ==> Valid() && Grown()
      ensures clst != MAX32 && j + 1 < |chain| ==> clst == chain[j + 1]
      ensures clst == MAX32 ==> !fs.disk.Healthy()
    {
      hide Good, BytesOf, Placed, FatVolume.Valid, FatVolume.Fat, FatVolume.Area, Geometry.Valid, FreeCount, Sane;
      Placement();
      ghost var g, size, f, area, x, shown := fs.g, fs.size, fs.Fat(), fs.Area(), Snapshot(), fs.winsect;
      TailHere(g, size, f, area, shown, x, j + 1);
      clst := fs.GetFat(clust);
      WindowMoved(g, size, f, area, shown, fs.winsect, x);
    }

    /** Chooses the link from which to follow the chain to position `t`: the current one, when `t` does
        not lie before it, or else the first, which is taken now if there is none. */
    method SeekStart(t: nat, ifptr: nat) returns (res: FResult, full: bool, ghost j: nat)
      requires Valid() && ClusterSize(fs.g.csize) && Cursor(ifptr) && fptr == 0 < t
      modifies this`fptr, this`clust, this`sclust, this`chain, fs, fs.win, fs.disk
      ensures fs.Valid()
      ensures res == Ok ==> Valid() && Grown()
      ensures res == Ok && full ==> fs.Full() && chain == [] && fptr == 0
      ensures res == Ok && !full ==> j < |chain| && clust == chain[j] && fptr == ClusterStart(fs.g.csize, j) < t
      ensures res == Ok ==> |chain| == |old(chain)| || |chain| == 1
      ensures fs.disk.Healthy() && Sane(old(fs.Fat())) ==> res == Ok
    {
      hide Valid, Bytes, ClusterSize, ClusterStart, FatVolume.Valid, FatVolume.Fat, FatVolume.CacheOk, Sane,
        FatVolume.Full, Geometry.Valid, CursorAt, FatVolume.Room;
      res, full, j := Ok, false, 0;
      var bcs := fs.g.csize * 512;
      if ifptr > 0 && (t - 1) / bcs >= (ifptr - 1) / bcs {
        SeekBase(t, ifptr);
        j := (ifptr - 1) / bcs;
        fptr := (ifptr - 1) / bcs * bcs;
      } else {
        NextStart(fs.g.csize, 0);
        Starts();
        var clst := sclust;
        if clst == 0 {
          clst := Extend(0, 0);
        }
        if clst == 1 {
          res := IntErr;
        } else if clst == MAX32 {
          res := DiskErr;
        } else {
          full := clst == 0;
          clust := clst;
        }
      }
    }

    /** Moves the cursor to position `t`, or as near as the volume has clusters for, and finds the
        sector it is in. */
    method SeekCluster(t: nat, ifptr: nat) returns (res: FResult, nsect: nat, ghost j: nat)
      requires Valid() && ClusterSize(fs.g.csize) && Cursor(ifptr) && fptr == 0 < t && (canWrite || t <= objsize)
      modifies this`fptr, this`clust, this`sclust, this`chain, fs, fs.win, fs.disk
      ensures fs.Valid()
      ensures res == Ok ==> Valid() && Grown() && fptr <= t && (fptr < t ==> fs.Full() && canWrite && AtEnd())
      ensures res == Ok ==> Needed(|old(chain)|, fptr)
      ensures res == Ok && fptr > 0 ==> At(j, fptr)
      ensures res == Ok && fptr % 512 != 0 ==>
        (forall c :: c in chain ==> 2 <= c) && fptr / 512 < |Sectors(fs.g, chain)|
      ensures res == Ok && fptr % 512 != 0 ==> nsect == Sectors(fs.g, chain)[fptr / 512] && fs.DataSectors(nsect, 1)
      ensures fs.disk.Healthy() && Sane(old(fs.Fat())) ==> res == Ok
    {
      hide Valid, Bytes, ClusterSize, ClusterStart, FatVolume.Valid, FatVolume.Fat, FatVolume.CacheOk, Sane,
        FatVolume.Full, Geometry.Valid, Sectors, FatVolume.DataSectors, CursorAt, Geometry.ClusterSector,
        FatVolume.Room;
      nsect := 0;
      NextStart(fs.g.csize, 0);
      if !canWrite {
        HasChain(t);
      }
      var full;
      res, full, j := SeekStart(t, ifptr);
      if res == Ok && !full {
        var ofs;
        res, ofs, j := Walk(t - fptr, j);
        if res == Ok {
          fptr := fptr + ofs;
          SeekHere(j, fptr, fptr - ClusterStart(fs.g.csize, j));
          if ofs % 512 != 0 {
            nsect := fs.g.ClusterSector(clust);
            if nsect == 0 {
              res := IntErr;
            }
            nsect := nsect + ofs / 512;
          }
        }
      }
    }

    lemma SeekBase(t: nat, p: nat)
      requires ClusterSize(fs.g.csize) && Cursor(p) && p > 0 && t > 0
      requires (t - 1) / (fs.g.csize * 512) >= (p - 1) / (fs.g.csize * 512)
      ensures var j := (p - 1) / (fs.g.csize * 512);
        && 0 <= j < |chain| && clust == chain[j]
        && j * (fs.g.csize * 512) == ClusterStart(fs.g.csize, j) < t
    {
      assert fs.g.csize * 512 == 512 * fs.g.csize;
      StartOf(fs.g.csize, p);
      StartBefore(fs.g.csize, p, t);
    }

    lemma HasChain(t: nat)
      requires Valid() && 0 < t <= objsize
      ensures chain != []
    {
    }

    lemma SeekHere(j: nat, p: nat, ofs: nat)
      requires Valid() && ClusterSize(fs.g.csize) && At(j, p) && p == ClusterStart(fs.g.csize, j) + ofs
      ensures p % 512 == ofs % 512
      ensures p % 512 != 0 ==> (forall c :: c in chain ==> 2 <= c) && p / 512 < |Sectors(fs.g, chain)|
      ensures p % 512 != 0 ==> fs.g.ClusterSector(clust) != 0
      ensures p % 512 != 0 ==> fs.g.ClusterSector(clust) + ofs / 512 == Sectors(fs.g, chain)[p / 512]
      ensures p % 512 != 0 ==> fs.DataSectors(Sectors(fs.g, chain)[p / 512], 1)
    {
      hide Valid, ClusterSize, ClusterStart, FatVolume.Valid, Geometry.Valid, Sectors, FatVolume.DataSectors,
        Geometry.ClusterSector;
      InLink(fs.g.csize, j, p);
      if p % 512 != 0 {
        Here(p / 512);
        assert fs.DataSectors(Sectors(fs.g, chain)[p / 512], 1);
      }
    }

    /** The effect of a seek: no byte of the file has changed, and a cursor behind its end has made it
        longer, by bytes that were not written. */
    twostate predicate Sought()
      requires old(Usable()) && Usable()
      reads this, buf, fs, fs.disk, fs.win
    {
      && Stretched() && err == Ok && Needed(|old(chain)|, fptr)
      && objsize == (if fptr > old(objsize) then fptr else old(objsize))
      && Content()[..old(objsize)] == old(Content())
    }

    /** Ends a seek: a cursor behind the end of the file makes it longer, and the sector the cursor is
        in, if it is inside one, is loaded. */
    method Arrive(nsect: nat, ghost j: nat) returns (res: FResult)
      requires Valid() && ClusterSize(fs.g.csize) && (fptr > 0 ==> At(j, fptr)) && fptr <= MAX32 && objsize <= MAX32
      requires fptr % 512 != 0 ==> (forall c :: c in chain ==> 2 <= c) && fptr / 512 < |Sectors(fs.g, chain)|
      requires fptr % 512 != 0 ==> nsect == Sectors(fs.g, chain)[fptr / 512] && fs.DataSectors(nsect, 1)
      modifies this`objsize, this`modified, this`sect, this`slot, this`dirty, buf, fs.disk
      ensures fs.Valid()
      ensures res == Ok ==>
        Usable() && Bytes() == old(Bytes()) && fs.Fat() == old(fs.Fat()) && objsize == old(SizeAt(fptr))
      ensures modified <==> old(modified) || old(fptr > objsize)
      ensures fs.disk.Healthy() ==> res == Ok
    {
      hide Valid, Bytes, ClusterSize, ClusterStart, FatVolume.Valid, FatVolume.Fat, Geometry.Valid, Sectors,
        FatVolume.DataSectors, CursorAt, At;
      res := Ok;
      if fptr > 0 {
        Reach(j, fptr);
      }
      if fptr > objsize {
        Resize(fptr);
        modified := true;
      }
      if fptr % 512 != 0 {
        if nsect != sect {
          res := LoadSector(nsect, fptr / 512);
        } else {
          AlreadyLoaded(fptr / 512);
        }
      }
      if res == Ok {
        Placed0(j, fptr);
      }
    }

    /** Moves the cursor to position `t`. */
    method SeekTo(t: nat) returns (res: FResult)
      requires Usable() && err == Ok && t <= MAX32 && (canWrite || t <= objsize)
      modifies this`err, this`objsize, this`fptr, this`clust, this`sclust, this`chain, this`sect, this`slot,
        this`dirty, this`modified
      modifies buf, fs, fs.win, fs.disk
      ensures res == Ok ==> Usable() && Sought() && fptr <= t && (fptr < t ==> fs.Full() && canWrite && AtEnd())
      ensures res == Ok ==> (modified <==> old(modified) || objsize > old(objsize))
      ensures res != Ok ==> err == res
      ensures fs.disk.Healthy() && Sane(old(fs.Fat())) ==> res == Ok
    {
      hide Valid, Bytes, ClusterSize, FatVolume.Valid, FatVolume.Fat, Sane, FreeCount, Geometry.Valid, Sectors,
        FatVolume.DataSectors, CursorAt, At;
      var ifptr, nsect := fptr, 0;
      ghost var j, b, n := 0, Bytes(), objsize;
      fptr, res := 0, Ok;
      if t > 0 {
        res, nsect, j := SeekCluster(t, ifptr);
        if res != Ok {
          err := res;
          return;
        }
      }
      assert |b| <= |Bytes()| && Bytes()[..|b|] == b;
      res := Arrive(nsect, j);
      if res != Ok {
        err := res;
      } else {
        StillThere(b, Bytes(), n, objsize);
      }
    }

    lemma StillThere(b: seq<byte>, c: seq<byte>, n: nat, m: nat)
      requires n <= |b| <= |c| && c[..|b|] == b && n <= m <= |c|
      ensures c[..m][..n] == b[..n]
    {
      assert c[..m][..n] == c[..|b|][..n];
    }

    lemma Reach(j: nat, p: nat)
      requires Valid() && ClusterSize(fs.g.csize) && At(j, p)
      ensures p <= |Bytes()|
    {
      Placement();
      InLink(fs.g.csize, j, p);
      LinkOf(fs.g.csize, p, j);
      ReachEnd(fs.g.csize, j, |chain|);
    }

    lemma ReachEnd(csize: nat, j: nat, n: nat)
      requires ClusterSize(csize) && j < n
      ensures ClusterStart(csize, j) + 512 * csize <= 512 * (csize * n)
    {
      assert csize * n >= csize * (j + 1) == csize * j + csize;
    }

    lemma AlreadyLoaded(k: nat)
      requires Valid() && ClusterSize(fs.g.csize) && (forall c :: c in chain ==> 2 <= c)
      requires k < |Sectors(fs.g, chain)| && sect == Sectors(fs.g, chain)[k]
      ensures sect != 0 && slot == k
    {
      SameSlot(fs.g, fs.size, fs.Fat(), fs.Area(), fs.winsect, Snapshot(), k);
    }

    lemma Placed0(j: nat, p: nat)
      requires ClusterSize(fs.g.csize) && (p > 0 ==> At(j, p)) && (p % 512 != 0 ==> sect != 0 && slot == p / 512)
      ensures Cursor(p)
    {
      if p > 0 {
        InLink(fs.g.csize, j, p);
      }
    }

    /** Moves the cursor. Without write access it stays within the file; with it the file grows, as far
        as there are clusters. */
    method Lseek(ofs: nat) returns (res: FResult)
      requires ofs <= MAX32
      requires err == Ok ==> Usable()
      modifies this`err, this`objsize, this`fptr, this`clust, this`sclust, this`chain, this`sect, this`slot,
        this`dirty, this`modified
      modifies buf, fs, fs.win, fs.disk
      ensures old(err) != Ok ==> res == old(err)
      ensures old(err) == Ok && res == Ok ==>
        && Usable() && Sought()
        && fptr <= (if ofs > old(objsize) && !canWrite then old(objsize) else ofs)
        && (fptr < (if ofs > old(objsize) && !canWrite then old(objsize) else ofs) ==>
              && fs.Full() && canWrite && AtEnd()
              && fptr == ClusterStart(fs.g.csize, |old(chain)| + old(fs.Room())))
      ensures old(err) == Ok && res == Ok ==> (modified <==> old(modified) || objsize > old(objsize))
      ensures old(err) == Ok && res != Ok ==> err == res
      ensures fs.disk.Healthy() && old(err) == Ok && Sane(old(fs.Fat())) ==> res == Ok
    {
      hide Valid, Bytes, ClusterSize, FatVolume.Valid, FatVolume.Fat, Sane, FreeCount, FatVolume.Full, Geometry.Valid,
        CursorAt, FatVolume.Room, ClusterStart;
      if err != Ok {
        return err;
      }
      var t := ofs;
      if ofs > objsize && !canWrite {
        t := objsize;
      }
      res := SeekTo(t);
      if res == Ok {
        fs.FullIsNoRoom();
      }
    }
  }
}
