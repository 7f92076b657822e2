/** Sequences of operations on an open file, against a plain sequence of bytes with a cursor. */
module FileRuns {
  import opened Bytes
  import opened Device
  import opened FatGeometry
  import opened FatWindow
  import opened Chains
  import opened FreeCounts
  import opened FileModel
  import opened FileState
  import opened FatVolumes
  import opened FatFiles
  import opened PlainFiles

  /** The open file as a plain one. */
  ghost function PlainOf(f: FatFile): (r: Plain<byte>)
    requires f.Usable()
    reads f, f.buf, f.fs, f.fs.disk, f.fs.win
    ensures Proper(r) && r.content == f.Content() && r.pos == f.fptr && r.links == |f.chain| && r.room == f.fs.Room()
    ensures r.unit == 512 * f.fs.g.csize
  {
    Bounds(f);
    Plain(f.Content(), f.fptr, |f.chain|, f.fs.Room(), 512 * f.fs.g.csize)
  }

  lemma Bounds(f: FatFile)
    requires f.Usable()
    ensures 0 < f.fs.g.csize && f.fptr <= |f.Content()| <= 512 * f.fs.g.csize * |f.chain| && |f.Content()| <= MAX32
    ensures f.Valid() && |f.Content()| == f.objsize
  {
    hide FatFile.Valid, FatFile.Content, FatVolume.Valid, FatVolume.Fat, FatVolume.Area, Placed, CursorAt, Sectors;
    f.Placement();
    f.Fits();
    assert 512 * (f.fs.g.csize * |f.chain|) == 512 * f.fs.g.csize * |f.chain|;
  }

  function AccessOf(f: FatFile): Access
  {
    Access(f.canRead, f.canWrite)
  }

  /** A file in use on a device that works. */
  ghost predicate Running(f: FatFile)
    reads f, f.buf, f.fs`winsect, f.fs`wflag, f.fs.disk, f.fs.win
    ensures Running(f) ==> f.err == Ok && f.Usable()
  {
    f.err == Ok && f.Usable() && f.fs.disk.Healthy() && Sane(f.fs.Fat())
  }

  method PerformRead(f: FatFile, count: nat) returns (out: seq<byte>)
    requires Running(f)
    modifies f`err, f`fptr, f`clust, f`sect, f`slot, f`dirty, f.buf, f.fs`wflag, f.fs`winsect, f.fs.win, f.fs.disk
    ensures Running(f) && Does(old(PlainOf(f)), Read(count), AccessOf(f), PlainOf(f), out)
  {
    hide FatFile.Usable, FatFile.Content, FatVolume.Fat, Sane, Splice, Does, PlainOf, FatFile.Valid, FatVolume.Valid,
      Geometry.Valid, FatFile.Bytes, Proper, RoomIn;
    ghost var a := PlainOf(f);
    Bounds(f);
    var dst := new byte[count](_ => 0);
    ghost var blank := dst[..];
    var res, br := f.Read(dst, count);
    out := dst[..br];
    if f.canRead {
      SplicePrefix(blank, a.content[a.pos..f.fptr]);
    } else {
      assert PlainOf(f) == a;
    }
    ReadDone(a, count, AccessOf(f), PlainOf(f), out);
  }

  method PerformWrite(f: FatFile, data: seq<byte>)
    requires Running(f) && |data| <= MAX32
    modifies f`err, f`objsize, f`fptr, f`clust, f`sclust, f`chain, f`sect, f`slot, f`dirty, f`modified, f.buf, f.fs,
      f.fs.win, f.fs.disk
    ensures Running(f) && Does(old(PlainOf(f)), Write(data), AccessOf(f), PlainOf(f), [])
  {
    hide FatFile.Usable, FatFile.Content, FatVolume.Fat, Sane, Splice, Overwrite, FatVolume.CacheOk, FatFile.Request,
      FatVolume.Full, FatVolume.Room, Does, PlainOf, FatFile.Valid, FatVolume.Valid, Geometry.Valid, FatFile.Bytes,
      Proper, ClusterStart;
    ghost var a := PlainOf(f);
    Bounds(f);
    var src := Buffer(data);
    RequestIs(f, f.fptr, |data|);
    var res, bw := f.Write(src, |data|);
    if f.canWrite {
      f.fs.FullIsNoRoom();
      WriteDone(a, data, AccessOf(f), bw, PlainOf(f));
    } else {
      assert PlainOf(f) == a;
      NothingDone(a, data, AccessOf(f));
    }
  }

  /** A buffer of the caller. */
  method Buffer(data: seq<byte>) returns (src: array<byte>)
    ensures fresh(src) && src[..] == data
  {
    src := new byte[|data|](i requires 0 <= i < |data| => data[i]);
  }

  lemma RequestIs(f: FatFile, p: nat, n: nat)
    requires p <= MAX32 && n <= MAX32
    ensures f.Request(p, n) == if p + n <= MAX32 then n else MAX32 - p
  {
  }

  method PerformSeek(f: FatFile, ofs: nat)
    requires Running(f) && ofs <= MAX32
    modifies f`err, f`objsize, f`fptr, f`clust, f`sclust, f`chain, f`sect, f`slot, f`dirty, f`modified, f.buf, f.fs,
      f.fs.win, f.fs.disk
    ensures Running(f) && Does(old(PlainOf(f)), Seek(ofs), AccessOf(f), PlainOf(f), [])
  {
    hide FatFile.Usable, FatFile.Content, FatVolume.Fat, Sane, FatVolume.CacheOk, FatVolume.Full, FatVolume.Room, Does,
      PlainOf, FatFile.Valid, FatVolume.Valid, Geometry.Valid, FatFile.Bytes, Proper, ClusterStart;
    ghost var a := PlainOf(f);
    Bounds(f);
    var res := f.Lseek(ofs);
    Bounds(f);
    f.fs.FullIsNoRoom();
    SeekDone(a, ofs, AccessOf(f), if ofs > |a.content| && !f.canWrite then |a.content| else ofs, PlainOf(f));
  }

  /** One operation. */
  method Perform(f: FatFile, op: FileOp) returns (out: seq<byte>)
    requires Running(f) && Sized(op)
    modifies f`err, f`objsize, f`fptr, f`clust, f`sclust, f`chain, f`sect, f`slot, f`dirty, f`modified, f.buf, f.fs,
      f.fs.win, f.fs.disk
    ensures Running(f) && Does(old(PlainOf(f)), op, AccessOf(f), PlainOf(f), out)
  {
    hide Running, PlainOf, Does;
    out := [];
    match op
    case Read(n) => out := PerformRead(f, n);
    case Write(d) => PerformWrite(f, d);
    case Seek(ofs) => PerformSeek(f, ofs);
  }

  /** Any sequence of operations: what is read, what the file holds and where the cursor is are those of a plain
      sequence of bytes, and follow from the start and the operations, but for the bytes a seek adds. Every other chain
      of clusters is as it was, with the bytes it had. */
  method PerformAll(f: FatFile, ops: seq<FileOp>) returns (outs: seq<seq<byte>>)
    requires Running(f) && forall i :: 0 <= i < |ops| ==> Sized(ops[i])
    modifies f, f.buf, f.fs, f.fs.win, f.fs.disk
    ensures Running(f) && IsPlainRun(old(PlainOf(f)), ops, AccessOf(f), PlainOf(f), outs)
    ensures var r := RunOf(Known(old(PlainOf(f))), ops, AccessOf(f)); Agrees(r.0, PlainOf(f)) && AllMatch(r.1, outs)
    ensures forall o :: IsChain(old(f.fs.Fat()), o) && Disjoint(o, old(f.chain)) ==>
      IsChain(f.fs.Fat(), o) && Disjoint(o, f.chain) && SameBytes(f.fs.g, old(f.fs.Area()), f.fs.Area(), o)
  {
    hide *;
    outs := [];
    ghost var a := PlainOf(f);
    StartRun(f);
    var i: nat := 0;
    Nothing(a, AccessOf(f));
    assert ops[..0] == [];
    while i < |ops|
      invariant i <= |ops| && Running(f) && IsPlainRun(a, ops[..i], AccessOf(f), PlainOf(f), outs)
      invariant f.base == old(Base(f.fs.Fat(), f.fs.Area(), f.chain))
    {
      ghost var m := PlainOf(f);
      var out := Perform(f, ops[i]);
      OneMore(a, ops[..i], AccessOf(f), m, outs, ops[i], PlainOf(f), out);
      assert ops[..i + 1] == ops[..i] + [ops[i]];
      outs := outs + [out];
      i := i + 1;
    }
    assert ops[..i] == ops;
    KnownAgrees(a);
    RunDetermined(Known(a), a, ops, AccessOf(f), PlainOf(f), outs);
    forall o | IsChain(old(f.fs.Fat()), o) && Disjoint(o, old(f.chain))
      ensures IsChain(f.fs.Fat(), o) && Disjoint(o, f.chain) && SameBytes(f.fs.g, old(f.fs.Area()), f.fs.Area(), o)
    {
      f.Others(o);
    }
  }

  ghost method StartRun(f: FatFile)
    requires Running(f)
    modifies f`base
    ensures Running(f) && PlainOf(f) == old(PlainOf(f)) && f.base == old(Base(f.fs.Fat(), f.fs.Area(), f.chain))
  {
    hide FatFile.Valid, FatFile.Bytes, FatVolume.Valid, FatVolume.Fat, FatVolume.Area, Sane, CursorAt;
    f.Mark();
  }
}
