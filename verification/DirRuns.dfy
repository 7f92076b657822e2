/** Creating and deleting names in a directory, as opening and unlinking files does. */
module DirRuns {
  import opened Bytes
  import opened Device
  import opened FatWindow
  import opened Chains
  import opened FatVolumes
  import opened FileState
  import opened LongNames
  import opened DirTable
  import opened NewNames
  import opened DirState
  import opened FatDirectories

  /** Every chain but the directory's is as it was when the volume had this table and these bytes, and so are its
      clusters. */
  ghost predicate OthersKept(d: FatDirectory, f: seq<nat>, area: seq<byte>, ch: seq<nat>)
    requires d.Valid()
    reads d`chain, d`base, d.fs`winsect, d.fs`wflag, d.fs.disk, d.fs.win
  {
    forall o :: IsChain(f, o) && Disjoint(o, ch) ==>
      IsChain(d.fs.Fat(), o) && Disjoint(o, d.chain) && SameBytes(d.fs.g, area, d.fs.Area(), o)
  }

  lemma KeepsOthers(d: FatDirectory, f: seq<nat>, area: seq<byte>, ch: seq<nat>)
    requires d.Valid() && d.base == Base(f, area, ch)
    ensures OthersKept(d, f, area, ch)
  {
    hide FatDirectory.Valid, SameBytes, IsChain, Disjoint;
    forall o | IsChain(f, o) && Disjoint(o, ch)
      ensures IsChain(d.fs.Fat(), o) && Disjoint(o, d.chain) && SameBytes(d.fs.g, area, d.fs.Area(), o)
    {
      d.Others(o);
    }
  }

  /** Looks a name up and registers it when it is missing. */
  method Create(d: FatDirectory, granted: nat, ghost name: seq<unit>)
    returns (res: FResult, existed: bool, ghost first: nat, ghost at: nat)
    requires d.Valid() && WellFormed(d.Table()) && KeepsZero(d.up) && d.lfnbuf.Length == MAX_LFN + 1
    requires ProperName(name) && LongNames.Holds(d.lfnbuf[..], name)
    requires |d.fn| == 11 && d.fn[0] != 0 && d.fn[0] != DELETED && d.flags / 64 % 2 == 0
    requires (d.flags % 2 == 1 ==> d.flags / 2 % 2 == 1)
    modifies d`fn, d`flags, d`blkOfs, d`chain, d`base, d`dptr, d`clust, d`sect, d.fs, d.fs.win, d.fs.disk
    ensures res == Ok && existed ==>
      && d.Valid() && d.Table() == old(d.Table()) && d.fn == old(d.fn)
      && Find(d.up, d.SearchKey(), d.Table()) == At(at, d.blkOfs)
    ensures res == Ok && !existed ==> d.Valid() && d.flags == old(d.flags)
    ensures res == Ok && !existed ==>
      && IsCreated(d.up, d.SearchKey(), old(d.Table()), d.Table(), d.flags / 2 % 2 == 1, name, first, at)
      && (if d.flags % 2 == 1 then d.IsChosen(old(d.fn), name, d.fn, old(d.Table())) else d.fn == old(d.fn))
      && at < |d.Table()| && FatDirectory.IsNewEntry(d.Table()[at], d.fn, d.flags)
    ensures res == Ok || res == Denied ==> d.Valid() && OthersKept(d, old(d.fs.Fat()), old(d.fs.Area()), old(d.chain))
    ensures res == DiskErr ==>
      !d.fs.disk.Healthy() && d.base == old(Base(d.fs.Fat(), d.fs.Area(), d.chain)) && d.OthersSurvive()
    ensures res == IntErr ==> !Sane(old(d.fs.Fat()))
  {
    hide *;
    first, at, existed := 0, 0, false;
    d.Mark();
    ghost var t, k := d.Table(), d.SearchKey();
    KeyOf(d);
    IsClosed(t);
    res := d.FindEntry();
    if res == Ok {
      existed, at := true, d.dptr / 32;
    } else if res == DiskErr {
      d.Surviving();
    } else if res == NoFile {
      ghost var u, b, es, e;
      res, u, b, es, e := d.Register(granted, name);
      if res == Ok {
        KeyOf(d);
        Created(d.up, k, d.fn, t, u, b, es, e, d.flags / 2 % 2 == 1, name, d.Table());
        NewEntryAt(t, u, b, es, e, d.flags / 2 % 2 == 1, name, d.fn, d.Table());
        first, at := b, b + |es|;
      }
    }
    if res == Ok || res == Denied {
      KeepsOthers(d, old(d.fs.Fat()), old(d.fs.Area()), old(d.chain));
    }
  }

  lemma KeyOf(d: FatDirectory)
    requires d.lfnbuf.Length == MAX_LFN + 1
    ensures d.SearchKey() == Key(d.lfnbuf[..], d.fn, d.flags % 2 == 1, d.flags / 64 % 2 == 1)
    ensures |d.fn| == 11 ==> ProperKey(d.SearchKey())
  {
  }

  lemma IsClosed(t: seq<seq<byte>>)
    requires IsTable(t) && WellFormed(t)
    ensures Closed(t)
  {
  }

  /** Looks a name up and removes the entries of what it finds. They are found no more, and every lookup that led
      elsewhere does still. */
  method Delete(d: FatDirectory) returns (res: FResult, ghost at: nat)
    requires d.Valid() && WellFormed(d.Table()) && d.lfnbuf.Length == MAX_LFN + 1 && |d.fn| == 11
    requires d.flags / 64 % 2 == 0
    modifies d`blkOfs, d`chain, d`base, d`dptr, d`clust, d`sect, d.fs, d.fs.win, d.fs.disk
    ensures d.Valid() && (res == Ok || res == NoFile || res == DiskErr)
    ensures res == NoFile ==> Find(d.up, d.SearchKey(), old(d.Table())) == Missing && d.Table() == old(d.Table())
    ensures res == Ok ==>
      WellFormed(d.Table()) && (var was := Find(d.up, d.SearchKey(), old(d.Table())); was.At? && was.index == at)
    ensures res == Ok ==> forall q :: ProperKey(q) ==>
      var was, now := Find(d.up, q, old(d.Table())), Find(d.up, q, d.Table());
      if was.At? && was.index == at then !(now.At? && now.index <= at) else now == was
    ensures OthersKept(d, old(d.fs.Fat()), old(d.fs.Area()), old(d.chain))
    ensures d.fs.disk.Healthy() ==> res != DiskErr
  {
    hide *;
    at := 0;
    d.Mark();
    ghost var t := d.Table();
    KeyOf(d);
    res := d.FindEntry();
    if res == Ok {
      at := d.dptr / 32;
      ghost var lo := ObjectFound(d.up, d.SearchKey(), t, at, d.blkOfs);
      res := d.Remove(lo, at);
      if res == Ok {
        RemovedWellFormed(t, lo, at);
        forall q | ProperKey(q)
          ensures var was, now := Find(d.up, q, t), Find(d.up, q, Deleted(t, lo, at));
            if was.At? && was.index == at then !(now.At? && now.index <= at) else now == was
        {
          LookupRemoved(d.up, q, t, lo, at);
        }
      }
    }
    KeepsOthers(d, old(d.fs.Fat()), old(d.fs.Area()), old(d.chain));
  }

  lemma ObjectFound(up: unit -> unit, k: Key, t: seq<seq<byte>>, at: nat, blk: nat) returns (lo: nat)
    requires ProperKey(k) && !k.noLfn && IsTable(t) && WellFormed(t) && Find(up, k, t) == At(at, blk)
    ensures IsObject(t, lo, at) && lo <= at < |t| && if blk == NO_BLOCK then lo == at else blk == 32 * lo
  {
    FoundObject(up, k, t);
    lo := FirstEntry(at, blk);
  }
}
