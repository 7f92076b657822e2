/** Sequences of looks at and changes of sectors through the window of a volume, against direct access. */
module WindowRuns {
  import opened Bytes
  import opened Device
  import opened FatGeometry
  import opened FatWindow
  import opened FatVolumes

  /** Looking at a sector, or overwriting bytes of it from byte `k` on. */
  datatype SectorOp = Look(sector: nat) | Change(sector: nat, k: nat, data: seq<byte>)

  /** The operation is on a sector the volume has, not of the second table, and stays inside it. */
  predicate Inside(g: Geometry, size: nat, op: SectorOp)
  {
    op.sector < size && !g.InMirror(512 * op.sector) && (op.Change? ==> op.k + |op.data| <= 512)
  }

  /** Direct access: the bytes after an operation. */
  function Direct(v: seq<byte>, op: SectorOp): (r: seq<byte>)
    requires 512 * (op.sector + 1) <= |v| && (op.Change? ==> op.k + |op.data| <= 512)
    ensures |r| == |v|
  {
    if op.Look? then v else Splice(v, 512 * op.sector + op.k, op.data)
  }

  /** Direct access, operation after operation: `seen` are the sectors looked at or changed, as they are afterwards. */
  ghost predicate IsDirectRun(v: seq<byte>, ops: seq<SectorOp>, v': seq<byte>, seen: seq<seq<byte>>)
    decreases |ops|
  {
    && |seen| == |ops|
    && if ops == [] then v' == v
       else
         var n := |ops| - 1;
         && 512 * (ops[n].sector + 1) <= |v| && (ops[n].Change? ==> ops[n].k + |ops[n].data| <= 512)
         && (exists m :: |m| == |v| && IsDirectRun(v, ops[..n], m, seen[..n]) && v' == Direct(m, ops[n]))
         && |v'| == |v| && seen[n] == v'[512 * ops[n].sector..512 * (ops[n].sector + 1)]
  }

  method Access(fs: FatVolume, op: SectorOp) returns (seen: seq<byte>)
    requires fs.Valid() && fs.disk.Healthy() && Inside(fs.g, fs.size, op)
    modifies fs`wflag, fs`winsect, fs.win, fs.disk
    ensures fs.Valid() && fs.Contents() == Direct(old(fs.Contents()), op)
    ensures seen == fs.Contents()[512 * op.sector..512 * (op.sector + 1)]
  {
    hide Overlaid, Splice, Mirrored;
    var res := fs.MoveWindow(op.sector);
    if op.Change? {
      fs.Edit(op.k, op.data);
      res := fs.MoveWindow(op.sector);
    }
    seen := fs.win[..];
  }

  /** Any sequence of operations through the window sees what direct access sees. Once the window is written back, the
      device holds what direct access would have left, no change being lost, and the second table is a copy of the first
      if it was before. */
  method AccessAll(fs: FatVolume, ops: seq<SectorOp>) returns (seen: seq<seq<byte>>)
    requires fs.Valid() && fs.disk.Healthy() && forall i :: 0 <= i < |ops| ==> Inside(fs.g, fs.size, ops[i])
    modifies fs`wflag, fs`winsect, fs.win, fs.disk
    ensures fs.Valid() && !fs.wflag && IsDirectRun(old(fs.Contents()), ops, fs.Contents(), seen)
    ensures forall i :: 0 <= i < |fs.disk.image| && !fs.g.InMirror(i) ==> fs.disk.image[i] == fs.Contents()[i]
    ensures fs.twins ==> Mirrored(fs.g, fs.size, fs.disk.image, false, 0)
  {
    hide Overlaid, Mirrored, Direct, IsDirectRun;
    seen := [];
    ghost var v := fs.Contents();
    Nothing(v);
    assert ops[..0] == [];
    var i: nat := 0;
    while i < |ops|
      invariant i <= |ops| && fs.Valid() && IsDirectRun(v, ops[..i], fs.Contents(), seen)
    {
      ghost var m := fs.Contents();
      var s := Access(fs, ops[i]);
      OneMore(v, ops[..i], m, seen, ops[i], s);
      assert ops[..i + 1] == ops[..i] + [ops[i]];
      seen := seen + [s];
      i := i + 1;
    }
    assert ops[..i] == ops;
    var res := fs.SyncWindow();
    AllMirrored(fs);
  }

  lemma AllMirrored(fs: FatVolume)
    requires fs.Valid() && fs.disk.Healthy() && !fs.wflag
    ensures fs.twins ==> Mirrored(fs.g, fs.size, fs.disk.image, false, 0)
  {
  }

  lemma Nothing(v: seq<byte>)
    ensures IsDirectRun(v, [], v, [])
  {
  }

  lemma OneMore(v: seq<byte>, ops: seq<SectorOp>, m: seq<byte>, seen: seq<seq<byte>>, op: SectorOp, s: seq<byte>)
    requires |m| == |v| && IsDirectRun(v, ops, m, seen)
    requires 512 * (op.sector + 1) <= |v| && (op.Change? ==> op.k + |op.data| <= 512)
    requires s == Direct(m, op)[512 * op.sector..512 * (op.sector + 1)]
    ensures IsDirectRun(v, ops + [op], Direct(m, op), seen + [s])
  {
    hide Direct;
    Lengths(v, ops, m, seen);
    var n := |ops|;
    assert (ops + [op])[..n] == ops && (seen + [s])[..n] == seen;
  }

  lemma Lengths(v: seq<byte>, ops: seq<SectorOp>, m: seq<byte>, seen: seq<seq<byte>>)
    requires IsDirectRun(v, ops, m, seen)
    ensures |seen| == |ops|
  {
  }
}
