/** A file as a plain sequence of bytes with a cursor, on a volume with so much room, and what operations do to it. */
module PlainFiles {
  import opened Bytes
  import opened Optional
  import opened FatGeometry
  import opened FileModel

  datatype FileOp = Seek(ofs: nat) | Write(data: seq<byte>) | Read(count: nat)

  /** A file as a sequence of bytes with a cursor. It has `links` clusters of `unit` bytes, and `room` more can be
      had. */
  datatype Plain<B> = Plain(content: seq<B>, pos: nat, links: nat, room: nat, unit: nat)

  /** What the file was opened for. */
  datatype Access = Access(readable: bool, writable: bool)

  function Least(a: nat, b: nat): (m: nat)
    ensures m == a || m == b
    ensures m <= a && m <= b
  {
    if a <= b then a else b
  }

  predicate Proper<B>(a: Plain<B>)
  {
    0 < a.unit && a.pos <= |a.content| <= a.unit * a.links && |a.content| <= MAX32
  }

  /** How many clusters hold `p` bytes. */
  function Links(unit: nat, p: nat): (n: nat)
    requires 0 < unit
  {
    if p == 0 then 0 else (p - 1) / unit + 1
  }

  lemma LinksAre(unit: nat, p: nat, n: nat)
    requires 0 < unit
    ensures Links(unit, p) <= n <==> p <= unit * n
  {
    if p > 0 {
      var q := (p - 1) / unit;
      assert p - 1 == unit * q + (p - 1) % unit;
      if q + 1 <= n {
        Monotone(unit, q + 1, n);
        assert unit * (q + 1) == unit * q + unit;
      } else {
        Monotone(unit, n, q);
      }
    }
  }

  /** How far a cursor that is to get to `t` gets. */
  function Stop<B>(a: Plain<B>, t: nat): (p: nat)
    ensures p <= t
  {
    Least(t, a.unit * (a.links + a.room))
  }

  /** With the cursor at `p`, and the clusters that takes. */
  function Moved<B>(a: Plain<B>, p: nat): (b: Plain<B>)
    requires Proper(a) && p <= a.unit * (a.links + a.room)
    ensures b.content == a.content && b.pos == p && b.unit == a.unit && b.links + b.room == a.links + a.room
    ensures a.links <= b.links && p <= b.unit * b.links
  {
    LinksAre(a.unit, p, a.links + a.room);
    LinksAre(a.unit, p, a.links);
    LinksAre(a.unit, p, Links(a.unit, p));
    var n := if Links(a.unit, p) <= a.links then a.links else Links(a.unit, p);
    a.(pos := p, links := n, room := a.links + a.room - n)
  }

  /** Where a write of `n` bytes ends: behind all of them, unless the volume is full or the file would reach 4 GiB. */
  function WriteEnd<B>(a: Plain<B>, n: nat): (p: nat)
    requires Proper(a)
    ensures a.pos <= p <= a.pos + n && p <= MAX32 && p <= a.unit * (a.links + a.room)
  {
    Monotone(a.unit, a.links, a.links + a.room);
    Stop(a, Least(a.pos + n, MAX32))
  }

  /** Where a seek ends: at the place, unless the volume is full or it lies behind a file that may only be read. */
  function SeekEnd<B>(a: Plain<B>, ofs: nat, access: Access): (p: nat)
    requires Proper(a)
    ensures p <= ofs && p <= a.unit * (a.links + a.room)
  {
    Monotone(a.unit, a.links, a.links + a.room);
    Stop(a, if ofs > |a.content| && !access.writable then |a.content| else ofs)
  }

  function ReadEnd<B>(a: Plain<B>, n: nat): (p: nat)
    requires Proper(a)
    ensures a.pos <= p <= |a.content| && p <= a.unit * (a.links + a.room)
  {
    Monotone(a.unit, a.links, a.links + a.room);
    a.pos + Least(n, |a.content| - a.pos)
  }

  /** What an operation does to a plain file. A write puts a prefix of the data at the cursor, and a seek for writing
      makes the file longer if need be, by bytes that were not written; nothing else is left open. */
  ghost predicate Does(a: Plain<byte>, op: FileOp, access: Access, b: Plain<byte>, out: seq<byte>)
  {
    Proper(a) && match op
    case Read(n) =>
      if !access.readable then b == a && out == []
      else b == a.(pos := ReadEnd(a, n)) && out == a.content[a.pos..b.pos]
    case Write(data) =>
      && out == []
      && if !access.writable then b == a
         else
           var p := WriteEnd(a, |data|);
           b == Moved(a, p).(content := Overwrite(a.content, a.pos, data[..p - a.pos]))
    case Seek(ofs) =>
      && out == []
      && b == Moved(a, SeekEnd(a, ofs, access)).(content := b.content)
      && |b.content| == (if b.pos > |a.content| then b.pos else |a.content|) && b.content[..|a.content|] == a.content
  }

  /** Operations one after the other. */
  ghost predicate IsPlainRun(a: Plain<byte>, ops: seq<FileOp>, access: Access, b: Plain<byte>, outs: seq<seq<byte>>)
    decreases |ops|
  {
    && |outs| == |ops|
    && if ops == [] then a == b
       else
         var n := |ops| - 1;
         exists m :: IsPlainRun(a, ops[..n], access, m, outs[..n]) && Does(m, ops[n], access, b, outs[n])
  }

  predicate Sized(op: FileOp)
  {
    match op
    case Seek(ofs) => ofs <= MAX32
    case Write(data) => |data| <= MAX32
    case Read(_) => true
  }

  lemma ReadDone(a: Plain<byte>, n: nat, access: Access, b: Plain<byte>, out: seq<byte>)
    requires Proper(a) && (!access.readable ==> b == a && out == [])
    requires access.readable ==> b == a.(pos := a.pos + Least(n, |a.content| - a.pos)) && out == a.content[a.pos..b.pos]
    ensures Does(a, Read(n), access, b, out)
  {
  }

  lemma NothingDone(a: Plain<byte>, data: seq<byte>, access: Access)
    requires Proper(a) && !access.writable
    ensures Does(a, Write(data), access, a, [])
  {
  }

  /** A file of which the cursor is at `b.pos`, short of `t` only at the end of its last cluster with no room left, and
      which has got no clusters beyond: the cursor is where it stops, and the clusters are those it takes. */
  lemma Arrived(a: Plain<byte>, t: nat, b: Plain<byte>)
    requires Proper(a) && Proper(b) && b.unit == a.unit && b.links + b.room == a.links + a.room && b.pos <= t
    requires b.pos < t ==> b.room == 0 && b.pos == ClusterStart(a.unit / 512, b.links) && a.unit % 512 == 0
    requires a.links <= b.links
    requires a.links < b.links ==> a.unit % 512 == 0 && ClusterStart(a.unit / 512, b.links - 1) < b.pos
    ensures b.pos == Stop(a, t) && b.pos <= a.unit * (a.links + a.room)
    ensures b == Moved(a, b.pos).(content := b.content)
  {
    Monotone(a.unit, b.links, b.links + b.room);
    LinksAre(a.unit, b.pos, b.links);
    LinksAre(a.unit, b.pos, a.links);
    if a.links < b.links {
      LinksAre(a.unit, b.pos, b.links - 1);
    }
  }

  lemma WriteDone(a: Plain<byte>, data: seq<byte>, access: Access, bw: nat, b: Plain<byte>)
    requires Proper(a) && Proper(b) && access.writable && b.unit == a.unit && b.links + b.room == a.links + a.room
    requires bw <= (if a.pos + |data| <= MAX32 then |data| else MAX32 - a.pos)
    requires b.pos == a.pos + bw && b.content == Overwrite(a.content, a.pos, data[..bw])
    requires bw < (if a.pos + |data| <= MAX32 then |data| else MAX32 - a.pos) ==>
      b.room == 0 && b.pos == ClusterStart(a.unit / 512, b.links) && a.unit % 512 == 0
    requires a.links <= b.links
    requires a.links < b.links ==> a.unit % 512 == 0 && ClusterStart(a.unit / 512, b.links - 1) < b.pos
    ensures Does(a, Write(data), access, b, [])
  {
    hide ClusterStart, Overwrite;
    Arrived(a, Least(a.pos + |data|, MAX32), b);
  }

  lemma SeekDone(a: Plain<byte>, ofs: nat, access: Access, t: nat, b: Plain<byte>)
    requires Proper(a) && Proper(b) && b.unit == a.unit && b.links + b.room == a.links + a.room
    requires t == (if ofs > |a.content| && !access.writable then |a.content| else ofs) && b.pos <= t
    requires b.pos < t ==> b.room == 0 && b.pos == ClusterStart(a.unit / 512, b.links) && a.unit % 512 == 0
    requires a.links <= b.links
    requires a.links < b.links ==> a.unit % 512 == 0 && ClusterStart(a.unit / 512, b.links - 1) < b.pos
    requires |b.content| == (if b.pos > |a.content| then b.pos else |a.content|)
    requires b.content[..|a.content|] == a.content
    ensures Does(a, Seek(ofs), access, b, [])
  {
    hide ClusterStart;
    Arrived(a, t, b);
  }

  lemma Nothing(a: Plain<byte>, access: Access)
    ensures IsPlainRun(a, [], access, a, [])
  {
  }

  lemma OneMore(a: Plain<byte>, ops: seq<FileOp>, access: Access, m: Plain<byte>, outs: seq<seq<byte>>, op: FileOp,
                b: Plain<byte>, out: seq<byte>)
    requires IsPlainRun(a, ops, access, m, outs) && Does(m, op, access, b, out)
    ensures IsPlainRun(a, ops + [op], access, b, outs + [out])
  {
    hide Does;
    Lengths(a, ops, access, m, outs);
    var n := |ops|;
    assert (ops + [op])[..n] == ops && (outs + [out])[..n] == outs;
  }

  lemma Lengths(a: Plain<byte>, ops: seq<FileOp>, access: Access, b: Plain<byte>, outs: seq<seq<byte>>)
    requires IsPlainRun(a, ops, access, b, outs)
    ensures |outs| == |ops|
  {
  }

  // The run a start and the operations determine

  /** `c` with `d` written at position `at`. */
  function Over<B>(c: seq<B>, at: nat, d: seq<B>): (r: seq<B>)
    requires at <= |c|
    ensures |r| == if at + |d| <= |c| then |c| else at + |d|
  {
    c[..at] + d + if at + |d| <= |c| then c[at + |d|..] else []
  }

  /** All bytes of a file are known. */
  function Known(a: Plain<byte>): (i: Plain<Option<byte>>)
    requires Proper(a)
    ensures Proper(i)
  {
    Plain(seq(|a.content|, k requires 0 <= k < |a.content| => Some(a.content[k])), a.pos, a.links, a.room, a.unit)
  }

  /** The next state, and what is read; the bytes a seek adds are not known. */
  function Next(i: Plain<Option<byte>>, op: FileOp, access: Access): (r: (Plain<Option<byte>>, seq<Option<byte>>))
    requires Proper(i) && Sized(op)
    ensures Proper(r.0) && r.0.unit == i.unit && r.0.links + r.0.room == i.links + i.room && r.0.room <= i.room
  {
    match op
    case Read(n) =>
      if access.readable then (i.(pos := ReadEnd(i, n)), i.content[i.pos..ReadEnd(i, n)]) else (i, [])
    case Write(data) =>
      var p := WriteEnd(i, |data|);
      if access.writable
      then
        var d := seq(p - i.pos, k requires 0 <= k < p - i.pos => Some(data[k]));
        (Wider(Moved(i, p), i, Over(i.content, i.pos, d)), [])
      else (i, [])
    case Seek(ofs) =>
      var p := SeekEnd(i, ofs, access);
      var n := if p > |i.content| then p - |i.content| else 0;
      (Wider(Moved(i, p), i, i.content + seq(n, _ => None)), [])
  }

  /** With this content, which has grown to the cursor at most. */
  function Wider<B>(m: Plain<B>, i: Plain<B>, c: seq<B>): (r: Plain<B>)
    requires Proper(i) && m.unit == i.unit && i.links <= m.links && m.pos <= m.unit * m.links && m.pos <= MAX32
    requires m.pos <= |c| && (|c| <= m.pos || |c| <= |i.content|)
    ensures Proper(r) && r == m.(content := c)
  {
    Monotone(i.unit, i.links, m.links);
    m.(content := c)
  }

  predicate Matches(x: seq<Option<byte>>, y: seq<byte>)
  {
    |x| == |y| && forall k :: 0 <= k < |x| && x[k].Some? ==> x[k].value == y[k]
  }

  predicate AllMatch(x: seq<seq<Option<byte>>>, y: seq<seq<byte>>)
  {
    |x| == |y| && forall k :: 0 <= k < |x| ==> Matches(x[k], y[k])
  }

  /** The same file, as far as its bytes are known. */
  predicate Agrees(i: Plain<Option<byte>>, a: Plain<byte>)
  {
    && Matches(i.content, a.content)
    && i.pos == a.pos && i.links == a.links && i.room == a.room && i.unit == a.unit
  }

  lemma KnownAgrees(a: Plain<byte>)
    requires Proper(a)
    ensures Proper(Known(a)) && Agrees(Known(a), a)
  {
  }

  lemma SameMoved(i: Plain<Option<byte>>, a: Plain<byte>, p: nat)
    requires Proper(i) && Proper(a) && Agrees(i, a) && p <= a.unit * (a.links + a.room)
    ensures Moved(i, p).links == Moved(a, p).links && Moved(i, p).room == Moved(a, p).room
  {
  }

  lemma SeekAgrees(i: Plain<Option<byte>>, a: Plain<byte>, ofs: nat, access: Access, b: Plain<byte>, out: seq<byte>)
    requires Proper(i) && Sized(Seek(ofs)) && Agrees(i, a) && Does(a, Seek(ofs), access, b, out)
    ensures Agrees(Next(i, Seek(ofs), access).0, b) && Next(i, Seek(ofs), access).1 == [] && out == []
  {
    hide Moved;
    SameMoved(i, a, SeekEnd(a, ofs, access));
    assert forall k :: 0 <= k < |a.content| ==> b.content[k] == b.content[..|a.content|][k] == a.content[k];
  }

  lemma WriteAgrees(i: Plain<Option<byte>>, a: Plain<byte>, data: seq<byte>, access: Access, b: Plain<byte>,
                    out: seq<byte>)
    requires Proper(i) && Sized(Write(data)) && Agrees(i, a) && Does(a, Write(data), access, b, out)
    ensures Agrees(Next(i, Write(data), access).0, b) && Next(i, Write(data), access).1 == [] && out == []
  {
    hide Moved;
    SameMoved(i, a, WriteEnd(a, |data|));
  }

  /** One operation leads to the next state. */
  lemma NextAgrees(i: Plain<Option<byte>>, a: Plain<byte>, op: FileOp, access: Access, b: Plain<byte>, out: seq<byte>)
    requires Proper(i) && Sized(op) && Agrees(i, a) && Does(a, op, access, b, out)
    ensures Agrees(Next(i, op, access).0, b) && Matches(Next(i, op, access).1, out)
  {
    match op
    case Read(n) =>
    case Write(data) => WriteAgrees(i, a, data, access, b, out);
    case Seek(ofs) => SeekAgrees(i, a, ofs, access, b, out);
  }

  /** What the operations lead to, and what they read. */
  function RunOf(i: Plain<Option<byte>>, ops: seq<FileOp>, access: Access)
    : (r: (Plain<Option<byte>>, seq<seq<Option<byte>>>))
    requires Proper(i) && forall k :: 0 <= k < |ops| ==> Sized(ops[k])
    ensures Proper(r.0) && |r.1| == |ops| && r.0.unit == i.unit && r.0.links + r.0.room == i.links + i.room
    decreases |ops|
  {
    if ops == [] then (i, [])
    else
      var n := |ops| - 1;
      var m := RunOf(i, ops[..n], access);
      var b := Next(m.0, ops[n], access);
      (b.0, m.1 + [b.1])
  }

  /** Every run is that one, as far as its bytes are known. */
  lemma {:induction false} RunDetermined(i: Plain<Option<byte>>, a: Plain<byte>, ops: seq<FileOp>, access: Access,
                                         b: Plain<byte>, outs: seq<seq<byte>>)
    requires Proper(i) && Agrees(i, a) && (forall k :: 0 <= k < |ops| ==> Sized(ops[k]))
    requires IsPlainRun(a, ops, access, b, outs)
    ensures Agrees(RunOf(i, ops, access).0, b) && AllMatch(RunOf(i, ops, access).1, outs)
    decreases |ops|
  {
    hide Does, Agrees, Matches, Next, Proper;
    if ops != [] {
      var n := |ops| - 1;
      var m :| IsPlainRun(a, ops[..n], access, m, outs[..n]) && Does(m, ops[n], access, b, outs[n]);
      RunDetermined(i, a, ops[..n], access, m, outs[..n]);
      NextAgrees(RunOf(i, ops[..n], access).0, m, ops[n], access, b, outs[n]);
    }
  }

  /** Neither the volume nor the size of a file kept the operation from doing all it was to do. */
  predicate Whole(i: Plain<Option<byte>>, op: FileOp, access: Access, r: Plain<Option<byte>>)
  {
    match op
    case Read(_) => true
    case Write(data) => access.writable && i.pos + |data| <= MAX32 ==> r.pos == i.pos + |data|
    case Seek(ofs) => access.writable || ofs <= |i.content| ==> r.pos == ofs
  }

  lemma ShortIsFull(i: Plain<Option<byte>>, op: FileOp, access: Access)
    requires Proper(i) && Sized(op) && Next(i, op, access).0.room > 0
    ensures Whole(i, op, access, Next(i, op, access).0)
  {
    hide Moved, Over;
    match op
    case Read(_) =>
    case Write(data) =>
      if access.writable {
        RoomLeft(i, WriteEnd(i, |data|));
      }
    case Seek(ofs) => RoomLeft(i, SeekEnd(i, ofs, access));
  }

  lemma RoomLeft<B>(i: Plain<B>, p: nat)
    requires Proper(i) && p <= i.unit * (i.links + i.room)
    ensures Moved(i, p).room > 0 ==> p < i.unit * (i.links + i.room)
  {
    hide Moved;
    var m := Moved(i, p);
    if m.room > 0 {
      Monotone(i.unit, m.links + 1, i.links + i.room);
      assert i.unit * (m.links + 1) == i.unit * m.links + i.unit;
    }
  }

  /** When there is still room in the end, no operation was short. */
  lemma {:induction false} NoneShort(i: Plain<Option<byte>>, ops: seq<FileOp>, access: Access, k: nat)
    requires Proper(i) && (forall k :: 0 <= k < |ops| ==> Sized(ops[k])) && k < |ops|
    requires RunOf(i, ops, access).0.room > 0
    ensures Whole(RunOf(i, ops[..k], access).0, ops[k], access, RunOf(i, ops[..k + 1], access).0)
    decreases |ops|
  {
    hide Next, Whole, Proper, Sized;
    var n := |ops| - 1;
    ShortIsFull(RunOf(i, ops[..n], access).0, ops[n], access);
    if k < n {
      NoneShort(i, ops[..n], access, k);
      assert ops[..n][..k] == ops[..k] && ops[..n][..k + 1] == ops[..k + 1];
    } else {
      assert ops[..k + 1] == ops;
    }
  }

  lemma LastOf(a: Plain<byte>, ops: seq<FileOp>, op: FileOp, access: Access, b: Plain<byte>, outs: seq<seq<byte>>)
    returns (m: Plain<byte>)
    requires IsPlainRun(a, ops + [op], access, b, outs)
    ensures |outs| == |ops| + 1 && IsPlainRun(a, ops, access, m, outs[..|ops|]) && Does(m, op, access, b, outs[|ops|])
  {
    hide Does;
    var n := |ops|;
    assert (ops + [op])[..n] == ops;
    m :| IsPlainRun(a, (ops + [op])[..n], access, m, outs[..n]) && Does(m, (ops + [op])[n], access, b, outs[n]);
  }

  /** What is written to a volume with room for it is read back, whatever the file held and wherever the cursor was. */
  lemma ReadBack(a: Plain<byte>, data: seq<byte>, access: Access, b: Plain<byte>, outs: seq<seq<byte>>)
    requires Proper(a) && access.readable && access.writable && |data| <= MAX32
    requires a.pos + |data| <= MAX32 && a.pos + |data| <= a.unit * (a.links + a.room)
    requires IsPlainRun(a, [Write(data)] + [Seek(a.pos)] + [Read(|data|)], access, b, outs)
    ensures outs[2] == data && b.content == Overwrite(a.content, a.pos, data) && b.pos == a.pos + |data|
  {
    hide IsPlainRun, Does;
    var m2 := LastOf(a, [Write(data)] + [Seek(a.pos)], Read(|data|), access, b, outs);
    var m1 := LastOf(a, [Write(data)], Seek(a.pos), access, m2, outs[..2]);
    assert [] + [Write(data)] == [Write(data)];
    var m0 := LastOf(a, [], Write(data), access, m1, outs[..2][..1]);
    NoOps(a, access, m0, outs[..2][..1][..0]);
    Written(a, data, access, m1, outs[..2][..1][0]);
    Back(m1, a.pos, access, m2, outs[..2][1]);
    Reread(m2, |data|, access, b, outs[2]);
    assert m1.content[a.pos..a.pos + |data|] == data;
  }

  lemma NoOps(a: Plain<byte>, access: Access, b: Plain<byte>, outs: seq<seq<byte>>)
    requires IsPlainRun(a, [], access, b, outs)
    ensures b == a
  {
  }

  lemma Written(a: Plain<byte>, data: seq<byte>, access: Access, b: Plain<byte>, out: seq<byte>)
    requires access.writable && Does(a, Write(data), access, b, out)
    requires a.pos + |data| <= MAX32 && a.pos + |data| <= a.unit * (a.links + a.room)
    ensures b.content == Overwrite(a.content, a.pos, data) && b.pos == a.pos + |data|
  {
    hide Moved, Overwrite;
    assert data[..|data|] == data;
  }

  lemma Back(a: Plain<byte>, ofs: nat, access: Access, b: Plain<byte>, out: seq<byte>)
    requires Does(a, Seek(ofs), access, b, out) && ofs <= a.pos
    ensures b.content == a.content && b.pos == ofs
  {
    hide Moved;
    Monotone(a.unit, a.links, a.links + a.room);
    assert b.content[..|a.content|] == b.content;
  }

  lemma Reread(a: Plain<byte>, n: nat, access: Access, b: Plain<byte>, out: seq<byte>)
    requires access.readable && Does(a, Read(n), access, b, out) && a.pos + n <= |a.content|
    ensures b.content == a.content && b.pos == a.pos + n && out == a.content[a.pos..a.pos + n]
  {
  }
}
