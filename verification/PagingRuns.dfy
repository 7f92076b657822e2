/** Sequences of operations on all address spaces, against flat maps that do not share anything. */
module PagingRuns {
  import opened Paging

  /** Spaces are numbered in the order of their creation, from 0, the base directory, on. */
  datatype SpaceOp =
    | MapPage(space: nat, phys: nat, virt: address, flags: nat, tablePhys: nat)
    | UnmapPage(space: nat, virt: address)
    | ProtectPage(space: nat, virt: address)
    | NewSpace(granted: bool)

  datatype Answer = Done(ok: bool) | Frees(phys: nat)

  /** What an operation on a page makes of its entry. */
  function Entry(w: nat, op: SpaceOp): (r: nat)
  {
    match op
    case MapPage(_, phys, _, flags, _) => if Present(w) then w else Or(phys, flags)
    case UnmapPage(_, _) => if Removable(w) then 0 else w
    case ProtectPage(_, _) => if Removable(w) then w + 0x200 else w
    case NewSpace(_) => w
  }

  /** What it answers. */
  function Reply(w: nat, op: SpaceOp): Answer
  {
    match op
    case MapPage(_, _, _, _, _) => Done(!Present(w))
    case UnmapPage(_, _) => Frees(Told(w))
    case ProtectPage(_, _) => Done(true)
    case NewSpace(granted) => Done(granted)
  }

  predicate AllFlat(ms: seq<seq<nat>>)
  {
    |ms| > 0 && forall i :: 0 <= i < |ms| ==> |ms[i]| == PAGES
  }

  /** The operation is on one of `n` spaces. */
  predicate On(op: SpaceOp, n: nat)
  {
    op.NewSpace? || op.space < n
  }

  function Spaces(n: nat, op: SpaceOp): nat
  {
    if op.NewSpace? && op.granted then n + 1 else n
  }

  /** Every operation is on a space there is by then. */
  predicate Proper(n: nat, ops: seq<SpaceOp>)
    decreases |ops|
  {
    ops != [] ==> On(ops[0], n) && Proper(Spaces(n, ops[0]), ops[1..])
  }

  /** The flat maps after an operation. */
  function Apply(ms: seq<seq<nat>>, op: SpaceOp): (r: seq<seq<nat>>)
    requires AllFlat(ms) && On(op, |ms|)
    ensures AllFlat(r) && |r| == Spaces(|ms|, op)
  {
    if op.NewSpace? then (if op.granted then ms + [Inherited(ms[0])] else ms)
    else
      var p := PageOf(op.virt);
      seq(|ms|, i requires 0 <= i < |ms| => Update(ms[i], i == op.space, p, Entry(ms[op.space][p], op)))
  }

  function Answered(ms: seq<seq<nat>>, op: SpaceOp): Answer
    requires AllFlat(ms) && On(op, |ms|)
  {
    if op.NewSpace? then Done(op.granted) else Reply(ms[op.space][PageOf(op.virt)], op)
  }

  /** The flat maps after a sequence of operations, and the answers. */
  function RunOf(ms: seq<seq<nat>>, ops: seq<SpaceOp>): (r: (seq<seq<nat>>, seq<Answer>))
    requires AllFlat(ms) && Proper(|ms|, ops)
    ensures AllFlat(r.0) && |ms| <= |r.0| && |r.1| == |ops|
    decreases |ops|
  {
    if ops == [] then (ms, [])
    else
      var rest := RunOf(Apply(ms, ops[0]), ops[1..]);
      (rest.0, [Answered(ms, ops[0])] + rest.1)
  }

  // What every run keeps

  /** The spaces agree on the kernel half. */
  ghost predicate Agree(ms: seq<seq<nat>>)
    requires AllFlat(ms)
  {
    forall i, p :: 0 <= i < |ms| && 0 <= p < PAGES && IsKernelPage(p) ==> ms[i][p] == ms[0][p]
  }

  lemma ApplyAgree(ms: seq<seq<nat>>, op: SpaceOp)
    requires AllFlat(ms) && Agree(ms) && On(op, |ms|)
    ensures Agree(Apply(ms, op))
  {
    hide IsKernelPage, Entry;
  }

  lemma {:induction false} AlwaysAgree(ms: seq<seq<nat>>, ops: seq<SpaceOp>)
    requires AllFlat(ms) && Agree(ms) && Proper(|ms|, ops)
    ensures Agree(RunOf(ms, ops).0)
    decreases |ops|
  {
    hide Agree, Apply;
    if ops != [] {
      ApplyAgree(ms, ops[0]);
      AlwaysAgree(Apply(ms, ops[0]), ops[1..]);
    }
  }

  /** The operation is on page `p`, and in space `i` or on a kernel page. */
  predicate Concerns(op: SpaceOp, i: nat, p: nat)
  {
    !op.NewSpace? && PageOf(op.virt) == p && (op.space == i || IsKernelPage(p))
  }

  /** An entry after those of the operations that concern it. */
  function EntryAfter(w: nat, ops: seq<SpaceOp>, i: nat, p: nat): (r: nat)
    decreases |ops|
  {
    if ops == [] then w
    else EntryAfter(if Concerns(ops[0], i, p) then Entry(w, ops[0]) else w, ops[1..], i, p)
  }

  lemma ApplyEntry(ms: seq<seq<nat>>, op: SpaceOp, i: nat, p: nat)
    requires AllFlat(ms) && Agree(ms) && On(op, |ms|) && i < |ms| && p < PAGES
    ensures Apply(ms, op)[i][p] == if Concerns(op, i, p) then Entry(ms[i][p], op) else ms[i][p]
  {
    hide IsKernelPage, Entry;
  }

  /** No space has a say in another's user half: the entry of a page is made by the operations on that page alone, those
      in the space or, for a kernel page, in all. */
  lemma {:induction false} Isolated(ms: seq<seq<nat>>, ops: seq<SpaceOp>, i: nat, p: nat)
    requires AllFlat(ms) && Agree(ms) && Proper(|ms|, ops) && i < |ms| && p < PAGES
    ensures RunOf(ms, ops).0[i][p] == EntryAfter(ms[i][p], ops, i, p)
    decreases |ops|
  {
    hide Agree, Apply, Concerns, Entry;
    if ops != [] {
      ApplyEntry(ms, ops[0], i, p);
      ApplyAgree(ms, ops[0]);
      Isolated(Apply(ms, ops[0]), ops[1..], i, p);
    }
  }

  /** A protected page stays as it is, whatever is done. */
  lemma {:induction false} StaysProtected(w: nat, ops: seq<SpaceOp>, i: nat, p: nat)
    requires Present(w) && Protected(w)
    ensures EntryAfter(w, ops, i, p) == w
    decreases |ops|
  {
    if ops != [] {
      StaysProtected(w, ops[1..], i, p);
    }
  }

  /** From start-up on, every address space, whenever it was created, has the memory in use and the tables mapped where
      they were mapped first. */
  lemma KernelStays(reserved: nat, ops: seq<SpaceOp>, i: nat, p: nat)
    requires reserved / 4096 + 1024 < 0x1_0000 && Proper(1, ops) && i < |RunOf([BootMap(reserved)], ops).0|
    requires KERNEL_PAGE <= p < KERNEL_PAGE + reserved / 4096 || TABLE_PAGE <= p < TABLE_PAGE + 258
    ensures RunOf([BootMap(reserved)], ops).0[i][p] == BootMap(reserved)[p]
    ensures Present(BootMap(reserved)[p]) && !Removable(BootMap(reserved)[p])
  {
    hide BootMap, RunOf, Proper, Present, Protected, EntryAfter;
    var ms := [BootMap(reserved)];
    BootMapped(reserved, p);
    AlwaysAgree(ms, ops);
    Isolated(ms, ops, 0, p);
    StaysProtected(BootMap(reserved)[p], ops, 0, p);
  }

  // The directories with their shared tables do the same

  /** All directories, in the order of their creation. */
  ghost predicate Listed(s: AddressSpaces, ds: seq<PageDirectory>)
    reads s, set d | d in s.dirs :: d.words, set d | d in s.dirs :: d.tables
  {
    && s.Valid() && |ds| > 0 && ds[0] == s.base
    && (forall d :: d in s.dirs ==> d in ds) && (forall d :: d in ds ==> d in s.dirs)
    && (forall i, j :: 0 <= i < j < |ds| ==> ds[i] != ds[j])
  }

  ghost function Flats(s: AddressSpaces, ds: seq<PageDirectory>): (ms: seq<seq<nat>>)
    requires Listed(s, ds)
    reads s, set d | d in s.dirs :: d.words, set d | d in s.dirs :: d.tables, s.home.Keys
    ensures AllFlat(ms) && |ms| == |ds|
  {
    seq(|ds|, i requires 0 <= i < |ds| && Listed(s, ds)
      reads s, set d | d in s.dirs :: d.words, set d | d in s.dirs :: d.tables, s.home.Keys => s.Flat(ds[i]))
  }

  lemma FlatsAgree(s: AddressSpaces, ds: seq<PageDirectory>)
    requires Listed(s, ds)
    ensures Agree(Flats(s, ds))
  {
    hide AddressSpaces.Valid, AddressSpaces.Flat, IsKernelPage;
    s.AllShared(s.base);
  }

  /** Maps that were changed as an operation does, or not at all when it changes nothing. */
  lemma IsApplied(ms: seq<seq<nat>>, op: SpaceOp, r: seq<seq<nat>>)
    requires AllFlat(ms) && Agree(ms) && On(op, |ms|) && !op.NewSpace? && |r| == |ms|
    requires var p := PageOf(op.virt); var w := ms[op.space][p];
      || (r == ms && Entry(w, op) == w)
      || forall i :: 0 <= i < |ms| ==> r[i] == Update(ms[i], i == op.space, p, Entry(w, op))
    ensures r == Apply(ms, op)
  {
    hide IsKernelPage, Entry;
    var p := PageOf(op.virt);
    forall i | 0 <= i < |ms|
      ensures r[i] == Update(ms[i], i == op.space, p, Entry(ms[op.space][p], op))
    {
      assert IsKernelPage(p) ==> ms[i][p] == ms[0][p] == ms[op.space][p];
      assert ms[i] == ms[i][p := ms[i][p]];
    }
  }

  /** The pages for new tables are none that are in use, and all different. */
  ghost predicate NewFrames(used: set<nat>, ops: seq<SpaceOp>)
  {
    && (forall i :: 0 <= i < |ops| && ops[i].MapPage? ==> Frame(ops[i].tablePhys) !in used)
    && (forall i, j :: 0 <= i < j < |ops| && ops[i].MapPage? && ops[j].MapPage? ==>
          Frame(ops[i].tablePhys) != Frame(ops[j].tablePhys))
  }

  /** The frames an operation may take for a table. */
  function Takes(op: SpaceOp): set<nat>
  {
    if op.MapPage? then {Frame(op.tablePhys)} else {}
  }

  lemma LaterNew(used: set<nat>, now: set<nat>, ops: seq<SpaceOp>)
    requires ops != [] && NewFrames(used, ops) && now <= used + Takes(ops[0])
    ensures NewFrames(now, ops[1..])
  {
    hide Frame;
    var rest := ops[1..];
    assert forall i :: 0 <= i < |rest| ==> rest[i] == ops[i + 1];
  }

  method PerformMap(s: AddressSpaces, ds: seq<PageDirectory>, op: SpaceOp) returns (a: Answer)
    requires Listed(s, ds) && On(op, |ds|) && op.MapPage? && Frame(op.tablePhys) !in s.memory
    modifies s`home, s`memory, ds[op.space].words, ds[op.space].tables, s.home.Keys
    ensures Listed(s, ds) && s.dirs == old(s.dirs) && Flats(s, ds) == Apply(old(Flats(s, ds)), op)
    ensures a == Answered(old(Flats(s, ds)), op)
    ensures old(s.home.Keys) <= s.home.Keys && fresh(s.home.Keys - old(s.home.Keys))
    ensures s.memory.Keys <= old(s.memory.Keys) + Takes(op)
  {
    hide AddressSpaces.Valid, AddressSpaces.Flat, Update, Apply, Or, Present, Agree, Frame;
    FlatsAgree(s, ds);
    var ok := s.Map(ds[op.space], op.phys, op.virt, op.flags, op.tablePhys);
    a := Done(ok);
    IsApplied(old(Flats(s, ds)), op, Flats(s, ds));
  }

  method PerformUnmap(s: AddressSpaces, ds: seq<PageDirectory>, op: SpaceOp) returns (a: Answer)
    requires Listed(s, ds) && On(op, |ds|) && op.UnmapPage?
    modifies s.home.Keys
    ensures Listed(s, ds) && Flats(s, ds) == Apply(old(Flats(s, ds)), op)
    ensures a == Answered(old(Flats(s, ds)), op)
  {
    hide AddressSpaces.Valid, AddressSpaces.Flat, Update, Apply, Removable, Frame, Agree;
    FlatsAgree(s, ds);
    var phys := s.Unmap(ds[op.space], op.virt);
    a := Frees(phys);
    IsApplied(old(Flats(s, ds)), op, Flats(s, ds));
  }

  method PerformProtect(s: AddressSpaces, ds: seq<PageDirectory>, op: SpaceOp)
    requires Listed(s, ds) && On(op, |ds|) && op.ProtectPage?
    modifies s.home.Keys
    ensures Listed(s, ds) && Flats(s, ds) == Apply(old(Flats(s, ds)), op)
  {
    hide AddressSpaces.Valid, AddressSpaces.Flat, Update, Apply, Removable, Agree;
    FlatsAgree(s, ds);
    s.Protect(ds[op.space], op.virt);
    IsApplied(old(Flats(s, ds)), op, Flats(s, ds));
  }

  method PerformNew(s: AddressSpaces, ds: seq<PageDirectory>, granted: bool) returns (r: seq<PageDirectory>)
    requires Listed(s, ds)
    modifies s`dirs
    ensures Listed(s, r) && ds <= r && Flats(s, r) == Apply(old(Flats(s, ds)), NewSpace(granted))
    ensures forall d :: d in r && d !in ds ==> fresh(d) && fresh(d.words) && fresh(d.tables)
  {
    hide AddressSpaces.Valid, AddressSpaces.Flat, Inherited;
    var d := s.CreateAddressSpace(granted);
    r := if d != null then ds + [d] else ds;
  }

  method Perform(s: AddressSpaces, ds: seq<PageDirectory>, op: SpaceOp) returns (r: seq<PageDirectory>, a: Answer)
    requires Listed(s, ds) && On(op, |ds|) && NewFrames(s.memory.Keys, [op])
    modifies s`home, s`memory, s`dirs, set d | d in ds :: d.words, set d | d in ds :: d.tables, s.home.Keys
    ensures Listed(s, r) && ds <= r && Flats(s, r) == Apply(old(Flats(s, ds)), op)
    ensures a == Answered(old(Flats(s, ds)), op)
    ensures forall d :: d in r && d !in ds ==> fresh(d) && fresh(d.words) && fresh(d.tables)
    ensures old(s.home.Keys) <= s.home.Keys && fresh(s.home.Keys - old(s.home.Keys))
    ensures s.memory.Keys <= old(s.memory.Keys) + Takes(op)
  {
    hide Listed, Flats, Apply, Frame;
    assert op.MapPage? ==> [op][0].MapPage?;
    r, a := ds, Done(true);
    match op {
      case MapPage(_, _, _, _, _) => a := PerformMap(s, ds, op);
      case UnmapPage(_, _) => a := PerformUnmap(s, ds, op);
      case ProtectPage(_, _) => PerformProtect(s, ds, op);
      case NewSpace(granted) =>
        a := Done(granted);
        r := PerformNew(s, ds, granted);
    }
  }

  /** A run has come from `ms` to `now`, with these answers, and `rest` is left of it. */
  ghost predicate Left(ms: seq<seq<nat>>, ops: seq<SpaceOp>, now: seq<seq<nat>>, rest: seq<SpaceOp>,
                       answers: seq<Answer>)
    requires AllFlat(ms) && Proper(|ms|, ops)
  {
    && AllFlat(now) && Proper(|now|, rest)
    && RunOf(ms, ops) == (RunOf(now, rest).0, answers + RunOf(now, rest).1)
  }

  lemma LeftNext(ms: seq<seq<nat>>, ops: seq<SpaceOp>, now: seq<seq<nat>>, rest: seq<SpaceOp>, answers: seq<Answer>)
    requires AllFlat(ms) && Proper(|ms|, ops) && Left(ms, ops, now, rest, answers) && rest != []
    ensures AllFlat(now) && On(rest[0], |now|)
    ensures Left(ms, ops, Apply(now, rest[0]), rest[1..], answers + [Answered(now, rest[0])])
  {
    hide Apply, Answered;
    var a, more := Answered(now, rest[0]), RunOf(Apply(now, rest[0]), rest[1..]).1;
    assert answers + ([a] + more) == answers + [a] + more;
  }

  lemma LeftEnds(ms: seq<seq<nat>>, ops: seq<SpaceOp>, now: seq<seq<nat>>, answers: seq<Answer>)
    requires AllFlat(ms) && Proper(|ms|, ops)
    ensures Left(ms, ops, ms, ops, [])
    ensures Left(ms, ops, now, [], answers) ==> RunOf(ms, ops) == (now, answers)
  {
    assert [] + RunOf(ms, ops).1 == RunOf(ms, ops).1 && answers + [] == answers;
  }

  /** Any sequence of operations: the directories are the flat maps of the run on values, with its answers. */
  method PerformAll(s: AddressSpaces, ds: seq<PageDirectory>, ops: seq<SpaceOp>)
    returns (r: seq<PageDirectory>, answers: seq<Answer>)
    requires Listed(s, ds) && Proper(|ds|, ops) && NewFrames(s.memory.Keys, ops)
    modifies s`home, s`memory, s`dirs, set d | d in ds :: d.words, set d | d in ds :: d.tables, s.home.Keys
    ensures Listed(s, r) && ds <= r && Agree(Flats(s, r))
    ensures RunOf(old(Flats(s, ds)), ops) == (Flats(s, r), answers)
    ensures forall i, virt: address :: 0 <= i < |r| ==> WalkIn(s, r, i, virt) == Flats(s, r)[i][PageOf(virt)]
  {
    hide *;
    r, answers := ds, [];
    var i: nat := 0;
    ghost var ms := Flats(s, ds);
    LeftEnds(ms, ops, ms, []);
    assert ops[0..] == ops;
    ghost var used := s.memory.Keys;
    while i < |ops|
      invariant i <= |ops| && Listed(s, r) && ds <= r && Left(ms, ops, Flats(s, r), ops[i..], answers)
      invariant NewFrames(s.memory.Keys, ops[i..])
      invariant forall d :: d in r && d !in ds ==> fresh(d) && fresh(d.words) && fresh(d.tables)
      invariant old(s.home.Keys) <= s.home.Keys && fresh(s.home.Keys - old(s.home.Keys))
    {
      LeftNext(ms, ops, Flats(s, r), ops[i..], answers);
      var a;
      FirstNew(s.memory.Keys, ops[i..]);
      used := s.memory.Keys;
      r, a := Perform(s, r, ops[i]);
      LaterNew(used, s.memory.Keys, ops[i..]);
      assert ops[i..][1..] == ops[i + 1..];
      i, answers := i + 1, answers + [a];
    }
    assert ops[i..] == [];
    LeftEnds(ms, ops, Flats(s, r), answers);
    FlatsAgree(s, r);
    forall k, virt: address | 0 <= k < |r|
      ensures |Flats(s, r)[k]| == PAGES && WalkIn(s, r, k, virt) == Flats(s, r)[k][PageOf(virt)]
    {
      FlatLength(Flats(s, r), k);
      WalksFlat(s, r, k, virt);
    }
  }

  lemma FlatLength(ms: seq<seq<nat>>, i: nat)
    requires AllFlat(ms) && i < |ms|
    ensures |ms[i]| == PAGES
  {
  }

  lemma FirstNew(used: set<nat>, ops: seq<SpaceOp>)
    requires NewFrames(used, ops) && ops != []
    ensures NewFrames(used, [ops[0]])
  {
  }

  /** The entry the hardware comes to in space `i`. */
  ghost function WalkIn(s: AddressSpaces, ds: seq<PageDirectory>, i: nat, virt: address): nat
    requires Listed(s, ds) && i < |ds|
    reads s, set d | d in s.dirs :: d.words, set d | d in s.dirs :: d.tables, s.home.Keys
  {
    s.Walk(ds[i], virt)
  }

  lemma WalksFlat(s: AddressSpaces, ds: seq<PageDirectory>, i: nat, virt: address)
    requires Listed(s, ds) && i < |ds|
    ensures WalkIn(s, ds, i, virt) == Flats(s, ds)[i][PageOf(virt)]
  {
    hide AddressSpaces.Valid, AddressSpaces.Flat, AddressSpaces.Walk;
    s.WalkIsFlat(ds[i], virt);
  }
}
