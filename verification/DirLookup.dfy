/** What a lookup in any directory table finds, stated over the bytes of its entries. */
module DirLookup {
  import opened Bytes
  import opened LongNames
  import opened DirTable

  /** An entry in use with the attributes of a part of a long name. */
  predicate HoldsPart(e: seq<byte>)
    requires |e| == 32
  {
    e[0] != 0 && e[0] != 0xE5 && e[11] % 64 == 0x0F
  }

  /** An entry in use of a file or directory: bit 3 of its attributes, which labels and parts have, is clear. */
  predicate HoldsFile(e: seq<byte>)
    requires |e| == 32
  {
    e[0] != 0 && e[0] != 0xE5 && e[11] / 8 % 2 == 0
  }

  /** Entry `i` is preceded by the `n` parts of a long name: the first has number `n` and the flag 0x40, the others
      count down to 1, all have the checksum of the short name, and all read as the name that is looked up. */
  ghost predicate HasName(up: unit -> unit, k: Key, t: seq<seq<byte>>, i: nat, n: nat)
    requires ProperKey(k) && IsTable(t) && i < |t|
  {
    && 1 <= n <= i && n < 64 && t[i - n][0] as int == 0x40 + n
    && (forall x :: i - n < x < i ==> t[x][0] as int == i - x)
    && (forall x :: i - n <= x < i ==> IsChecksum(t[i][..11], t[x][13]))
    && (forall x :: i - n <= x < i ==> HoldsPart(t[x]) && ReadsAs(up, k.buf, t[x]))
  }

  /** The key names entry `i`: by its long name, or by its short name unless that is not looked at. */
  ghost predicate Named(up: unit -> unit, k: Key, t: seq<seq<byte>>, i: nat)
    requires ProperKey(k) && IsTable(t) && i < |t|
  {
    && HoldsFile(t[i])
    && ((!k.noLfn && exists n :: HasName(up, k, t, i, n)) || (!k.loss && t[i][..11] == k.fn))
  }

  /** The first `e` entries are all in front of the end of the table, and the key names none of them. */
  ghost predicate NoneNamed(up: unit -> unit, k: Key, t: seq<seq<byte>>, e: nat)
    requires ProperKey(k) && IsTable(t) && e <= |t|
  {
    forall i :: 0 <= i < e ==> t[i][0] != 0 && !Named(up, k, t, i)
  }

  /** The entry at which the long name in front of entry `i` starts: the last one with the flag 0x40 in the run of parts
      there. */
  ghost predicate IsNameStart(t: seq<seq<byte>>, i: nat, j: nat)
    requires IsTable(t) && i <= |t|
    ensures IsNameStart(t, i, j) ==> j < i
  {
    && j < i && LastPart(t[j]) && (forall x :: j <= x < i ==> HoldsPart(t[x]))
    && (forall x :: j < x < i ==> !LastPart(t[x]))
  }

  // The scan

  lemma Kinds(e: seq<byte>)
    requires |e| == 32
    ensures IsLong(e) <==> HoldsPart(e)
    ensures IsShort(e) <==> HoldsFile(e)
    ensures IsLast(e[0]) <==> LastPart(e)
  {
    AttributeBits(e[11]);
  }

  lemma AttributeBits(a: byte)
    ensures a % 64 / 8 % 2 == a / 8 % 2 && (a % 64 == 0x0F ==> a / 8 % 2 == 1)
  {
    var q, r: int := a as int / 64, a as int % 64;
    var p := r / 8;
    assert a as int == 8 * (8 * q + p) + r % 8;
  }

  /** The entries from `j` below `i` are parts that count down from the number of the first, have its checksum, and read
      as the name looked up. */
  ghost predicate Counts(up: unit -> unit, k: Key, t: seq<seq<byte>>, j: nat, i: nat)
    requires ProperKey(k) && IsTable(t) && i <= |t|
  {
    && j < i && LastPart(t[j])
    && (forall x :: j <= x < i ==> HoldsPart(t[x]) && ReadsAs(up, k.buf, t[x]) && t[x][13] == t[j][13])
    && (forall x :: j < x < i ==> t[x][0] as int == t[j][0] as int - 0x40 - (x - j))
  }

  /** The state of the scan in front of entry `i`. */
  ghost predicate Scanned(up: unit -> unit, k: Key, t: seq<seq<byte>>, i: nat, st: Scan)
    requires ProperKey(k) && IsTable(t) && i <= |t|
  {
    && (forall j: nat :: IsNameStart(t, i, j) && !k.noLfn ==>
          && st.blk == 32 * j && st.sum == t[j][13] as int
          && st.ord == if Counts(up, k, t, j, i) then t[j][0] as int - 0x40 - (i - j) else 0xFF)
    && (NoStart(t, i) || k.noLfn ==> st.blk == NO_BLOCK && st.ord == 0xFF)
  }

  ghost predicate NoStart(t: seq<seq<byte>>, i: nat)
    requires IsTable(t) && i <= |t|
  {
    forall j: nat :: !IsNameStart(t, i, j)
  }

  /** A name that starts at an entry. */
  lemma StartsHere(t: seq<seq<byte>>, i: nat, j: nat)
    requires IsTable(t) && i < |t| && HoldsPart(t[i]) && LastPart(t[i])
    ensures IsNameStart(t, i + 1, j) <==> j == i
  {
  }

  /** A name that goes on over an entry. */
  lemma GoesOn(t: seq<seq<byte>>, i: nat, j: nat)
    requires IsTable(t) && i < |t|
    ensures HoldsPart(t[i]) && !LastPart(t[i]) ==> (IsNameStart(t, i + 1, j) <==> IsNameStart(t, i, j))
    ensures !HoldsPart(t[i]) ==> !IsNameStart(t, i + 1, j)
  {
    if IsNameStart(t, i + 1, j) {
      assert HoldsPart(t[i]) && (j == i ==> LastPart(t[i]));
    }
  }

  lemma OneStart(t: seq<seq<byte>>, i: nat, a: nat, b: nat)
    requires IsTable(t) && i <= |t| && IsNameStart(t, i, a) && IsNameStart(t, i, b)
    ensures a == b
  {
  }

  /** A number that is a multiple of 64 is that of no part. */
  lemma NoNumber(up: unit -> unit, k: Key, e: seq<byte>)
    requires ProperKey(k) && |e| == 32 && e[0] % 64 == 0
    ensures !ReadsAs(up, k.buf, e)
  {
  }

  /** One more part. */
  lemma CountsOn(up: unit -> unit, k: Key, t: seq<seq<byte>>, j: nat, i: nat)
    requires ProperKey(k) && IsTable(t) && j < i < |t|
    ensures Counts(up, k, t, j, i + 1) <==>
      && Counts(up, k, t, j, i) && HoldsPart(t[i]) && ReadsAs(up, k.buf, t[i]) && t[i][13] == t[j][13]
      && t[i][0] as int == t[j][0] as int - 0x40 - (i - j)
  {
    hide ReadsAs, HoldsPart, LastPart;
  }

  lemma CountsOne(up: unit -> unit, k: Key, t: seq<seq<byte>>, i: nat)
    requires ProperKey(k) && IsTable(t) && i < |t|
    ensures Counts(up, k, t, i, i + 1) <==> LastPart(t[i]) && HoldsPart(t[i]) && ReadsAs(up, k.buf, t[i])
  {
    hide ReadsAs, HoldsPart, LastPart;
  }

  /** The scan after an entry with a part. */
  lemma PartScanned(up: unit -> unit, k: Key, t: seq<seq<byte>>, i: nat, st: Scan)
    requires ProperKey(k) && IsTable(t) && i < |t| && HoldsPart(t[i]) && Scanned(up, k, t, i, st)
    ensures Scanned(up, k, t, i + 1, AfterPart(up, k, st, t[i], i))
  {
    hide ReadsAs, HoldsPart, Counts, IsNameStart, PartMatches;
    var e := t[i];
    var r := AfterPart(up, k, st, e, i);
    Kinds(e);
    MatchesIs(up, k.buf, e);
    var n := i + 1;
    forall j: nat
      ensures LastPart(e) ==> (IsNameStart(t, n, j) <==> j == i)
      ensures !LastPart(e) ==> (IsNameStart(t, n, j) <==> IsNameStart(t, i, j))
    {
      if LastPart(e) {
        StartsHere(t, i, j);
      }
      GoesOn(t, i, j);
    }
    CountsOne(up, k, t, i);
    if e[0] == 0x40 {
      NoNumber(up, k, e);
    }
    HeldNonzero(e);
    forall j: nat | IsNameStart(t, n, j) && !k.noLfn
      ensures r.blk == 32 * j && r.sum == t[j][13] as int
      ensures r.ord == if Counts(up, k, t, j, n) then t[j][0] as int - 0x40 - (n - j) else 0xFF
    {
      if j < i {
        CountsOn(up, k, t, j, i);
      }
    }
    assert LastPart(e) ==> IsNameStart(t, n, i);
    if !NoStart(t, i) && !LastPart(e) {
      var j: nat :| IsNameStart(t, i, j);
      assert IsNameStart(t, n, j);
    }
  }

  lemma HeldNonzero(e: seq<byte>)
    requires |e| == 32
    ensures HoldsPart(e) ==> e[0] != 0
  {
  }

  /** The scan after any other entry. */
  lemma OtherScanned(up: unit -> unit, k: Key, t: seq<seq<byte>>, i: nat, st: Scan)
    requires ProperKey(k) && IsTable(t) && i < |t| && !HoldsPart(t[i])
    ensures Scanned(up, k, t, i + 1, Forget(st))
  {
    hide ReadsAs, HoldsPart, Counts, IsNameStart;
    var n := i + 1;
    forall j: nat
      ensures !IsNameStart(t, n, j)
    {
      GoesOn(t, i, j);
    }
  }

  /** A long name counts down to 1 exactly if its number is that of its parts, which is then below 64. */
  lemma CountedDown(up: unit -> unit, k: Key, t: seq<seq<byte>>, j: nat, i: nat)
    requires ProperKey(k) && IsTable(t) && i < |t| && Counts(up, k, t, j, i)
    requires t[j][0] as int - 0x40 == i - j
    ensures i - j < 64
  {
    hide ReadsAs, HoldsPart;
    var n := i - j;
    if n == 128 {
      NoNumber(up, k, t[j]);
    } else if n > 128 {
      assert t[j + (n - 128)][0] as int == 128;
      NoNumber(up, k, t[j + (n - 128)]);
    }
  }

  /** The scan has come to the end of the long name of entry `i` exactly when it names the entry. */
  lemma EndsName(up: unit -> unit, k: Key, t: seq<seq<byte>>, i: nat, st: Scan)
    requires ProperKey(k) && IsTable(t) && i < |t| && Scanned(up, k, t, i, st)
    ensures st.ord == 0 && st.sum == Checksum(t[i][..11]) as int <==>
      !k.noLfn && exists n :: HasName(up, k, t, i, n)
  {
    hide ReadsAs, HoldsPart, Checksum, IsChecksum;
    var sum := Checksum(t[i][..11]);
    forall x: nat
      ensures IsChecksum(t[i][..11], x) <==> x == sum as int
    {
      ChecksumExactly(t[i][..11], x);
    }
    if st.ord == 0 && st.sum == sum as int {
      var j: nat :| IsNameStart(t, i, j);
      CountedDown(up, k, t, j, i);
      assert HasName(up, k, t, i, i - j);
    }
    if n :| !k.noLfn && HasName(up, k, t, i, n) {
      NameStarts(up, k, t, i, n);
    }
  }

  lemma NameStarts(up: unit -> unit, k: Key, t: seq<seq<byte>>, i: nat, n: nat)
    requires ProperKey(k) && IsTable(t) && i < |t| && HasName(up, k, t, i, n)
    ensures IsNameStart(t, i, i - n) && Counts(up, k, t, i - n, i) && t[i - n][13] == Checksum(t[i][..11])
  {
    hide ReadsAs, HoldsPart, Checksum, IsChecksum;
    forall x | i - n <= x < i
      ensures t[x][13] == Checksum(t[i][..11])
    {
      ChecksumExactly(t[i][..11], t[x][13]);
    }
  }

  /** What a lookup finds: the first entry the key names, in front of the end of the table, and where its long name
      starts. */
  ghost predicate Finds(up: unit -> unit, k: Key, t: seq<seq<byte>>, r: Lookup)
    requires ProperKey(k) && IsTable(t)
  {
    match r
    case Missing => forall i :: 0 <= i < |t| && (forall j :: 0 <= j <= i ==> t[j][0] != 0) ==> !Named(up, k, t, i)
    case At(i, blk) =>
      && i < |t| && NoneNamed(up, k, t, i) && t[i][0] != 0 && Named(up, k, t, i)
      && (forall j: nat :: IsNameStart(t, i, j) && !k.noLfn ==> blk == 32 * j)
      && (NoStart(t, i) || k.noLfn ==> blk == 0xFFFF_FFFF)
  }

  lemma {:induction false} Scans(up: unit -> unit, k: Key, t: seq<seq<byte>>, e: nat, st: Scan)
    requires ProperKey(k) && IsTable(t) && e <= |t| && Scanned(up, k, t, e, st) && NoneNamed(up, k, t, e)
    ensures Finds(up, k, t, Result(Pass(up, k, st, t[e..], e)))
    decreases |t| - e
  {
    hide HoldsPart, HoldsFile, HasName, IsNameStart, IsLong, IsLabel, AfterPart, Checksum, LastPart;
    if e == |t| {
      PassNothing(up, k, st, t, e);
    } else {
      PassStep(up, k, st, t, e);
      Kinds(t[e]);
      NamedExactly(up, k, t, e, st);
      if HoldsPart(t[e]) {
        PartScanned(up, k, t, e, st);
      } else {
        OtherScanned(up, k, t, e, st);
      }
      if !Examine(up, k, st, t[e], e).End? && !Named(up, k, t, e) {
        Scans(up, k, t, e + 1, Examine(up, k, st, t[e], e).st);
      }
    }
  }

  lemma NamedExactly(up: unit -> unit, k: Key, t: seq<seq<byte>>, e: nat, st: Scan)
    requires ProperKey(k) && IsTable(t) && e < |t| && Scanned(up, k, t, e, st)
    ensures t[e][0] == 0 <==> Examine(up, k, st, t[e], e).End?
    ensures t[e][0] != 0 ==> (Named(up, k, t, e) <==> Examine(up, k, st, t[e], e).Hit?)
    ensures t[e][0] != 0 && !Named(up, k, t, e) ==>
      Examine(up, k, st, t[e], e) == Next(if HoldsPart(t[e]) then AfterPart(up, k, st, t[e], e) else Forget(st))
  {
    hide HasName, Scanned, AfterPart, Checksum, PartMatches;
    Kinds(t[e]);
    EndsName(up, k, t, e, st);
  }

  /** A lookup finds exactly that. */
  lemma LookupExactly(up: unit -> unit, k: Key, t: seq<seq<byte>>)
    requires ProperKey(k) && IsTable(t)
    ensures Finds(up, k, t, Find(up, k, t))
  {
    hide Finds;
    assert t[0..] == t;
    Scans(up, k, t, 0, Start);
  }
}
