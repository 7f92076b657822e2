/** A bitmap packed into words of 32 bits, the first block in the highest bit. */
module Bitmaps {

  // Bits of a word; bit 0 is the lowest

  predicate BitAt(w: nat, k: nat)
  {
    if k == 0 then w % 2 == 1 else BitAt(w / 2, k - 1)
  }

  /** The word with bit `k` set, or cleared. */
  function WithBit(w: nat, k: nat, on: bool): nat
  {
    if k == 0 then w - w % 2 + (if on then 1 else 0) else 2 * WithBit(w / 2, k - 1, on) + w % 2
  }

  function Power(k: nat): (p: nat)
    ensures p > 0
  {
    if k == 0 then 1 else 2 * Power(k - 1)
  }

  /** Setting a bit adds its weight unless it is set, clearing it takes the weight away if it is. */
  lemma {:induction false} BitWeight(w: nat, k: nat)
    ensures WithBit(w, k, true) == if BitAt(w, k) then w else w + Power(k)
    ensures WithBit(w, k, false) == if BitAt(w, k) then w - Power(k) else w
  {
    if k > 0 {
      BitWeight(w / 2, k - 1);
    }
  }

  lemma {:induction false} BitChanged(w: nat, k: nat, on: bool, j: nat)
    ensures BitAt(WithBit(w, k, on), j) == if j == k then on else BitAt(w, j)
  {
    var v := WithBit(w, k, on);
    if k > 0 {
      assert v / 2 == WithBit(w / 2, k - 1, on) && v % 2 == w % 2;
      if j > 0 {
        BitChanged(w / 2, k - 1, on, j - 1);
      }
    } else {
      assert v / 2 == w / 2;
    }
  }

  lemma {:induction false} StaysSmall(w: nat, k: nat, on: bool, n: nat)
    requires w < Power(n) && k < n
    ensures WithBit(w, k, on) < Power(n)
  {
    if k > 0 {
      StaysSmall(w / 2, k - 1, on, n - 1);
    }
  }

  /** The weights of the highest and the lowest bit of a word. */
  lemma Weights()
    ensures Power(31) == 0x8000_0000 && Power(0) == 1
  {
    assert Power(4) == 0x10 && Power(8) == 0x100 && Power(12) == 0x1000 && Power(16) == 0x1_0000;
    assert Power(20) == 0x10_0000 && Power(24) == 0x100_0000 && Power(28) == 0x1000_0000;
  }

  class Bitmap {
    const blocks: nat
    const words: array<nat>

    ghost predicate Valid()
      reads words
    {
      && blocks < 0x1_0000_0000
      && blocks <= 32 * words.Length
      && forall i :: 0 <= i < words.Length ==> words[i] < Power(32)
    }

    /** Is this block set? */
    ghost predicate IsSet(b: nat)
      requires Valid() && b < blocks
      reads words
    {
      BitAt(words[b / 32], 31 - b % 32)
    }

    /** The bitmap as a sequence of booleans. */
    ghost function Flags(): (f: seq<bool>)
      requires Valid()
      reads words
      ensures |f| == blocks
    {
      seq(blocks, b requires 0 <= b < blocks && Valid() reads words => IsSet(b))
    }

    constructor (blockCount: nat)
      requires blockCount < 0x1_0000_0000
      ensures Valid() && fresh(words) && blocks == blockCount && Flags() == seq(blockCount, _ => false)
      ensures words.Length == (blockCount + 31) / 32
    {
      blocks := blockCount;
      words := new nat[if blockCount % 32 == 0 then blockCount / 32 else blockCount / 32 + 1](_ => 0);
      new;
      forall b | 0 <= b < blocks
        ensures !IsSet(b)
      {
        NoBits(31 - b % 32);
      }
    }

    /** A bitmap that is to have its first blocks set. Its number of blocks is not stored and stays 0, so it has no
        blocks at all. */
    constructor Reserving(blockCount: nat, reserved: nat)
      requires blockCount < 0x1_0000_0000
      ensures Valid() && fresh(words) && blocks == 0 && Flags() == [] && words.Length == (blockCount + 31) / 32
    {
      blocks := 0;
      words := new nat[if blockCount % 32 == 0 then blockCount / 32 else blockCount / 32 + 1](_ => 0);
      new;
      SetRange(0, reserved);
    }

    static lemma {:induction false} NoBits(k: nat)
      ensures !BitAt(0, k)
    {
      if k > 0 {
        NoBits(k - 1);
      }
    }

    /** Changes the bit of one block: or with its weight, or and with the complement of it. */
    method Change(b: nat, on: bool)
      requires Valid() && b < blocks
      modifies words
      ensures Valid() && Flags() == old(Flags())[b := on]
      ensures forall i :: 0 <= i < words.Length && i != b / 32 ==> words[i] == old(words[i])
      ensures old(Flags())[b] == on ==> words[b / 32] == old(words[b / 32])
      ensures on && !old(Flags())[b] ==> words[b / 32] == old(words[b / 32]) + Power(31 - b % 32)
      ensures !on && old(Flags())[b] ==> words[b / 32] + Power(31 - b % 32) == old(words[b / 32])
    {
      hide Power, BitAt, WithBit;
      var index, bit := b / 32, b % 32;
      var w := words[index];
      StaysSmall(w, 31 - bit, on, 32);
      BitWeight(w, 31 - bit);
      if BitAt(w, 31 - bit) != on {
        words[index] := if on then w + Power(31 - bit) else w - Power(31 - bit);
      }
      forall c | 0 <= c < blocks
        ensures IsSet(c) == if c == b then on else old(IsSet(c))
      {
        if c / 32 == index {
          BitChanged(old(words[index]), 31 - bit, on, 31 - c % 32);
        }
      }
    }

    /** set: a block that does not exist is ignored. */
    method Set(b: nat)
      requires Valid()
      modifies words
      ensures Valid() && Flags() == if b < blocks then old(Flags())[b := true] else old(Flags())
    {
      if b < blocks {
        Change(b, true);
      }
    }

    /** unset: a block that does not exist is ignored. */
    method Unset(b: nat)
      requires Valid()
      modifies words
      ensures Valid() && Flags() == if b < blocks then old(Flags())[b := false] else old(Flags())
    {
      if b < blocks {
        Change(b, false);
      }
    }

    /** check: a block that does not exist is neither set nor clear. */
    method Check(b: nat, on: bool) returns (r: bool)
      requires Valid()
      ensures r <==> b < blocks && Flags()[b] == on
    {
      if b >= blocks {
        return false;
      }
      r := BitAt(words[b / 32], 31 - b % 32) == on;
    }

    /** setRange: sets the blocks of the range that exist. */
    method SetRange(start: nat, length: nat)
      requires Valid()
      modifies words
      ensures Valid() && Flags() == Ranged(old(Flags()), start, length)
    {
      hide IsSet;
      var i: nat := 0;
      ghost var f := Flags();
      while i < length
        invariant i <= length && Valid() && Flags() == Ranged(f, start, i)
      {
        if start + i >= blocks {
          assert Ranged(f, start, i) == Ranged(f, start, length);
          return;
        }
        Set(start + i);
        i := i + 1;
      }
    }

    /** The next block from `start` on that is set, or clear; `blocks` when there is none. */
    method FindNext(start: nat, on: bool) returns (i: nat)
      requires Valid() && start <= blocks
      ensures start <= i <= blocks && IsNext(Flags(), start, on, i)
    {
      i := start;
      while i < blocks
        invariant start <= i <= blocks && forall b :: start <= b < i ==> Flags()[b] != on
      {
        var found := Check(i, on);
        if found {
          return;
        }
        i := i + 1;
      }
    }

    /** findAndSet: sets the first run of `count` clear blocks and tells its start; `blocks` when there is no such
        run. */
    method FindAndSet(count: nat) returns (start: nat)
      requires Valid()
      modifies words
      ensures Valid()
      ensures start <= blocks
      ensures start < blocks ==>
        IsClear(old(Flags()), start, count) && Flags() == Ranged(old(Flags()), start, count)
      ensures start == blocks ==> Flags() == old(Flags())
      ensures start < blocks ==> forall s :: 0 <= s < start ==> !IsClear(old(Flags()), s, count)
      ensures start == blocks && count > 0 ==> forall s :: 0 <= s ==> !IsClear(old(Flags()), s, count)
    {
      hide IsSet, Flags, IsClear, IsNext, Ranged;
      ghost var f := Flags();
      var current: nat := 0;
      while current < blocks
        invariant Valid() && current <= blocks && Flags() == f
        invariant forall s :: 0 <= s < current ==> !IsClear(f, s, count)
        decreases blocks - current
      {
        var nextSet := FindNext(current, true);
        if nextSet - current >= count {
          ClearUpTo(f, current, nextSet, count);
          SetRange(current, count);
          return current;
        }
        ghost var from := current;
        current := FindNext(nextSet, false);
        NoneBetween(f, from, nextSet, current, count);
      }
      start := blocks;
      NoneBehind(f, count);
    }
  }

  /** The flags with those of a range set, as far as they exist. */
  function Ranged(f: seq<bool>, start: nat, length: nat): (r: seq<bool>)
    ensures |r| == |f|
  {
    seq(|f|, i requires 0 <= i < |f| => if start <= i < start + length then true else f[i])
  }

  /** A run of clear blocks. */
  predicate IsClear(f: seq<bool>, start: int, count: nat)
  {
    0 <= start && start + count <= |f| && forall i :: start <= i < start + count ==> !f[i]
  }

  /** Block `i` is the first one from `start` on with this flag, or there is none. */
  predicate IsNext(f: seq<bool>, start: nat, on: bool, i: nat)
  {
    start <= i <= |f| && (forall b :: start <= b < i ==> f[b] != on) && (i < |f| ==> f[i] == on)
  }

  lemma ClearUpTo(f: seq<bool>, current: nat, next: nat, count: nat)
    requires IsNext(f, current, true, next) && next - current >= count
    ensures IsClear(f, current, count)
  {
  }

  /** No run of clear blocks starts between a run that is too short and the next clear block. */
  lemma NoneBetween(f: seq<bool>, from: nat, nextSet: nat, current: nat, count: nat)
    requires IsNext(f, from, true, nextSet) && IsNext(f, nextSet, false, current) && nextSet - from < count
    ensures forall s :: from <= s < current ==> !IsClear(f, s, count)
  {
    forall s | from <= s < current
      ensures !IsClear(f, s, count)
    {
      if s <= nextSet {
        NotClear(f, s, count, nextSet);
      } else {
        NotClear(f, s, count, s);
      }
    }
  }

  lemma NoneBehind(f: seq<bool>, count: nat)
    ensures count > 0 ==> forall s :: |f| <= s ==> !IsClear(f, s, count)
  {
  }

  lemma NotClear(f: seq<bool>, s: int, count: nat, i: nat)
    requires 0 <= s <= i < s + count && (i < |f| ==> f[i])
    ensures !IsClear(f, s, count)
  {
  }
}
