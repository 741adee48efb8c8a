/**
 Bit positions in a byte sequence: the reference definitions the iterator is
 measured against. Position `p` names bit `p % 8` (bit 0 is the least
 significant) of byte `p / 8`, so byte 0 holds positions 0..7, byte 1 holds
 8..15, and so on.
 */
module Bits {

  /** An unsigned 8-bit value, as Rust's `u8`. */
  type byte = bv8

  /** True iff bit `k` of `b` is 1 (bit 0 the least significant): `(b >> k) & 1 == 1`. */
  predicate ByteBit(b: byte, k: nat)
    requires k < 8
  {
    match k
    case 0 => b & 1 == 1
    case 1 => (b >> 1) & 1 == 1
    case 2 => (b >> 2) & 1 == 1
    case 3 => (b >> 3) & 1 == 1
    case 4 => (b >> 4) & 1 == 1
    case 5 => (b >> 5) & 1 == 1
    case 6 => (b >> 6) & 1 == 1
    case 7 => (b >> 7) & 1 == 1
  }

  /** True iff position `p` lies inside `data` and the bit there is 1. */
  predicate BitSet(data: seq<byte>, p: nat) {
    p < 8 * |data| && ByteBit(data[p / 8], p % 8)
  }

  /** True iff `data` is non-empty and bit 7 of its last byte is 1. */
  predicate LastBitSet(data: seq<byte>) {
    |data| > 0 && BitSet(data, 8 * |data| - 1)
  }

  /** When bit 7 of the last byte is 0, every set bit has another position after it inside `data`. */
  lemma SetBitBeforeLast(data: seq<byte>, p: nat)
    requires BitSet(data, p) && !LastBitSet(data)
    ensures p + 1 < 8 * |data|
  {
  }

  /** True iff no position in `lo..hi` (half open) holds a 1. */
  predicate NoSetBitIn(data: seq<byte>, lo: nat, hi: nat) {
    forall q :: lo <= q < hi ==> !BitSet(data, q)
  }

  /** True iff the values of `s` strictly increase (hence are also distinct). */
  predicate Increasing(s: seq<nat>) {
    forall i, j :: 0 <= i < j < |s| ==> s[i] < s[j]
  }

  /** The positions at or after `from` whose bit is 1, scanned upward. */
  function SetBitsFrom(data: seq<byte>, from: nat): seq<nat>
    decreases 8 * |data| - from
  {
    if from >= 8 * |data| then []
    else if BitSet(data, from) then [from] + SetBitsFrom(data, from + 1)
    else SetBitsFrom(data, from + 1)
  }

  /** Every set-bit position of `data`, in ascending order. */
  function SetBits(data: seq<byte>): seq<nat> {
    SetBitsFrom(data, 0)
  }

  /** True iff every value of `s` is a position at or after `from` that holds a 1. */
  predicate ListsOnlySetBits(data: seq<byte>, from: nat, s: seq<nat>) {
    forall i :: 0 <= i < |s| ==> from <= s[i] && BitSet(data, s[i])
  }

  /** True iff every position at or after `from` that holds a 1 is a value of `s`. */
  ghost predicate ListsEverySetBit(data: seq<byte>, from: nat, s: seq<nat>) {
    forall q :: from <= q && BitSet(data, q) ==> q in s
  }

  /** Every listed position is at or after `from` and holds a 1. */
  lemma {:induction false} SetBitsFromSound(data: seq<byte>, from: nat)
    ensures ListsOnlySetBits(data, from, SetBitsFrom(data, from))
    decreases 8 * |data| - from
  {
    if from < 8 * |data| {
      var t := SetBitsFrom(data, from + 1);
      SetBitsFromSound(data, from + 1);
      if BitSet(data, from) {
        var s := [from] + t;
        assert forall i :: 1 <= i < |s| ==> s[i] == t[i - 1];
      }
    }
  }

  /** Every position at or after `from` that holds a 1 is listed. */
  lemma {:induction false} SetBitsFromComplete(data: seq<byte>, from: nat)
    ensures ListsEverySetBit(data, from, SetBitsFrom(data, from))
    decreases 8 * |data| - from
  {
    if from < 8 * |data| {
      SetBitsFromComplete(data, from + 1);
    }
  }

  /** The list is in ascending order, so no position is listed twice. */
  lemma {:induction false} SetBitsFromIncreasing(data: seq<byte>, from: nat)
    ensures Increasing(SetBitsFrom(data, from))
    decreases 8 * |data| - from
  {
    if from < 8 * |data| {
      var t := SetBitsFrom(data, from + 1);
      SetBitsFromIncreasing(data, from + 1);
      SetBitsFromSound(data, from + 1);
      if BitSet(data, from) {
        var s := [from] + t;
        assert forall i :: 1 <= i < |s| ==> s[i] == t[i - 1] && from < s[i];
      }
    }
  }

  /** Nothing remains to list exactly when no set bit remains. */
  lemma SetBitsFromEmpty(data: seq<byte>, from: nat)
    ensures SetBitsFrom(data, from) == [] <==> NoSetBitIn(data, from, 8 * |data|)
  {
    var s := SetBitsFrom(data, from);
    if s != [] {
      SetBitsFromSound(data, from);
      assert from <= s[0] && BitSet(data, s[0]);
    } else {
      SetBitsFromComplete(data, from);
    }
  }

  /** Skipping a run of 0 bits does not change the list. */
  lemma {:induction false} SetBitsFromSkipZeros(data: seq<byte>, from: nat, to: nat)
    requires from <= to && NoSetBitIn(data, from, to)
    ensures SetBitsFrom(data, from) == SetBitsFrom(data, to)
    decreases (to as int) - from
  {
    if from < to {
      assert !BitSet(data, from);
      SetBitsFromSkipZeros(data, from + 1, to);
    }
  }

  /** When `p` is the first set bit at or after `from`, the list starts with `p`. */
  lemma SetBitsFromSkip(data: seq<byte>, from: nat, p: nat)
    requires from <= p && BitSet(data, p) && NoSetBitIn(data, from, p)
    ensures SetBitsFrom(data, from) == [p] + SetBitsFrom(data, p + 1)
  {
    SetBitsFromSkipZeros(data, from, p);
  }

  /** The same, read off the list: `p` is its head and the set bits after `p` its tail. */
  lemma SetBitsFromHead(data: seq<byte>, from: nat, p: nat, rest: seq<nat>)
    requires from <= p && BitSet(data, p) && NoSetBitIn(data, from, p)
    requires rest == SetBitsFrom(data, from)
    ensures rest != [] && rest[0] == p && rest[1..] == SetBitsFrom(data, p + 1)
  {
    SetBitsFromSkip(data, from, p);
  }
}
