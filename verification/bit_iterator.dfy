/**
 The bit-position iterator: a cursor `(index, pos)` over a byte sequence that
 yields, one per call, the absolute positions `index * 8 + pos` of bits that
 are 1, scanning bit 0 to bit 7 of byte 0, then of byte 1, and so on.
 */
module BitIterators {
  import opened Wrappers
  import opened Bits

  /** A bit offset inside one byte. Only `New` and `NextBit` write it, and both keep it below 8. */
  type BitOffset = p: nat | p < 8

  /** The iterator state: the observed bytes and the cursor. */
  datatype BitIterator = BitIterator(data: seq<byte>, index: nat, pos: BitOffset)

  /** The cursor's absolute bit position. */
  function Linear(it: BitIterator): nat {
    it.index * 8 + it.pos
  }

  /** The cursor is determined by its data and its absolute position. */
  lemma LinearDetermines(a: BitIterator, b: BitIterator)
    requires a.data == b.data && Linear(a) == Linear(b)
    ensures a == b
  {
    LinearDivMod(a);
    LinearDivMod(b);
  }

  /** The absolute position splits back into the byte index and the bit offset. */
  lemma LinearDivMod(it: BitIterator)
    ensures Linear(it) / 8 == it.index && Linear(it) % 8 == it.pos
  {
  }

  /**
   Rust's test `byte & 1 << k >= 1`, which parses as `byte & (1 << k)`,
   holds exactly when bit `k` of the byte is 1.
   */
  lemma MaskTest(b: byte, k: BitOffset)
    ensures ((b & (1 << k)) >= 1) == ByteBit(b, k)
  {
  }

  /** A fresh iterator over `data`: the cursor sits before every bit. Any `data`, empty included, is accepted. */
  function New(data: seq<byte>): (it: BitIterator)
    ensures it.data == data
    ensures Linear(it) == 0
  {
    BitIterator(data, 0, 0)
  }

  /** Whether the bit under the cursor is 1; a cursor past the last byte reads as 0. */
  function IsCurBitSet(it: BitIterator): (b: bool)
    ensures b <==> BitSet(it.data, Linear(it))
  {
    LinearDivMod(it);
    if it.index < |it.data| then
      MaskTest(it.data[it.index], it.pos);
      (it.data[it.index] & (1 << it.pos)) >= 1
    else
      false
  }

  /**
   Moves the cursor one bit forward. It fails, leaving the cursor where it
   was, exactly when no position follows the cursor's inside `data`.
   */
  function NextBit(it: BitIterator): (r: (Result<(), ()>, BitIterator))
    ensures r.1.data == it.data
    ensures r.0.Failure? <==> Linear(it) + 1 >= 8 * |it.data|
    ensures r.0.Failure? ==> r.1 == it
    ensures r.0.Success? ==> Linear(r.1) == Linear(it) + 1 && r.1.index < |it.data|
  {
    if it.index >= |it.data| || (it.pos == 7 && it.index == |it.data| - 1) then
      (Failure(()), it)
    else if it.pos == 7 then
      (Success(()), it.(pos := 0, index := it.index + 1))
    else
      (Success(()), it.(pos := it.pos + 1))
  }

  /**
   One call of the iterator: the loop in `next`. A value it yields is the
   first set-bit position at or after the cursor, so no set bit is skipped.
   */
  function Next(it: BitIterator): (r: (Option<nat>, BitIterator))
    ensures r.1.data == it.data
    ensures r.0.Some? ==>
              && Linear(it) <= r.0.value
              && BitSet(it.data, r.0.value)
              && NoSetBitIn(it.data, Linear(it), r.0.value)
    decreases 8 * |it.data| - Linear(it)
  {
    if IsCurBitSet(it) then
      var curPos := it.index * 8 + it.pos;
      var (_, after) := NextBit(it);
      (Some(curPos), after)
    else
      var (res, after) := NextBit(it);
      if res.Failure? then (None, after) else Next(after)
  }

  /** A call yields nothing exactly when no set bit remains at or after the cursor. */
  lemma {:induction false} NextNoneIffExhausted(it: BitIterator)
    ensures Next(it).0.None? <==> NoSetBitIn(it.data, Linear(it), 8 * |it.data|)
    decreases 8 * |it.data| - Linear(it)
  {
    if !IsCurBitSet(it) && NextBit(it).0.Success? {
      NextNoneIffExhausted(NextBit(it).1);
    }
  }

  /**
   Where one call leaves the cursor: one past the yielded position, or on it
   when that is the last bit of `data` (the failed step is discarded); after
   `None`, on the last bit, or where it was when already past the end.
   */
  lemma {:induction false} NextCursor(it: BitIterator)
    ensures Next(it).0.Some? ==>
              var p := Next(it).0.value;
              Linear(Next(it).1) == if p + 1 < 8 * |it.data| then p + 1 else p
    ensures Next(it).0.None? ==>
              Linear(Next(it).1) == if Linear(it) < 8 * |it.data| then 8 * |it.data| - 1 else Linear(it)
    decreases 8 * |it.data| - Linear(it)
  {
    if !IsCurBitSet(it) && NextBit(it).0.Success? {
      NextCursor(NextBit(it).1);
    }
  }
}
