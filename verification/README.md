# BitIterator in Dafny

This project models `BitIterator` from `codes/rust_trait/src/bit_iterator.rs`.
The iterator wraps a byte sequence and lazily yields the absolute positions
`index * 8 + pos` of the bits that are 1. Within a byte it goes from bit 0 (the
least significant) to bit 7, and it visits byte 0 first, then byte 1, and so on.

The files:

- `wrappers.dfy`: module `Wrappers`, Rust's `Option` and `Result`.
- `bits.dfy`: module `Bits`, the reference definitions the iterator is measured against.
  - `BitSet(data, p)`: bit `p % 8` of `data[p / 8]` is 1.
  - `SetBitsFrom(data, from)`: the ascending list of set-bit positions at or after `from`.
  - Lemmas that make this list sound, complete and strictly increasing.
- `bit_iterator.dfy`: module `BitIterators`, the iterator state and its four operations.
  - The state is an immutable `BitIterator(data, index, pos)` with `pos` in `0..7`.
  - `New`, `IsCurBitSet` and `NextBit` are pure functions. `NextBit` and `Next` return the new state alongside the result.
  - `Next` is the `loop` of `Iterator::next` written as a tail-recursive function. It decreases the measure `8 * |data| - (index * 8 + pos)`.
- `runs.dfy`: module `BitIteratorRuns`, what a caller sees across many calls.
  - `Outputs(it, k)`: the values of `k` successive calls.
  - `Drain`: the `for pos in bit_iter` loop, as a method.
  - Two concrete scenarios: the demonstration input `[1, 2, 4, 8]` and the input `[128]`.

### The last bit of the last byte

Suppose bit 7 of the last byte is 1. Then `next` yields that position and calls
`next_bit`, which fails there. `.ok()` discards the failure, so the cursor does
not move. Every later call yields the same position again, and the iterator
never returns `None`.

A caller might expect a finished iterator to keep returning `None`. This one
never does when bit 7 of the last byte is 1. `StuckPrefix` and `StuckPrefixEnd`
show what happens instead. The first calls yield the set bits ahead of the
cursor, the last bit included, and leave the cursor on that last bit. From
there, `StuckForever` repeats the last position on every call.
`NeverNoneWhenLastBitSet` and `LastBitScenario` state the same thing from the
caller's side. The "every set bit, then `None`" theorems (`OutputsListSetBits`,
`Drain`) require the predicate `Terminates`: that bit is 0, or the cursor is
already past the end of `data`.

## Model

| member | source | states |
|---|---|---|
| BitIterators.New | codes/rust_trait/src/bit_iterator.rs:11-17 | A fresh iterator keeps `data` as given, empty included, and its cursor is at absolute position 0. |
| BitIterators.MaskTest | codes/rust_trait/src/bit_iterator.rs:23 | The Rust test `byte & 1 << pos >= 1` holds exactly when bit `pos` of the byte is 1, because the shift binds tighter than `&`. |
| BitIterators.IsCurBitSet | codes/rust_trait/src/bit_iterator.rs:19-25 | True iff the bit at the cursor's absolute position is a set bit of `data`. It is false, not an error, when `index` is past the end. |
| BitIterators.NextBit | codes/rust_trait/src/bit_iterator.rs:27-41 | The step fails iff the cursor is on or past the last bit of `data`, and then the state is unchanged. On success the absolute position grows by exactly 1 and `index` stays inside `data`. `data` is never changed. |
| BitIterators.LinearDetermines | codes/rust_trait/src/bit_iterator.rs:34-39 | Two cursors over the same data with the same absolute position are equal, since `pos` stays below 8. |
| BitIterators.Next | codes/rust_trait/src/bit_iterator.rs:47-58 | Every call terminates and leaves `data` unchanged. A yielded `p` is a set bit at or after the cursor, with no set bit between the cursor and `p`, so `p` is the first set bit not yet passed. |
| BitIterators.NextNoneIffExhausted | codes/rust_trait/src/bit_iterator.rs:47-56 | A call returns `None` if and only if no set bit lies at or after the cursor. |
| BitIterators.NextCursor | codes/rust_trait/src/bit_iterator.rs:49-56 | After yielding `p` the cursor is at `p + 1`, or stays on `p` when `p` is the last bit of `data`. After `None` it is on the last bit, or where it was if it was already past the end. |
| BitIteratorRuns.NoneIsAbsorbing | codes/rust_trait/src/bit_iterator.rs:27-56 | The call after a `None` returns `None` again and leaves the state untouched. |
| BitIteratorRuns.NoneForever | codes/rust_trait/src/bit_iterator.rs:54-56 | Once `None` has been returned, every one of the next `k` calls returns `None`. |
| BitIteratorRuns.EmptyDataYieldsNothing | codes/rust_trait/src/bit_iterator.rs:11-33 | Over empty data, every call from the first on returns `None`. |
| BitIteratorRuns.StuckAtLastBit | codes/rust_trait/src/bit_iterator.rs:49-52 | With bit 7 of the last byte set and the cursor on it, a call yields that position and leaves the state exactly as it was. |
| BitIteratorRuns.NextSomeWhileLastBitAhead | codes/rust_trait/src/bit_iterator.rs:47-53 | With bit 7 of the last byte set and the cursor not past it, a call yields a value. |
| BitIteratorRuns.StuckRunStep | codes/rust_trait/src/bit_iterator.rs:49-52 | In that state a call yields the head of the list of set bits ahead. Unless the head is the last bit, the cursor stays inside `data`, and the tail lists what is still ahead. |
| BitIteratorRuns.LastYieldEndsList | codes/rust_trait/src/bit_iterator.rs:49-52 | A call that yields the last bit of `data` had only that bit left to list. |
| BitIteratorRuns.LastYieldStays | codes/rust_trait/src/bit_iterator.rs:49-52 | A call that yields the last bit of `data` leaves the cursor on that bit, because the failed step is discarded. |
| BitIteratorRuns.StuckPrefix | codes/rust_trait/src/bit_iterator.rs:47-58 | With bit 7 of the last byte set and the cursor not past it, the first calls yield exactly the ascending list of set bits ahead, the last bit included. |
| BitIteratorRuns.StuckPrefixEnd | codes/rust_trait/src/bit_iterator.rs:49-52 | After those calls, the cursor is on the last bit of `data`. |
| BitIteratorRuns.StuckForever | codes/rust_trait/src/bit_iterator.rs:49-52 | From that state, every one of `k` calls yields the last position. |
| BitIteratorRuns.NeverNoneWhenLastBitSet | codes/rust_trait/src/bit_iterator.rs:49-56 | With bit 7 of the last byte set and the cursor not past the end, none of any `k` calls returns `None`. |
| BitIteratorRuns.NextStepsPastYield | codes/rust_trait/src/bit_iterator.rs:49-52 | When the run terminates, a yield moves the cursor to just past the yielded bit. The run still terminates from there. |
| BitIteratorRuns.NextYieldsHead | codes/rust_trait/src/bit_iterator.rs:47-53 | Whatever the last bit, a yield `p` is the head of the list of set bits from the cursor. |
| BitIteratorRuns.NextYieldsTail | codes/rust_trait/src/bit_iterator.rs:47-53 | The tail of that list is the list of set bits after `p`. |
| BitIteratorRuns.NextTakesHead | codes/rust_trait/src/bit_iterator.rs:47-53 | When the run terminates, a yield is the head of the list of set bits from the cursor. The new cursor's list is the tail. |
| BitIteratorRuns.NextNoneLeavesNothing | codes/rust_trait/src/bit_iterator.rs:54-56 | A `None` means the list of set bits from the cursor is empty. |
| BitIteratorRuns.OutputsListSetBits | codes/rust_trait/src/bit_iterator.rs:47-58 | When the run terminates, the calls yield exactly the ascending list of set bits from the cursor on, each once and in order, followed by `None`. |
| BitIteratorRuns.FreshIteratorListsSetBits | codes/rust_trait/src/bit_iterator.rs:11-58 | When bit 7 of the last byte is 0, a fresh iterator yields every set bit of `data` in ascending order, then `None`. |
| BitIteratorRuns.Drain | codes/rust_trait/src/main.rs:12-15 | The `for pos in bit_iter` loop collects exactly the ascending list of set bits from the cursor on. It stops at the first `None`. |
| BitIteratorRuns.DemoSetBits | codes/rust_trait/src/main.rs:8 | The set bits of `[1, 2, 4, 8]` are 0, 9, 18 and 27. |
| BitIteratorRuns.DemoScenario | codes/rust_trait/src/main.rs:8-12 | Five calls on a fresh iterator over `[1, 2, 4, 8]` give 0, 9, 18, 27 and `None`. |
| BitIteratorRuns.LastBitScenario | codes/rust_trait/src/bit_iterator.rs:49-52 | Over `[128]`, every call from the first on yields 7 and never `None`. |
| Bits.SetBitsFromSound | codes/rust_trait/src/bit_iterator.rs:47-53 | Every entry of the reference list is a set bit at or after its start. |
| Bits.SetBitsFromComplete | codes/rust_trait/src/bit_iterator.rs:47-56 | Every set bit at or after its start is in the reference list. |
| Bits.SetBitsFromIncreasing | codes/rust_trait/src/bit_iterator.rs:47-58 | The reference list is strictly increasing, so it has no duplicate. |
| Bits.SetBitsFromEmpty | codes/rust_trait/src/bit_iterator.rs:54-56 | The reference list is empty iff no set bit lies from its start to the end of the data. |
| Bits.SetBitsFromSkip | codes/rust_trait/src/bit_iterator.rs:48-53 | Starting anywhere before the first set bit `p`, the reference list is `p` followed by the list from `p + 1`. |
| Bits.SetBitsFromHead | codes/rust_trait/src/bit_iterator.rs:48-53 | The same, read off the list: the list from the start is non-empty, `p` is its head, and its tail is the list from `p + 1`. |

## Left out

- The `T: AsRef<[u8]>` type parameter is left out. `data` is a plain `seq<bv8>`, which is what `as_ref()` yields.
- The derived `Copy`, `Clone`, `Debug`, `PartialEq` and `Eq` impls are left out. Datatype values in Dafny are immutable and compared structurally.
- `usize` overflow of `index * 8 + pos` and of `index += 1` is not modelled; positions are unbounded naturals. Overflow needs inputs of more than `usize::MAX / 8` bytes.
- `pos` is a `u8` in Rust but a natural below 8 here. Only `new` and `next_bit` write it, and both keep it in `0..7`.
- `main.rs` printing (`println!`) is left out because it is output only.
- `main.rs` pushes each position into `pending_changes` with the truncating cast `pos as u8`, and later appends the changes to `a`. `Drain` models the collection. The cast and the appending to `a` are left out. For the demonstration input every position is below 256, so the cast would not change any value.
- In the stuck case there is no single lemma saying that `|s| + k` calls yield `s` and then `k` copies of the last position. It follows from `StuckPrefix`, `StuckPrefixEnd` and `StuckForever`, which are stated separately to keep each proof small.
- Lifetimes and borrowing are left out. The iterator borrows `a` while scanning, and the model's `data` is an immutable value.
