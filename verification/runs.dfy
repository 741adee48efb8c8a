/**
 Successive calls of the iterator: what a caller sees when it pulls values
 one after another, and the `for pos in iter` loop that collects them.
 */
module BitIteratorRuns {
  import opened Wrappers
  import opened Bits
  import opened BitIterators

  /** The values returned by `k` successive calls starting from `it`. */
  function Outputs(it: BitIterator, k: nat): (s: seq<Option<nat>>)
    ensures |s| == k
    decreases k
  {
    if k == 0 then [] else [Next(it).0] + Outputs(Next(it).1, k - 1)
  }

  /** Each listed position wrapped in `Some`, in the same order. */
  function Somes(s: seq<nat>): (o: seq<Option<nat>>)
    ensures |o| == |s|
  {
    if s == [] then [] else [Some(s[0])] + Somes(s[1..])
  }

  /** `n` copies of `x`. */
  function Repeat(x: Option<nat>, n: nat): (s: seq<Option<nat>>)
    ensures |s| == n
  {
    if n == 0 then [] else [x] + Repeat(x, n - 1)
  }

  /**
   True iff pulling from `it` eventually yields `None`: the last bit of
   `data` is 0, or the cursor is already past the end of `data`.
   */
  predicate Terminates(it: BitIterator) {
    !LastBitSet(it.data) || Linear(it) >= 8 * |it.data|
  }

  /** Once a call has returned `None`, the next call returns `None` and leaves the cursor alone. */
  lemma NoneIsAbsorbing(it: BitIterator)
    requires Next(it).0.None?
    ensures Next(Next(it).1) == (None, Next(it).1)
  {
    var after := Next(it).1;
    NextNoneIffExhausted(it);
    NextCursor(it);
    NextNoneIffExhausted(after);
    NextCursor(after);
    LinearDetermines(Next(after).1, after);
  }

  /** Once a call has returned `None`, every later call returns `None`. */
  lemma {:induction false} NoneForever(it: BitIterator, k: nat)
    requires Next(it).0.None?
    ensures Outputs(Next(it).1, k) == Repeat(None, k)
    decreases k
  {
    if k > 0 {
      NoneIsAbsorbing(it);
      NoneForever(Next(it).1, k - 1);
    }
  }

  /**
   With the last bit of `data` set and the cursor on it, a call returns that
   position and the cursor does not move: the failed step is discarded.
   */
  lemma StuckAtLastBit(it: BitIterator)
    requires LastBitSet(it.data) && Linear(it) == 8 * |it.data| - 1
    ensures Next(it) == (Some(8 * |it.data| - 1), it)
  {
    NextNoneIffExhausted(it);
    NextCursor(it);
    LinearDetermines(Next(it).1, it);
  }

  /** From the last bit, when it is set, every call returns that same position. */
  lemma {:induction false} StuckForever(it: BitIterator, k: nat)
    requires LastBitSet(it.data) && Linear(it) == 8 * |it.data| - 1
    ensures Outputs(it, k) == Repeat(Some(8 * |it.data| - 1), k)
    decreases k
  {
    if k > 0 {
      StuckAtLastBit(it);
      StuckForever(it, k - 1);
    }
  }

  /** With the last bit of `data` set, a cursor inside `data` never reaches `None`. */
  lemma {:induction false} NeverNoneWhenLastBitSet(it: BitIterator, k: nat)
    requires LastBitSet(it.data) && Linear(it) < 8 * |it.data|
    ensures None !in Outputs(it, k)
    decreases k
  {
    if k > 0 {
      NextSomeWhileLastBitAhead(it);
      NextCursor(it);
      NeverNoneWhenLastBitSet(Next(it).1, k - 1);
    }
  }

  /**
   One call of a terminating iterator that yields `p` leaves the cursor just
   past `p`, still inside `data`, and the iterator still terminates.
   */
  lemma NextStepsPastYield(it: BitIterator)
    requires Terminates(it) && Next(it).0.Some?
    ensures Linear(Next(it).1) == Next(it).0.value + 1 < 8 * |it.data|
    ensures Terminates(Next(it).1)
  {
    SetBitBeforeLast(it.data, Next(it).0.value);
    NextCursor(it);
  }

  /**
   When `rest` lists the set bits still ahead of a terminating iterator, a
   call that yields takes exactly the head of `rest`, and the tail lists
   what is still ahead afterwards.
   */
  lemma NextTakesHead(it: BitIterator, rest: seq<nat>)
    requires Terminates(it) && rest == SetBitsFrom(it.data, Linear(it))
    requires Next(it).0.Some?
    ensures rest != [] && rest[0] == Next(it).0.value
    ensures rest[1..] == SetBitsFrom(Next(it).1.data, Linear(Next(it).1))
    ensures Terminates(Next(it).1)
  {
    NextStepsPastYield(it);
    NextYieldsHead(it, rest);
    NextYieldsTail(it, rest);
  }

  /**
   Whatever the last bit, a call that yields `p` takes the head of the list
   of set bits still ahead.
   */
  lemma NextYieldsHead(it: BitIterator, rest: seq<nat>)
    requires rest == SetBitsFrom(it.data, Linear(it))
    requires Next(it).0.Some?
    ensures rest != [] && rest[0] == Next(it).0.value
  {
    SetBitsFromHead(it.data, Linear(it), Next(it).0.value, rest);
  }

  /** The tail of that list is the list of set bits after `p`. */
  lemma NextYieldsTail(it: BitIterator, rest: seq<nat>)
    requires rest == SetBitsFrom(it.data, Linear(it))
    requires Next(it).0.Some?
    ensures rest != [] && rest[1..] == SetBitsFrom(it.data, Next(it).0.value + 1)
  {
    SetBitsFromHead(it.data, Linear(it), Next(it).0.value, rest);
  }

  /** A call that yields `None` leaves nothing to list. */
  lemma NextNoneLeavesNothing(it: BitIterator)
    requires Next(it).0.None?
    ensures SetBitsFrom(it.data, Linear(it)) == []
  {
    NextNoneIffExhausted(it);
    SetBitsFromEmpty(it.data, Linear(it));
  }

  /** Wrapping distributes over putting one position in front. */
  lemma SomesCons(p: nat, t: seq<nat>)
    ensures Somes([p] + t) == [Some(p)] + Somes(t)
  {
    assert ([p] + t)[1..] == t;
  }

  /**
   A call yielding the head of `s`, followed by `n - 1` calls giving the rest
   of `s` wrapped in `Some` and then `tail`, gives `s` and then `tail` in `n` calls.
   */
  lemma OutputsStep(it: BitIterator, s: seq<nat>, tail: seq<Option<nat>>, n: nat)
    requires s != [] && Next(it).0 == Some(s[0]) && n == |s| + |tail|
    requires Outputs(Next(it).1, n - 1) == Somes(s[1..]) + tail
    ensures Outputs(it, n) == Somes(s) + tail
  {
    assert Outputs(it, n) == [Some(s[0])] + Outputs(Next(it).1, n - 1);
    assert Somes(s) == [Some(s[0])] + Somes(s[1..]);
    ConcatAssoc([Some(s[0])], Somes(s[1..]), tail);
  }

  /**
   Concatenation is associative. Stated on its own so that the solver proves it
   without the iterator's definitions in scope, where it runs out of resource.
   */
  lemma ConcatAssoc<T>(a: seq<T>, b: seq<T>, c: seq<T>)
    ensures (a + b) + c == a + (b + c)
  {
  }

  /**
   When the iterator terminates, the `Some` values it returns are exactly the
   ascending set-bit positions `s` at or after the cursor, followed by `None`.
   */
  lemma {:induction false} OutputsListSetBits(it: BitIterator, s: seq<nat>)
    requires Terminates(it) && s == SetBitsFrom(it.data, Linear(it))
    ensures Outputs(it, |s| + 1) == Somes(s) + [None]
    decreases |s|
  {
    if Next(it).0.None? {
      NextNoneLeavesNothing(it);
      assert Outputs(it, 1) == [None] + Outputs(Next(it).1, 0);
    } else {
      NextTakesHead(it, s);
      OutputsListSetBits(Next(it).1, s[1..]);
      OutputsStep(it, s, [None], |s| + 1);
    }
  }

  /**
   When the last bit of `data` is set and still ahead, the first `|s|` calls
   return the set-bit positions `s` at or after the cursor, the last of which
   is that bit.
   */
  lemma {:induction false} StuckPrefix(it: BitIterator, s: seq<nat>)
    requires LastBitSet(it.data) && Linear(it) < 8 * |it.data|
    requires s == SetBitsFrom(it.data, Linear(it))
    ensures Outputs(it, |s|) == Somes(s)
    decreases |s|
  {
    StuckRunStep(it, s);
    if s[0] < 8 * |it.data| - 1 {
      StuckPrefix(Next(it).1, s[1..]);
    } else {
      LastYieldEndsList(it, s);
    }
    assert Somes(s[1..]) + [] == Somes(s[1..]);
    OutputsStep(it, s, [], |s|);
    assert Somes(s) + [] == Somes(s);
  }

  /**
   Those `|s|` calls leave the cursor on the last bit, where `StuckForever`
   applies.
   */
  lemma {:induction false} StuckPrefixEnd(it: BitIterator, s: seq<nat>)
    requires LastBitSet(it.data) && Linear(it) < 8 * |it.data|
    requires s == SetBitsFrom(it.data, Linear(it))
    ensures Linear(After(it, |s|)) == 8 * |it.data| - 1
    decreases |s|
  {
    StuckRunStep(it, s);
    assert After(it, |s|) == After(Next(it).1, |s[1..]|);
    if s[0] < 8 * |it.data| - 1 {
      StuckPrefixEnd(Next(it).1, s[1..]);
    } else {
      LastYieldEndsList(it, s);
      LastYieldStays(it);
    }
  }

  /** The state after `m` calls starting from `it`. */
  function After(it: BitIterator, m: nat): (r: BitIterator)
    ensures r.data == it.data
    decreases m
  {
    if m == 0 then it else After(Next(it).1, m - 1)
  }

  /**
   One call while the set last bit is still ahead: it yields the head of the
   list of set bits ahead and, unless that head is the last bit, moves just
   past it, still before the last bit.
   */
  lemma StuckRunStep(it: BitIterator, s: seq<nat>)
    requires LastBitSet(it.data) && Linear(it) < 8 * |it.data|
    requires s == SetBitsFrom(it.data, Linear(it))
    ensures Next(it).0.Some? && s != [] && s[0] == Next(it).0.value
    ensures s[0] < 8 * |it.data| - 1 ==>
              && Linear(Next(it).1) < 8 * |it.data|
              && s[1..] == SetBitsFrom(it.data, Linear(Next(it).1))
  {
    NextSomeWhileLastBitAhead(it);
    NextYieldsHead(it, s);
    NextYieldsTail(it, s);
    NextCursor(it);
  }

  /** A call that yields the last bit has nothing after it left to list. */
  lemma LastYieldEndsList(it: BitIterator, s: seq<nat>)
    requires s == SetBitsFrom(it.data, Linear(it))
    requires Next(it).0 == Some(8 * |it.data| - 1)
    ensures s == [8 * |it.data| - 1]
  {
    NextYieldsHead(it, s);
    NextYieldsTail(it, s);
    assert SetBitsFrom(it.data, 8 * |it.data|) == [];
    assert s == [s[0]] + s[1..];
  }

  /** A call that yields the last bit leaves the cursor on that bit. */
  lemma LastYieldStays(it: BitIterator)
    requires Next(it).0 == Some(8 * |it.data| - 1)
    ensures Linear(Next(it).1) == 8 * |it.data| - 1
  {
    NextCursor(it);
  }

  /** While the set last bit is still ahead of the cursor, a call yields a value. */
  lemma NextSomeWhileLastBitAhead(it: BitIterator)
    requires LastBitSet(it.data) && Linear(it) < 8 * |it.data|
    ensures Next(it).0.Some?
  {
    NextNoneIffExhausted(it);
    assert BitSet(it.data, 8 * |it.data| - 1);
  }

  /**
   A fresh iterator over `data` whose last bit is 0 returns every set-bit
   position of `data` once, in ascending order, and then `None`.
   */
  lemma FreshIteratorListsSetBits(data: seq<byte>)
    requires !LastBitSet(data)
    ensures Outputs(New(data), |SetBits(data)| + 1) == Somes(SetBits(data)) + [None]
  {
    OutputsListSetBits(New(data), SetBits(data));
  }

  /** Over empty data, the first call and every later call return `None`. */
  lemma EmptyDataYieldsNothing(k: nat)
    ensures Outputs(New([]), k) == Repeat(None, k)
  {
    var it := New([]);
    NextNoneIffExhausted(it);
    NextCursor(it);
    LinearDetermines(Next(it).1, it);
    if k > 0 {
      NoneForever(it, k - 1);
    }
  }

  /**
   Pulls values until the iterator returns `None`, collecting them in order,
   as a `for pos in iter` loop does. It returns only when the iterator
   terminates, hence the precondition.
   */
  method Drain(it: BitIterator) returns (ps: seq<nat>)
    requires Terminates(it)
    ensures ps == SetBitsFrom(it.data, Linear(it))
  {
    ps := [];
    var cur := it;
    ghost var rest := SetBitsFrom(it.data, Linear(it));
    while true
      invariant cur.data == it.data
      invariant Terminates(cur)
      invariant rest == SetBitsFrom(cur.data, Linear(cur))
      invariant ps + rest == SetBitsFrom(it.data, Linear(it))
      decreases |rest|
    {
      var r := Next(cur);
      if r.0.None? {
        NextNoneLeavesNothing(cur);
        assert ps + rest == ps;
        return;
      }
      NextTakesHead(cur, rest);
      ConcatAssoc(ps, [rest[0]], rest[1..]);
      assert [rest[0]] + rest[1..] == rest;
      ps := ps + [r.0.value];
      rest := rest[1..];
      cur := r.1;
    }
  }

  /** The demonstration program's input. */
  const DemoBytes: seq<byte> := [1, 2, 4, 8]

  /** Past bit 27 the demonstration input has no set bit. */
  lemma DemoFrom28()
    ensures SetBitsFrom(DemoBytes, 28) == []
  {
    assert NoSetBitIn(DemoBytes, 28, 32);
    SetBitsFromSkipZeros(DemoBytes, 28, 32);
  }

  /**
   The set bits of the demonstration input from `from` on are `p` and then
   those from `p + 1` on, for each of the four set bits `p` and the position
   `from` just after the set bit before it.
   */
  lemma DemoGap(from: nat, p: nat)
    requires (from, p) in {(19, 27), (10, 18), (1, 9), (0, 0)}
    ensures SetBitsFrom(DemoBytes, from) == [p] + SetBitsFrom(DemoBytes, p + 1)
  {
    assert NoSetBitIn(DemoBytes, from, p) && BitSet(DemoBytes, p);
    SetBitsFromSkip(DemoBytes, from, p);
  }

  /** The set bits of the demonstration input are 0, 9, 18 and 27. */
  lemma DemoSetBits()
    ensures SetBits(DemoBytes) == [0, 9, 18, 27]
  {
    DemoFrom28();
    DemoGap(19, 27);
    DemoGap(10, 18);
    DemoGap(1, 9);
    DemoGap(0, 0);
  }

  /** Five calls on a fresh iterator over the demonstration input give 0, 9, 18, 27 and then `None`. */
  lemma DemoScenario()
    ensures Outputs(New(DemoBytes), 5) == [Some(0), Some(9), Some(18), Some(27), None]
  {
    DemoSetBits();
    assert !LastBitSet(DemoBytes);
    FreshIteratorListsSetBits(DemoBytes);
    DemoSomes(SetBits(DemoBytes));
  }

  /**
   The values of the demonstration run, each wrapped in `Some`, followed by
   `None`. The list is a parameter fixed by the `requires`: written as a
   literal inside `Somes(...)` it makes the solver run out of resource.
   */
  lemma DemoSomes(s: seq<nat>)
    requires s == [0, 9, 18, 27]
    ensures Somes(s) + [None] == [Some(0), Some(9), Some(18), Some(27), None]
  {
    assert s == [0] + ([9] + ([18] + ([27] + [])));
    SomesCons(27, []);
    SomesCons(18, [27]);
    SomesCons(9, [18, 27]);
    SomesCons(0, [9, 18, 27]);
  }

  /**
   Over `[128]` the only set bit is the last one: every call returns 7 and
   none returns `None`. The input is a parameter fixed by the `requires`
   because with the literal written into the statement the solver evaluates
   the recursive definitions on it and runs out of resource.
   */
  lemma LastBitScenario(data: seq<byte>, k: nat)
    requires data == [128]
    ensures Outputs(New(data), k + 1) == Repeat(Some(7), k + 1)
  {
    var it := New(data);
    assert NoSetBitIn(data, 0, 7) && BitSet(data, 7);
    NextNoneIffExhausted(it);
    NextCursor(it);
    StuckForever(Next(it).1, k);
  }
}
