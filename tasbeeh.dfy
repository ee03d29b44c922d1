/** The tasbeeh counter: a press adds one and wraps from 99 to 1, a reset
    goes back to 0. The press handler queues its state updates, and the
    queue is applied in order on the next render. */
module Tasbeeh {

  const Limit := 99

  /** A queued state update: `setCount(v)` or `setCount(c => c + 1)`. */
  datatype Update = SetTo(value: int) | AddOne

  function Apply(count: int, u: Update): int {
    match u
    case SetTo(v) => v
    case AddOne => count + 1
  }

  /** The state after the queued updates are applied, first to last. */
  function Flush(count: int, queue: seq<Update>): (r: int)
    ensures queue != [] && queue[|queue| - 1].SetTo? ==> r == queue[|queue| - 1].value
    ensures (forall i :: 0 <= i < |queue| ==> queue[i] == AddOne) ==> r == count + |queue|
    decreases |queue|
  {
    if queue == [] then count else Flush(Apply(count, queue[0]), queue[1..])
  }

  /** Flushing two queues one after the other is flushing their
      concatenation. */
  lemma {:induction false} FlushConcat(count: int, a: seq<Update>, b: seq<Update>)
    ensures Flush(count, a + b) == Flush(Flush(count, a), b)
    decreases |a|
  {
    if a == [] {
      assert a + b == b;
    } else {
      assert (a + b)[1..] == a[1..] + b;
      FlushConcat(Apply(count, a[0]), a[1..], b);
    }
  }

  /** What `increment` queues: at the limit a reset to 0 first, then the
      functional add of one. */
  function IncrementQueue(count: int): (q: seq<Update>)
    ensures q != [] && q[|q| - 1] == AddOne
    ensures q[0].SetTo? <==> count == Limit
    ensures count == Limit ==> q == [SetTo(0), AddOne]
  {
    if count == Limit then [SetTo(0), AddOne] else [AddOne]
  }

  /** The count after one press: one more, and 1 rather than 100 after 99. */
  function Pressed(count: int): (r: int)
    ensures count != Limit ==> r == count + 1
    ensures count == Limit ==> r == 1
  {
    var q := IncrementQueue(count);
    if count == Limit then
      assert q[1..] == [AddOne] && q[1..][1..] == [];
      assert Flush(count, q) == Flush(0, [AddOne]) == Flush(1, []);
      Flush(count, q)
    else
      assert q[1..] == [];
      assert Flush(count, q) == Flush(count + 1, []);
      Flush(count, q)
  }

  /** On the counter's range a press is the successor modulo 99, shifted to
      start from 1. */
  lemma PressedIsModular(count: int)
    requires 0 <= count <= Limit
    ensures Pressed(count) == count % Limit + 1
    ensures 1 <= Pressed(count) <= Limit
  {
  }

  datatype Press = Increment | Reset

  /** The count after a run of presses. */
  function Run(count: int, presses: seq<Press>): (r: int)
    ensures presses != [] && presses[|presses| - 1] == Reset ==> r == 0
    decreases |presses|
  {
    if presses == [] then count
    else
      var next := match presses[0] case Increment => Pressed(count) case Reset => 0;
      Run(next, presses[1..])
  }

  /** From 0, or any count in range, no sequence of presses leaves 0..99;
      in particular 100 is never shown. */
  lemma {:induction false} RunStaysInRange(count: int, presses: seq<Press>)
    requires 0 <= count <= Limit
    ensures 0 <= Run(count, presses) <= Limit
    decreases |presses|
  {
    if presses != [] {
      if presses[0] == Increment {
        PressedIsModular(count);
      }
      RunStaysInRange(if presses[0] == Increment then Pressed(count) else 0, presses[1..]);
    }
  }

  /** Ninety-nine presses from 0 reach 99, and the hundredth gives 1. */
  lemma {:induction false} RunCounts(count: int, n: nat)
    requires 0 <= count && count + n <= Limit
    ensures Run(count, seq(n, _ => Increment)) == count + n
    decreases n
  {
    if n > 0 {
      var presses := seq(n, _ => Increment);
      assert presses[1..] == seq(n - 1, _ => Increment);
      RunCounts(count + 1, n - 1);
    }
  }

  class Counter {
    var count: int

    predicate Valid()
      reads this
    {
      0 <= count <= Limit
    }

    constructor ()
      ensures count == 0 && Valid()
    {
      count := 0;
    }

    /** A press: the queued updates are flushed in order. */
    method Increment()
      modifies this
      ensures count == Pressed(old(count))
      ensures old(Valid()) ==> Valid()
    {
      count := Flush(count, IncrementQueue(count));
    }

    method Reset()
      modifies this
      ensures count == 0 && Valid()
    {
      count := 0;
    }
  }
}
