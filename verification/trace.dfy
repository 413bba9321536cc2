/** Sequences of `push` and `pop` calls on one ring buffer, made one after the
    other, and what they report. The ring buffer is proved to behave, call for
    call, like the bounded reference queue of capacity `Size - 1`; the
    ordering, conservation and capacity facts then carry over. */
module Trace {
  import Fifo
  import Ring

  /** One call. `value` is the consumer's own variable, which `pop` passes by
      reference: it is returned, updated only by a successful `pop`. */
  function Step<T>(q: Ring.Queue<T>, op: Fifo.Op<T>, value: T): (r: (Ring.Queue<T>, Fifo.Outcome<T>, T))
    requires Ring.WellFormed(q)
  {
    match op
    case PushOp(x) =>
      var r := Ring.Push(q, x);
      (r.queue, if r.ok then Fifo.Accepted(x) else Fifo.Rejected(x), value)
    case PopOp =>
      var r := Ring.Pop(q, value);
      (r.queue, if r.ok then Fifo.Delivered(r.item) else Fifo.Empty, r.item)
  }

  /** A sequence of calls: the queue afterwards and every call's outcome.
      However long the sequence, the size never changes and slot `Size` of the
      array keeps its initial value. */
  function Run<T>(q: Ring.Queue<T>, ops: seq<Fifo.Op<T>>, value: T): (r: (Ring.Queue<T>, seq<Fifo.Outcome<T>>))
    requires Ring.WellFormed(q)
    ensures Ring.WellFormed(r.0) && r.0.size == q.size
    ensures r.0.buffer[q.size] == q.buffer[q.size]
    ensures |r.1| == |ops|
    decreases |ops|
  {
    if |ops| == 0 then (q, [])
    else
      var (q1, o, v1) := Step(q, ops[0], value);
      var (q2, os) := Run(q1, ops[1..], v1);
      (q2, [o] + os)
  }

  /** A single call on a valid ring buffer keeps it valid and does what the
      same call does on the reference queue. */
  lemma StepRefines<T>(q: Ring.Queue<T>, op: Fifo.Op<T>, value: T)
    requires Ring.Valid(q)
    ensures var (q', o, _) := Step(q, op, value);
            Ring.Valid(q') && (Ring.Abs(q'), o) == Fifo.Step(Ring.Abs(q), op)
  {
    match op
    case PushOp(x) =>
      Ring.PushRefines(q, x);
    case PopOp =>
      Ring.PopRefines(q, value);
  }

  /** Any sequence of calls on a valid ring buffer keeps it valid, reports the
      same outcomes as the reference queue and leaves it holding the same
      items. */
  lemma {:induction false} RunRefines<T>(q: Ring.Queue<T>, ops: seq<Fifo.Op<T>>, value: T)
    requires Ring.Valid(q)
    ensures var (q', os) := Run(q, ops, value);
            Ring.Valid(q') && (Ring.Abs(q'), os) == Fifo.Run(Ring.Abs(q), ops)
    decreases |ops|
  {
    if |ops| > 0 {
      var (q1, o, v1) := Step(q, ops[0], value);
      StepRefines(q, ops[0], value);
      RunRefines(q1, ops[1..], v1);
    }
  }

  /** Every sequence of calls delivers items in the order they were accepted,
      without loss or duplication: the items held before, followed by every
      accepted item, are the delivered items followed by the items still
      held. */
  lemma RunConserves<T>(q: Ring.Queue<T>, ops: seq<Fifo.Op<T>>, value: T)
    requires Ring.Valid(q)
    ensures var (q', os) := Run(q, ops, value);
            Ring.Valid(q')
            && Ring.Contents(q) + Fifo.AcceptedItems(os) == Fifo.DeliveredItems(os) + Ring.Contents(q')
  {
    RunRefines(q, ops, value);
    Fifo.RunConserves(Ring.Abs(q), ops);
  }

  /** Starting from an empty queue, `Size - 1` pushes in a row are all
      accepted, leave exactly those items held, and the next push is refused:
      the usable capacity is `Size - 1`, not `Size`. */
  lemma FillsToSizeMinusOne<T>(q: Ring.Queue<T>, xs: seq<T>, y: T, value: T)
    requires Ring.Valid(q) && q.head == q.tail
    requires |xs| == q.size - 1
    ensures var (q', os) := Run(q, Fifo.Pushes(xs), value);
            Ring.Valid(q') && Ring.Contents(q') == xs
            && (forall i :: 0 <= i < |xs| ==> os[i] == Fifo.Accepted(xs[i]))
            && !Ring.Push(q', y).ok
  {
    var f := Ring.Abs(q);
    assert f.items == [];
    var ops := Fifo.Pushes(xs);
    RunRefines(q, ops, value);
    Fifo.FillThenRefuse(f, xs, y);
    var (q', os) := Run(q, ops, value);
    var (f', fos) := Fifo.Run(f, ops);
    assert Ring.Abs(q') == f' && os == fos;
    assert f'.items == xs;
    Ring.PushRefines(q', y);
  }

  /** No outcome in `os` reports an item going into or out of the queue. */
  predicate TransfersNothing<T>(os: seq<Fifo.Outcome<T>>) {
    forall i :: 0 <= i < |os| ==> os[i].Rejected? || os[i].Empty?
  }

  /** With `Size == 1` no sequence of calls on a valid queue ever has an item
      accepted or delivered. */
  lemma {:induction false} SizeOneTransfersNothing<T>(q: Ring.Queue<T>, ops: seq<Fifo.Op<T>>, value: T)
    requires Ring.Valid(q) && q.size == 1
    ensures TransfersNothing(Run(q, ops, value).1)
    decreases |ops|
  {
    if |ops| > 0 {
      var (q1, o, v1) := Step(q, ops[0], value);
      StepRefines(q, ops[0], value);
      Ring.SizeOneRejectsEverything(q, value);
      assert o.Rejected? || o.Empty?;
      SizeOneTransfersNothing(q1, ops[1..], v1);
      var os := Run(q1, ops[1..], v1).1;
      assert Run(q, ops, value).1 == [o] + os;
      forall i | 0 <= i < |ops|
        ensures ([o] + os)[i].Rejected? || ([o] + os)[i].Empty?
      {
        if i > 0 {
          assert ([o] + os)[i] == os[i - 1];
        }
      }
    }
  }
}
