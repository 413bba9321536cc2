/** The reference behaviour a bounded single-producer/single-consumer queue is
    meant to have, stated without cursors or slots: a sequence of items with a
    fixed capacity. The ring buffer is proved to refine it. */
module Fifo {

  /** A bounded first-in-first-out queue: `items[0]` is the oldest item. */
  datatype Fifo<T> = Fifo(items: seq<T>, capacity: nat)

  /** The queue holds no more than its capacity. */
  predicate Valid<T>(f: Fifo<T>) {
    |f.items| <= f.capacity
  }

  /** Appends `x` at the back when there is room; otherwise refuses and keeps
      the queue as it was. */
  function Enqueue<T>(f: Fifo<T>, x: T): (r: (bool, Fifo<T>)) {
    if |f.items| < f.capacity then (true, f.(items := f.items + [x]))
    else (false, f)
  }

  /** Removes and returns the front item of a non-empty queue. */
  function Dequeue<T>(f: Fifo<T>): (r: (T, Fifo<T>))
    requires |f.items| > 0
  {
    (f.items[0], f.(items := f.items[1..]))
  }

  /** One call made on a queue: a push of an item or a pop. */
  datatype Op<T> = PushOp(item: T) | PopOp

  /** What one call reports back to its caller. */
  datatype Outcome<T> = Accepted(item: T) | Rejected(item: T) | Delivered(item: T) | Empty

  /** The reference effect of one call. */
  function Step<T>(f: Fifo<T>, op: Op<T>): (r: (Fifo<T>, Outcome<T>)) {
    match op
    case PushOp(x) =>
      var (ok, f') := Enqueue(f, x);
      (f', if ok then Accepted(x) else Rejected(x))
    case PopOp =>
      if |f.items| == 0 then (f, Empty)
      else
        var (x, f') := Dequeue(f);
        (f', Delivered(x))
  }

  /** The reference effect of a sequence of calls, with every call's outcome. */
  function Run<T>(f: Fifo<T>, ops: seq<Op<T>>): (r: (Fifo<T>, seq<Outcome<T>>))
    ensures |r.1| == |ops|
    decreases |ops|
  {
    if |ops| == 0 then (f, [])
    else
      var (f1, o) := Step(f, ops[0]);
      var (f2, os) := Run(f1, ops[1..]);
      (f2, [o] + os)
  }

  /** The items a sequence of outcomes reports as accepted, in order. */
  function AcceptedItems<T>(os: seq<Outcome<T>>): (xs: seq<T>)
    decreases |os|
  {
    if |os| == 0 then []
    else (if os[0].Accepted? then [os[0].item] else []) + AcceptedItems(os[1..])
  }

  /** The items a sequence of outcomes reports as delivered, in order. */
  function DeliveredItems<T>(os: seq<Outcome<T>>): (xs: seq<T>)
    decreases |os|
  {
    if |os| == 0 then []
    else (if os[0].Delivered? then [os[0].item] else []) + DeliveredItems(os[1..])
  }

  /** Conservation in order: what was in the queue, followed by everything
      accepted, is exactly what was delivered followed by what is still queued.
      Nothing is lost, duplicated or reordered. */
  lemma {:induction false} RunConserves<T>(f: Fifo<T>, ops: seq<Op<T>>)
    ensures var (f', os) := Run(f, ops);
            f.items + AcceptedItems(os) == DeliveredItems(os) + f'.items
    decreases |ops|
  {
    if |ops| > 0 {
      var (f1, o) := Step(f, ops[0]);
      var (f2, os) := Run(f1, ops[1..]);
      RunConserves(f1, ops[1..]);
      StepConserves(f, ops[0]);
      assert Run(f, ops) == (f2, [o] + os);
      assert ([o] + os)[1..] == os;
      assert AcceptedItems([o] + os) == AcceptedItems([o]) + AcceptedItems(os);
      assert DeliveredItems([o] + os) == DeliveredItems([o]) + DeliveredItems(os);
      calc {
        f.items + AcceptedItems([o] + os);
        (f.items + AcceptedItems([o])) + AcceptedItems(os);
        (DeliveredItems([o]) + f1.items) + AcceptedItems(os);
        DeliveredItems([o]) + (DeliveredItems(os) + f2.items);
        DeliveredItems([o] + os) + f2.items;
      }
    }
  }

  /** Conservation for a single call. */
  lemma StepConserves<T>(f: Fifo<T>, op: Op<T>)
    ensures var (f', o) := Step(f, op);
            f.items + AcceptedItems([o]) == DeliveredItems([o]) + f'.items
  {
  }

  /** Starting empty, the first `capacity` pushes are all accepted and the one
      after them is refused: the capacity is reached exactly. */
  lemma {:induction false} FillThenRefuse<T>(f: Fifo<T>, xs: seq<T>, y: T)
    requires |f.items| + |xs| == f.capacity
    ensures var (f', os) := Run(f, Pushes(xs));
            f'.items == f.items + xs
            && |os| == |xs|
            && (forall i :: 0 <= i < |xs| ==> os[i] == Accepted(xs[i]))
            && Enqueue(f', y) == (false, f')
    decreases |xs|
  {
    if |xs| > 0 {
      var f1 := f.(items := f.items + [xs[0]]);
      assert Pushes(xs)[0] == PushOp(xs[0]);
      assert Pushes(xs)[1..] == Pushes(xs[1..]);
      assert Step(f, PushOp(xs[0])) == (f1, Accepted(xs[0]));
      FillThenRefuse(f1, xs[1..], y);
      var (f2, os) := Run(f1, Pushes(xs[1..]));
      assert Run(f, Pushes(xs)) == (f2, [Accepted(xs[0])] + os);
      assert f.items + [xs[0]] + xs[1..] == f.items + xs;
      forall i | 0 <= i < |xs|
        ensures ([Accepted(xs[0])] + os)[i] == Accepted(xs[i])
      {
        if i > 0 {
          assert os[i - 1] == Accepted(xs[1..][i - 1]);
        }
      }
    }
  }

  /** A push of each of `xs`, in order. */
  function Pushes<T>(xs: seq<T>): (ops: seq<Op<T>>)
    ensures |ops| == |xs|
    ensures forall i :: 0 <= i < |xs| ==> ops[i] == PushOp(xs[i])
    decreases |xs|
  {
    if |xs| == 0 then [] else [PushOp(xs[0])] + Pushes(xs[1..])
  }
}
