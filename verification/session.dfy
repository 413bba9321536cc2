/** The producer/consumer session of the example driver, with one ring buffer
    between the two threads and the shared `producer_done` flag.

    Each `push`, each `pop` and each read or write of the flag is one atomic
    step, and a schedule says whose step comes next; any interleaving of the
    two threads at that granularity is a schedule. The producer pushes a given
    sequence of items in order, retrying a refused push, and then raises the
    flag. The consumer loop has three places it can be: trying a `pop`
    (`Polling`), having just seen the queue empty and about to read the flag
    (`Checking`), and having seen the flag raised and about to make its one
    last `pop` (`Draining`); it ends in `Stopped`.

    The main results are that the session invariant holds in every reachable
    state, that a stopped consumer has received every produced item exactly
    once and in order, which is what the driver checks at the end, and that
    once the flag is raised the consumer running alone does stop. */
module Session {
  import Ring

  /** Where the consumer loop is. */
  datatype Phase = Polling | Checking | Draining | Stopped

  /** The shared queue and flag, and each thread's local state. `items` is
      what the producer will push; `next` counts its successful pushes (the
      driver's `items_produced`). `value` and `consumed` are the consumer's
      locals; `delivered` lists what it has received so far. */
  datatype System<T> = System(
    queue: Ring.Queue<T>,
    done: bool,
    items: seq<T>,
    next: nat,
    phase: Phase,
    value: T,
    consumed: nat,
    delivered: seq<T>)

  /** Which thread takes the next step. */
  datatype Actor = Producer | Consumer

  /** The session before either thread starts. */
  function Start<T>(size: nat, initial: seq<T>, items: seq<T>, value: T): (s: System<T>)
    requires size >= 1 && |initial| == size + 1
    ensures Inv(s) && s.items == items && s.value == value
    ensures !s.done && s.next == 0 && Ring.Contents(s.queue) == []
    ensures s.phase == Polling && s.consumed == 0 && s.delivered == []
  {
    System(Ring.Init(size, initial), false, items, 0, Polling, value, 0, [])
  }

  /** One step of the producer: push the next item, keeping it for another
      try when the push is refused; once every item is in, raise the flag;
      after that, nothing. */
  function ProducerStep<T>(s: System<T>): (r: System<T>)
    requires Ring.WellFormed(s.queue)
    ensures Ring.WellFormed(r.queue) && r.queue.size == s.queue.size
    // The producer never writes the head cursor nor the consumer's state.
    ensures r.queue.head == s.queue.head
    ensures r.phase == s.phase && r.value == s.value && r.consumed == s.consumed
    ensures r.delivered == s.delivered && r.items == s.items
    // It moves to the next item only on an accepted push, and raises the
    // flag only once every item is pushed.
    ensures r.next == s.next || (r.next == s.next + 1 && r.queue.tail == s.queue.tail + 1)
    ensures r.done && !s.done ==> s.next >= |s.items| && r.queue == s.queue
    ensures s.done ==> r.done
    // Once the flag is raised the producer has nothing left to do.
    ensures s.done && s.next >= |s.items| ==> r == s
  {
    if s.next < |s.items| then
      var r := Ring.Push(s.queue, s.items[s.next]);
      if r.ok then s.(queue := r.queue, next := s.next + 1) else s
    else if !s.done then
      s.(done := true)
    else
      s
  }

  /** One step of the consumer loop. */
  function ConsumerStep<T>(s: System<T>): (r: System<T>)
    requires Ring.WellFormed(s.queue)
    ensures Ring.WellFormed(r.queue) && r.queue.size == s.queue.size
    // The consumer never writes the tail cursor, a slot, or the flag.
    ensures r.queue.tail == s.queue.tail && r.queue.buffer == s.queue.buffer
    ensures r.done == s.done && r.next == s.next && r.items == s.items
    // It counts exactly what it receives, one item at most per step.
    ensures r.consumed == |r.delivered| - |s.delivered| + s.consumed
    ensures r.delivered == s.delivered
            || (r.delivered == s.delivered + [r.value] && r.queue.head == s.queue.head + 1)
    // Once stopped it stays stopped; it stops only when the final attempt
    // is refused, and then receives nothing.
    ensures r.phase == Stopped ==> s.phase == Stopped || s.phase == Draining
    ensures s.phase == Stopped ==> r == s
    ensures r.phase == Stopped && s.phase != Stopped ==>
              r.delivered == s.delivered && r.queue == s.queue && !Ring.Pop(s.queue, s.value).ok
  {
    match s.phase
    case Polling =>
      var r := Ring.Pop(s.queue, s.value);
      if r.ok then
        s.(queue := r.queue, value := r.item, consumed := s.consumed + 1,
           delivered := s.delivered + [r.item])
      else
        s.(phase := Checking)
    case Checking =>
      // A lowered flag means yield and poll again.
      if s.done then s.(phase := Draining) else s.(phase := Polling)
    case Draining =>
      var r := Ring.Pop(s.queue, s.value);
      if r.ok then
        s.(queue := r.queue, value := r.item, consumed := s.consumed + 1,
           delivered := s.delivered + [r.item], phase := Polling)
      else
        s.(phase := Stopped)
    case Stopped =>
      s
  }

  /** One step of the thread `a`. */
  function Step<T>(s: System<T>, a: Actor): (r: System<T>)
    requires Ring.WellFormed(s.queue)
  {
    match a
    case Producer => ProducerStep(s)
    case Consumer => ConsumerStep(s)
  }

  /** The session invariant. */
  ghost predicate Inv<T>(s: System<T>) {
    && Ring.Valid(s.queue)
    && s.next <= |s.items|
    // Everything pushed so far is either delivered or still queued, in order.
    && s.delivered + Ring.Contents(s.queue) == s.items[..s.next]
    && s.consumed == |s.delivered|
    // The flag is raised only after the last push.
    && (s.done ==> s.next == |s.items|)
    // The consumer drains and stops only after it has seen the flag raised.
    && (s.phase == Draining || s.phase == Stopped ==> s.done)
    && (s.phase == Stopped ==> Ring.Contents(s.queue) == [])
  }

  /** A producer step keeps the invariant. */
  lemma ProducerStepKeepsInv<T>(s: System<T>)
    requires Inv(s)
    ensures Inv(ProducerStep(s)) && ProducerStep(s).items == s.items
  {
    if s.next < |s.items| {
      var x := s.items[s.next];
      Ring.PushAppends(s.queue, x);
      assert s.items[..s.next + 1] == s.items[..s.next] + [x];
      var r := Ring.Push(s.queue, x);
      if r.ok {
        assert s.delivered + Ring.Contents(r.queue) == s.items[..s.next + 1];
      }
    }
  }

  /** A consumer step keeps the invariant. */
  lemma ConsumerStepKeepsInv<T>(s: System<T>)
    requires Inv(s)
    ensures Inv(ConsumerStep(s)) && ConsumerStep(s).items == s.items
  {
    if s.phase == Polling || s.phase == Draining {
      Ring.PopTakesFront(s.queue, s.value);
      var r := Ring.Pop(s.queue, s.value);
      var c := Ring.Contents(s.queue);
      if r.ok {
        assert c == [r.item] + Ring.Contents(r.queue);
        assert s.delivered + [r.item] + Ring.Contents(r.queue) == s.items[..s.next];
      }
    }
  }

  /** Every step, of either thread, keeps the invariant, and neither thread
      changes the items the producer was given. */
  lemma StepKeepsInv<T>(s: System<T>, a: Actor)
    requires Inv(s)
    ensures Inv(Step(s, a)) && Step(s, a).items == s.items
  {
    match a
    case Producer => ProducerStepKeepsInv(s);
    case Consumer => ConsumerStepKeepsInv(s);
  }

  /** The state after the steps of a schedule, taken in order. */
  function Run<T>(s: System<T>, schedule: seq<Actor>): (r: System<T>)
    requires Inv(s)
    ensures Inv(r) && r.items == s.items
    decreases |schedule|
  {
    if |schedule| == 0 then s
    else
      StepKeepsInv(s, schedule[0]);
      Run(Step(s, schedule[0]), schedule[1..])
  }

  /** When the consumer has stopped, the producer has pushed every item and
      the consumer has received every one of them, each exactly once and in
      the order produced: the driver's final check that the produced count,
      the consumed count and the number of items all agree. */
  lemma StoppedMeansAllDelivered<T>(s: System<T>)
    requires Inv(s) && s.phase == Stopped
    ensures s.delivered == s.items
    ensures s.next == s.consumed == |s.items|
  {
  }

  /** The same for any interleaving from the start of the session: a
      schedule that ends with the consumer stopped has moved every item. */
  lemma SessionDeliversEverything<T>(size: nat, initial: seq<T>, items: seq<T>, value: T, schedule: seq<Actor>)
    requires size >= 1 && |initial| == size + 1
    requires Run(Start(size, initial, items, value), schedule).phase == Stopped
    ensures Run(Start(size, initial, items, value), schedule).delivered == items
    ensures Run(Start(size, initial, items, value), schedule).consumed == |items|
  {
  }

  /** How far the consumer is from stopping once the flag is raised: three
      steps per queued item, plus what is left of the current round. */
  ghost function DrainMeasure<T>(s: System<T>): (m: nat)
    requires Ring.Valid(s.queue)
  {
    3 * Ring.Count(s.queue)
    + match s.phase
      case Polling => 3
      case Checking => 2
      case Draining => 1
      case Stopped => 0
  }

  /** The consumer loop after the flag has been raised, running with no
      further producer steps (there are none left to take). It receives every
      item still queued, in order, and stops with the queue empty; its count
      grows by exactly the number of items that were queued. */
  method Drain<T>(s: System<T>) returns (s': System<T>)
    requires Inv(s) && s.done
    ensures Inv(s') && s'.phase == Stopped
    ensures s'.delivered == s.delivered + Ring.Contents(s.queue)
    ensures s'.consumed == s.consumed + |Ring.Contents(s.queue)|
    ensures s'.delivered == s.items
  {
    s' := s;
    while s'.phase != Stopped
      invariant Inv(s') && s'.done && s'.items == s.items
      invariant s'.delivered + Ring.Contents(s'.queue) == s.delivered + Ring.Contents(s.queue)
      decreases DrainMeasure(s')
    {
      ConsumerStepKeepsInv(s');
      var c := Ring.Contents(s'.queue);
      if s'.phase == Polling || s'.phase == Draining {
        Ring.PopTakesFront(s'.queue, s'.value);
        if |c| > 0 {
          assert c == [c[0]] + c[1..];
        }
      }
      s' := ConsumerStep(s');
    }
    StoppedMeansAllDelivered(s');
  }
}
