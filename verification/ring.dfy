/** The `SPSCQueue<T, Size>` ring buffer, as a single-threaded value.

    The queue object holds the compile-time `Size`, an array of `Size + 1`
    slots and two cursors: `head`, the next slot the consumer reads, and
    `tail`, the next slot the producer writes. Both operations reduce every
    cursor by `Size` (never by `Size + 1`), both in the full/empty tests and
    when indexing the array. This module follows that arithmetic exactly and
    proves what it implies: slot `Size` of the array is never used, at most
    `Size - 1` items are ever held, and with `Size == 1` nothing is accepted.

    Cursors are unbounded naturals: the 64-bit wrap-around of the source's
    `size_t` cursors is not modelled. */
module Ring {
  import ModArith
  import Fifo

  /** The queue's state: `size` is the template argument `Size`. */
  datatype Queue<T> = Queue(size: nat, buffer: seq<T>, head: nat, tail: nat)

  /** What the C++ type itself guarantees: `Size` is positive (a zero would
      make every `% Size` undefined) and the array has `Size + 1` slots. */
  predicate WellFormed<T>(q: Queue<T>) {
    q.size >= 1 && |q.buffer| == q.size + 1
  }

  /** The invariant both operations keep: the producer is never behind the
      consumer and never more than `Size - 1` items ahead of it. */
  predicate Valid<T>(q: Queue<T>) {
    WellFormed(q) && q.head <= q.tail <= q.head + q.size - 1
  }

  /** The array slot a cursor value addresses. */
  function Index<T>(q: Queue<T>, cursor: nat): (i: nat)
    requires WellFormed(q)
    ensures i < q.size < |q.buffer|
  {
    cursor % q.size
  }

  /** The number of items held. */
  function Count<T>(q: Queue<T>): (n: nat)
    requires q.head <= q.tail
  {
    q.tail - q.head
  }

  /** The slot holding the `i`-th oldest item. */
  function ItemSlot<T>(q: Queue<T>, i: nat): (j: nat)
    requires WellFormed(q)
    ensures j < q.size
  {
    Index(q, q.head + i)
  }

  /** The items held, oldest first: the slots addressed by the cursor values
      `head .. tail - 1`. */
  ghost function Contents<T>(q: Queue<T>): (s: seq<T>)
    requires Valid(q)
  {
    seq(Count(q), i requires 0 <= i < Count(q) => q.buffer[ItemSlot(q, i)])
  }

  /** The bounded reference queue a ring buffer stands for. Its capacity is
      `Size - 1`, which is what the arithmetic of the operations yields. */
  ghost function Abs<T>(q: Queue<T>): (f: Fifo.Fifo<T>)
    requires Valid(q)
    ensures Fifo.Valid(f)
  {
    Fifo.Fifo(Contents(q), q.size - 1)
  }

  /** A freshly constructed queue: both cursors zero. The array's initial
      contents are whatever the element type's default construction left
      there, so they are a parameter. */
  function Init<T>(size: nat, initial: seq<T>): (q: Queue<T>)
    requires size >= 1 && |initial| == size + 1
    ensures q.head == 0 && q.tail == 0
    ensures Valid(q) && Contents(q) == []
    ensures q.size == size && q.buffer == initial
  {
    Queue(size, initial, 0, 0)
  }

  /** The result of `push`: the success flag and the queue afterwards. */
  datatype PushResult<T> = PushResult(ok: bool, queue: Queue<T>)

  /** `push(item)`: refuses when the next tail position and the head reduce to
      the same residue; otherwise writes `item` into the slot the tail
      addresses and advances the tail by one. */
  function Push<T>(q: Queue<T>, item: T): (r: PushResult<T>)
    requires WellFormed(q)
    ensures WellFormed(r.queue) && r.queue.size == q.size
    ensures !r.ok <==> (q.tail + 1) % q.size == q.head % q.size
    ensures !r.ok ==> r.queue == q
    ensures r.ok ==> r.queue.head == q.head && r.queue.tail == q.tail + 1
    ensures r.ok ==> r.queue.buffer[q.tail % q.size] == item
    ensures forall j :: 0 <= j < |q.buffer| && (!r.ok || j != q.tail % q.size) ==>
              r.queue.buffer[j] == q.buffer[j]
  {
    if (q.tail + 1) % q.size == q.head % q.size then
      PushResult(false, q)
    else
      PushResult(true, q.(buffer := q.buffer[Index(q, q.tail) := item], tail := q.tail + 1))
  }

  /** The result of `pop(item)`: the success flag, the value of the caller's
      `item` variable afterwards, and the queue afterwards. */
  datatype PopResult<T> = PopResult(ok: bool, item: T, queue: Queue<T>)

  /** `pop(item)`: refuses when head and tail reduce to the same residue,
      leaving `item` as it was; otherwise copies the slot the head addresses
      into `item` and advances the head by one. */
  function Pop<T>(q: Queue<T>, item: T): (r: PopResult<T>)
    requires WellFormed(q)
    ensures r.queue.size == q.size && r.queue.buffer == q.buffer && r.queue.tail == q.tail
    ensures !r.ok <==> q.head % q.size == q.tail % q.size
    ensures !r.ok ==> r.queue == q && r.item == item
    ensures r.ok ==> r.queue.head == q.head + 1 && r.item == q.buffer[q.head % q.size]
  {
    if q.head % q.size == q.tail % q.size then
      PopResult(false, item, q)
    else
      PopResult(true, q.buffer[Index(q, q.head)], q.(head := q.head + 1))
  }

  // ---------------------------------------------------------------------------
  // What the arithmetic implies on queues that satisfy the invariant

  /** On a valid queue `push` refuses exactly when `Size - 1` items are held. */
  lemma PushFailsIffFull<T>(q: Queue<T>, item: T)
    requires Valid(q)
    ensures !Push(q, item).ok <==> Count(q) == q.size - 1
  {
    ModArith.ResidueAfterStep(q.head, Count(q) + 1, q.size);
    assert q.tail + 1 == q.head + (Count(q) + 1);
  }

  /** On a valid queue `pop` refuses exactly when the cursors are equal, that
      is, when nothing is held. */
  lemma PopFailsIffEmpty<T>(q: Queue<T>, item: T)
    requires Valid(q)
    ensures !Pop(q, item).ok <==> q.head == q.tail
  {
    ModArith.ResidueWithinWindow(q.head, Count(q), q.size);
    assert q.tail == q.head + Count(q);
  }

  /** With `Size == 1` every `push` is refused, on any queue whatever its
      cursors, and a valid queue is always empty. */
  lemma SizeOneRejectsEverything<T>(q: Queue<T>, item: T)
    requires WellFormed(q) && q.size == 1
    ensures !Push(q, item).ok && Push(q, item).queue == q
    ensures Valid(q) ==> Contents(q) == [] && !Pop(q, item).ok
  {
  }

  /** A successful `push` never overwrites a slot that holds an item the
      consumer has not yet taken. */
  lemma PushNeverOverwrites<T>(q: Queue<T>, item: T)
    requires Valid(q) && Push(q, item).ok
    ensures forall i :: 0 <= i < Count(q) ==> ItemSlot(q, i) != Index(q, q.tail)
  {
    PushFailsIffFull(q, item);
    forall i | 0 <= i < Count(q)
      ensures ItemSlot(q, i) != Index(q, q.tail)
    {
      ModArith.ResidueWithinWindow(q.head + i, Count(q) - i, q.size);
      assert q.tail == (q.head + i) + (Count(q) - i);
    }
  }

  /** `push` keeps the invariant; a successful one appends `item` at the back
      of the contents, and a refused one changes nothing. */
  lemma PushAppends<T>(q: Queue<T>, item: T)
    requires Valid(q)
    ensures Valid(Push(q, item).queue)
    ensures Push(q, item).ok <==> Count(q) < q.size - 1
    ensures Contents(Push(q, item).queue) ==
              if Push(q, item).ok then Contents(q) + [item] else Contents(q)
  {
    PushFailsIffFull(q, item);
    var r := Push(q, item);
    if r.ok {
      PushNeverOverwrites(q, item);
      var before := Contents(q);
      var after := Contents(r.queue);
      assert |after| == |before| + 1;
      forall i | 0 <= i < |after|
        ensures after[i] == (before + [item])[i]
      {
        if i < |before| {
          assert ItemSlot(r.queue, i) == ItemSlot(q, i) != Index(q, q.tail);
        } else {
          assert q.head + i == q.tail;
        }
      }
      assert after == before + [item];
    }
  }

  /** `pop` keeps the invariant; a successful one hands back the front of the
      contents and removes it, and a refused one changes nothing. */
  lemma PopTakesFront<T>(q: Queue<T>, item: T)
    requires Valid(q)
    ensures Valid(Pop(q, item).queue)
    ensures Pop(q, item).ok <==> |Contents(q)| > 0
    ensures Pop(q, item).ok ==>
              Pop(q, item).item == Contents(q)[0]
              && Contents(Pop(q, item).queue) == Contents(q)[1..]
    ensures !Pop(q, item).ok ==> Pop(q, item).item == item && Pop(q, item).queue == q
  {
    PopFailsIffEmpty(q, item);
    var r := Pop(q, item);
    if r.ok {
      var before := Contents(q);
      var after := Contents(r.queue);
      assert |after| == |before| - 1;
      forall i | 0 <= i < |after|
        ensures after[i] == before[i + 1]
      {
        assert ItemSlot(r.queue, i) == ItemSlot(q, i + 1);
      }
      assert after == before[1..];
    }
  }

  /** Once a valid queue is empty, every further `pop` keeps reporting
      `false`, hands back nothing and changes nothing. */
  lemma EmptyStaysEmpty<T>(q: Queue<T>, item: T)
    requires Valid(q) && Contents(q) == []
    ensures !Pop(q, item).ok && Pop(q, item).queue == q && Pop(q, item).item == item
    ensures !Pop(Pop(q, item).queue, item).ok
  {
  }

  // ---------------------------------------------------------------------------
  // Refinement of the bounded reference queue

  /** One `push` on the ring buffer does what `Enqueue` does on the reference
      queue of capacity `Size - 1`. */
  lemma PushRefines<T>(q: Queue<T>, item: T)
    requires Valid(q)
    ensures Valid(Push(q, item).queue)
    ensures (Push(q, item).ok, Abs(Push(q, item).queue)) == Fifo.Enqueue(Abs(q), item)
  {
    PushAppends(q, item);
  }

  /** One `pop` on the ring buffer does what `Dequeue` does on the reference
      queue, and refuses exactly when the reference queue is empty. */
  lemma PopRefines<T>(q: Queue<T>, item: T)
    requires Valid(q)
    ensures Valid(Pop(q, item).queue)
    ensures |Abs(q).items| == 0 <==> !Pop(q, item).ok
    ensures Pop(q, item).ok ==>
              (Pop(q, item).item, Abs(Pop(q, item).queue)) == Fifo.Dequeue(Abs(q))
  {
    PopTakesFront(q, item);
  }

  /** Slot `Size`, the last of the `Size + 1`, is never written by `push` and
      never read by `pop`. */
  lemma LastSlotUnused<T>(q: Queue<T>, x: T, item: T)
    requires WellFormed(q)
    ensures Push(q, x).queue.buffer[q.size] == q.buffer[q.size]
    ensures Pop(q, item).ok ==> exists j :: 0 <= j < q.size && Pop(q, item).item == q.buffer[j]
  {
  }
}
