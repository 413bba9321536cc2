# SPSC ring buffer: a verified Dafny model

This project models the `SPSCQueue<T, Size>` from `examples/atomic_example.cpp`.
That queue hands values from one producer thread to one consumer thread through
a fixed ring buffer. The project also models the driver's termination protocol:
the `producer_done` flag, and the consumer loop that drains the queue and stops
once the flag is raised.

Modules:

- `Ring` is the queue as an immutable value. It holds `size` (the template
  argument `Size`), a `buffer` of `Size + 1` slots, and two unbounded cursors,
  `head` and `tail`. `Push` and `Pop` are pure functions that return the success
  flag together with the new state. `Pop` also returns the caller's `item`
  variable, which the source passes by reference. The ghost function `Contents`
  lists the items in the slots `head .. tail - 1`, each reduced `% Size`.
  `Abs` maps the queue onto a reference queue.
- `Fifo` is that reference: a bounded first-in-first-out sequence, with
  single-call steps, runs over call sequences, and the conservation and
  capacity lemmas.
- `Trace` handles call sequences on the ring buffer. It proves that the ring
  buffer refines the reference queue of capacity `Size - 1`, and carries
  ordering, conservation and capacity over to it.
- `Session` covers the producer and consumer threads of the driver,
  interleaved one atomic step at a time. Each `push`, each `pop`, and each read
  or write of the flag counts as one step. The module proves an invariant that
  holds in every reachable state. A stopped consumer has received every
  produced item exactly once and in order, and `Drain` runs the consumer loop
  to completion after the flag is raised.
- `ModArith` holds the residue facts the cursor arithmetic relies on.

## Capacity: `Size - 1`, not `Size`

The template argument `Size` and the array of `Size + 1` slots suggest a queue
that holds `Size` items. In the code, however, every full test, every empty test
and every index reduces the cursors `% Size`. The model follows the code, with
these consequences:

- Slot `Size` is never read or written.
- A valid queue keeps `head <= tail <= head + Size - 1`, so it holds at most
  `Size - 1` items.
- `push` is refused exactly when `Size - 1` items are held.
- `pop` is refused exactly when the cursors are equal.
- With `Size == 1`, nothing is ever accepted.

The mixed moduli are consistent as long as cursors are unbounded, so full and
empty are never confused in the model. Only the usable capacity shrinks.

## Model

| member | source | states |
|---|---|---|
| Ring.Init | examples/atomic_example.cpp:15-17 | a new queue has both cursors zero and the given `Size` and array, satisfies the invariant `head <= tail <= head + Size - 1` and holds no items |
| Ring.Push | examples/atomic_example.cpp:20-29 | refuses exactly when `(tail + 1) % Size == head % Size`, and then changes nothing; otherwise it writes the item into slot `tail % Size` only, advances `tail` by one and leaves `head` alone |
| Ring.Pop | examples/atomic_example.cpp:31-40 | refuses exactly when `head % Size == tail % Size`, leaving the queue and the caller's variable unchanged; otherwise it hands back `buffer[head % Size]`, advances `head` by one and leaves `tail` and every slot unchanged |
| Ring.PushFailsIffFull | examples/atomic_example.cpp:21-25 | on a queue satisfying the invariant, `push` is refused exactly when `tail - head == Size - 1` |
| Ring.PopFailsIffEmpty | examples/atomic_example.cpp:32-36 | on a queue satisfying the invariant, `pop` is refused exactly when `tail == head` |
| Ring.SizeOneRejectsEverything | examples/atomic_example.cpp:17-25 | with `Size == 1` every `push` is refused whatever the cursors, and a valid queue is empty and refuses `pop` |
| Ring.PushNeverOverwrites | examples/atomic_example.cpp:26-27 | the slot a successful `push` writes holds none of the items not yet consumed |
| Ring.PushAppends | examples/atomic_example.cpp:20-29 | `push` keeps the invariant, succeeds exactly when fewer than `Size - 1` items are held, and then appends the item at the back of the contents |
| Ring.PopTakesFront | examples/atomic_example.cpp:31-40 | `pop` keeps the invariant, succeeds exactly when the contents are non-empty, and then returns the front item and removes it |
| Ring.EmptyStaysEmpty | examples/atomic_example.cpp:32-36 | on an empty queue, `pop` reports false and changes nothing, and so does every repeated `pop` |
| Ring.PushRefines | examples/atomic_example.cpp:20-29 | one `push` does what `Enqueue` does on the reference FIFO of capacity `Size - 1`: the same flag and the same items |
| Ring.PopRefines | examples/atomic_example.cpp:31-40 | one `pop` is refused exactly when the reference FIFO is empty, and otherwise does what `Dequeue` does on it |
| Ring.LastSlotUnused | examples/atomic_example.cpp:17-37 | `push` never writes slot `Size` of the `Size + 1`, and `pop` only ever reads a slot below `Size` |
| Trace.Run | examples/atomic_example.cpp:20-40 | over any sequence of calls, `Size` never changes and slot `Size` keeps its initial value |
| Trace.StepRefines | examples/atomic_example.cpp:20-40 | one call of either kind keeps the invariant and matches the reference FIFO's step, outcome included |
| Trace.RunRefines | examples/atomic_example.cpp:20-40 | any sequence of calls keeps the invariant, reports the same outcomes as the reference FIFO and ends with the same items held |
| Trace.RunConserves | examples/atomic_example.cpp:26-38 | the items held before, followed by all accepted items, equal the delivered items followed by the items still held: there is no loss, no duplication and no reordering |
| Trace.FillsToSizeMinusOne | examples/atomic_example.cpp:17-28 | from empty, `Size - 1` pushes in a row are all accepted and held in order, and the next push is refused |
| Trace.SizeOneTransfersNothing | examples/atomic_example.cpp:22-36 | with `Size == 1`, no sequence of calls ever accepts or delivers an item |
| Session.Start | examples/atomic_example.cpp:47-50 | the session starts with an empty queue, a lowered flag, nothing produced, nothing consumed and the consumer polling, and satisfies the session invariant |
| Session.ProducerStep | examples/atomic_example.cpp:63-80 | the producer never writes `head` or the consumer's state, moves to the next item only on an accepted push, raises the flag only after the last item is pushed, and does nothing once the flag is raised |
| Session.ConsumerStep | examples/atomic_example.cpp:90-113 | the consumer never writes `tail`, a slot or the flag, counts exactly the items it receives, and stops only from the final attempt when that `pop` is refused, receiving nothing and leaving the queue as it was; once stopped, a step changes nothing |
| Session.ProducerStepKeepsInv | examples/atomic_example.cpp:63-80 | a producer step keeps the session invariant: the delivered items followed by the queued items are exactly the items pushed so far, and the flag implies that every item was pushed |
| Session.ConsumerStepKeepsInv | examples/atomic_example.cpp:90-113 | a consumer step keeps the session invariant, including that draining and stopping happen only after the flag was seen and that a stopped consumer leaves an empty queue |
| Session.StepKeepsInv | examples/atomic_example.cpp:58-113 | a step of either thread keeps the session invariant |
| Session.Run | examples/atomic_example.cpp:58-117 | every interleaving of the two threads' steps keeps the session invariant |
| Session.StoppedMeansAllDelivered | examples/atomic_example.cpp:122-127 | once the consumer has stopped, it has received exactly the produced items, in order, and the produced and consumed counts both equal the number of items |
| Session.SessionDeliversEverything | examples/atomic_example.cpp:122-127 | any schedule from the start of the session that ends with the consumer stopped has delivered every item exactly once, in order |
| Session.Drain | examples/atomic_example.cpp:90-113 | once the flag is raised, the consumer loop stops; it receives every item still queued, in order, and its count grows by exactly that number |

## Left out

- Atomics and memory ordering (the relaxed, acquire and release loads and stores). Each `push`, `pop` and flag access is one indivisible step. Happens-before and weaker interleavings are not expressed.
- `alignas(128)` cache-line padding. It affects performance only.
- The 64-bit wrap-around of the `size_t` cursors. Cursors are unbounded naturals. When `Size` does not divide 2^64, wrap-around would change the `% Size` residues, and that case is not modelled.
- `Size == 0`. It would make every `% Size` undefined, so the model requires `Size >= 1`.
- Thread creation and joining (`std::jthread`). A schedule of steps stands in for it.
- The `yield` and `sleep_for` backoff. A refused push or an empty poll simply lets another step run.
- Random item generation. The producer's items are a parameter.
- Console output, progress printing, the chrono timing and the floating-point throughput figure.
- The driver's `items_produced` and `items_consumed` atomics. They are modelled as the producer's `next` and the consumer's `consumed` count.
- The array's initial slot values. They come from default construction and are a parameter of `Ring.Init`.
- Session.Drain: requires the flag to be raised already. While the flag is lowered, an empty poll repeats forever, and no progress is claimed for that case.
- The driver's `int` counters (`i`, `consumed`, `items_produced`, `items_consumed`). They are unbounded naturals, so overflow past 2^31 - 1 items is not modelled. The driver pushes only 100000 items.
