# M/M/m queue simulator: the event engine in Dafny

This project models the discrete-event engine of a C simulator of an M/M/m
queue. The queue has Poisson arrivals, exponential service times and m
identical servers. The engine has four parts:

- `customer.dfy` (module `Customers`) models the customer record. The record
  is created as an arrival event. Later it is rewritten in place as a
  departure event. Nothing tags its phase: the engine reads it off the
  sentinel `departureTime < 0`.
- `heap.dfy` (module `Heaps`) models the bounded binary min-heap of pending
  events.
  - Slots are 1-indexed, and there are HEAPSIZE = 100 of them.
  - Records are ordered by `pqTime` with strict `<`.
  - percolateUp is a sift-up that uses slot 0 as a sentinel.
  - percolateDown is a sift-down in which the left child wins ties.
  - The module also covers buildHeap, deleteMin, getMin, isEmptyHeap and the
    empty-heap constructor.
  - The sifts are specified by the functions `RiseFrom` and `SinkFrom`,
    which compute the final slots. Heap order and permutation are proved
    about those functions.
- `fifo.dfy` (module `FifoQueues`) models the wait queue. Its `nextCust`
  links run from the newest record back to the oldest. The ghost sequence
  `items` lists the queued records oldest first. `Valid` ties that sequence
  to `size`, `head`, `tail` and the links.
- `simulation.dfy` (module `Simulation`) models the engine: generateArrivals,
  processNextEvent and runSimulation.
  - The C globals become fields of the class `Engine`.
  - Two ghost sets track records. `inService` holds the records whose
    departure event is pending, one per busy server. `born` holds every
    record the engine has created.
  - `Consistent` is the invariant between two events. It says:
    - every record in the heap or the queue is well keyed and sits in
      exactly one place, once;
    - the departures in the heap are exactly the records in service;
    - the free and busy servers add up to m;
    - a record waits only while every server is busy.

Random intervals come from an oracle, `interval(avg, k)`: the interval that
the k-th draw returns for rate `avg`. Every interval is non-negative. The
field `draws` counts the draws made so far. Times are `real`.

The run loop is proved to terminate. `EventsLeft` counts the events still
to be processed:
- two events per arrival in the heap (the arrival and the departure it
  becomes);
- one event per departure in the heap;
- one event per waiting record.

The main loop's measure, in `Drain`, adds two events per customer not yet
generated to `EventsLeft`.

Two properties hold at the end of `RunSimulation`:
- every server is free;
- with at least one server, every customer has drawn exactly two intervals,
  one inter-arrival time and one service time.

`Dispatch` and `ProcessNextEvent` say which branch of processNextEvent ran
and what it did, through four two-state predicates:
- `ServedOnArrival` for an arrival that found a free server;
- `Queued` for an arrival that found every server busy;
- `HandedOver` for a departure with someone waiting;
- `Freed` for a departure with nobody waiting.

Each states the new servers, queue, counters and accumulators, and the new
times of the record that starts service. The two departure predicates also
state that the departed record keeps its departure time and key. That time
is the time of the event, which fixes the hand-over's start time and wait
and the idle increment.

Four behaviours of the code are easy to miss. The model follows the code
in each:

- The last departure of a run adds a spurious idle increment. The code
  comment at simulation.c:149-150 says the idle time is recorded when all
  servers are free and the queue is empty. At the last departure the heap
  is empty, but the computation still reads slot 1 (simulation.c:150-152).
  deleteMin has just copied the departing record onto itself there
  (heap.c:125). So the last increment is `arrivalTime - departureTime`
  of the departing record: minus its own time in the system, not the gap
  to a next arrival. The model does not fix its sign. `Release`, `Freed` and
  `ProcessNextEvent` state this outcome. The increment is proved
  non-negative only while the heap is not empty, in `IdleNonNegative`.
- A priming event can be a departure, and there may be fewer than m events.
  The priming loop (simulation.c:187-188) processes m events whatever the
  heap holds. When fewer than m events exist, it pops an empty heap and
  dereferences NULL. `RunSimulation` therefore requires m to be at most the
  number of events the first batch brings, `2 * BatchSize(0, n, 0)`.
- Extracting from an empty heap or queue returns NULL (heap.c:121-123,
  FIFOqueue.c:58-61), and the model does the same.
- isEmptyHeap reads a flag that only construction and deleteMin write
  (heap.c:105, 126-127 and 139-141). After the heap empties and is refilled, the
  flag still reads 1. `FlagAfterInsert` shows this on a fresh heap.

## Model

| member | source | states |
|---|---|---|
| Customers.Customer.constructor | customer.c:21-42 | newCustomer: with a nonzero `arrbool` the record is an arrival at `time` with departure time -1. With zero it is a departure at `time` with arrival time -1. Both forms key the record on `time` and start service at 0.0. For a non-negative time the engine's phase test classifies the two forms as arrival and departure |
| Heaps.PickChild | heap.c:42-45 | the compared child is a child of `slot` within slots 1..n |
| Heaps.PickedIsSmallest | heap.c:42-45 | the picked child's key is at most both children's keys. The right child is picked exactly when it exists and its key is strictly below the left one's, so ties go left |
| Heaps.SinkFrom | heap.c:38-53 | the slots the percolateDown loop leaves, computed by following its branches. It keeps the number of slots and never writes slot 0 |
| Heaps.RiseFrom | heap.c:20-26 | the slots the percolateUp loop leaves, computed by following its branches. It keeps the number of slots, and the sentinel in slot 0 stays in place, so the loop stops at the root |
| Heaps.RootIsMinimal | heap.c:150-152 | under heap order, slot 1 has a key at most that of every slot |
| Heaps.UpStep | heap.c:22-25 | one sift-up step, moving the parent down into the hole, keeps the percolateUp loop invariant, with the hole one level up |
| Heaps.UpDone | heap.c:26 | once the parent's key is at most the new key, placing it in the hole orders every slot |
| Heaps.DownStep | heap.c:46-51 | one sift-down step, moving the picked child up into the hole, keeps the percolateDown loop invariant |
| Heaps.DownStop | heap.c:48-53 | once no child is smaller than the sinking key, placing it in the hole orders every slot from the start slot down |
| Heaps.LastToRoot | heap.c:125 | moving the last key to the root leaves every edge below the root ordered |
| Heaps.SinkPermutes | heap.c:37-54 | sinking only permutes slots 1..n: they hold the records they held, with the sinking record in the starting hole |
| Heaps.SinkOrders | heap.c:37-54 | sinking from a hole that meets the loop invariant orders every slot from `start` down |
| Heaps.RisePermutes | heap.c:19-27 | rising only permutes slots 1..n |
| Heaps.RiseOrders | heap.c:19-27 | rising from a hole that meets the loop invariant orders every slot |
| Heaps.RiseFromLast | heap.c:19-27 | sift-up from a new last slot over an ordered heap orders slots 1..n, and their multiset gains exactly the new record |
| Heaps.SinkFromTop | heap.c:37-54 | sift-down of the record in `start` below ordered subtrees orders slots `start`..n and keeps their multiset |
| Heaps.SubtreeOfChild | heap.c:42-51 | the subtree of a child lies inside the subtree of its parent |
| Heaps.SinkStaysInSubtree | heap.c:37-54 | sift-down writes only slots in the subtree rooted at its start slot |
| Heaps.LastToFront | heap.c:125 | moving slot n into slot 1 and dropping slot n removes exactly the root record from the multiset |
| Heaps.NextMinNotEarlier | heap.c:119-131 | a record still in the heap after a deletion, with its key unchanged, has a key no smaller than the deleted one, so successive deleteMin results do not decrease |
| Heaps.Heap.Bag | heap.h:30-35 | the records of slots 1..theSize, as a multiset: none is null, and there are theSize of them |
| Heaps.Heap.Keys | heap.h:30-35 | the key sequence matches the `pqTime` of every filled slot |
| Heaps.Heap.OrderedByKeys | heap.c:22 | heap order on the slots' records is equivalent to heap order on any key sequence that follows them (both directions) |
| Heaps.Heap.constructor | heap.c:102-106 | constructHeap(0, NULL): an empty, ordered heap with theSize 0, totalSize HEAPSIZE + 1 and `empty` 1 |
| Heaps.Heap.RootIsMinimalInBag | heap.c:150-152 | in a non-empty ordered heap the root is one of its records and no record has a smaller key |
| Heaps.Heap.Risen | heap.c:19-27 | the slots percolateUp leaves for `cust`, as `RiseFrom` computes them from the heap's slots with `cust` in slot 0. There is one per heap slot |
| Heaps.Heap.Sunk | heap.c:37-54 | the slots percolateDown leaves when it sinks the record in `start`, as `SinkFrom` computes them. There is one per heap slot |
| Heaps.Heap.OrderKept | heap.c:19-54 | a change that leaves the slots and the keys of their records alone keeps the records and their heap order |
| Heaps.Heap.SinkKeepsHeap | heap.c:37-54 | the slots sift-down leaves keep the heap's multiset, order every slot from `start` down, and differ from the old slots only inside the subtree of `start` |
| Heaps.Heap.RiseKeepsHeap | heap.c:19-27 | the slots sift-up leaves add exactly `cust` to the multiset and keep the heap ordered |
| Heaps.Heap.PercolateUp | heap.c:19-27 | percolateUp: theSize grows by exactly one, heap order is kept, and the multiset gains exactly `cust`. The loop halves `slot` and stops at the root because slot 0 holds `cust` |
| Heaps.Heap.SmallerChild | heap.c:42-45 | the child the loop compares with is `PickChild` of the current keys |
| Heaps.Heap.PercolateDown | heap.c:37-54 | percolateDown: theSize is unchanged and the multiset is kept. Every slot from `start` down ends ordered, and nothing outside the subtree of `start` changes. With `start` beyond theSize nothing changes |
| Heaps.Heap.Sink | heap.c:38-53 | the sift-down loop leaves the slots and keys exactly as `SinkFrom` computes them |
| Heaps.Heap.BuildHeap | heap.c:62-67 | buildHeap: slots 1..theSize end heap-ordered and are a permutation of what they held |
| Heaps.Heap.LastToRootKeepsHeap | heap.c:125 | after the last record moves to the root, the multiset loses exactly the old root and every slot below the root is ordered |
| Heaps.Heap.MoveLastToRoot | heap.c:125-127 | the first half of deleteMin: size drops by one, the old root leaves the multiset, and `empty` becomes 1 exactly when the heap empties |
| Heaps.Heap.DeleteMin | heap.c:119-131 | deleteMin: on an empty heap it returns null and changes nothing. Otherwise it returns the old root, whose key is minimal among the records; the size drops by one, the multiset loses exactly that record, and heap order is kept. `empty` is set only when the heap becomes empty, and a heap of one keeps slot 1 pointing at the returned record |
| Heaps.Heap.RemoveRoot | heap.c:125-128 | the rest of deleteMin: the multiset loses the old root, the heap stays ordered, and `empty` is set when it empties |
| Heaps.Heap.IsEmptyHeap | heap.c:139-141 | isEmptyHeap returns the `empty` flag. On an empty heap the flag is 1, since construction and deleteMin set it whenever the size is 0 |
| Heaps.Heap.GetMin | heap.c:150-152 | getMin returns slot 1 and changes nothing. On a non-empty ordered heap that is a record with the minimal key |
| Heaps.FlagAfterInsert | heap.c:139-141 | one percolateUp into a freshly constructed heap gives a heap of one record whose isEmptyHeap still returns 1: the flag is not a test of `theSize == 0` |
| Heaps.DeleteMinTwice | heap.c:119-131 | two deleteMin calls in a row: with two or more records the second result's key is no smaller than the first, and both leave the heap; a heap of one gives its record and then NULL, an empty heap NULL twice |
| FifoQueues.Reversed | FIFOqueue.c:40-44 | reversal keeps the length |
| FifoQueues.ReversedIndex | FIFOqueue.c:40-44 | element i of the reverse is element `len - 1 - i` of the original |
| FifoQueues.Walk | FIFOqueue.c:65-66 | following `nextCust` from a record for n steps visits that record first and at most n records |
| FifoQueues.FifoQueue.constructor | FIFOqueue.c:18-28 | newQueue: an empty, valid queue with size 0 |
| FifoQueues.FifoQueue.WalkFrom | FIFOqueue.c:40-44 | from the record queued k-th, the links visit records k down to 0 |
| FifoQueues.FifoQueue.ChainIsReversed | FIFOqueue.c:40-44 | the chain from `tail` along `nextCust` visits exactly the queued records, newest to oldest, and ends at `head` |
| FifoQueues.FifoQueue.Enqueue | FIFOqueue.c:35-45 | enqueue: `c` joins the back of the queue, size grows by one, and `c` is the tail. On an empty queue `c` is also the head. Otherwise `c` links to the old tail and the head is unchanged |
| FifoQueues.FifoQueue.Dequeue | FIFOqueue.c:56-71 | dequeue: on an empty queue it returns null. Otherwise it returns the oldest queued record, which leaves the front, so dequeues follow enqueue order. With one record, `head` and `tail` are left stale. With more, the walk takes size - 2 steps and `tail` is unchanged |
| FifoQueues.FifoQueue.GetFirst | FIFOqueue.c:80-82 | getFirst: on a non-empty queue, the oldest queued record, which occurs nowhere else in the queue |
| FifoQueues.FifoQueue.IsEmptyFifo | FIFOqueue.c:90-95 | isEmptyFIFO is 1 exactly when no record is queued and 0 exactly when one is |
| FifoQueues.FifoQueue.GetSize | FIFOqueue.c:103-105 | getSize is the number of queued records |
| Simulation.ClockMonotone | simulation.c:102-104 | with non-negative intervals, the arrival clock never runs backwards |
| Simulation.Clock | simulation.c:102-104 | the running arrival clock after k more arrivals: with non-negative intervals it ends no earlier than it started |
| Simulation.BatchSize | simulation.c:100-109 | the number of arrivals generateArrivals adds. It is zero exactly when n customers exist or no slot is free below HEAPSIZE. Otherwise it stops exactly when the customer count reaches n or the last slot, HEAPSIZE - 1, is filled, never past either |
| Simulation.Engine.constructor | simulation.c:58-63 | the accumulators and counters start at zero, and no record exists yet |
| Simulation.Engine.NextRandomInterval | simulation.c:83-87 | getNextRandomInterval: the next non-negative interval of the oracle, counted as one more draw |
| Simulation.Engine.AddArrival | simulation.c:103-108 | one pass of the generation loop: the clock advances by one interval, and a fresh arrival at the new time fills the slot above theSize. The heap and the customer count grow by one |
| Simulation.Engine.FillSlots | simulation.c:100-109 | the generation loop adds `BatchSize` fresh, distinct arrivals after the old slots. The k-th arrives at the clock advanced by k intervals |
| Simulation.Engine.GenerateArrivals | simulation.c:99-111 | generateArrivals: the heap ends ordered, and its multiset gains exactly the new arrivals. theSize, numberOfCustomers and the draws all grow by `BatchSize`, so the count never passes n nor the size HEAPSIZE - 1. Each new record is a fresh arrival at the running clock |
| Simulation.Engine.TakenKeeps | simulation.c:133 | after deleteMin, the engine holds the taken record: it is in neither structure, no record left has an earlier key, and it is in service exactly when it is a departure |
| Simulation.Engine.BeginService | simulation.c:137-141 | service starts at the arrival time. The record becomes a departure keyed by arrival time plus one drawn interval, and that interval is added to totalServiceTime |
| Simulation.Engine.ServedKeeps | simulation.c:135-142 | putting a served arrival back as a departure restores the engine invariant |
| Simulation.Engine.ServeNow | simulation.c:136-142 | the steps of the served-arrival branch: the record starts service at its arrival time, becomes a departure one drawn interval later, and is back in the heap, taking a server |
| Simulation.Engine.Admit | simulation.c:136-142 | a record that has just started service goes into the heap as a departure and takes a server: the heap gains exactly it, one server fewer is free, and it is in service |
| Simulation.Engine.ServeArrival | simulation.c:135-142 | an arrival that finds a free server takes it at once and returns to the heap as a departure, so the heap regains its size. The engine stays consistent |
| Simulation.Engine.QueuedKeeps | simulation.c:143-146 | queueing an arrival that finds every server busy restores the engine invariant |
| Simulation.Engine.JoinQueue | simulation.c:143-146 | an arrival that finds no free server joins the back of the queue, and numInQueue grows by one. The engine stays consistent |
| Simulation.Engine.StartService | simulation.c:156-162 | a waiting record starts service at the given time, and its wait is added to totalWaitTime. It becomes a departure one drawn interval later |
| Simulation.Engine.ServeOldest | simulation.c:155-162 | the oldest waiting record leaves the front of the queue and starts service at the given time. Its wait is added to totalWaitTime, and it becomes a departure one drawn interval later |
| Simulation.Engine.ServeWaiting | simulation.c:154-165 | the oldest waiting record leaves the queue, starts service at the given time, and enters the heap as a departure, taking a server. Its wait is added to totalWaitTime, and its service interval to totalServiceTime |
| Simulation.Engine.IdleNonNegative | simulation.c:149-153 | when a departure frees the last busy server, nobody waits and the heap is not empty, the root is an arrival no earlier than the departure, so the idle increment is non-negative |
| Simulation.Engine.LastDeparture | simulation.c:149-152 | when a departure empties the heap, it was the only record in service, and slot 1 still holds it |
| Simulation.Engine.ReleaseKeeps | simulation.c:147-153 | a departure with nobody waiting frees its server and keeps the engine invariant |
| Simulation.Engine.HandOverKeeps | simulation.c:154-165 | handing the freed server to the oldest waiting record keeps the engine invariant |
| Simulation.Engine.Release | simulation.c:147-153 | a departure with nobody waiting frees its server, with the effect `Freed` states. Idle time does not decrease while the heap is not empty. On the last departure every server is free, and idle time grows by `arrivalTime - departureTime` of the departing record itself, not a gap to the next arrival |
| Simulation.Engine.HandOver | simulation.c:147-165 | a departure with someone waiting hands its server to the oldest waiting record, with the effect `HandedOver` states. That record starts service at the departure time, keeps its arrival time, and its wait and service interval are added to totalWaitTime and totalServiceTime. The free servers, idle time and numInQueue are unchanged, and the heap gains exactly that record |
| Simulation.Engine.HandOverNow | simulation.c:148-165 | the steps of the hand-over, with the effect `HandedOver` states; the served record replaces the departed one in service |
| Simulation.Engine.ReleaseServer | simulation.c:148-153 | one more server is free. Idle time grows by slot 1's arrival time minus the departure time exactly when every server is free and nobody waits. With nobody waiting, that is the effect `Freed` states |
| Simulation.Engine.EventsLeftBound | simulation.c:186-193 | the count of events still to come bounds the heap and the queue. With an empty heap, no record is in service, every server is free, and with a server nobody waits |
| Simulation.Engine.ArrivalsKeep | simulation.c:192 | fresh distinct arrivals added to the heap keep the engine invariant |
| Simulation.Engine.ProcessNextEvent | simulation.c:128-168 | processNextEvent keeps the engine invariant and uses up exactly one event. It never grows the heap, and draws plus records plus free servers stay constant. It changes only the taken record and the queue head among the records. The branch taken is fixed by the old root's phase, the free servers and the queue, and its effect is stated by `ServedOnArrival`, `Queued`, `HandedOver` or `Freed`. The heap afterwards holds the same records when the root was a served arrival (it went back as a departure), the old records minus the root when it was queued or freed a server, and the old records with the root replaced by the old queue head on a hand-over. Idle time does not decrease while the heap had more than one record; on the last departure it changes by minus that record's time in the system. On either departure branch the departed record keeps its departure time, so the hand-over's start and wait and the idle increment are measured from the event's time |
| Simulation.Engine.Dispatch | simulation.c:134-167 | the four branches of processNextEvent, chosen by the record's phase, the free servers and the queue, keep the engine invariant and have the effects `ServedOnArrival`, `Queued`, `HandedOver` and `Freed` state. A blocked arrival raises numInQueue by one; a served one or a hand-over adds one service interval, and a hand-over adds the wait. The heap gains the served record, gains the old queue head on a hand-over, and is unchanged otherwise. On either departure branch the departed record keeps its departure time, so the hand-over's start and wait and the idle increment are measured from the event's time |
| Simulation.Engine.Arrive | simulation.c:134-146 | an arrival is served at once when a server is free, with the effect `ServedOnArrival` states, and otherwise queued, with the effect `Queued` states. A served arrival goes back into the heap, and a queued one does not |
| Simulation.Engine.Depart | simulation.c:147-166 | a departure hands its server over when someone waits, with the effect `HandedOver` states, and otherwise frees it, with the effect `Freed` states. On a hand-over the old queue head is pushed into the heap, and otherwise the heap is unchanged |
| Simulation.Engine.NextInBorn | simulation.c:133-165 | the heap root and the queue head, the only records the next event writes, are records of this run |
| Simulation.Engine.FreshStart | simulation.c:183-186 | a fresh heap of distinct new arrivals, an empty queue and m free servers are consistent |
| Simulation.Engine.Step | simulation.c:189-193 | one pass of the main loop keeps the engine invariant. After the event, `pending` events are left in the heap. If fewer than n customers exist and `pending` is at most m + 1, exactly `BatchSize` new arrivals follow; otherwise none do. The customer count only grows and stays within n, the heap is left empty only once n customers exist, and the events left drop by one net of new customers. Among the existing records, only the old root and the old queue head can change: in their start, departure and key fields, plus the old root's `nextCust` link |
| Simulation.Engine.TopUp | simulation.c:191-192 | if fewer than n customers exist and at most m + 1 events are pending, the heap, the customer count and the draws all grow by exactly `BatchSize`; otherwise nothing changes |
| Simulation.Engine.Refill | simulation.c:192 | generateArrivals on a consistent engine adds `BatchSize` records and keeps the engine invariant |
| Simulation.Engine.Prime | simulation.c:187-188 | the m priming events keep the engine invariant and use up exactly m events. Among the records, only their service fields and links can change, never an arrival time |
| Simulation.Engine.Drain | simulation.c:189-193 | the main loop ends with an empty heap and a consistent engine. If the heap was not empty, all n customers exist, and each new customer adds two draws |
| Simulation.Engine.RunSimulation | simulation.c:181-197 | runSimulation ends with every server free and nobody in service. All n customers exist, unless the priming used up every event of the first batch. With a server, every customer drew exactly two intervals |
| Simulation.Engine.StartRun | simulation.c:183-186 | the start of a run: an empty queue, m free servers and the first batch in the heap, with two events still to come per record |
| Simulation.Engine.FirstBatch | simulation.c:185 | the first batch of arrivals into the empty heap leaves the engine consistent |
| Simulation.SetWithinBag | simulation.c:186-193 | a set whose members all occur in a multiset is no larger, so no more records are in service than the heap holds |
| Simulation.DistinctOnce | simulation.c:105 | a sequence without repetitions has each element once in its multiset |

## Left out

- getNextRandomInterval's `rand()`, `log` and float arithmetic: replaced by an oracle of non-negative intervals, indexed by the draw count.
- Float rounding of times and accumulators: times are `real`.
- main, printPreCalc and printPostCalc: file reading, seeding of the generator, and printing.
- calculatePo, calculateL, calculateW, calculateLq, calculateWq and calculateRho: closed-form floating-point formulas that the engine never reads.
- freeHeap, freeFIFOqueue and freeCustomer, including the call at the end of a departure: Dafny has no manual deallocation. freeHeap's loop skips the last record; that leak has no counterpart here.
- constructHeap with a non-NULL array: the simulator never uses it, and it runs buildHeap before setting theSize.
- The malloc-failure exits and the diagnostic messages of deleteMin and dequeue: only their NULL results are modelled.
- Customers.Customer.constructor: `nextCust` starts as null. In C it is left unassigned and only read after enqueue sets it.
- Simulation.Engine.RunSimulation: requires 0 <= m. A negative server count is not a meaningful input.
- Simulation.Engine.RunSimulation: requires m <= 2 * BatchSize(0, n, 0). With more priming events than the first batch can supply, the C code dereferences NULL.
- Simulation.Engine.RunSimulation: does not state that events are processed in non-decreasing time. New arrivals are timed from the arrival clock `totalTime`, not from the event just processed, and the model proves no bound between the two.
