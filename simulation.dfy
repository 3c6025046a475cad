/**
 * The event engine (simulation.c): arrival generation, the event state
 * machine and the run loop of an M/M/m queue. The C globals become fields
 * of `Engine`; the heap of pending events and the wait queue are passed in
 * as in the C functions.
 *
 * getNextRandomInterval is replaced by an oracle: `interval(avg, k)` is the
 * interval the k-th call returns when asked for rate `avg`, and `draws`
 * counts the calls made so far. Every interval is non-negative.
 *
 * The ghost set `inService` holds the records whose departure event is
 * pending, one per busy server; `born` holds every record the engine has
 * created.
 */
module Simulation {
  import opened Customers
  import opened Heaps
  import opened FifoQueues

  /**
   * The clock after k more arrivals at rate `rate`, starting from time t and
   * draw d: each arrival adds the next interval, so with non-negative
   * intervals the clock ends no earlier than it started.
   */
  function Clock(interval: (int, nat) -> real, t: real, rate: int, d: nat, k: nat): (r: real)
    ensures (forall a, i :: 0.0 <= interval(a, i)) ==> t <= r
    decreases k
  {
    if k == 0 then t else Clock(interval, t, rate, d, k - 1) + interval(rate, d + k - 1)
  }

  /** With non-negative intervals the clock never runs backwards. */
  lemma {:induction false} ClockMonotone(interval: (int, nat) -> real, t: real, rate: int, d: nat, j: nat, k: nat)
    requires forall a, i :: 0.0 <= interval(a, i)
    requires j <= k
    ensures Clock(interval, t, rate, d, j) <= Clock(interval, t, rate, d, k)
    decreases k
  {
    if j < k {
      ClockMonotone(interval, t, rate, d, j, k - 1);
    }
  }

  /**
   * How many arrivals generateArrivals adds: one per slot from size + 1 up
   * to HEAPSIZE - 1, stopping once the count of customers reaches n.
   */
  function BatchSize(count: int, n: int, size: int): (k: nat)
    ensures k == 0 <==> count >= n || size + 1 >= HEAPSIZE
    ensures k > 0 ==> count + k <= n && size + k <= HEAPSIZE - 1
    ensures k > 0 ==> count + k == n || size + k == HEAPSIZE - 1
  {
    if count < n && size + 1 < HEAPSIZE then
      if n - count < HEAPSIZE - 1 - size then n - count else HEAPSIZE - 1 - size
    else 0
  }

  class Engine {
    var totalTime: real
    var totalServiceTime: real
    var totalWaitTime: real
    var idleTime: real
    var serviceAvailable: int
    var numberOfCustomers: int
    var numInQueue: int
    /** How many intervals have been drawn so far. */
    var draws: nat
    /** The interval oracle that stands in for getNextRandomInterval. */
    const interval: (int, nat) -> real
    /** The records whose departure event is pending in the heap. */
    ghost var inService: set<Customer>
    /** The records created by generateArrivals so far. */
    ghost var born: set<Customer>

    /** Every interval the oracle gives is non-negative. */
    ghost predicate IntervalsOk()
    {
      forall a, k :: 0.0 <= interval(a, k)
    }

    /**
     * The start of main: the accumulators and counters are zero, as the C
     * globals are before the run.
     */
    constructor (interval: (int, nat) -> real)
      ensures this.interval == interval
      ensures totalTime == 0.0 && totalServiceTime == 0.0 && totalWaitTime == 0.0 && idleTime == 0.0
      ensures serviceAvailable == 0 && numberOfCustomers == 0 && numInQueue == 0
      ensures draws == 0 && inService == {} && born == {}
    {
      this.interval := interval;
      totalTime := 0.0;
      totalServiceTime := 0.0;
      totalWaitTime := 0.0;
      idleTime := 0.0;
      serviceAvailable := 0;
      numberOfCustomers := 0;
      numInQueue := 0;
      draws := 0;
      inService := {};
      born := {};
    }

    /** getNextRandomInterval(avg): the next interval of the oracle. */
    method NextRandomInterval(avg: int) returns (t: real)
      requires IntervalsOk()
      modifies this`draws
      ensures t == interval(avg, old(draws)) && 0.0 <= t
      ensures draws == old(draws) + 1
    {
      t := interval(avg, draws);
      draws := draws + 1;
    }

    /**
     * One pass of the generateArrivals loop: the clock advances by one
     * interval, and a fresh arrival at the new time fills slot i, the slot
     * just above theSize; the heap and the customer count grow by one.
     */
    method AddArrival(lambda: int, h: Heap, i: int) returns (c: Customer)
      requires h.Valid() && i == h.theSize + 1 && i < HEAPSIZE
      requires IntervalsOk() && 0.0 <= totalTime
      modifies this`totalTime, this`numberOfCustomers, this`draws, this`born, h`theSize, h`slots, h.arr
      ensures h.Valid() && h.theSize == old(h.theSize) + 1
      ensures h.Elements() == old(h.Elements()) + [c]
      ensures fresh(c) && IsArrival(c) && WellKeyed(c)
      ensures totalTime == old(totalTime) + interval(lambda, old(draws)) && c.arrivalTime == totalTime
      ensures numberOfCustomers == old(numberOfCustomers) + 1 && draws == old(draws) + 1
      ensures born == old(born) + {c}
    {
      ghost var before := h.Elements();
      var temp := NextRandomInterval(lambda);
      totalTime := totalTime + temp;
      c := new Customer(totalTime, 1);
      h.arr[i] := c;
      h.slots := h.slots[i := c];
      h.theSize := h.theSize + 1;
      numberOfCustomers := numberOfCustomers + 1;
      born := born + {c};
      assert h.Elements() == before + [c];
    }

    /**
     * generateArrivals: write fresh arrival records into the slots above
     * theSize, each at the clock advanced by one more interval, while fewer
     * than n customers exist and the slot is below HEAPSIZE; then rebuild
     * heap order over the old and the new records.
     */
    method GenerateArrivals(lambda: int, n: int, h: Heap) returns (ghost added: seq<Customer>)
      requires h.Valid() && IntervalsOk() && 0.0 <= totalTime
      modifies this`totalTime, this`numberOfCustomers, this`draws, this`born, h`theSize, h`slots, h.arr
      ensures h.Valid() && h.HeapOrdered()
      ensures |added| == BatchSize(old(numberOfCustomers), n, old(h.theSize))
      ensures h.theSize == old(h.theSize) + |added| && numberOfCustomers == old(numberOfCustomers) + |added|
      ensures h.Bag() == old(h.Bag()) + multiset(added)
      ensures draws == old(draws) + |added|
      ensures totalTime == Clock(interval, old(totalTime), lambda, old(draws), |added|) && old(totalTime) <= totalTime
      ensures forall k :: 0 <= k < |added| ==> fresh(added[k]) && IsArrival(added[k]) && WellKeyed(added[k])
      ensures forall k :: 0 <= k < |added| ==> added[k].arrivalTime == Clock(interval, old(totalTime), lambda, old(draws), k + 1)
      ensures forall c :: c in multiset(added) ==> multiset(added)[c] == 1
      ensures old(born) <= born && forall k :: 0 <= k < |added| ==> added[k] in born
      ensures forall c :: c in born ==> c in old(born) || fresh(c)
    {
      added := FillSlots(lambda, n, h);
      DistinctOnce(added);
      h.BuildHeap();
    }

    /**
     * The loop of generateArrivals: one fresh arrival per slot above
     * theSize, each one interval after the previous, until n customers
     * exist or the last slot is filled.
     */
    method FillSlots(lambda: int, n: int, h: Heap) returns (ghost added: seq<Customer>)
      requires h.Valid() && IntervalsOk() && 0.0 <= totalTime
      modifies this`totalTime, this`numberOfCustomers, this`draws, this`born, h`theSize, h`slots, h.arr
      ensures h.Valid()
      ensures |added| == BatchSize(old(numberOfCustomers), n, old(h.theSize))
      ensures h.theSize == old(h.theSize) + |added| && numberOfCustomers == old(numberOfCustomers) + |added|
      ensures h.Elements() == old(h.Elements()) + added
      ensures draws == old(draws) + |added|
      ensures totalTime == Clock(interval, old(totalTime), lambda, old(draws), |added|) && old(totalTime) <= totalTime
      ensures forall k :: 0 <= k < |added| ==> fresh(added[k]) && IsArrival(added[k]) && WellKeyed(added[k])
      ensures forall k :: 0 <= k < |added| ==> added[k].arrivalTime == Clock(interval, old(totalTime), lambda, old(draws), k + 1)
      ensures forall i, j :: 0 <= i < j < |added| ==> added[i] != added[j]
      ensures old(born) <= born && forall k :: 0 <= k < |added| ==> added[k] in born
      ensures forall c :: c in born ==> c in old(born) || fresh(c)
    {
      var i := h.theSize + 1;
      added := [];
      while numberOfCustomers < n && i < HEAPSIZE
        invariant h.Valid() && i == h.theSize + 1
        invariant h.theSize == old(h.theSize) + |added| && numberOfCustomers == old(numberOfCustomers) + |added|
        invariant |added| <= BatchSize(old(numberOfCustomers), n, old(h.theSize))
        invariant draws == old(draws) + |added|
        invariant h.Elements() == old(h.Elements()) + added
        invariant totalTime == Clock(interval, old(totalTime), lambda, old(draws), |added|) && old(totalTime) <= totalTime
        invariant forall k :: 0 <= k < |added| ==> fresh(added[k]) && IsArrival(added[k]) && WellKeyed(added[k])
        invariant forall k :: 0 <= k < |added| ==> added[k].arrivalTime == Clock(interval, old(totalTime), lambda, old(draws), k + 1)
        invariant forall i, j :: 0 <= i < j < |added| ==> added[i] != added[j]
        invariant old(born) <= born && forall k :: 0 <= k < |added| ==> added[k] in born
        invariant forall c :: c in born ==> c in old(born) || fresh(c)
      {
        var c := AddArrival(lambda, h, i);
        i := i + 1;
        assert h.Elements() == old(h.Elements()) + added + [c];
        added := added + [c];
      }
    }

    /**
     * Every record in the heap or the queue was created by the engine, is
     * well-keyed and sits in only one of them, once; every queued record is
     * an arrival.
     */
    ghost predicate RecordsOk(h: Heap, q: FifoQueue)
      reads this, h, h.arr, h.slots, q, q.items
    {
      h.Valid() && q.Valid() &&
      (forall c :: c in h.Bag() ==> h.Bag()[c] == 1 && c !in q.items && WellKeyed(c) && c in born) &&
      (forall c :: c in q.items ==> IsArrival(c) && WellKeyed(c) && c in born)
    }

    /**
     * Server accounting: every record in service is a departure in the heap
     * or in `hand`, the record the engine holds between deleteMin and
     * putting it back; every departure in the heap is in service; and the
     * free and the busy servers add up to m.
     */
    ghost predicate Accounted(h: Heap, m: int, hand: set<Customer>)
      requires h.Valid()
      reads this, h, h.arr, h.slots, inService, hand
    {
      (forall c :: c in inService ==> (c in h.Bag() || c in hand) && !IsArrival(c)) &&
      (forall c: Customer :: c in h.Bag() && !IsArrival(c) ==> c in inService) &&
      0 <= serviceAvailable && serviceAvailable + |inService| == m
    }

    /**
     * The engine invariant between two events: the records are in order,
     * the servers are accounted for, and a record waits only while every
     * server is busy.
     */
    ghost predicate Consistent(h: Heap, q: FifoQueue, m: int)
      reads this, h, h.arr, h.slots, q, q.items, inService
    {
      RecordsOk(h, q) && h.HeapOrdered() && Accounted(h, m, {}) &&
      (q.items != [] ==> serviceAvailable == 0) && 0.0 <= totalTime
    }

    /**
     * The engine invariant while deleteMin's record e is out of the heap:
     * e is in neither structure, it is in service exactly when it is a
     * departure, no record left in the heap has an earlier key, and when the
     * heap is empty its stale slot 1 is e itself.
     */
    ghost predicate Holding(h: Heap, q: FifoQueue, m: int, e: Customer)
      reads this, h, h.arr, h.slots, q, q.items, inService, e
    {
      RecordsOk(h, q) && h.HeapOrdered() && Accounted(h, m, {e}) &&
      (q.items != [] ==> serviceAvailable == 0) && 0.0 <= totalTime &&
      e !in h.Bag() && e !in q.items && WellKeyed(e) && e in born && KeysAtLeast(h.Bag(), e.pqTime) &&
      (e in inService <==> !IsArrival(e)) &&
      h.theSize < HEAPSIZE && (h.theSize == 0 ==> h.slots[1] == e)
    }

    /** Taking the root out of a consistent heap leaves the engine holding it. */
    twostate lemma TakenKeeps(new h: Heap, new q: FifoQueue, m: int, new e: Customer)
      requires old(allocated(h)) && old(allocated(q)) && old(allocated(e))
      requires old(Consistent(h, q, m)) && old(h.theSize) > 0
      requires h.Valid() && h.HeapOrdered() && h.theSize == old(h.theSize) - 1
      requires e == old(h.slots[1]) && h.Bag() == old(h.Bag()) - multiset{e}
      requires KeysAtLeast(old(h.Bag()), e.pqTime)
      requires h.theSize == 0 ==> h.slots[1] == e
      requires unchanged(this, q)
      requires forall c: Customer :: old(allocated(c)) ==> c.arrivalTime == old(c.arrivalTime) && c.departureTime == old(c.departureTime) && c.pqTime == old(c.pqTime) && c.nextCust == old(c.nextCust)
      ensures Holding(h, q, m, e)
    {
      assert e in old(h.Bag());
    }

    /**
     * simulation.c:137-141: an arrival that finds a free server
     * starts service at its arrival time, one service interval is drawn and
     * added to totalServiceTime, and the record becomes a departure keyed by
     * the end of its service.
     */
    method BeginService(e: Customer, mu: int)
      requires IntervalsOk()
      modifies this`totalServiceTime, this`draws, e`startOfServiceTime, e`departureTime, e`pqTime
      ensures e.startOfServiceTime == e.arrivalTime
      ensures e.departureTime == e.arrivalTime + interval(mu, old(draws)) && e.pqTime == e.departureTime
      ensures totalServiceTime == old(totalServiceTime) + interval(mu, old(draws)) && draws == old(draws) + 1
    {
      e.startOfServiceTime := e.arrivalTime;
      var temp := NextRandomInterval(mu);
      totalServiceTime := totalServiceTime + temp;
      e.departureTime := e.arrivalTime + temp;
      e.pqTime := e.departureTime;
    }

    /** Putting a served arrival back as a departure restores the invariant. */
    twostate lemma ServedKeeps(new h: Heap, new q: FifoQueue, m: int, new e: Customer)
      requires old(allocated(h)) && old(allocated(q)) && old(allocated(e))
      requires old(Holding(h, q, m, e)) && old(IsArrival(e)) && old(serviceAvailable) > 0
      requires h.Valid() && h.HeapOrdered() && h.Bag() == old(h.Bag()) + multiset{e}
      requires q.Valid() && q.items == old(q.items)
      requires e.arrivalTime == old(e.arrivalTime) && e.departureTime >= e.arrivalTime && e.pqTime == e.departureTime
      requires forall c: Customer :: old(allocated(c)) && c != e ==> c.arrivalTime == old(c.arrivalTime) && c.departureTime == old(c.departureTime) && c.pqTime == old(c.pqTime) && c.nextCust == old(c.nextCust)
      requires serviceAvailable == old(serviceAvailable) - 1 && inService == old(inService) + {e} && born == old(born)
      requires 0.0 <= totalTime
      ensures Consistent(h, q, m)
    {
    }

    /**
     * The served-arrival branch of processNextEvent (simulation.c:135-142): a server
     * is taken, the record starts service at once and goes back into the
     * heap as a departure.
     */
    method ServeArrival(h: Heap, q: FifoQueue, m: int, e: Customer, mu: int)
      requires Holding(h, q, m, e) && IsArrival(e) && serviceAvailable > 0 && IntervalsOk()
      modifies this`serviceAvailable, this`totalServiceTime, this`draws, this`inService
      modifies e`startOfServiceTime, e`departureTime, e`pqTime, h`theSize, h`slots, h.arr
      ensures Consistent(h, q, m)
      ensures serviceAvailable == old(serviceAvailable) - 1 && e.startOfServiceTime == e.arrivalTime && e.arrivalTime == old(e.arrivalTime)
      ensures e.departureTime == e.arrivalTime + interval(mu, old(draws)) && e.pqTime == e.departureTime
      ensures totalServiceTime == old(totalServiceTime) + interval(mu, old(draws)) && draws == old(draws) + 1
      ensures h.theSize == old(h.theSize) + 1 && h.Bag() == old(h.Bag()) + multiset{e}
    {
      label before:
      ServeNow(h, e, mu);
      ServedKeeps@before(h, q, m, e);
    }

    /**
     * The steps of the served-arrival branch: a server is taken, the record
     * starts service and goes back into the heap as a departure.
     */
    method ServeNow(h: Heap, e: Customer, mu: int)
      requires h.Valid() && h.HeapOrdered() && h.theSize < HEAPSIZE && e !in h.Bag() && IntervalsOk()
      modifies this`serviceAvailable, this`totalServiceTime, this`draws, this`inService
      modifies e`startOfServiceTime, e`departureTime, e`pqTime, h`theSize, h`slots, h.arr
      ensures h.Valid() && h.HeapOrdered() && h.theSize == old(h.theSize) + 1 && h.Bag() == old(h.Bag()) + multiset{e}
      ensures serviceAvailable == old(serviceAvailable) - 1 && inService == old(inService) + {e}
      ensures e.startOfServiceTime == e.arrivalTime
      ensures e.departureTime == e.arrivalTime + interval(mu, old(draws)) && e.pqTime == e.departureTime
      ensures totalServiceTime == old(totalServiceTime) + interval(mu, old(draws)) && draws == old(draws) + 1
    {
      label drawn:
      BeginService(e, mu);
      h.OrderKept@drawn();
      Admit(h, e);
    }

    /**
     * A record that has just started service takes a server and goes into
     * the heap as a departure (simulation.c:136 and 142, and 163-164).
     */
    method Admit(h: Heap, c: Customer)
      requires h.Valid() && h.HeapOrdered() && h.theSize < HEAPSIZE && c !in h.Bag()
      modifies this`serviceAvailable, this`inService, h`theSize, h`slots, h.arr
      ensures h.Valid() && h.HeapOrdered() && h.theSize == old(h.theSize) + 1 && h.Bag() == old(h.Bag()) + multiset{c}
      ensures serviceAvailable == old(serviceAvailable) - 1 && inService == old(inService) + {c}
    {
      h.PercolateUp(c);
      serviceAvailable := serviceAvailable - 1;
      inService := inService + {c};
    }

    /** Queueing an arrival that finds every server busy restores the invariant. */
    twostate lemma QueuedKeeps(new h: Heap, new q: FifoQueue, m: int, new e: Customer)
      requires old(allocated(h)) && old(allocated(q)) && old(allocated(e))
      requires old(Holding(h, q, m, e)) && old(IsArrival(e)) && old(serviceAvailable) == 0
      requires unchanged(h, old(h.arr)) && q.Valid() && q.items == old(q.items) + [e]
      requires forall c: Customer :: old(allocated(c)) ==> c.arrivalTime == old(c.arrivalTime) && c.departureTime == old(c.departureTime) && c.pqTime == old(c.pqTime)
      requires serviceAvailable == 0 && inService == old(inService) && born == old(born) && 0.0 <= totalTime
      ensures Consistent(h, q, m)
    {
      h.OrderKept();
      assert e !in h.Elements();
      forall c | c in h.Bag()
        ensures h.Bag()[c] == 1 && c !in q.items && WellKeyed(c)
      {
        assert c != e;
      }
      forall c | c in q.items
        ensures IsArrival(c) && WellKeyed(c)
      {
        if c != e {
          assert c in old(q.items);
        }
      }
      assert RecordsOk(h, q);
      assert forall c :: c in inService ==> c in h.Bag() && !IsArrival(c);
    }

    /**
     * The blocked-arrival branch of processNextEvent (simulation.c:143-146): with no
     * server free, the record joins the back of the wait queue and is counted.
     */
    method JoinQueue(h: Heap, q: FifoQueue, m: int, e: Customer)
      requires Holding(h, q, m, e) && IsArrival(e) && serviceAvailable == 0
      modifies q, e`nextCust, this`numInQueue
      ensures Consistent(h, q, m)
      ensures q.items == old(q.items) + [e] && numInQueue == old(numInQueue) + 1
    {
      label before:
      q.Enqueue(e);
      numInQueue := numInQueue + 1;
      QueuedKeeps@before(h, q, m, e);
    }

    /**
     * simulation.c:156-162: the record starts service at
     * `start`, one service interval is drawn and added to totalServiceTime,
     * its wait is added to totalWaitTime, and it becomes a departure keyed by
     * the end of its service.
     */
    method StartService(c: Customer, start: real, mu: int)
      requires IntervalsOk()
      modifies this`totalServiceTime, this`totalWaitTime, this`draws, c`startOfServiceTime, c`departureTime, c`pqTime
      ensures c.startOfServiceTime == start
      ensures totalWaitTime == old(totalWaitTime) + (start - c.arrivalTime)
      ensures c.departureTime == start + interval(mu, old(draws)) && c.pqTime == c.departureTime
      ensures totalServiceTime == old(totalServiceTime) + interval(mu, old(draws)) && draws == old(draws) + 1
    {
      c.startOfServiceTime := start;
      var temp := NextRandomInterval(mu);
      totalServiceTime := totalServiceTime + temp;
      var temp2 := c.startOfServiceTime - c.arrivalTime;
      totalWaitTime := totalWaitTime + temp2;
      c.departureTime := c.startOfServiceTime + temp;
      c.pqTime := c.departureTime;
    }

    /** The heap has room for one more record and the oldest waiting record is not in it. */
    ghost predicate CanServe(h: Heap, q: FifoQueue)
      reads h, h.arr, h.slots, q, q.items
    {
      h.Valid() && h.HeapOrdered() && h.theSize < HEAPSIZE &&
      q.Valid() && q.items != [] && q.items[0] !in h.Bag()
    }

    /**
     * The hand-over at a departure (simulation.c:154-165): the
     * oldest waiting record starts service at `now`, goes back into the heap
     * as a departure and takes the server just freed.
     */
    method ServeWaiting(h: Heap, q: FifoQueue, now: real, mu: int) returns (ghost c: Customer)
      requires CanServe(h, q) && IntervalsOk()
      modifies this`serviceAvailable, this`totalServiceTime, this`totalWaitTime, this`draws, this`inService
      modifies h`theSize, h`slots, h.arr, q`head, q`size, q`items, q.Front()`startOfServiceTime, q.Front()`departureTime, q.Front()`pqTime
      ensures h.Valid() && h.HeapOrdered() && q.Valid()
      ensures c == old(q.items[0]) && q.items == old(q.items[1..])
      ensures h.theSize == old(h.theSize) + 1 && h.Bag() == old(h.Bag()) + multiset{c}
      ensures serviceAvailable == old(serviceAvailable) - 1 && inService == old(inService) + {c}
      ensures c.startOfServiceTime == now && c.arrivalTime == old(c.arrivalTime)
      ensures totalWaitTime == old(totalWaitTime) + (now - c.arrivalTime)
      ensures c.departureTime == now + interval(mu, old(draws)) && c.pqTime == c.departureTime
      ensures totalServiceTime == old(totalServiceTime) + interval(mu, old(draws)) && draws == old(draws) + 1
    {
      label before:
      var cust := ServeOldest(q, now, mu);
      c := cust;
      h.OrderKept@before();
      Admit(h, cust);
    }

    /** simulation.c:155-162: the oldest waiting record leaves the queue and starts service at `now`. */
    method ServeOldest(q: FifoQueue, now: real, mu: int) returns (c: Customer)
      requires q.Valid() && q.items != [] && IntervalsOk()
      modifies this`totalServiceTime, this`totalWaitTime, this`draws, q`head, q`size, q`items, q.Front()`startOfServiceTime, q.Front()`departureTime, q.Front()`pqTime
      ensures q.Valid() && c == old(q.items[0]) && q.items == old(q.items[1..])
      ensures c.startOfServiceTime == now && c.arrivalTime == old(c.arrivalTime)
      ensures totalWaitTime == old(totalWaitTime) + (now - c.arrivalTime)
      ensures c.departureTime == now + interval(mu, old(draws)) && c.pqTime == c.departureTime
      ensures totalServiceTime == old(totalServiceTime) + interval(mu, old(draws)) && draws == old(draws) + 1
    {
      var cust;
      ghost var steps;
      cust, steps := q.Dequeue();
      c := cust;
      StartService(c, now, mu);
    }

    /**
     * When a departure leaves every server free and the queue empty, the
     * next event in a non-empty heap is an arrival no earlier than the
     * departure: with no record in service the root cannot be a departure,
     * and no record left in the heap has an earlier key.
     */
    lemma IdleNonNegative(h: Heap, q: FifoQueue, m: int, e: Customer)
      requires Holding(h, q, m, e) && !IsArrival(e)
      requires serviceAvailable + 1 == m && h.theSize > 0
      ensures IsArrival(h.slots[1]) && e.departureTime <= h.slots[1].arrivalTime
    {
      h.RootIsMinimalInBag();
      var r := h.slots[1];
      assert inService == {e} by {
        assert e in inService;
        assert |inService - {e}| == |inService| - 1 == 0;
      }
    }

    /**
     * A departure that leaves the heap empty is the only record in service,
     * so releasing its server frees every server.
     */
    lemma LastDeparture(h: Heap, q: FifoQueue, m: int, e: Customer)
      requires Holding(h, q, m, e) && !IsArrival(e) && h.theSize == 0
      ensures serviceAvailable + 1 == m && h.slots[1] == e
    {
      assert inService == {e} by {
        forall c | c in inService
          ensures c == e
        {
          assert c !in h.Bag();
        }
      }
    }

    /** A departure that finds no one waiting frees its server and keeps the invariant. */
    twostate lemma ReleaseKeeps(new h: Heap, new q: FifoQueue, m: int, new e: Customer)
      requires old(allocated(h)) && old(allocated(q)) && old(allocated(e))
      requires old(Holding(h, q, m, e)) && old(!IsArrival(e)) && old(q.items) == []
      requires unchanged(h, old(h.arr), q)
      requires forall c: Customer :: old(allocated(c)) ==> c.arrivalTime == old(c.arrivalTime) && c.departureTime == old(c.departureTime) && c.pqTime == old(c.pqTime) && c.nextCust == old(c.nextCust)
      requires serviceAvailable == old(serviceAvailable) + 1 && inService == old(inService) - {e} && born == old(born) && 0.0 <= totalTime
      ensures Consistent(h, q, m)
    {
      h.OrderKept();
      assert e !in h.Elements();
    }

    /**
     * A departure that hands its server to the oldest waiting record keeps
     * the invariant: that record is in the heap as a departure and in
     * service, and the departed record is in neither.
     */
    twostate lemma HandOverKeeps(new h: Heap, new q: FifoQueue, m: int, new e: Customer, new c: Customer)
      requires old(allocated(h)) && old(allocated(q)) && old(allocated(e)) && old(allocated(c))
      requires old(Holding(h, q, m, e)) && old(!IsArrival(e)) && old(q.items) != [] && c == old(q.items[0])
      requires h.Valid() && h.HeapOrdered() && q.Valid()
      requires h.Bag() == old(h.Bag()) + multiset{c} && q.items == old(q.items[1..])
      requires c.arrivalTime == old(c.arrivalTime) && 0.0 <= c.departureTime && c.pqTime == c.departureTime
      requires forall d: Customer :: old(allocated(d)) && d != c ==> d.arrivalTime == old(d.arrivalTime) && d.departureTime == old(d.departureTime) && d.pqTime == old(d.pqTime) && d.nextCust == old(d.nextCust)
      requires serviceAvailable == old(serviceAvailable) && inService == old(inService) + {c} - {e} && born == old(born) && 0.0 <= totalTime
      ensures Consistent(h, q, m)
    {
      assert c !in old(h.Bag()) && c != e && old(IsArrival(c));
      forall d | d in q.items
        ensures d in old(q.items) && d != c
      {
        assert d in old(q.items[1..]);
      }
      forall d | d in h.Bag()
        ensures h.Bag()[d] == 1 && d !in q.items && WellKeyed(d)
      {
        if d != c {
          assert d in old(h.Bag());
        }
      }
      assert RecordsOk(h, q);
      forall d | d in inService
        ensures d in h.Bag() && !IsArrival(d)
      {
        if d != c {
          assert d in old(inService) && d != e;
        }
      }
      forall d: Customer | d in h.Bag() && !IsArrival(d)
        ensures d in inService
      {
        if d != c {
          assert d in old(h.Bag()) && d != e;
        }
      }
      assert |inService| == |old(inService)|;
    }

    /**
     * A departure that finds nobody waiting: its server becomes free, and if
     * every server is then free the time until the next arrival is idle.
     */
    method Release(h: Heap, q: FifoQueue, m: int, e: Customer)
      requires Holding(h, q, m, e) && !IsArrival(e) && q.items == []
      modifies this`serviceAvailable, this`idleTime, this`inService
      ensures Consistent(h, q, m)
      ensures Freed(h, q, m, e)
      ensures h.theSize > 0 ==> old(idleTime) <= idleTime
      ensures h.theSize == 0 ==> serviceAvailable == m && idleTime == old(idleTime) - (e.departureTime - e.arrivalTime)
    {
      label before:
      if h.theSize == 0 {
        LastDeparture(h, q, m, e);
      } else if serviceAvailable + 1 == m {
        IdleNonNegative(h, q, m, e);
      }
      ReleaseServer(h, q, m, e);
      ReleaseKeeps@before(h, q, m, e);
    }

    /**
     * A departure that finds someone waiting: its server is freed and taken
     * at once by the oldest waiting record, which starts service at the
     * departure time.
     */
    method HandOver(h: Heap, q: FifoQueue, m: int, e: Customer, mu: int)
      requires Holding(h, q, m, e) && !IsArrival(e) && q.items != [] && IntervalsOk()
      modifies this`serviceAvailable, this`idleTime, this`totalServiceTime, this`totalWaitTime, this`draws, this`inService
      modifies h`theSize, h`slots, h.arr, q`head, q`size, q`items, q.Front()`startOfServiceTime, q.Front()`departureTime, q.Front()`pqTime
      ensures Consistent(h, q, m)
      ensures h.theSize == old(h.theSize) + 1 && h.Bag() == old(h.Bag()) + multiset{old(q.items[0])}
      ensures HandedOver(q, e, old(q.items[0]), mu)
    {
      label before:
      ghost var c := HandOverNow(h, q, m, e, mu);
      HandOverKeeps@before(h, q, m, e, c);
    }

    /**
     * The steps of the hand-over branch: the departing record's server is
     * released and at once taken by the oldest waiting record, so the
     * number of free servers and the idle time stay as they were.
     */
    method HandOverNow(h: Heap, q: FifoQueue, m: int, e: Customer, mu: int) returns (ghost c: Customer)
      requires CanServe(h, q) && h.slots[1] != null && e !in q.items && IntervalsOk()
      modifies this`serviceAvailable, this`idleTime, this`totalServiceTime, this`totalWaitTime, this`draws, this`inService
      modifies h`theSize, h`slots, h.arr, q`head, q`size, q`items, q.Front()`startOfServiceTime, q.Front()`departureTime, q.Front()`pqTime
      ensures h.Valid() && h.HeapOrdered() && q.Valid()
      ensures c == old(q.items[0]) && q.items == old(q.items[1..])
      ensures h.theSize == old(h.theSize) + 1 && h.Bag() == old(h.Bag()) + multiset{c}
      ensures serviceAvailable == old(serviceAvailable) && inService == old(inService) + {c} - {e}
      ensures c.arrivalTime == old(c.arrivalTime) && c.departureTime == e.departureTime + interval(mu, old(draws)) && c.pqTime == c.departureTime
      ensures HandedOver(q, e, old(q.items[0]), mu)
    {
      ReleaseServer(h, q, m, e);
      c := ServeWaiting(h, q, e.departureTime, mu);
    }

    /**
     * simulation.c:148-153: the departing record frees its server; if every
     * server is then free and nobody waits, the time from this departure to
     * the arrival time of the record in slot 1 is idle.
     */
    method ReleaseServer(h: Heap, q: FifoQueue, m: int, e: Customer)
      requires h.Valid() && q.Valid() && h.slots[1] != null
      modifies this`serviceAvailable, this`idleTime, this`inService
      ensures serviceAvailable == old(serviceAvailable) + 1 && inService == old(inService) - {e}
      ensures serviceAvailable == m && q.items == [] ==> idleTime == old(idleTime) + (h.slots[1].arrivalTime - e.departureTime)
      ensures serviceAvailable != m || q.items != [] ==> idleTime == old(idleTime)
      ensures q.items == [] ==> Freed(h, q, m, e)
    {
      inService := inService - {e};
      serviceAvailable := serviceAvailable + 1;
      if serviceAvailable == m && q.GetSize() == 0 {
        var check := h.GetMin();
        var idle := check.arrivalTime - e.departureTime;
        idleTime := idleTime + idle;
      }
    }

    /**
     * The events still to be processed: two for each arrival in the heap
     * (the arrival and the departure it becomes), one for each departure in
     * the heap and one for each waiting record (its departure). Under
     * `Consistent` the departures in the heap are the records in service,
     * m - serviceAvailable of them, so the count is
     * 2 * theSize - (m - serviceAvailable) + |items|.
     */
    ghost function EventsLeft(h: Heap, q: FifoQueue, m: int): int
      reads this, h, q
    {
      2 * h.theSize - (m - serviceAvailable) + |q.items|
    }

    /**
     * No more records are in service than the heap holds, so EventsLeft
     * bounds the heap and the queue; once the heap is empty, every server is
     * free and, when there is a server at all, nobody waits.
     */
    lemma EventsLeftBound(h: Heap, q: FifoQueue, m: int)
      requires Consistent(h, q, m)
      ensures h.theSize + |q.items| <= EventsLeft(h, q, m)
      ensures h.theSize == 0 ==> inService == {} && serviceAvailable == m && (m > 0 ==> q.items == [])
    {
      SetWithinBag(inService, h.Bag());
    }

    /** Fresh arrivals added to the heap of a consistent engine keep it consistent. */
    twostate lemma ArrivalsKeep(new h: Heap, new q: FifoQueue, m: int, new added: seq<Customer>)
      requires old(allocated(h)) && old(allocated(q))
      requires old(Consistent(h, q, m))
      requires h.Valid() && h.HeapOrdered() && h.Bag() == old(h.Bag()) + multiset(added)
      requires forall k :: 0 <= k < |added| ==> fresh(added[k]) && IsArrival(added[k]) && WellKeyed(added[k])
      requires forall c :: c in multiset(added) ==> multiset(added)[c] == 1
      requires unchanged(q)
      requires forall c: Customer :: old(allocated(c)) ==> c.arrivalTime == old(c.arrivalTime) && c.departureTime == old(c.departureTime) && c.pqTime == old(c.pqTime) && c.nextCust == old(c.nextCust)
      requires serviceAvailable == old(serviceAvailable) && inService == old(inService) && 0.0 <= totalTime
      requires old(born) <= born && forall k :: 0 <= k < |added| ==> added[k] in born
      ensures Consistent(h, q, m)
    {
      forall c | c in h.Bag()
        ensures h.Bag()[c] == 1 && c !in q.items && WellKeyed(c)
      {
        if c in old(h.Bag()) {
          assert c !in multiset(added);
        } else {
          assert c in added;
        }
      }
      assert RecordsOk(h, q);
      forall c: Customer | c in h.Bag() && !IsArrival(c)
        ensures c in inService
      {
        assert c !in added;
      }
    }

    /** The records the next event can touch, the root of the heap and the head of the queue, are records of this run. */
    lemma NextInBorn(h: Heap, q: FifoQueue, m: int)
      requires Consistent(h, q, m) && h.theSize > 0
      ensures h.Top() <= born && q.Front() <= born
    {
      assert h.slots[1] == h.Elements()[0];
      if q.items != [] {
        assert q.items[0] in q.items;
      }
    }

    /**
     * processNextEvent: deleteMin takes the earliest event out of the heap
     * and it is dispatched. Every event keeps the engine consistent and
     * leaves one event fewer to process; the intervals drawn so far plus the
     * records that have yet to draw a service interval stay the same.
     */
    method ProcessNextEvent(h: Heap, q: FifoQueue, mu: int, m: int)
      requires Consistent(h, q, m) && h.theSize > 0 && IntervalsOk()
      modifies this`serviceAvailable, this`idleTime, this`totalServiceTime, this`totalWaitTime, this`draws, this`numInQueue, this`inService
      modifies h`theSize, h`empty, h`slots, h.arr, q
      modifies h.Top()`startOfServiceTime, h.Top()`departureTime, h.Top()`pqTime, h.Top()`nextCust
      modifies q.Front()`startOfServiceTime, q.Front()`departureTime, q.Front()`pqTime
      ensures Consistent(h, q, m)
      ensures EventsLeft(h, q, m) == old(EventsLeft(h, q, m)) - 1
      ensures draws + h.theSize + serviceAvailable + |q.items| == old(draws + h.theSize + serviceAvailable + |q.items|)
      ensures old(h.theSize) - 1 <= h.theSize <= old(h.theSize)
      ensures old(h.theSize) > 1 ==> old(idleTime) <= idleTime
      ensures old(h.theSize) == 1 && old(!IsArrival(h.slots[1])) && old(q.items) == [] ==>
        idleTime == old(idleTime) - (old(h.slots[1]).departureTime - old(h.slots[1]).arrivalTime)
      ensures old(IsArrival(h.slots[1])) && old(serviceAvailable) > 0 ==> ServedOnArrival(q, old(h.slots[1]), mu)
      ensures old(IsArrival(h.slots[1])) && old(serviceAvailable) <= 0 ==> Queued(q, old(h.slots[1]))
      ensures old(!IsArrival(h.slots[1])) && old(q.items) != [] ==> HandedOver(q, old(h.slots[1]), old(q.items[0]), mu)
      ensures old(!IsArrival(h.slots[1])) && old(q.items) == [] ==> Freed(h, q, m, old(h.slots[1]))
      // which records the heap holds afterwards: the root goes back, leaves, or gives way to the old queue head
      ensures old(IsArrival(h.slots[1])) && old(serviceAvailable) > 0 ==> h.Bag() == old(h.Bag())
      ensures old(IsArrival(h.slots[1])) && old(serviceAvailable) <= 0 ==> h.Bag() == old(h.Bag()) - multiset{old(h.slots[1])}
      ensures old(!IsArrival(h.slots[1])) && old(q.items) != [] ==>
        h.Bag() == old(h.Bag()) - multiset{old(h.slots[1])} + multiset{old(q.items[0])}
      ensures old(!IsArrival(h.slots[1])) && old(q.items) == [] ==> h.Bag() == old(h.Bag()) - multiset{old(h.slots[1])}
    {
      label start:
      var event := h.DeleteMin();
      assert old(h.Bag()) == h.Bag() + multiset{event};
      TakenKeeps@start(h, q, m, event);
      Dispatch(h, q, m, event, mu);
    }

    /**
     * The served-arrival branch's effect (simulation.c:136-142): e took a
     * server and started service at its own arrival time; one service
     * interval was drawn and added to totalServiceTime, and e became a
     * departure keyed by the end of its service. The queue and the other
     * accumulators are as they were.
     */
    twostate predicate ServedOnArrival(q: FifoQueue, e: Customer, mu: int)
      reads this, q, e
    {
      serviceAvailable == old(serviceAvailable) - 1 && q.items == old(q.items) && numInQueue == old(numInQueue) &&
      e.arrivalTime == old(e.arrivalTime) && e.startOfServiceTime == e.arrivalTime &&
      e.departureTime == e.arrivalTime + interval(mu, old(draws)) && e.pqTime == e.departureTime &&
      totalServiceTime == old(totalServiceTime) + interval(mu, old(draws)) && draws == old(draws) + 1 &&
      totalWaitTime == old(totalWaitTime) && idleTime == old(idleTime)
    }

    /**
     * The blocked-arrival branch's effect (simulation.c:143-146): e joined the
     * back of the wait queue and numInQueue grew by one; nothing was drawn and
     * e is still an arrival.
     */
    twostate predicate Queued(q: FifoQueue, e: Customer)
      reads this, q, e
    {
      serviceAvailable == old(serviceAvailable) && q.items == old(q.items) + [e] && numInQueue == old(numInQueue) + 1 &&
      e.arrivalTime == old(e.arrivalTime) && e.departureTime == old(e.departureTime) && e.pqTime == old(e.pqTime) &&
      draws == old(draws) && totalServiceTime == old(totalServiceTime) && totalWaitTime == old(totalWaitTime) && idleTime == old(idleTime)
    }

    /**
     * The hand-over branch's effect (simulation.c:154-165): the oldest waiting
     * record c left the queue and started service at e's departure time; one
     * service interval was drawn, its wait went into totalWaitTime, and it
     * became a departure keyed by the end of its service. The departed record
     * e keeps its departure time and key, the time of the event. The number
     * of free servers and the idle time are as they were.
     */
    twostate predicate HandedOver(q: FifoQueue, e: Customer, c: Customer, mu: int)
      reads this, q, e, c
    {
      old(q.items) != [] && c == old(q.items[0]) &&
      e.departureTime == old(e.departureTime) && e.pqTime == old(e.pqTime) &&
      serviceAvailable == old(serviceAvailable) && q.items == old(q.items[1..]) && numInQueue == old(numInQueue) &&
      c.arrivalTime == old(c.arrivalTime) && c.startOfServiceTime == e.departureTime &&
      c.departureTime == e.departureTime + interval(mu, old(draws)) && c.pqTime == c.departureTime &&
      totalServiceTime == old(totalServiceTime) + interval(mu, old(draws)) && draws == old(draws) + 1 &&
      totalWaitTime == old(totalWaitTime) + (e.departureTime - c.arrivalTime) && idleTime == old(idleTime)
    }

    /**
     * The released-server branch's effect (simulation.c:148-153): one more
     * server is free, nothing was drawn and the departed record e keeps its
     * departure time and key; if every server is now free and
     * the heap is not empty, the time from e's departure to the arrival time
     * of the record in slot 1 was added to idleTime, and otherwise idleTime
     * is unchanged.
     */
    twostate predicate Freed(h: Heap, q: FifoQueue, m: int, e: Customer)
      reads this, h, h.slots, q, e
    {
      serviceAvailable == old(serviceAvailable) + 1 && q.items == [] && numInQueue == old(numInQueue) && draws == old(draws) &&
      e.departureTime == old(e.departureTime) && e.pqTime == old(e.pqTime) &&
      totalServiceTime == old(totalServiceTime) && totalWaitTime == old(totalWaitTime) &&
      (serviceAvailable == m && 0 < h.theSize < |h.slots| && h.slots[1] != null ==>
        idleTime == old(idleTime) + (h.slots[1].arrivalTime - e.departureTime)) &&
      (serviceAvailable != m ==> idleTime == old(idleTime))
    }

    /**
     * The body of processNextEvent after deleteMin (simulation.c:134-166): an
     * arrival is served at once when a server is free and queued otherwise;
     * a departure frees its server, which the oldest waiting record takes at
     * once if there is one.
     */
    method Dispatch(h: Heap, q: FifoQueue, m: int, e: Customer, mu: int)
      requires Holding(h, q, m, e) && IntervalsOk()
      modifies this`serviceAvailable, this`idleTime, this`totalServiceTime, this`totalWaitTime, this`draws, this`numInQueue, this`inService
      modifies e`startOfServiceTime, e`departureTime, e`pqTime, e`nextCust
      modifies h`theSize, h`slots, h.arr, q, q.Front()`startOfServiceTime, q.Front()`departureTime, q.Front()`pqTime
      ensures Consistent(h, q, m)
      ensures 2 * h.theSize + serviceAvailable + |q.items| == old(2 * h.theSize + serviceAvailable + |q.items|) + 1
      ensures draws + h.theSize + serviceAvailable + |q.items| == old(draws + h.theSize + serviceAvailable + |q.items|) + 1
      ensures old(h.theSize) <= h.theSize <= old(h.theSize) + 1
      ensures old(h.theSize) > 0 ==> old(idleTime) <= idleTime
      ensures old(h.theSize) == 0 && old(!IsArrival(e)) && old(q.items) == [] ==>
        idleTime == old(idleTime) - (e.departureTime - e.arrivalTime)
      ensures old(IsArrival(e)) && old(serviceAvailable) > 0 ==> ServedOnArrival(q, e, mu)
      ensures old(IsArrival(e)) && old(serviceAvailable) <= 0 ==> Queued(q, e)
      ensures old(!IsArrival(e)) && old(q.items) != [] ==> HandedOver(q, e, old(q.items[0]), mu)
      ensures old(!IsArrival(e)) && old(q.items) == [] ==> Freed(h, q, m, e)
      ensures old(IsArrival(e)) && old(serviceAvailable) > 0 ==> h.Bag() == old(h.Bag()) + multiset{e}
      ensures old(IsArrival(e)) && old(serviceAvailable) <= 0 ==> h.Bag() == old(h.Bag())
      ensures old(!IsArrival(e)) && old(q.items) != [] ==> h.Bag() == old(h.Bag()) + multiset{old(q.items[0])}
      ensures old(!IsArrival(e)) && old(q.items) == [] ==> h.Bag() == old(h.Bag())
    {
      if IsArrival(e) {
        Arrive(h, q, m, e, mu);
      } else {
        Depart(h, q, m, e, mu);
      }
    }

    /** The arrival half of processNextEvent (simulation.c:134-146). */
    method Arrive(h: Heap, q: FifoQueue, m: int, e: Customer, mu: int)
      requires Holding(h, q, m, e) && IsArrival(e) && IntervalsOk()
      modifies this`serviceAvailable, this`totalServiceTime, this`draws, this`numInQueue, this`inService
      modifies e`startOfServiceTime, e`departureTime, e`pqTime, e`nextCust, h`theSize, h`slots, h.arr, q
      ensures Consistent(h, q, m)
      ensures 2 * h.theSize + serviceAvailable + |q.items| == old(2 * h.theSize + serviceAvailable + |q.items|) + 1
      ensures draws + h.theSize + serviceAvailable + |q.items| == old(draws + h.theSize + serviceAvailable + |q.items|) + 1
      ensures old(h.theSize) <= h.theSize <= old(h.theSize) + 1
      ensures old(serviceAvailable) > 0 ==> ServedOnArrival(q, e, mu)
      ensures old(serviceAvailable) <= 0 ==> Queued(q, e)
      ensures old(serviceAvailable) > 0 ==> h.Bag() == old(h.Bag()) + multiset{e}
      ensures old(serviceAvailable) <= 0 ==> h.Bag() == old(h.Bag())
    {
      if serviceAvailable > 0 {
        ServeArrival(h, q, m, e, mu);
      } else {
        JoinQueue(h, q, m, e);
      }
    }

    /** The departure half of processNextEvent (simulation.c:147-166). */
    method Depart(h: Heap, q: FifoQueue, m: int, e: Customer, mu: int)
      requires Holding(h, q, m, e) && !IsArrival(e) && IntervalsOk()
      modifies this`serviceAvailable, this`idleTime, this`totalServiceTime, this`totalWaitTime, this`draws, this`inService
      modifies h`theSize, h`slots, h.arr, q`head, q`size, q`items, q.Front()`startOfServiceTime, q.Front()`departureTime, q.Front()`pqTime
      ensures Consistent(h, q, m)
      ensures 2 * h.theSize + serviceAvailable + |q.items| == old(2 * h.theSize + serviceAvailable + |q.items|) + 1
      ensures draws + h.theSize + serviceAvailable + |q.items| == old(draws + h.theSize + serviceAvailable + |q.items|) + 1
      ensures old(h.theSize) <= h.theSize <= old(h.theSize) + 1
      ensures old(h.theSize) > 0 ==> old(idleTime) <= idleTime
      ensures old(h.theSize) == 0 && old(q.items) == [] ==> idleTime == old(idleTime) - (e.departureTime - e.arrivalTime)
      ensures old(q.items) != [] ==> HandedOver(q, e, old(q.items[0]), mu)
      ensures old(q.items) == [] ==> Freed(h, q, m, e)
      ensures old(q.items) != [] ==> h.Bag() == old(h.Bag()) + multiset{old(q.items[0])}
      ensures old(q.items) == [] ==> h.Bag() == old(h.Bag())
    {
      if q.GetSize() > 0 {
        HandOver(h, q, m, e, mu);
      } else {
        Release(h, q, m, e);
      }
    }

    /** A fresh heap of distinct new arrivals, an empty queue and m free servers are consistent. */
    lemma FreshStart(h: Heap, q: FifoQueue, m: int, added: seq<Customer>)
      requires h.Valid() && h.HeapOrdered() && h.Bag() == multiset(added)
      requires forall k :: 0 <= k < |added| ==> IsArrival(added[k]) && WellKeyed(added[k])
      requires forall c :: c in multiset(added) ==> multiset(added)[c] == 1
      requires q.Valid() && q.items == []
      requires forall k :: 0 <= k < |added| ==> added[k] in born
      requires 0 <= m && serviceAvailable == m && inService == {} && 0.0 <= totalTime
      ensures Consistent(h, q, m)
    {
      forall c: Customer | c in h.Bag()
        ensures IsArrival(c) && WellKeyed(c)
      {
        assert c in added;
      }
    }

    /**
     * One pass of the main loop of runSimulation (simulation.c:190-192): process
     * the next event, then generate more arrivals if fewer than n customers
     * exist and at most m + 1 events are pending. Records only move between
     * the heap and the queue, leave at their departure or arrive fresh; the
     * heap is left empty only once all n customers exist.
     */
    method Step(h: Heap, q: FifoQueue, lambda: int, mu: int, m: int, n: int) returns (ghost pending: int)
      requires Consistent(h, q, m) && h.theSize > 0 && 0 <= m && IntervalsOk()
      modifies this`totalTime, this`serviceAvailable, this`numberOfCustomers, this`idleTime, this`totalServiceTime
      modifies this`totalWaitTime, this`draws, this`numInQueue, this`inService
      modifies this`born, h`theSize, h`empty, h`slots, h.arr, q
      modifies h.Top()`startOfServiceTime, h.Top()`departureTime, h.Top()`pqTime, h.Top()`nextCust
      modifies q.Front()`startOfServiceTime, q.Front()`departureTime, q.Front()`pqTime
      ensures Consistent(h, q, m)
      ensures forall c :: c in born ==> c in old(born) || fresh(c)
      ensures old(numberOfCustomers) <= numberOfCustomers && (numberOfCustomers <= n || numberOfCustomers == old(numberOfCustomers))
      ensures h.theSize == 0 ==> numberOfCustomers >= n
      ensures EventsLeft(h, q, m) - 2 * numberOfCustomers == old(EventsLeft(h, q, m) - 2 * numberOfCustomers) - 1
      ensures draws + h.theSize + serviceAvailable + |q.items| - 2 * numberOfCustomers ==
        old(draws + h.theSize + serviceAvailable + |q.items| - 2 * numberOfCustomers)
      // `pending` is the number of events in the heap once the event is processed
      ensures old(h.theSize) - 1 <= pending <= old(h.theSize)
      ensures
        if old(numberOfCustomers) < n && pending <= m + 1 then
          h.theSize == pending + BatchSize(old(numberOfCustomers), n, pending) &&
          numberOfCustomers == old(numberOfCustomers) + BatchSize(old(numberOfCustomers), n, pending)
        else
          h.theSize == pending && numberOfCustomers == old(numberOfCustomers)
    {
      NextInBorn(h, q, m);
      ProcessNextEvent(h, q, mu, m);
      pending := h.theSize;
      TopUp(h, q, lambda, m, n);
    }

    /**
     * simulation.c:191: generate more arrivals only while fewer
     * than n customers exist and at most m + 1 events are pending.
     */
    method TopUp(h: Heap, q: FifoQueue, lambda: int, m: int, n: int)
      requires Consistent(h, q, m) && IntervalsOk()
      modifies this`totalTime, this`numberOfCustomers, this`draws, this`born, h`theSize, h`slots, h.arr
      ensures Consistent(h, q, m)
      ensures forall c :: c in born ==> c in old(born) || fresh(c)
      ensures old(numberOfCustomers) <= numberOfCustomers && (numberOfCustomers <= n || numberOfCustomers == old(numberOfCustomers))
      ensures old(numberOfCustomers) < n && old(h.theSize) <= m + 1 ==> numberOfCustomers >= n || h.theSize > 0
      ensures h.theSize - old(h.theSize) == numberOfCustomers - old(numberOfCustomers) == draws - old(draws)
      ensures old(h.theSize) <= h.theSize
      ensures
        if old(numberOfCustomers) < n && old(h.theSize) <= m + 1 then
          h.theSize == old(h.theSize) + BatchSize(old(numberOfCustomers), n, old(h.theSize)) &&
          numberOfCustomers == old(numberOfCustomers) + BatchSize(old(numberOfCustomers), n, old(h.theSize)) &&
          draws == old(draws) + BatchSize(old(numberOfCustomers), n, old(h.theSize))
        else
          h.theSize == old(h.theSize) && numberOfCustomers == old(numberOfCustomers) && draws == old(draws) &&
          totalTime == old(totalTime) && born == old(born)
    {
      if numberOfCustomers < n && h.theSize <= m + 1 {
        Refill(h, q, lambda, m, n);
      }
    }

    /**
     * simulation.c:192: generateArrivals on a consistent engine
     * adds fresh arrivals to the heap and keeps the engine consistent.
     */
    method Refill(h: Heap, q: FifoQueue, lambda: int, m: int, n: int)
      requires Consistent(h, q, m) && IntervalsOk()
      modifies this`totalTime, this`numberOfCustomers, this`draws, this`born, h`theSize, h`slots, h.arr
      ensures Consistent(h, q, m)
      ensures h.theSize == old(h.theSize) + BatchSize(old(numberOfCustomers), n, old(h.theSize))
      ensures numberOfCustomers == old(numberOfCustomers) + BatchSize(old(numberOfCustomers), n, old(h.theSize))
      ensures draws == old(draws) + BatchSize(old(numberOfCustomers), n, old(h.theSize))
      ensures forall c :: c in born ==> c in old(born) || fresh(c)
    {
      ghost var more := GenerateArrivals(lambda, n, h);
      ArrivalsKeep(h, q, m, more);
    }

    /**
     * The priming loop of runSimulation: process m events, one per server. Each event uses up one of the
     * events left, and the interval draws made so far plus the records and
     * servers still owed one stay the same.
     */
    method Prime(h: Heap, q: FifoQueue, mu: int, m: int)
      requires Consistent(h, q, m) && IntervalsOk()
      requires 0 <= m <= EventsLeft(h, q, m)
      modifies this`serviceAvailable, this`idleTime, this`totalServiceTime, this`totalWaitTime, this`draws
      modifies this`numInQueue, this`inService, h`theSize, h`empty, h`slots, h.arr, q
      modifies born`startOfServiceTime, born`departureTime, born`pqTime, born`nextCust
      ensures Consistent(h, q, m)
      ensures EventsLeft(h, q, m) == old(EventsLeft(h, q, m)) - m
      ensures m == 0 ==> h.theSize == old(h.theSize) && q.items == old(q.items)
      ensures draws + h.theSize + serviceAvailable + |q.items| == old(draws + h.theSize + serviceAvailable + |q.items|)
    {
      var i := 0;
      while i < m
        invariant 0 <= i <= m
        invariant Consistent(h, q, m)
        invariant EventsLeft(h, q, m) == old(EventsLeft(h, q, m)) - i
        invariant i == 0 ==> h.theSize == old(h.theSize) && q.items == old(q.items)
        invariant draws + h.theSize + serviceAvailable + |q.items| == old(draws + h.theSize + serviceAvailable + |q.items|)
      {
        EventsLeftBound(h, q, m);
        NextInBorn(h, q, m);
        ProcessNextEvent(h, q, mu, m);
        i := i + 1;
      }
    }

    /**
     * The main loop of runSimulation: process events, refilling the heap,
     * until the heap is empty. Every customer counted so far stays counted,
     * no more than n are generated, and each new customer adds two interval
     * draws.
     */
    method Drain(h: Heap, q: FifoQueue, lambda: int, mu: int, m: int, n: int)
      requires Consistent(h, q, m) && 0 <= m && IntervalsOk()
      requires numberOfCustomers <= n || h.theSize == 0
      modifies this`totalTime, this`serviceAvailable, this`numberOfCustomers, this`idleTime, this`totalServiceTime
      modifies this`totalWaitTime, this`draws, this`numInQueue, this`inService
      modifies this`born, h`theSize, h`empty, h`slots, h.arr, q
      modifies born`startOfServiceTime, born`departureTime, born`pqTime, born`nextCust
      ensures Consistent(h, q, m) && h.theSize == 0
      ensures old(h.theSize) > 0 ==> numberOfCustomers >= n
      ensures old(h.theSize) == 0 ==> numberOfCustomers == old(numberOfCustomers)
      ensures old(numberOfCustomers) <= numberOfCustomers && (numberOfCustomers <= n || numberOfCustomers == old(numberOfCustomers))
      ensures draws + serviceAvailable + |q.items| - 2 * numberOfCustomers ==
        old(draws + h.theSize + serviceAvailable + |q.items| - 2 * numberOfCustomers)
    {
      while h.theSize > 0
        invariant Consistent(h, q, m)
        invariant forall c :: c in born ==> c in old(born) || fresh(c)
        invariant old(numberOfCustomers) <= numberOfCustomers && (numberOfCustomers <= n || numberOfCustomers == old(numberOfCustomers))
        invariant h.theSize == 0 ==> old(h.theSize) == 0 || numberOfCustomers >= n
        invariant old(h.theSize) == 0 ==> h.theSize == 0 && numberOfCustomers == old(numberOfCustomers)
        invariant draws + h.theSize + serviceAvailable + |q.items| - 2 * numberOfCustomers ==
          old(draws + h.theSize + serviceAvailable + |q.items| - 2 * numberOfCustomers)
        decreases EventsLeft(h, q, m) + 2 * (if numberOfCustomers <= n then n - numberOfCustomers else 0)
      {
        EventsLeftBound(h, q, m);
        NextInBorn(h, q, m);
        ghost var pending := Step(h, q, lambda, mu, m, n);
      }
    }

    /**
     * runSimulation: build an empty heap and queue, generate the first batch
     * of arrivals, free all m servers and process m events to prime them;
     * then process events until the heap is empty. The run ends with every
     * server free and, unless the priming events already used up the whole
     * first batch, all n customers generated; with at least one server every
     * customer drew exactly two intervals, its inter-arrival time and its
     * service time.
     */
    method RunSimulation(lambda: int, mu: int, m: int, n: int)
      requires 0 <= m <= 2 * BatchSize(0, n, 0) && IntervalsOk()
      requires numberOfCustomers == 0 && 0.0 <= totalTime && inService == {} && born == {}
      modifies this`totalTime, this`serviceAvailable, this`numberOfCustomers, this`idleTime, this`totalServiceTime
      modifies this`totalWaitTime, this`draws, this`numInQueue, this`inService, this`born
      ensures numberOfCustomers == n || (m == 2 * BatchSize(0, n, 0) && numberOfCustomers == BatchSize(0, n, 0))
      ensures serviceAvailable == m && inService == {}
      ensures m > 0 ==> draws == old(draws) + 2 * numberOfCustomers
    {
      var h, q, first := StartRun(lambda, m, n);
      Prime(h, q, mu, m);
      EventsLeftBound(h, q, m);
      assert h.theSize == 0 ==> m == 2 * first;
      assert numberOfCustomers == first;
      Drain(h, q, lambda, mu, m, n);
      EventsLeftBound(h, q, m);
    }

    /**
     * The start of runSimulation: an empty heap and queue, the first batch
     * of arrivals and m free servers. Every event of the batch is still to
     * come: one arrival and one departure per record.
     */
    method StartRun(lambda: int, m: int, n: int) returns (h: Heap, q: FifoQueue, ghost first: nat)
      requires 0 <= m <= 2 * BatchSize(0, n, 0) && IntervalsOk()
      requires numberOfCustomers == 0 && 0.0 <= totalTime && inService == {} && born == {}
      modifies this`totalTime, this`serviceAvailable, this`numberOfCustomers, this`draws, this`born
      ensures fresh(h) && fresh(h.arr) && fresh(q) && forall c :: c in born ==> fresh(c)
      ensures Consistent(h, q, m)
      ensures first == BatchSize(0, n, 0) && numberOfCustomers == first && (first <= n || n < 0)
      ensures h.theSize == first && q.items == [] && serviceAvailable == m && EventsLeft(h, q, m) == 2 * first
      ensures draws + h.theSize + serviceAvailable + |q.items| == old(draws) + 2 * first + m
    {
      h := new Heap();
      q := new FifoQueue();
      serviceAvailable := m;
      first := FirstBatch(lambda, m, n, h, q);
    }

    /**
     * The first batch of arrivals, written into the fresh empty heap while
     * every server is free, leaves the engine consistent.
     */
    method FirstBatch(lambda: int, m: int, n: int, h: Heap, q: FifoQueue) returns (ghost first: nat)
      requires h.Valid() && h.theSize == 0 && h.Bag() == multiset{} && q.Valid() && q.items == []
      requires 0 <= m && serviceAvailable == m && IntervalsOk()
      requires numberOfCustomers == 0 && 0.0 <= totalTime && inService == {} && born == {}
      modifies this`totalTime, this`numberOfCustomers, this`draws, this`born, h`theSize, h`slots, h.arr
      ensures Consistent(h, q, m) && forall c :: c in born ==> fresh(c)
      ensures first == BatchSize(0, n, 0) && numberOfCustomers == first && h.theSize == first
      ensures draws == old(draws) + first
    {
      ghost var added := GenerateArrivals(lambda, n, h);
      first := |added|;
      FreshStart(h, q, m, added);
    }
  }

  /** A set whose members all occur in a multiset is no larger than it. */
  lemma {:induction false} SetWithinBag<T>(s: set<T>, b: multiset<T>)
    requires forall x :: x in s ==> x in b
    ensures |s| <= |b|
    decreases s
  {
    if s != {} {
      var x :| x in s;
      SetWithinBag(s - {x}, b - multiset{x});
    }
  }

  /** Each element of a sequence without repetitions occurs once in its multiset. */
  lemma {:induction false} DistinctOnce<T>(s: seq<T>)
    requires forall i, j :: 0 <= i < j < |s| ==> s[i] != s[j]
    ensures forall x :: x in multiset(s) ==> multiset(s)[x] == 1
  {
    if s != [] {
      var init := s[..|s| - 1];
      DistinctOnce(init);
      assert s == init + [s[|s| - 1]];
      assert s[|s| - 1] !in init;
    }
  }
}
