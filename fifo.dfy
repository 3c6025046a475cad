/**
 * The wait queue (FIFOqueue.h, FIFOqueue.c): a singly linked queue whose
 * links run backwards. `enqueue` points the new record's `nextCust` at the
 * previous tail, so the chain runs from the newest record (`tail`) to the
 * oldest (`head`), and `dequeue` walks it from the tail to find the record
 * that becomes the new head.
 *
 * The ghost sequence `items` lists the queued records oldest first; `Valid`
 * ties it to `size`, `head`, `tail` and the `nextCust` links.
 */
module FifoQueues {
  import opened Customers

  /** The reverse of a sequence, built from its last element. */
  function Reversed<T>(s: seq<T>): (r: seq<T>)
    ensures |r| == |s|
  {
    if s == [] then [] else [s[|s| - 1]] + Reversed(s[..|s| - 1])
  }

  /** Element i of the reverse is element |s| - 1 - i of the original. */
  lemma {:induction false} ReversedIndex<T>(s: seq<T>, i: int)
    requires 0 <= i < |s|
    ensures Reversed(s)[i] == s[|s| - 1 - i]
  {
    if i > 0 {
      ReversedIndex(s[..|s| - 1], i - 1);
    }
  }

  /** The records met by following `nextCust` from c, stopping after n of them or at null. */
  ghost function Walk(c: Customer?, n: nat): (w: seq<Customer>)
    reads *
    ensures |w| <= n
    ensures n > 0 && c != null ==> |w| > 0 && w[0] == c
    decreases n
  {
    if n == 0 || c == null then [] else [c] + Walk(c.nextCust, n - 1)
  }

  class FifoQueue {
    var size: int
    /** The oldest record; stale once the queue has been emptied. */
    var head: Customer?
    /** The newest record; stale once the queue has been emptied. */
    var tail: Customer?
    /** The queued records, oldest first. */
    ghost var items: seq<Customer>

    /**
     * `size` counts the queued records, `head` is the oldest and `tail` the
     * newest, each record links to the one queued just before it, and no
     * record is queued twice.
     */
    ghost predicate Valid()
      reads this, items`nextCust
    {
      size == |items| &&
      (size > 0 ==> head == items[0] && tail == items[size - 1]) &&
      (forall k {:trigger items[k].nextCust} :: 1 <= k < size ==> items[k].nextCust == items[k - 1]) &&
      (forall i, j :: 0 <= i < j < size ==> items[i] != items[j])
    }

    /** newQueue: an empty queue; `head` and `tail` are left unset. */
    constructor ()
      ensures Valid() && size == 0 && items == []
    {
      size := 0;
      items := [];
    }

    /** Following the links from the record queued k-th visits records k down to 0. */
    lemma {:induction false} WalkFrom(k: int)
      requires Valid() && 0 <= k < size
      ensures Walk(items[k], k + 1) == Reversed(items[..k + 1])
    {
      if k > 0 {
        WalkFrom(k - 1);
        assert items[..k + 1][..k] == items[..k];
      }
    }

    /**
     * The chain from `tail` along `nextCust` visits exactly the queued
     * records, newest to oldest, and ends at `head`.
     */
    lemma ChainIsReversed()
      requires Valid() && size > 0
      ensures Walk(tail, size) == Reversed(items)
      ensures Walk(tail, size)[0] == tail && Walk(tail, size)[size - 1] == head
    {
      WalkFrom(size - 1);
      assert items[..size] == items;
      ReversedIndex(items, size - 1);
    }

    /**
     * enqueue: an empty queue gets `c` as both head and tail; otherwise `c`
     * links to the previous tail and becomes the tail. Either way `c` joins
     * the back of the queue.
     */
    method Enqueue(c: Customer)
      requires Valid() && c !in items
      modifies this, c`nextCust
      ensures Valid()
      ensures items == old(items) + [c] && size == old(size) + 1 && tail == c
      ensures old(size) == 0 ==> head == c && c.nextCust == old(c.nextCust)
      ensures old(size) > 0 ==> head == old(head) && c.nextCust == old(tail)
    {
      if size == 0 {
        head := c;
        tail := c;
        size := size + 1;
      } else {
        c.nextCust := tail;
        tail := c;
        size := size + 1;
      }
      items := items + [c];
    }

    /**
     * dequeue: NULL on an empty queue. Otherwise the head is returned and
     * leaves the front of the queue. With one record only `size` drops, and
     * `head` and `tail` go stale; with more, the walk from the tail stops at
     * the record that links to the head, the second oldest, after
     * size - 2 steps, and that record becomes the head.
     */
    method Dequeue() returns (r: Customer?, ghost steps: nat)
      requires Valid()
      modifies this`head, this`size, this`items
      ensures Valid()
      ensures old(size) == 0 ==> r == null && size == 0 && items == []
      ensures old(size) > 0 ==> r == old(items[0]) && items == old(items[1..]) && size == old(size) - 1
      ensures old(size) == 1 ==> head == old(head)
      ensures old(size) > 1 ==> steps == old(size) - 2
      ensures tail == old(tail)
    {
      var tmp := tail;
      var toServe := head;
      steps := 0;
      if size == 0 {
        r := null;
      } else if size == 1 {
        size := size - 1;
        items := [];
        r := toServe;
      } else {
        ghost var k := size - 1;
        while tmp.nextCust != head
          invariant 1 <= k < size && tmp == items[k] && steps == size - 1 - k
          decreases k
        {
          tmp := tmp.nextCust;
          k := k - 1;
          steps := steps + 1;
        }
        assert items[k].nextCust == items[k - 1] == items[0];
        assert k == 1;
        head := tmp;
        size := size - 1;
        items := items[1..];
        r := toServe;
      }
    }

    /** The oldest queued record, as a set: the only record the next dequeue hands on. */
    ghost function Front(): set<Customer>
      reads this
    {
      if items == [] then {} else {items[0]}
    }

    /** getFirst: the head, which is the oldest record when the queue is not empty. */
    function GetFirst(): (r: Customer?)
      requires Valid()
      reads this, items
      ensures size > 0 ==> r == items[0] && forall k :: 1 <= k < size ==> r != items[k]
    {
      head
    }

    /** isEmptyFIFO: 1 exactly when no record is queued. */
    function IsEmptyFifo(): (r: int)
      requires Valid()
      reads this, items
      ensures r == 1 <==> items == []
      ensures r == 0 <==> items != []
    {
      if size == 0 then 1 else 0
    }

    /** getSize: the number of queued records. */
    function GetSize(): (r: int)
      requires Valid()
      reads this, items
      ensures r == |items| && r >= 0
    {
      size
    }
  }
}
