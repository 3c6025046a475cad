/**
 * The bounded binary min-heap of pending events (heap.h, heap.c).
 *
 * Records live in 1-indexed slots 1..theSize of a fixed array of
 * HEAPSIZE + 1 slots, ordered by their `pqTime` with strict `<`. Slot 0 is a
 * scratch slot: the sift-up writes the inserted record there as a sentinel.
 * The heap operations move references between slots and never write a
 * record, so every key stays put while they run.
 *
 * The sifts are proved against the keys of the slots: a ghost sequence `ks`
 * follows the key in every slot, and the loop invariants are predicates on
 * `ks` proved step by step in the lemmas of the first half of this module.
 */
module Heaps {
  import opened Customers

  /** Usable slots; the array has one more, slot 0. */
  const HEAPSIZE: int := 100

  /** The parent of slot i in the 1-indexed layout. */
  function Parent(i: int): int
  {
    i / 2
  }

  /** No record in b has a key below t. */
  ghost predicate KeysAtLeast(b: multiset<Customer?>, t: real)
    reads b
  {
    forall c :: c in b ==> c != null && t <= c.pqTime
  }

  // ---------------------------------------------------------------------------
  // Heap order on the keys of slots 1..n

  /** The key of the parent of slot i is at most the key of slot i. */
  ghost predicate EdgeOk(ks: seq<real>, i: int)
    requires 2 <= i < |ks|
  {
    ks[Parent(i)] <= ks[i]
  }

  /** Every parent in slot lo or above has a key at most its child's. */
  ghost predicate OrderedKeys(ks: seq<real>, n: int, lo: int)
  {
    n < |ks| && forall i {:trigger EdgeOk(ks, i)} :: 2 <= i <= n && lo <= Parent(i) ==> EdgeOk(ks, i)
  }

  /** t is at most the key of each child of slot p that lies within slots 1..n. */
  ghost predicate ChildrenAtLeast(ks: seq<real>, n: int, p: int, t: real)
    requires 1 <= p && n < |ks|
  {
    (2 * p <= n ==> t <= ks[2 * p]) && (2 * p + 1 <= n ==> t <= ks[2 * p + 1])
  }

  /** In ordered keys, slot 1 holds a key at most the key of any slot. */
  lemma {:induction false} RootIsMinimal(ks: seq<real>, n: int, i: int)
    requires OrderedKeys(ks, n, 1)
    requires 1 <= i <= n
    ensures ks[1] <= ks[i]
    decreases i
  {
    if i > 1 {
      assert EdgeOk(ks, i);
      RootIsMinimal(ks, n, Parent(i));
    }
  }

  /**
   * The percolateUp loop invariant with the hole at `slot`: every edge away
   * from the hole is ordered, the inserted key t is at most the hole's
   * children, and so is the key of the hole's parent.
   */
  ghost predicate UpHole(ks: seq<real>, n: int, slot: int, t: real)
  {
    1 <= slot <= n < |ks| &&
    (forall i {:trigger EdgeOk(ks, i)} :: 2 <= i <= n && i != slot && Parent(i) != slot ==> EdgeOk(ks, i)) &&
    ChildrenAtLeast(ks, n, slot, t) &&
    (slot >= 2 ==> ChildrenAtLeast(ks, n, slot, ks[Parent(slot)]))
  }

  lemma UpStart(ks: seq<real>, n: int, t: real)
    requires 1 <= n && OrderedKeys(ks, n - 1, 1) && n < |ks|
    ensures UpHole(ks, n, n, t)
  {
  }

  /** Moving the parent's key down into the hole keeps the invariant, with the hole one level up. */
  lemma UpStep(ks: seq<real>, n: int, slot: int, t: real)
    requires UpHole(ks, n, slot, t) && slot >= 2
    requires t < ks[Parent(slot)]
    ensures UpHole(ks[slot := ks[Parent(slot)]], n, Parent(slot), t)
  {
    var p := Parent(slot);
    var ks' := ks[slot := ks[p]];
    forall i | 2 <= i <= n && i != p && Parent(i) != p
      ensures EdgeOk(ks', i)
    {
      if i == slot {
      } else if Parent(i) == slot {
        assert i == 2 * slot || i == 2 * slot + 1;
      } else {
        assert EdgeOk(ks, i);
      }
    }
    var sib := if slot % 2 == 0 then slot + 1 else slot - 1;
    if sib <= n {
      assert EdgeOk(ks, sib);
    }
    if p >= 2 {
      assert EdgeOk(ks, p);
    }
  }

  /** Once the parent's key is at most t, putting t into the hole orders every slot. */
  lemma UpDone(ks: seq<real>, n: int, slot: int, t: real)
    requires UpHole(ks, n, slot, t)
    requires slot == 1 || ks[Parent(slot)] <= t
    ensures OrderedKeys(ks[slot := t], n, 1)
  {
    var ks' := ks[slot := t];
    forall i | 2 <= i <= n && 1 <= Parent(i)
      ensures EdgeOk(ks', i)
    {
      if i == slot {
      } else if Parent(i) == slot {
        assert i == 2 * slot || i == 2 * slot + 1;
      } else {
        assert EdgeOk(ks, i);
      }
    }
  }

  /**
   * The child percolateDown moves up from `slot`: the right one only when its
   * key is strictly below the left one's, so ties go to the left child.
   */
  function PickChild(ks: seq<real>, n: int, slot: int): (c: int)
    requires 1 <= slot && 2 * slot <= n < |ks|
    ensures Parent(c) == slot && c <= n
  {
    if 2 * slot != n && ks[2 * slot + 1] < ks[2 * slot] then 2 * slot + 1 else 2 * slot
  }

  /** The picked child has the smallest key of the children, and ties go to the left child. */
  lemma PickedIsSmallest(ks: seq<real>, n: int, slot: int)
    requires 1 <= slot && 2 * slot <= n < |ks|
    ensures ChildrenAtLeast(ks, n, slot, ks[PickChild(ks, n, slot)])
    ensures PickChild(ks, n, slot) == 2 * slot + 1 <==> 2 * slot + 1 <= n && ks[2 * slot + 1] < ks[2 * slot]
  {
  }

  /**
   * The percolateDown loop invariant with the hole at `slot` below `start`:
   * every edge from `start` down that avoids the hole is ordered, and once
   * the hole has left `start`, the key of its parent is at most its
   * children's and strictly below the sinking key t.
   */
  ghost predicate DownHole(ks: seq<real>, n: int, start: int, slot: int, t: real)
  {
    1 <= start <= slot <= n < |ks| &&
    (forall i {:trigger EdgeOk(ks, i)} :: 2 <= i <= n && start <= Parent(i) && i != slot && Parent(i) != slot ==> EdgeOk(ks, i)) &&
    (slot > start ==> ChildrenAtLeast(ks, n, slot, ks[Parent(slot)]) && ks[Parent(slot)] < t)
  }

  lemma DownStart(ks: seq<real>, n: int, start: int)
    requires 1 <= start <= n && OrderedKeys(ks, n, start + 1)
    ensures DownHole(ks, n, start, start, ks[start])
  {
  }

  /** Moving the picked child's key up into the hole keeps the invariant, with the hole one level down. */
  lemma DownStep(ks: seq<real>, n: int, start: int, slot: int, child: int, t: real)
    requires DownHole(ks, n, start, slot, t)
    requires Parent(child) == slot && child <= n && ChildrenAtLeast(ks, n, slot, ks[child])
    requires ks[child] < t
    ensures DownHole(ks[slot := ks[child]], n, start, child, t)
  {
    var ks' := ks[slot := ks[child]];
    forall i | 2 <= i <= n && start <= Parent(i) && i != child && Parent(i) != child
      ensures EdgeOk(ks', i)
    {
      if i == slot {
      } else if Parent(i) == slot {
        assert i == 2 * slot || i == 2 * slot + 1;
      } else {
        assert EdgeOk(ks, i);
      }
    }
    if 2 * child <= n {
      assert EdgeOk(ks, 2 * child);
    }
    if 2 * child + 1 <= n {
      assert EdgeOk(ks, 2 * child + 1);
    }
  }

  /** Once t is at most every child of the hole, putting t into the hole orders every slot from `start` down. */
  lemma DownStop(ks: seq<real>, n: int, start: int, slot: int, t: real)
    requires DownHole(ks, n, start, slot, t)
    requires ChildrenAtLeast(ks, n, slot, t)
    ensures OrderedKeys(ks[slot := t], n, start)
  {
    var ks' := ks[slot := t];
    forall i | 2 <= i <= n && start <= Parent(i)
      ensures EdgeOk(ks', i)
    {
      if i == slot {
      } else if Parent(i) == slot {
        assert i == 2 * slot || i == 2 * slot + 1;
      } else {
        assert EdgeOk(ks, i);
      }
    }
  }

  /** Moving the last key to the root leaves every edge below the root ordered. */
  lemma LastToRoot(ks: seq<real>, n: int)
    requires 1 <= n && OrderedKeys(ks, n, 1)
    ensures OrderedKeys(ks[1 := ks[n]], n - 1, 2)
  {
    var ks' := ks[1 := ks[n]];
    forall i | 2 <= i <= n - 1 && 2 <= Parent(i)
      ensures EdgeOk(ks', i)
    {
      assert EdgeOk(ks, i);
    }
  }

  // ---------------------------------------------------------------------------
  // The sifts on slot contents

  /** The record reference in each slot, with the key each slot is sorted by. */
  datatype Slots = Slots(recs: seq<Customer?>, keys: seq<real>)

  /**
   * What percolateDown leaves behind, starting from a hole at `slot` with
   * record x of key t still to place: while the picked child's key is
   * strictly below t, that child moves up into the hole; then x fills it.
   */
  function SinkFrom(s: Slots, n: int, slot: int, x: Customer?, t: real): (r: Slots)
    requires 1 <= slot <= n < |s.recs| == |s.keys|
    ensures |r.recs| == |r.keys| == |s.recs|
    ensures r.recs[0] == s.recs[0] && r.keys[0] == s.keys[0]
    decreases n - slot
  {
    if 2 * slot <= n && s.keys[PickChild(s.keys, n, slot)] < t then
      var c := PickChild(s.keys, n, slot);
      SinkFrom(Slots(s.recs[slot := s.recs[c]], s.keys[slot := s.keys[c]]), n, c, x, t)
    else
      Slots(s.recs[slot := x], s.keys[slot := t])
  }

  /**
   * What percolateUp leaves behind, starting from a hole at `slot` with
   * record x of key t still to place and x's key in slot 0 as a sentinel:
   * while t is strictly below the parent's key, the parent moves down into
   * the hole; then x fills it.
   */
  function RiseFrom(s: Slots, slot: int, x: Customer?, t: real): (r: Slots)
    requires 1 <= slot < |s.recs| == |s.keys| && s.keys[0] == t
    ensures |r.recs| == |r.keys| == |s.recs|
    ensures r.recs[0] == s.recs[0] && r.keys[0] == t
    decreases slot
  {
    if t < s.keys[Parent(slot)] then
      var p := Parent(slot);
      RiseFrom(Slots(s.recs[slot := s.recs[p]], s.keys[slot := s.keys[p]]), p, x, t)
    else
      Slots(s.recs[slot := x], s.keys[slot := t])
  }

  /** Copying slot `from` into the hole at `to` and moving the hole to `from` permutes slots 1..n. */
  lemma MoveHole(s: seq<Customer?>, n: int, from: int, to: int, x: Customer?)
    requires 1 <= from <= n < |s| && 1 <= to <= n && from != to
    ensures multiset(s[to := s[from]][from := x][1..n + 1]) == multiset(s[to := x][1..n + 1])
  {
    var u := s[1..n + 1][to - 1 := x];
    assert s[to := x][1..n + 1] == u;
    assert s[to := s[from]][from := x][1..n + 1] == u[to - 1 := s[from]][from - 1 := x];
  }

  /** Sinking permutes slots 1..n: they end up holding the records they held, with x in the hole. */
  lemma {:induction false} SinkPermutes(s: Slots, n: int, slot: int, x: Customer?, t: real)
    requires 1 <= slot <= n < |s.recs| == |s.keys|
    ensures multiset(SinkFrom(s, n, slot, x, t).recs[1..n + 1]) == multiset(s.recs[slot := x][1..n + 1])
    decreases n - slot
  {
    if 2 * slot <= n && s.keys[PickChild(s.keys, n, slot)] < t {
      var c := PickChild(s.keys, n, slot);
      SinkPermutes(Slots(s.recs[slot := s.recs[c]], s.keys[slot := s.keys[c]]), n, c, x, t);
      MoveHole(s.recs, n, c, slot, x);
    }
  }

  /** Sinking from a hole that satisfies the percolateDown invariant orders every slot from `start` down. */
  lemma {:induction false} SinkOrders(s: Slots, n: int, start: int, slot: int, x: Customer?, t: real)
    requires |s.recs| == |s.keys| && DownHole(s.keys, n, start, slot, t)
    ensures OrderedKeys(SinkFrom(s, n, slot, x, t).keys, n, start)
    decreases n - slot
  {
    if 2 * slot <= n {
      var c := PickChild(s.keys, n, slot);
      PickedIsSmallest(s.keys, n, slot);
      if s.keys[c] < t {
        DownStep(s.keys, n, start, slot, c, t);
        SinkOrders(Slots(s.recs[slot := s.recs[c]], s.keys[slot := s.keys[c]]), n, start, c, x, t);
        return;
      }
    }
    DownStop(s.keys, n, start, slot, t);
  }

  /** Rising permutes slots 1..n: they end up holding the records they held, with x in the hole. */
  lemma {:induction false} RisePermutes(s: Slots, n: int, slot: int, x: Customer?, t: real)
    requires 1 <= slot <= n < |s.recs| == |s.keys| && s.keys[0] == t
    ensures multiset(RiseFrom(s, slot, x, t).recs[1..n + 1]) == multiset(s.recs[slot := x][1..n + 1])
    decreases slot
  {
    if t < s.keys[Parent(slot)] {
      var p := Parent(slot);
      RisePermutes(Slots(s.recs[slot := s.recs[p]], s.keys[slot := s.keys[p]]), n, p, x, t);
      MoveHole(s.recs, n, p, slot, x);
    }
  }

  /** Rising from a hole that satisfies the percolateUp invariant orders every slot. */
  lemma {:induction false} RiseOrders(s: Slots, n: int, slot: int, x: Customer?, t: real)
    requires UpHole(s.keys, n, slot, t) && |s.recs| == |s.keys| && s.keys[0] == t
    ensures OrderedKeys(RiseFrom(s, slot, x, t).keys, n, 1)
    decreases slot
  {
    if t < s.keys[Parent(slot)] {
      var p := Parent(slot);
      UpStep(s.keys, n, slot, t);
      RiseOrders(Slots(s.recs[slot := s.recs[p]], s.keys[slot := s.keys[p]]), n, p, x, t);
    } else {
      UpDone(s.keys, n, slot, t);
    }
  }

  /**
   * Raising x from a new last slot n over keys ordered in slots 1..n-1 puts
   * exactly x into slots 1..n and orders them.
   */
  lemma RiseFromLast(s: Slots, n: int, x: Customer?, t: real)
    requires 1 <= n < |s.recs| == |s.keys| && s.keys[0] == t && OrderedKeys(s.keys, n - 1, 1)
    ensures OrderedKeys(RiseFrom(s, n, x, t).keys, n, 1)
    ensures multiset(RiseFrom(s, n, x, t).recs[1..n + 1]) == multiset(s.recs[1..n]) + multiset{x}
  {
    UpStart(s.keys, n, t);
    RiseOrders(s, n, n, x, t);
    RisePermutes(s, n, n, x, t);
    assert s.recs[n := x][1..n + 1] == s.recs[1..n] + [x];
  }

  /**
   * Sinking the record in `start` below ordered subtrees orders slots
   * `start`..n and only permutes slots 1..n.
   */
  lemma SinkFromTop(s: Slots, n: int, start: int)
    requires 1 <= start <= n < |s.recs| == |s.keys| && OrderedKeys(s.keys, n, start + 1)
    ensures OrderedKeys(SinkFrom(s, n, start, s.recs[start], s.keys[start]).keys, n, start)
    ensures multiset(SinkFrom(s, n, start, s.recs[start], s.keys[start]).recs[1..n + 1]) == multiset(s.recs[1..n + 1])
  {
    DownStart(s.keys, n, start);
    SinkOrders(s, n, start, start, s.recs[start], s.keys[start]);
    SinkPermutes(s, n, start, s.recs[start], s.keys[start]);
    assert s.recs[start := s.recs[start]] == s.recs;
  }

  /** Slot i lies in the subtree rooted at slot r: r is i or one of its ancestors. */
  predicate InSubtree(i: int, r: int)
    decreases i
  {
    1 <= r <= i && (i == r || InSubtree(Parent(i), r))
  }

  /** The subtree of a child of r lies inside the subtree of r. */
  lemma {:induction false} SubtreeOfChild(i: int, c: int, r: int)
    requires 1 <= r && Parent(c) == r && InSubtree(i, c)
    ensures InSubtree(i, r)
    decreases i
  {
    if i != c {
      SubtreeOfChild(Parent(i), c, r);
    }
  }

  /** Sinking from `slot` writes only slots in the subtree rooted at `slot`. */
  lemma {:induction false} SinkStaysInSubtree(s: Slots, n: int, slot: int, x: Customer?, t: real)
    requires 1 <= slot <= n < |s.recs| == |s.keys|
    ensures forall i :: 0 <= i < |s.recs| && !InSubtree(i, slot) ==> SinkFrom(s, n, slot, x, t).recs[i] == s.recs[i]
    decreases n - slot
  {
    if 2 * slot <= n && s.keys[PickChild(s.keys, n, slot)] < t {
      var c := PickChild(s.keys, n, slot);
      SinkStaysInSubtree(Slots(s.recs[slot := s.recs[c]], s.keys[slot := s.keys[c]]), n, c, x, t);
      forall i | 0 <= i < |s.recs| && InSubtree(i, c)
        ensures InSubtree(i, slot)
      {
        SubtreeOfChild(i, c, slot);
      }
    }
  }

  /** Moving slot n into slot 1 and dropping slot n removes exactly the record of slot 1 from slots 1..n. */
  lemma LastToFront(s: seq<Customer?>, n: int)
    requires 1 <= n < |s|
    ensures multiset(s[1 := s[n]][1..n]) == multiset(s[1..n + 1]) - multiset{s[1]}
  {
    if n > 1 {
      assert s[1 := s[n]][1..n] == [s[n]] + s[2..n];
      assert s[2..n + 1] == s[2..n] + [s[n]];
      assert s[1..n + 1] == [s[1]] + s[2..n + 1];
    }
  }

  /**
   * Successive deleteMin results do not go back in time: a record still in
   * the heap after a deletion, with its key unchanged, has a key no
   * smaller than the one deleted.
   */
  lemma NextMinNotEarlier(before: multiset<Customer?>, r: Customer, r2: Customer)
    requires KeysAtLeast(before, r.pqTime)
    requires r2 in before - multiset{r}
    ensures r.pqTime <= r2.pqTime
  {
    assert r2 in before;
  }

  // ---------------------------------------------------------------------------
  // The heap

  class Heap {
    var theSize: int
    var totalSize: int
    /** A C boolean: 1 after construction and after a deletion empties the heap. */
    var empty: int
    var arr: array<Customer?>  // the C field `array`
    /** Ghost mirror of the array's slots, kept equal to it slot by slot. */
    ghost var slots: seq<Customer?>

    /** The array has HEAPSIZE + 1 slots, mirrored by `slots`, and theSize is in range. */
    ghost predicate Shape()
      reads this, arr
    {
      arr.Length == HEAPSIZE + 1 && 0 <= theSize <= HEAPSIZE && |slots| == arr.Length &&
      forall i :: 0 <= i < arr.Length ==> arr[i] == slots[i]
    }

    /**
     * Shape of the heap, with slots 1..theSize filled; an empty heap has its
     * `empty` flag set.
     */
    ghost predicate Valid()
      reads this, arr
    {
      Shape() && (forall i :: 1 <= i <= theSize ==> slots[i] != null) && (theSize == 0 ==> empty == 1)
    }

    /** The record in slot 1, as a set: the one the next deleteMin hands out. */
    ghost function Top(): set<Customer>
      reads this
    {
      if 1 < |slots| && slots[1] != null then {slots[1]} else {}
    }

    /** The records in the heap, in slot order. */
    ghost function Elements(): seq<Customer?>
      requires Valid()
      reads this, arr
    {
      slots[1..theSize + 1]
    }

    /** The records in the heap, as a multiset. */
    ghost function Bag(): (b: multiset<Customer?>)
      requires Valid()
      reads this, arr
      ensures null !in b
      ensures |b| == theSize
    {
      var s := Elements();
      assert forall j :: 0 <= j < |s| ==> s[j] == slots[j + 1];
      multiset(s)
    }

    /** The keys of the slots; 0 stands in for the empty ones. */
    ghost function Keys(): (ks: seq<real>)
      requires Valid()
      reads this, arr, Elements()
      ensures |ks| == |slots|
      ensures forall i :: 1 <= i <= theSize ==> ks[i] == slots[i].pqTime
    {
      var s := Elements();
      var len := |slots|;
      seq(len, i requires 0 <= i < len reads s =>
        if 1 <= i <= |s| && s[i - 1] != null then s[i - 1].pqTime else 0.0)
    }

    /** Every parent from slot lo down has a key at most its child's. */
    ghost predicate OrderedFrom(lo: int)
      requires Valid()
      reads this, arr, Elements()
    {
      forall i {:trigger SlotEdgeOk(i)} :: 2 <= i <= theSize && lo <= Parent(i) ==> SlotEdgeOk(i)
    }

    /** The record in slot i does not sort before the one in its parent slot. */
    ghost predicate SlotEdgeOk(i: int)
      requires Valid() && 2 <= i <= theSize
      reads this, arr, Elements()
    {
      slots[Parent(i)].pqTime <= slots[i].pqTime
    }

    /** The heap-order invariant over slots 1..theSize. */
    ghost predicate HeapOrdered()
      requires Valid()
      reads this, arr, Elements()
    {
      OrderedFrom(1)
    }

    /** Heap order on the slots is heap order on any key sequence that follows them. */
    lemma OrderedByKeys(ks: seq<real>, lo: int)
      requires Valid() && theSize < |ks|
      requires forall i :: 1 <= i <= theSize ==> slots[i].pqTime == ks[i]
      ensures OrderedFrom(lo) <==> OrderedKeys(ks, theSize, lo)
    {
      if OrderedFrom(lo) {
        forall i | 2 <= i <= theSize && lo <= Parent(i)
          ensures EdgeOk(ks, i)
        {
          assert SlotEdgeOk(i);
        }
      }
      if OrderedKeys(ks, theSize, lo) {
        forall i | 2 <= i <= theSize && lo <= Parent(i)
          ensures SlotEdgeOk(i)
        {
          assert EdgeOk(ks, i);
        }
      }
    }

    /** constructHeap(0, NULL): an empty heap with the `empty` flag set. */
    constructor ()
      ensures Valid() && HeapOrdered()
      ensures theSize == 0 && totalSize == HEAPSIZE + 1 && empty == 1
      ensures Bag() == multiset{}
      ensures fresh(arr)
    {
      var a := new Customer?[HEAPSIZE + 1];
      arr := a;
      totalSize := HEAPSIZE + 1;
      theSize := 0;
      empty := 1;
      slots := a[..];
    }

    /** In a non-empty ordered heap the root is in the heap and no record has a smaller key. */
    lemma RootIsMinimalInBag()
      requires Valid() && HeapOrdered() && theSize > 0
      ensures slots[1] in Bag()
      ensures KeysAtLeast(Bag(), slots[1].pqTime)
    {
      var ks := Keys();
      OrderedByKeys(ks, 1);
      assert slots[1] == Elements()[0];
      forall c | c in Bag()
        ensures c != null && slots[1].pqTime <= c.pqTime
      {
        var j :| 0 <= j < |Elements()| && Elements()[j] == c;
        RootIsMinimal(ks, theSize, j + 1);
      }
    }

    /** The slots once percolateUp has placed `cust`, as RiseFrom computes them. */
    ghost function Risen(cust: Customer): (r: Slots)
      requires Valid() && theSize < HEAPSIZE
      reads this, arr, Elements(), cust
      ensures |r.recs| == |slots|
    {
      RiseFrom(Slots(slots[0 := cust], Keys()[0 := cust.pqTime]), theSize + 1, cust, cust.pqTime)
    }

    /** The slots once percolateDown has sunk the record in `start`, as SinkFrom computes them. */
    ghost function Sunk(start: int): (r: Slots)
      requires Valid() && 1 <= start <= theSize
      reads this, arr, Elements()
      ensures |r.recs| == |slots|
    {
      SinkFrom(Slots(slots, Keys()), theSize, start, slots[start], slots[start].pqTime)
    }

    /**
     * A change that leaves the slots alone and the keys of the records in
     * them unchanged keeps the records and their heap order.
     */
    twostate lemma OrderKept()
      requires old(Valid()) && old(HeapOrdered())
      requires unchanged(this, old(arr))
      requires forall c: Customer :: c in old(Elements()) ==> c.pqTime == old(c.pqTime)
      ensures Valid() && Bag() == old(Bag()) && HeapOrdered()
    {
      assert Elements() == old(Elements());
      forall i | 2 <= i <= theSize
        ensures SlotEdgeOk(i)
      {
        assert old(SlotEdgeOk(i));
        assert slots[i] == Elements()[i - 1] && slots[Parent(i)] == Elements()[Parent(i) - 1];
      }
    }

    /**
     * Sinking the record in `start` only permutes the records of the heap,
     * and below ordered subtrees it orders every slot from `start` down.
     */
    twostate lemma SinkKeepsHeap(start: int)
      requires old(Valid()) && old(OrderedFrom(start + 1)) && Valid()
      requires 1 <= start <= old(theSize) && theSize == old(theSize)
      requires slots == old(Sunk(start)).recs
      requires forall i :: 1 <= i <= theSize ==> slots[i].pqTime == old(Sunk(start)).keys[i]
      ensures Bag() == old(Bag())
      ensures OrderedFrom(start)
      ensures forall i :: 0 <= i < |slots| && !InSubtree(i, start) ==> slots[i] == old(slots[i])
    {
      var s0 := old(Slots(slots, Keys()));
      SinkStaysInSubtree(s0, theSize, start, s0.recs[start], s0.keys[start]);
      forall i | 2 <= i <= theSize && start + 1 <= Parent(i)
        ensures EdgeOk(s0.keys, i)
      {
        assert old(SlotEdgeOk(i));
      }
      SinkFromTop(s0, theSize, start);
      OrderedByKeys(old(Sunk(start)).keys, start);
    }

    /**
     * Raising `cust` from the new last slot adds exactly `cust` to the
     * records of an ordered heap and keeps every slot ordered.
     */
    twostate lemma RiseKeepsHeap(cust: Customer)
      requires old(Valid()) && old(HeapOrdered()) && old(theSize) < HEAPSIZE && Valid()
      requires theSize == old(theSize) + 1 && slots == old(Risen(cust)).recs
      requires forall i :: 1 <= i <= theSize ==> slots[i].pqTime == old(Risen(cust)).keys[i]
      ensures Bag() == old(Bag()) + multiset{cust}
      ensures HeapOrdered()
    {
      var s0 := old(Slots(slots[0 := cust], Keys()[0 := cust.pqTime]));
      forall i | 2 <= i <= theSize - 1 && 1 <= Parent(i)
        ensures EdgeOk(s0.keys, i)
      {
        assert old(SlotEdgeOk(i));
      }
      RiseFromLast(s0, theSize, cust, old(cust.pqTime));
      assert s0.recs[1..theSize] == old(Elements());
      OrderedByKeys(old(Risen(cust)).keys, 1);
    }

    /**
     * percolateUp: insert `cust` by sift-up. Slot 0 receives `cust` as a
     * sentinel, so the loop's comparison fails at the root without a bounds
     * test; each step moves a parent down one level and halves `slot`.
     */
    method PercolateUp(cust: Customer)
      requires Valid() && HeapOrdered()
      requires theSize < HEAPSIZE
      modifies this`theSize, this`slots, arr
      ensures Valid() && HeapOrdered()
      ensures theSize == old(theSize) + 1
      ensures Bag() == old(Bag()) + multiset{cust}
    {
      ghost var key := cust.pqTime;
      ghost var ks := Keys()[0 := key];
      arr[0] := cust;
      slots := slots[0 := cust];
      theSize := theSize + 1;
      var slot := theSize;
      ghost var fin := RiseFrom(Slots(slots, ks), slot, cust, key);
      while cust.pqTime < arr[slot / 2].pqTime
        invariant Shape() && theSize == old(theSize) + 1 && 1 <= slot <= theSize
        invariant |ks| == |slots| && slots[0] == cust && ks[0] == key
        invariant forall i :: 1 <= i <= theSize && i != slot ==> slots[i] != null && slots[i].pqTime == ks[i]
        invariant RiseFrom(Slots(slots, ks), slot, cust, key) == fin
        decreases slot
      {
        arr[slot] := arr[slot / 2];
        slots := slots[slot := slots[Parent(slot)]];
        ks := ks[slot := ks[Parent(slot)]];
        slot := slot / 2;
      }
      arr[slot] := cust;
      slots := slots[slot := cust];
      ks := ks[slot := key];
      assert slots == fin.recs && ks == fin.keys;
      RiseKeepsHeap(cust);
    }

    /** The child of `slot` that percolateDown compares with: the right one only when its key is strictly smaller. */
    method SmallerChild(slot: int, ghost ks: seq<real>) returns (child: int)
      requires Shape() && 1 <= slot && slot * 2 <= theSize && |ks| == |slots|
      requires forall i :: 1 <= i <= theSize ==> slots[i] != null && slots[i].pqTime == ks[i]
      ensures child == PickChild(ks, theSize, slot)
    {
      child := slot * 2;
      if child != theSize && arr[child + 1].pqTime < arr[child].pqTime {
        child := child + 1;
      }
    }

    /**
     * percolateDown(h, slot): sift the record in `start` down. The right child
     * is taken only when its key is strictly smaller than the left one's, and
     * a child moves up only when its key is strictly smaller than the sinking
     * record's. The records in the heap are permuted.
     */
    method PercolateDown(start: int)
      requires Valid()
      requires 1 <= start <= HEAPSIZE
      requires OrderedFrom(start + 1)
      modifies this`slots, arr
      ensures Valid() && theSize == old(theSize)
      ensures Bag() == old(Bag())
      ensures OrderedFrom(start)
      ensures forall i :: 0 <= i < |slots| && !InSubtree(i, start) ==> slots[i] == old(slots[i])
      ensures start <= theSize ==> slots == old(Sunk(start)).recs
      ensures start > theSize ==> slots == old(slots)
    {
      if start <= theSize {
        Sink(start);
        SinkKeepsHeap(start);
      } else {
        // the loop test fails at once and the record is written back in place
        var tmp := arr[start];
        arr[start] := tmp;
      }
    }

    /**
     * The loop of percolateDown when `start` holds a record: children move
     * up while they are smaller, then the record lands in the slot reached.
     * The slots end as Sunk describes them.
     */
    method Sink(start: int)
      requires Valid() && 1 <= start <= theSize
      modifies this`slots, arr
      ensures Valid() && theSize == old(theSize)
      ensures slots == old(Sunk(start)).recs
      ensures forall i :: 1 <= i <= theSize ==> slots[i].pqTime == old(Sunk(start)).keys[i]
    {
      var slot := start;
      var tmp := arr[slot];
      ghost var ks := Keys();
      ghost var key := tmp.pqTime;
      ghost var fin := SinkFrom(Slots(slots, ks), theSize, start, tmp, key);
      while slot * 2 <= theSize
        invariant Shape() && |ks| == |slots| && start <= slot <= theSize
        invariant forall i :: 1 <= i <= theSize ==> slots[i] != null && slots[i].pqTime == ks[i]
        invariant SinkFrom(Slots(slots, ks), theSize, slot, tmp, key) == fin
        decreases theSize - slot
      {
        var child := SmallerChild(slot, ks);
        if arr[child].pqTime < tmp.pqTime {
          arr[slot] := arr[child];
          slots := slots[slot := slots[child]];
          ks := ks[slot := ks[child]];
        } else {
          break;
        }
        slot := child;
      }
      arr[slot] := tmp;
      slots := slots[slot := tmp];
      ks := ks[slot := key];
      assert slots == fin.recs && ks == fin.keys;
    }

    /** buildHeap: sift down every internal slot, from theSize / 2 back to the root. */
    method BuildHeap()
      requires Valid()
      modifies this`slots, arr
      ensures Valid() && HeapOrdered()
      ensures Bag() == old(Bag())
    {
      var i := theSize / 2;
      while i > 0
        invariant 0 <= i <= theSize / 2
        invariant Valid() && Bag() == old(Bag())
        invariant OrderedFrom(i + 1)
      {
        PercolateDown(i);
        i := i - 1;
      }
    }

    /**
     * Moving the last record into the root of an ordered heap and shrinking
     * it by one drops exactly the root record and leaves every slot below
     * the root ordered.
     */
    twostate lemma LastToRootKeepsHeap()
      requires old(Valid()) && old(HeapOrdered()) && old(theSize) > 0 && Valid()
      requires theSize == old(theSize) - 1 && slots == old(slots[1 := slots[theSize]])
      requires forall i :: 1 <= i <= old(theSize) ==> old(slots[i]).pqTime == old(slots[i].pqTime)
      ensures Bag() == old(Bag()) - multiset{old(slots[1])}
      ensures OrderedFrom(2)
    {
      var n := old(theSize);
      var s := old(slots);
      var ks := old(Keys());
      forall i | 2 <= i <= n && 1 <= Parent(i)
        ensures EdgeOk(ks, i)
      {
        assert old(SlotEdgeOk(i));
      }
      LastToRoot(ks, n);
      OrderedByKeys(ks[1 := ks[n]], 2);
      LastToFront(s, n);
    }

    /**
     * The first half of deleteMin on a non-empty heap: the last record moves
     * to the root, the heap shrinks by one and `empty` is set if that left
     * it empty. This drops exactly the root record and leaves every slot
     * below the root ordered.
     */
    method MoveLastToRoot()
      requires Valid() && HeapOrdered() && theSize > 0
      modifies this`theSize, this`empty, this`slots, arr
      ensures Valid() && OrderedFrom(2)
      ensures theSize == old(theSize) - 1 && slots == old(slots[1 := slots[theSize]])
      ensures Bag() == old(Bag()) - multiset{old(slots[1])}
      ensures empty == if theSize == 0 then 1 else old(empty)
    {
      arr[1] := arr[theSize];
      slots := slots[1 := slots[theSize]];
      theSize := theSize - 1;
      if theSize == 0 {
        empty := 1;
      }
      LastToRootKeepsHeap();
    }

    /**
     * deleteMin: on an empty heap, NULL and no change. Otherwise the root is
     * returned, the last record moves to the root and sinks, and `empty` is
     * set when the heap becomes empty. No record of the heap had a smaller
     * key than the one returned. When the heap held one record, slot 1 keeps
     * pointing at the returned record.
     */
    method DeleteMin() returns (r: Customer?)
      requires Valid() && HeapOrdered()
      modifies this`theSize, this`empty, this`slots, arr
      ensures Valid() && HeapOrdered()
      ensures old(theSize) == 0 ==> r == null && theSize == 0 && empty == old(empty) && slots == old(slots)
      ensures old(theSize) > 0 ==> r == old(slots[1]) && r != null && theSize == old(theSize) - 1
      ensures old(theSize) > 0 ==> KeysAtLeast(old(Bag()), r.pqTime)
      ensures old(theSize) > 0 ==> Bag() == old(Bag()) - multiset{r}
      ensures old(theSize) == 1 ==> empty == 1 && slots[1] == r
      ensures old(theSize) > 1 ==> empty == old(empty)
    {
      var tmp := arr[1];
      if theSize == 0 {
        r := null;
      } else {
        RootIsMinimalInBag();
        RemoveRoot();
        r := tmp;
      }
    }

    /**
     * The non-empty case of deleteMin after the root has been read: the last
     * record moves to the root and sinks to its place.
     */
    method RemoveRoot()
      requires Valid() && HeapOrdered() && theSize > 0
      modifies this`theSize, this`empty, this`slots, arr
      ensures Valid() && HeapOrdered()
      ensures theSize == old(theSize) - 1 && Bag() == old(Bag()) - multiset{old(slots[1])}
      ensures empty == if theSize == 0 then 1 else old(empty)
      ensures theSize == 0 ==> slots[1] == old(slots[1])
    {
      MoveLastToRoot();
      PercolateDown(1);
    }

    /**
     * isEmptyHeap: reads the flag. It is 1 on an empty heap, but only
     * construction and deleteMin write it, so it stays 1 once the heap
     * refills (see `FlagAfterInsert`).
     */
    method IsEmptyHeap() returns (r: int)
      requires Valid()
      ensures theSize == 0 ==> r == 1
      ensures r == empty
    {
      r := empty;
    }

    /** getMin: slot 1 without removing it; on an empty heap that slot is stale. */
    method GetMin() returns (r: Customer?)
      requires Valid()
      ensures r == slots[1]
      ensures theSize > 0 && HeapOrdered() ==> r in Bag() && KeysAtLeast(Bag(), r.pqTime)
    {
      r := arr[1];
      if theSize > 0 && HeapOrdered() {
        RootIsMinimalInBag();
      }
    }
  }

  /**
   * isEmptyHeap is not a test of theSize == 0: after one percolateUp into a
   * freshly constructed heap, the heap holds a record and the flag still
   * reads 1.
   */
  method FlagAfterInsert(c: Customer) returns (h: Heap, r: int)
    ensures h.Valid() && h.theSize == 1 && c in h.Bag()
    ensures r == 1
  {
    h := new Heap();
    h.PercolateUp(c);
    r := h.IsEmptyHeap();
  }

  /**
   * Two deleteMin calls in a row: on a heap of two or more records the
   * second result has a key no smaller than the first; a heap of one gives
   * its record and then NULL, an empty heap NULL twice.
   */
  method DeleteMinTwice(h: Heap) returns (r1: Customer?, r2: Customer?)
    requires h.Valid() && h.HeapOrdered()
    modifies h`theSize, h`empty, h`slots, h.arr
    ensures h.Valid() && h.HeapOrdered()
    ensures old(h.theSize) >= 2 ==> r1 != null && r2 != null && r1.pqTime <= r2.pqTime
    ensures old(h.theSize) >= 2 ==> h.Bag() == old(h.Bag()) - multiset{r1} - multiset{r2}
    ensures old(h.theSize) == 1 ==> r1 != null && r2 == null && h.theSize == 0
    ensures old(h.theSize) == 0 ==> r1 == null && r2 == null
  {
    ghost var before := h.Bag();
    r1 := h.DeleteMin();
    ghost var next: Customer? := null;
    if h.theSize > 0 {
      next := h.slots[1];
      assert next == h.Elements()[0];
      NextMinNotEarlier(before, r1, next);
    }
    r2 := h.DeleteMin();
  }
}
