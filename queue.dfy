/**
  `TransactionQueue` of coincount.go: a slice of movements where `Enqueue`
  inserts at the front by shifting every element up one place and `Dequeue`
  and `Peek` take from the back, so that elements leave in the order they
  arrived.
 */
module Queue {
  import opened Records

  /** `s` backwards. */
  function Reversed<T>(s: seq<T>): (r: seq<T>)
    ensures |r| == |s|
  {
    if s == [] then [] else [s[|s| - 1]] + Reversed(s[..|s| - 1])
  }

  /** Putting an element in front of a sequence puts it at the end of its reversal. */
  lemma {:induction false} ReversedPrepend<T>(x: T, s: seq<T>)
    ensures Reversed([x] + s) == Reversed(s) + [x]
  {
    if s != [] {
      assert ([x] + s)[..|s|] == [x] + s[..|s| - 1];
      ReversedPrepend(x, s[..|s| - 1]);
    }
  }

  class TransactionQueue {
    /** The underlying slice; the element that arrived first is at the back. */
    var items: seq<InventoryTransaction>

    /** The queue in arrival order, oldest first. */
    ghost function Arrivals(): (f: seq<InventoryTransaction>)
      reads this
      ensures |f| == |items|
      ensures items != [] ==> f[0] == items[|items| - 1]
    {
      Reversed(items)
    }

    /** `make(TransactionQueue, 0)` */
    constructor ()
      ensures items == []
    {
      items := [];
    }

    /** Appends a slot, shifts every element up one index and stores the new
        element at index 0. */
    method Enqueue(transaction: InventoryTransaction)
      modifies this
      ensures items == [transaction] + old(items)
      ensures Arrivals() == old(Arrivals()) + [transaction]
    {
      var tmp := items + [transaction];
      var i := |tmp| - 2;
      while i >= 0
        invariant -1 <= i <= |tmp| - 2 && |tmp| == |old(items)| + 1
        invariant forall k :: 0 <= k <= i ==> tmp[k] == old(items)[k]
        invariant forall k :: i + 2 <= k < |tmp| ==> tmp[k] == old(items)[k - 1]
      {
        tmp := tmp[i + 1 := tmp[i]];
        i := i - 1;
      }
      tmp := tmp[0 := transaction];
      assert tmp == [transaction] + old(items);
      items := tmp;
      ReversedPrepend(transaction, old(items));
    }

    /** Removes and returns the last element; `EmptyQueue` and no change when
        the queue is empty. */
    method Dequeue() returns (r: Result<InventoryTransaction>)
      modifies this
      ensures old(items) == [] ==> r == Err(EmptyQueue) && items == old(items)
      ensures old(items) != [] ==>
        r == Ok(old(items)[|old(items)| - 1]) && items == old(items)[..|old(items)| - 1]
      ensures old(items) != [] ==> r == Ok(old(Arrivals())[0]) && Arrivals() == old(Arrivals())[1..]
    {
      if |items| < 1 {
        return Err(EmptyQueue);
      }
      r := Ok(items[|items| - 1]);
      items := items[..|items| - 1];
    }

    /** The last element, without removing it; `EmptyQueue` when there is none. */
    function Peek(): (r: Result<InventoryTransaction>)
      reads this
      ensures r.Err? <==> items == []
      ensures r.Err? ==> r.error == EmptyQueue
      ensures r.Ok? ==> r.value == items[|items| - 1] && r.value == Arrivals()[0]
    {
      if |items| < 1 then Err(EmptyQueue) else Ok(items[|items| - 1])
    }
  }
}
