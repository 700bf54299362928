/** The queue that posters and workers share; each method here is one turn under its lock. */
module BlockingQueue {
  import opened CircularQueue
  import opened Options

  class Queue<T(0)> {
    const q: Ring<T>

    ghost predicate Valid()
      reads this, q, q.v
    {
      q.Valid() && q.maxItems > 0
    }

    ghost function Items(): seq<T>
      requires Valid()
      reads this, q, q.v
    {
      q.Contents()
    }

    function Capacity(): nat
      requires q.Valid()
      reads this, q
    {
      q.Capacity()
    }

    constructor (maxItems: nat)
      ensures Valid() && fresh(q) && fresh(q.v)
      ensures Items() == [] && Capacity() == maxItems && q.overrunCounter == 0
    {
      q := new Ring<T>(maxItems);
    }

    /** One evaluation of the wait's condition, and the push if it holds; otherwise the caller keeps waiting. */
    method Enqueue(item: T) returns (done: bool)
      requires Valid()
      modifies q, q.v
      ensures Valid() && q.v == old(q.v) && Capacity() == old(Capacity())
      ensures done <==> old(|Items()|) < Capacity()
      ensures Items() == if done then old(Items()) + [item] else old(Items())
      ensures q.overrunCounter == old(q.overrunCounter)
    {
      var full := q.Full();
      if full { return false; }
      q.PushBack(item);
      return true;
    }

    /** Never waits; the oldest item is overrun when there is no room. */
    method EnqueueNowait(item: T)
      requires Valid()
      modifies q, q.v
      ensures Valid() && q.v == old(q.v) && Capacity() == old(Capacity())
      ensures Items() == Pushed(old(Items()), Capacity(), item)
      ensures q.overrunCounter == old(q.overrunCounter) + |Overrun(old(Items()), Capacity(), item)|
    {
      q.PushBack(item);
    }

    /** The end of a wait: nothing, if there still is no item when the time is over. */
    method DequeueFor() returns (item: Option<T>)
      requires Valid()
      modifies q
      ensures Valid() && q.v == old(q.v) && Capacity() == old(Capacity())
      ensures q.overrunCounter == old(q.overrunCounter)
      ensures item.None? ==> old(Items()) == [] == Items()
      ensures item.Some? ==> old(Items()) == [item.value] + Items()
    {
      var empty := q.Empty();
      if empty { return None; }
      var front := q.Front();
      q.PopFront();
      return Some(front);
    }
  }
}
