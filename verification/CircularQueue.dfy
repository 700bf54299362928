/** A bounded queue in a ring of slots, one of which always stays free. */
module CircularQueue {
  import opened Arithmetic

  /** Adding to a queue that holds at most `capacity` items drops the oldest one when it is full. */
  function Pushed<T>(items: seq<T>, capacity: nat, x: T): (r: seq<T>)
    requires |items| <= capacity
    ensures |r| <= capacity
  {
    if |items| < capacity then items + [x] else (items + [x])[1..]
  }

  /** What the push drops: nothing, or the oldest item, which is the new one if there is no room at all. */
  function Overrun<T>(items: seq<T>, capacity: nat, x: T): (r: seq<T>)
    requires |items| <= capacity
    ensures |r| == if |items| < capacity then 0 else 1
  {
    if |items| < capacity then [] else [(items + [x])[0]]
  }

  /** Nothing else is lost, and the order stays. */
  lemma PushKeepsOrder<T>(items: seq<T>, capacity: nat, x: T)
    requires |items| <= capacity
    ensures Overrun(items, capacity, x) + Pushed(items, capacity, x) == items + [x]
  {
  }

  /** The items between two places of a ring. */
  function Between<T>(v: seq<T>, head: nat, tail: nat): seq<T>
    requires head <= |v| && tail <= |v|
  {
    if tail >= head then v[head..tail] else v[head..] + v[..tail]
  }

  function Next(i: nat, n: nat): nat { if i + 1 < n then i + 1 else 0 }

  /** Storing at the tail, while some slot stays free. */
  lemma StoredAtTail<T>(v: seq<T>, head: nat, tail: nat, x: T)
    requires head < |v| && tail < |v| && Next(tail, |v|) != head
    ensures Between(v[tail := x], head, Next(tail, |v|)) == Between(v, head, tail) + [x]
  {
    if tail + 1 == |v| {
      assert v[tail := x][head..] == v[head..tail] + [x];
    } else if tail >= head {
      assert v[tail := x][head..tail + 1] == v[head..tail] + [x];
    } else {
      assert v[tail := x][..tail + 1] == v[..tail] + [x];
    }
  }

  /** Storing into the last free slot makes the oldest item's slot the free one. */
  lemma StoredWhenFull<T>(v: seq<T>, head: nat, tail: nat, x: T)
    requires head < |v| && tail < |v| && Next(tail, |v|) == head
    ensures Between(v[tail := x], Next(head, |v|), head) == (Between(v, head, tail) + [x])[1..]
  {
    if |v| == 1 {
      assert Between(v, head, tail) == [];
    } else if tail + 1 == |v| {
      assert (v[..tail] + [x])[1..] == v[1..tail] + [x] == v[tail := x][1..] + [];
    } else if head + 1 == |v| {
      assert v[tail := x][..head] == v[..tail] + [x];
      assert v[head..] == [v[head]];
    } else {
      var w := v[tail := x];
      assert w[head + 1..] == v[head + 1..] && w[..head] == v[..tail] + [x];
      assert v[head..] == [v[head]] + v[head + 1..];
      WithoutFirst(v[head], v[head + 1..], v[..tail], x);
    }
  }

  lemma WithoutFirst<T>(first: T, a: seq<T>, b: seq<T>, x: T)
    ensures (([first] + a) + b + [x])[1..] == a + (b + [x])
  {
  }

  lemma StoredIsPushed<T>(v: seq<T>, head: nat, tail: nat, x: T)
    requires head < |v| && tail < |v|
    ensures var (items, next) := (Between(v, head, tail), Next(tail, |v|));
            && |items| <= |v| - 1
            && Between(v[tail := x], if next == head then Next(head, |v|) else head, next) == Pushed(items, |v| - 1, x)
            && |Overrun(items, |v| - 1, x)| == if next == head then 1 else 0
  {
    if Next(tail, |v|) == head {
      StoredWhenFull(v, head, tail, x);
    } else {
      StoredAtTail(v, head, tail, x);
    }
  }

  lemma WrapsAround(x: nat, n: nat)
    requires 0 < n && x < 2 * n
    ensures x % n == if x < n then x else x - n
  {
    if x < n {
      DivModUnique(x, n, 0, x);
    } else {
      DivModUnique(x, n, 1, x - n);
    }
  }

  class Ring<T(0)> {
    var maxItems: nat
    var head: nat
    var tail: nat
    var overrunCounter: nat
    var v: array<T>

    /** A queue without slots is disabled; one with slots keeps one of them free. */
    ghost predicate Valid()
      reads this
    {
      v.Length == maxItems && if maxItems == 0 then head == tail == 0 else head < maxItems && tail < maxItems
    }

    function Count(): nat
      requires Valid()
      reads this
    {
      if tail >= head then tail - head else maxItems - (head - tail)
    }

    function Capacity(): nat
      requires Valid()
      reads this
    {
      if maxItems == 0 then 0 else maxItems - 1
    }

    /** The items, oldest first. */
    ghost function Contents(): (s: seq<T>)
      requires Valid()
      reads this, v
      ensures |s| == Count() <= Capacity()
    {
      Between(v[..], head, tail)
    }

    constructor Disabled()
      ensures Valid() && maxItems == 0 && overrunCounter == 0 && Contents() == []
    {
      maxItems, head, tail, overrunCounter := 0, 0, 0, 0;
      v := new T[0];
    }

    constructor (capacity: nat)
      ensures Valid() && fresh(v) && maxItems == capacity + 1 && overrunCounter == 0 && Contents() == []
    {
      maxItems, head, tail, overrunCounter := capacity + 1, 0, 0, 0;
      v := new T[capacity + 1];
    }

    method PushBack(item: T)
      requires Valid()
      modifies this, v
      ensures Valid() && v == old(v) && maxItems == old(maxItems)
      ensures maxItems == 0 ==> Contents() == [] && overrunCounter == old(overrunCounter)
      ensures maxItems > 0 ==> Contents() == Pushed(old(Contents()), Capacity(), item)
      ensures maxItems > 0 ==>
                overrunCounter == old(overrunCounter) + |Overrun(old(Contents()), Capacity(), item)|
    {
      if maxItems > 0 {
        ghost var slots, from, to := v[..], head, tail;
        StoredIsPushed(slots, from, to, item);
        Store(item);
      }
    }

    /** Overwrites the free slot, and frees the oldest item's slot if that was the last. */
    method Store(item: T)
      requires Valid() && maxItems > 0
      modifies this, v
      ensures v == old(v) && maxItems == old(maxItems) && v[..] == old(v[..])[old(tail) := item]
      ensures tail == Next(old(tail), maxItems)
      ensures head == if tail == old(head) then Next(old(head), maxItems) else old(head)
      ensures overrunCounter == old(overrunCounter) + if tail == old(head) then 1 else 0
    {
      WrapsAround(tail + 1, maxItems);
      WrapsAround(head + 1, maxItems);
      v[tail] := item;
      tail := (tail + 1) % maxItems;
      if tail == head {
        head := (head + 1) % maxItems;
        overrunCounter := overrunCounter + 1;
      }
    }

    /** Undefined without items, so none are allowed here. */
    method Front() returns (item: T)
      requires Valid() && Contents() != []
      ensures item == Contents()[0]
    {
      item := v[head];
    }

    method At(i: nat) returns (item: T)
      requires Valid() && i < |Contents()|
      ensures item == Contents()[i]
    {
      WrapsAround(head + i, maxItems);
      item := v[(head + i) % maxItems];
    }

    method PopFront()
      requires Valid() && Contents() != []
      modifies this
      ensures Valid() && v == old(v) && maxItems == old(maxItems) && overrunCounter == old(overrunCounter)
      ensures Contents() == old(Contents())[1..]
    {
      WrapsAround(head + 1, maxItems);
      head := (head + 1) % maxItems;
    }

    method Size() returns (n: nat)
      requires Valid()
      ensures n == |Contents()|
    {
      n := if tail >= head then tail - head else maxItems - (head - tail);
    }

    method Empty() returns (r: bool)
      requires Valid()
      ensures r <==> Contents() == []
    {
      r := tail == head;
    }

    /** A disabled queue is never full; one without capacity always is. */
    method Full() returns (r: bool)
      requires Valid()
      ensures r <==> maxItems > 0 && |Contents()| == Capacity()
    {
      if maxItems > 0 {
        WrapsAround(tail + 1, maxItems);
        return (tail + 1) % maxItems == head;
      }
      return false;
    }

    /** Takes over the other queue's slots and leaves that one disabled. */
    method CopyMoveable(other: Ring<T>)
      requires other.Valid() && other != this
      modifies this, other
      ensures Valid() && Contents() == old(other.Contents()) && Capacity() == old(other.Capacity())
      ensures overrunCounter == old(other.overrunCounter) && v == old(other.v)
      ensures other.Valid() && other.Contents() == [] && other.maxItems == 0 && other.overrunCounter == 0
      ensures fresh(other.v)
    {
      maxItems, head, tail := other.maxItems, other.head, other.tail;
      overrunCounter := other.overrunCounter;
      v := other.v;
      other.maxItems, other.head, other.tail, other.overrunCounter := 0, 0, 0, 0;
      other.v := new T[0];
    }
  }
}
