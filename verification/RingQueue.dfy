/**
  The growing ring queue: a FIFO sequence in an array that is read and written
  around its end and doubled when it is full.
 */
module RingQueue {

  const INIT_QUEUE_SIZE := 1024

  /** Slot `k` places after `front`, around the end of the array. */
  ghost function Slot(front: nat, size: nat, k: nat): nat
    requires front < size && k < size
  {
    if front + 1 + k < size then front + 1 + k else front + 1 + k - size
  }

  /** The `n` elements that follow `front`. */
  ghost function ItemsOf(q: seq<object?>, front: nat, size: nat, n: nat): seq<object?>
    requires front < size <= |q| && n < size
  {
    seq(n, k requires 0 <= k < n => q[Slot(front, size, k)])
  }

  lemma Remainder(a: nat, size: nat)
    requires size > 0 && a < 2 * size
    ensures a % size == if a < size then a else a - size
  {
    if a >= size {
      assert a == size + (a - size);
      Wrap(a - size, size);
    }
  }

  lemma Wrap(b: nat, size: nat)
    requires b < size
    ensures (size + b) % size == b
  {
  }

  lemma NoItems(q: seq<object?>, front: nat, size: nat, n: nat)
    requires front < size <= |q| && n < size
    ensures |ItemsOf(q, front, size, n)| == n
  {
  }

  lemma PushedItems(q: seq<object?>, front: nat, size: nat, n: nat, data: object?)
    requires front < size <= |q| && n + 1 < size
    ensures ItemsOf(q[Slot(front, size, n) := data], front, size, n + 1) == ItemsOf(q, front, size, n) + [data]
  {
  }

  lemma PoppedItems(q: seq<object?>, front: nat, size: nat, n: nat)
    requires front < size <= |q| && 0 < n < size
    ensures ItemsOf(q, front, size, n)[0] == q[Slot(front, size, 0)]
    ensures ItemsOf(q, front, size, n)[1..] == ItemsOf(q, Slot(front, size, 0), size, n - 1)
  {
  }

  /** A full queue keeps its order when the part that went around the end is put behind it. */
  lemma GrownItems(q: seq<object?>, q': seq<object?>, front: nat, size: nat)
    requires front < size == |q| && |q'| == 2 * size
    requires forall k :: front < k < size ==> q'[k] == q[k]
    requires forall k :: size <= k < size + front ==> q'[k] == q[k - size]
    ensures ItemsOf(q', front, 2 * size, size - 1) == ItemsOf(q, front, size, size - 1)
  {
    forall k | 0 <= k < size - 1 ensures q'[Slot(front, 2 * size, k)] == q[Slot(front, size, k)] {
      if front + 1 + k < size {
        assert q'[front + 1 + k] == q[front + 1 + k];
      } else {
        assert q'[front + 1 + k] == q[front + 1 + k - size];
      }
    }
    var s, s' := ItemsOf(q, front, size, size - 1), ItemsOf(q', front, 2 * size, size - 1);
    assert forall k :: 0 <= k < size - 1 ==> s'[k] == s[k];
  }

  class Queue {
    var q: array<object?>
    var size: int
    var front: int
    var rear: int

    /** All data ever pushed and popped, in order. */
    ghost var pushed: seq<object?>
    ghost var popped: seq<object?>

    /** `queue_create` for a size that is not negative. */
    constructor (n: nat)
      ensures Valid() && Items() == [] && pushed == popped == [] && fresh(q)
      ensures size == if n <= 1 then 1024 else n
    {
      var m := if n == 0 || n == 1 then INIT_QUEUE_SIZE else n;
      q := new object?[m];
      size, front, rear := m, 0, 0;
      pushed, popped := [], [];
    }

    ghost predicate Shape()
      reads this`q, this`size, this`front, this`rear
    {
      q.Length == size >= 2 && 0 <= front < size && 0 <= rear < size
    }

    ghost function Length(): nat
      requires Shape()
      reads this`q, this`size, this`front, this`rear
    {
      if rear >= front then rear - front else rear - front + size
    }

    /** The elements, oldest first. */
    ghost function Items(): seq<object?>
      requires Shape()
      reads this, q
    {
      ItemsOf(q[..], front, size, Length())
    }

    /** What was pushed is what was popped followed by what is still there. */
    ghost predicate Valid()
      reads this, q
    {
      Shape() && pushed == popped + Items()
    }

    /** `queue_full` */
    method Full() returns (r: bool)
      requires Shape()
      ensures r <==> Length() == size - 1
    {
      Remainder(rear + 1, size);
      return (rear + 1) % size == front;
    }

    /** `queue_empty` */
    method Empty() returns (r: bool)
      requires Shape()
      ensures r <==> Items() == []
    {
      return front == rear;
    }

    /** `queue_element_count` */
    method ElementCount() returns (n: int)
      requires Shape()
      ensures n == |Items()|
    {
      Remainder(rear - front + size, size);
      return (rear - front + size) % size;
    }

    /** The part of `queue_push` that doubles a full queue. */
    method Grow()
      requires Shape() && Length() == size - 1 && 2 * size <= 0x7fff_ffff
      modifies this`q, this`size, this`rear
      ensures Shape() && fresh(q) && size == 2 * old(size)
      ensures Items() == old(Items()) && Length() < size - 1
    {
      hide ItemsOf, Slot;
      var org_size := size;
      size := size * 2;
      var bigger := new object?[size];
      forall i | 0 <= i < org_size {
        bigger[i] := q[i];
      }
      ghost var s := q[..];
      q := bigger;
      if rear < front {
        var i := 0;
        while i <= rear
          invariant 0 <= i <= rear + 1 && q == bigger
          invariant forall k :: 0 <= k < org_size ==> q[k] == s[k]
          invariant forall k :: org_size <= k < org_size + i ==> q[k] == s[k - org_size]
          modifies bigger
        {
          q[org_size + i] := q[i];
          i := i + 1;
        }
        rear := org_size + rear;
      }
      GrownItems(s, q[..], front, org_size);
      assert Length() == org_size - 1;
      assert s == old(q[..]);
      assert Items() == ItemsOf(q[..], front, size, org_size - 1);
    }

    /** `queue_push` */
    method Push(data: object?)
      requires Valid() && (Length() == size - 1 ==> 2 * size <= 0x7fff_ffff)
      modifies this`q, this`size, this`rear, this`pushed, q
      ensures Valid() && (q == old(q) || fresh(q))
      ensures Items() == old(Items()) + [data]
      ensures pushed == old(pushed) + [data]
      ensures size == if |old(Items())| == old(size) - 1 then 2 * old(size) else old(size)
    {
      hide ItemsOf;
      var full := Full();
      NoItems(q[..], front, size, Length());
      if full {
        Grow();
      }
      Put(data);
      pushed := pushed + [data];
      assert old(popped) + (old(Items()) + [data]) == old(popped) + old(Items()) + [data];
    }

    /** The part of `queue_push` that adds at the rear. */
    method Put(data: object?)
      requires Shape() && Length() < size - 1
      modifies this`rear, q
      ensures Shape() && Items() == old(Items()) + [data] && Length() == old(Length()) + 1
    {
      hide ItemsOf;
      Remainder(rear + 1, size);
      ghost var s, n := q[..], Length();
      rear := (rear + 1) % size;
      q[rear] := data;
      PushedItems(s, front, size, n, data);
    }

    /** `queue_pop`: null is also what popping null data gives. */
    method Pop() returns (data: object?)
      requires Valid()
      modifies this`front, this`popped
      ensures Valid() && pushed == old(pushed)
      ensures old(Items()) == [] ==> data == null && Items() == [] && popped == old(popped)
      ensures old(Items()) != [] ==> data == old(Items())[0] && Items() == old(Items())[1..] && popped == old(popped) + [data]
    {
      hide ItemsOf;
      NoItems(q[..], front, size, Length());
      if front == rear {
        return null;
      }
      Remainder(front + 1, size);
      PoppedItems(q[..], front, size, Length());
      front := (front + 1) % size;
      data := q[front];
      popped := popped + [data];
    }

    /** `queue_head`; on an empty queue it reads whatever the next slot holds. */
    method Head() returns (data: object?)
      requires Shape()
      ensures Items() != [] ==> data == Items()[0]
    {
      Remainder(front + 1, size);
      var head := (front + 1) % size;
      return q[head];
    }
  }

  /** `queue_create` */
  method Create(size: int) returns (queue: Queue?)
    ensures queue == null <==> size < 0
    ensures queue != null ==> fresh(queue) && queue.Valid() && queue.Items() == [] && queue.size == if size <= 1 then 1024 else size
  {
    if size < 0 {
      return null;
    }
    queue := new Queue(size);
  }
}
