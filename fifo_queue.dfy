// The bounded ring buffer of RAM frame indices that records global load
// order for FIFO replacement (src/simulador_memoria.c:96-103, 218-253).

module Fifo {

  /** The abstract effect of one enqueue: the value is appended unless the
      queue already holds `capacity` entries, in which case it is dropped. */
  function Enqueued(q: seq<int>, capacity: int, x: int): (r: seq<int>)
    ensures |q| < capacity ==> r == q + [x]
    ensures |q| >= capacity ==> r == q
  {
    if |q| < capacity then q + [x] else q
  }

  /** The abstract effect of enqueueing every element of `xs`, in order. */
  function EnqueuedAll(q: seq<int>, capacity: int, xs: seq<int>): (r: seq<int>)
    decreases |xs|
  {
    if xs == [] then q
    else Enqueued(EnqueuedAll(q, capacity, xs[..|xs| - 1]), capacity, xs[|xs| - 1])
  }

  /** Enqueueing never lets the queue grow beyond its capacity, and what was
      already queued stays at the front, in the same order. */
  lemma {:induction false} EnqueuedAllBounded(q: seq<int>, capacity: int, xs: seq<int>)
    requires |q| <= capacity
    ensures |EnqueuedAll(q, capacity, xs)| <= capacity
    ensures q <= EnqueuedAll(q, capacity, xs)
    ensures forall x :: x in EnqueuedAll(q, capacity, xs) ==> x in q || x in xs
    decreases |xs|
  {
    if xs != [] {
      var init := xs[..|xs| - 1];
      EnqueuedAllBounded(q, capacity, init);
      forall x | x in init ensures x in xs {
        var i :| 0 <= i < |init| && init[i] == x;
        assert xs[i] == x;
      }
    }
  }

  /** FIFO order: when nothing is dropped, the queue is the old queue
      followed by the enqueued values. */
  lemma {:induction false} EnqueuedAllAppends(q: seq<int>, capacity: int, xs: seq<int>)
    requires |q| + |xs| <= capacity
    ensures EnqueuedAll(q, capacity, xs) == q + xs
    decreases |xs|
  {
    if xs != [] {
      var init := xs[..|xs| - 1];
      EnqueuedAllAppends(q, capacity, init);
      assert init + [xs[|xs| - 1]] == xs;
    }
  }

  class FifoQueue {
    const queue: array<int>
    const capacity: int
    var front: int
    var rear: int
    var size: int
    // the frame indices in the queue, oldest first
    ghost var Contents: seq<int>

    /** The buffer position of the k-th oldest entry. */
    ghost function Slot(k: int): int
      reads this
    {
      if front + k < capacity then front + k else front + k - capacity
    }

    ghost predicate Valid()
      reads this, queue
    {
      && queue.Length == capacity
      && 0 <= size <= capacity
      && |Contents| == size
      && (capacity == 0 ==> front == 0 && rear == -1)
      && (capacity > 0 ==>
            && 0 <= front < capacity
            && -1 <= rear < capacity
            && (if rear + 1 == capacity then 0 else rear + 1) == Slot(size)
            && forall k :: 0 <= k < size ==> Contents[k] == queue[Slot(k)])
    }

    /** create_fifo_queue */
    constructor (cap: int)
      requires cap >= 0
      ensures Valid() && fresh(queue)
      ensures capacity == cap && Contents == []
    {
      queue := new int[cap];
      capacity := cap;
      front := 0;
      rear := -1;
      size := 0;
      Contents := [];
    }

    /** enqueue_fifo: a full queue silently drops the value. */
    method Enqueue(frameIndex: int)
      requires Valid()
      modifies this, queue
      ensures Valid()
      ensures Contents == Enqueued(old(Contents), capacity, frameIndex)
    {
      if size >= capacity {
        return;
      }
      ModStep(rear + 1, capacity);
      rear := (rear + 1) % capacity;
      queue[rear] := frameIndex;
      size := size + 1;
      Contents := Contents + [frameIndex];
    }

    /** dequeue_fifo: -1 on an empty queue, which is then left unchanged. */
    method Dequeue() returns (frameIndex: int)
      requires Valid()
      modifies this
      ensures Valid()
      ensures old(Contents) == [] ==> frameIndex == -1 && Contents == []
      ensures old(Contents) != [] ==> frameIndex == old(Contents)[0] && Contents == old(Contents)[1..]
    {
      if size == 0 {
        return -1;
      }
      frameIndex := queue[front];
      ModStep(front + 1, capacity);
      front := (front + 1) % capacity;
      size := size - 1;
      Contents := Contents[1..];
    }

    /** is_fifo_empty */
    method IsEmpty() returns (empty: bool)
      requires Valid()
      ensures empty <==> Contents == []
    {
      empty := size == 0;
    }
  }

  lemma {:induction false} ModStep(x: int, m: int)
    requires 0 < m && 0 <= x <= m
    ensures x % m == if x == m then 0 else x
  {
  }
}
