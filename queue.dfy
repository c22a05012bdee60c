/**
 * The fixed-size ring-buffer queue of the `sky` library (sky/queue.hpp).
 *
 * `QueueState` and the functions over it describe what one `enq` or `deq`
 * does to the four members of the object; the class `Queue` is the object
 * itself, an array with three indices, and its methods are proved to perform
 * exactly those steps.
 *
 * The source admits more than `SIZE` elements: `enq` on a full queue advances
 * the head (overwriting the oldest element) and still increments the size, so
 * `size` can exceed the capacity, and `deq` tests emptiness by `head == tail`,
 * which is also true of a full queue.
 */
module SkyQueue {

  /** The members `m_buffer`, `m_head`, `m_tail` and `m_size`. */
  datatype QueueState<T> = QueueState(slots: seq<T>, head: nat, tail: nat, size: nat)

  /** `inc` and `next`: one position further round the ring. */
  function Next(value: nat, capacity: nat): nat
    requires capacity > 0
  {
    (value + 1) % capacity
  }

  /** The position `k` places after `h` round a ring of `n` slots. */
  function Pos(h: nat, k: nat, n: nat): nat
    requires n > 0
  {
    (h + k) % n
  }

  lemma MulNonNeg(a: int, n: int)
    requires a >= 0 && n >= 0
    ensures a * n >= 0
  {
  }

  /** Euclidean division has one quotient and one remainder. */
  lemma ModUnique(x: int, q: int, r: int, n: int)
    requires n > 0 && 0 <= r < n && x == q * n + r
    ensures x % n == r && x / n == q
  {
    var q', r' := x / n, x % n;
    assert x == q' * n + r' && 0 <= r' < n;
    if q' > q {
      assert q' * n - q * n == (q' - q - 1) * n + n;
      MulNonNeg(q' - q - 1, n);
      assert false;
    } else if q' < q {
      assert q * n - q' * n == (q - q' - 1) * n + n;
      MulNonNeg(q - q' - 1, n);
      assert false;
    }
  }

  /** Within one turn of the ring a position needs at most one wrap. */
  lemma PosSmall(h: nat, k: nat, n: nat)
    requires n > 0 && h < n && k <= n
    ensures Pos(h, k, n) == if h + k < n then h + k else h + k - n
  {
    if h + k < n {
      ModUnique(h + k, 0, h + k, n);
    } else {
      ModUnique(h + k, 1, h + k - n, n);
    }
  }

  /** One more step from position `h + k` is position `h + k + 1`. */
  lemma PosSucc(h: nat, k: nat, n: nat)
    requires n > 0
    ensures Next(Pos(h, k, n), n) == Pos(h, k + 1, n)
  {
    var q, r := (h + k) / n, (h + k) % n;
    assert h + k == q * n + r;
    PosSmall(r, 1, n);
    if r == n - 1 {
      ModUnique(h + k + 1, q + 1, 0, n);
    } else {
      ModUnique(h + k + 1, q, r + 1, n);
    }
  }

  /** Counting from the next slot is counting one further from this one. */
  lemma PosShift(h: nat, k: nat, n: nat)
    requires n > 0
    ensures Pos(Next(h, n), k, n) == Pos(h, k + 1, n)
  {
    var q1, r1 := (h + 1) / n, (h + 1) % n;
    var q2, r2 := (r1 + k) / n, (r1 + k) % n;
    assert h + 1 == q1 * n + r1 && r1 + k == q2 * n + r2;
    assert h + k + 1 == (q1 + q2) * n + r2;
    ModUnique(h + k + 1, q1 + q2, r2, n);
  }

  /**
   * The states `enq` and `deq` can reach from the empty queue: the tail is
   * `size` positions past the head, or `size - 1` once the size has gone past
   * the capacity (the first overflowing `enq` moves head and tail together).
   */
  predicate Wf<T>(q: QueueState<T>, capacity: nat)
  {
    capacity > 0 && |q.slots| == capacity && q.head < capacity && q.tail < capacity &&
    q.tail == Pos(q.head, if q.size > capacity then q.size - 1 else q.size, capacity)
  }

  /** The empty queue as value-initialised: every slot holds `blank`. */
  function Empty<T>(capacity: nat, blank: T): (q: QueueState<T>)
    requires capacity > 0
    ensures Wf(q, capacity) && q.size == 0
  {
    PosSmall(0, 0, capacity);
    QueueState(seq(capacity, _ => blank), 0, 0, 0)
  }

  /** The state after `enq(data)`. */
  function Enqueued<T>(q: QueueState<T>, capacity: nat, data: T): QueueState<T>
    requires Wf(q, capacity)
  {
    QueueState(q.slots[q.tail := data],
               if q.size == capacity then Next(q.head, capacity) else q.head,
               Next(q.tail, capacity),
               q.size + 1)
  }

  /** The value `deq` returns: the slot at the head, in both of its branches. */
  function Front<T>(q: QueueState<T>, capacity: nat): T
    requires Wf(q, capacity)
  {
    q.slots[q.head]
  }

  /** The state after `deq()`: unchanged when head and tail meet. */
  function Dequeued<T>(q: QueueState<T>, capacity: nat): QueueState<T>
    requires Wf(q, capacity)
  {
    if q.head == q.tail then q
    else QueueState(q.slots, Next(q.head, capacity), q.tail, if q.size == 0 then 0 else q.size - 1)
  }

  /** The elements in queue order, meaningful while the size is within the capacity. */
  function Items<T>(q: QueueState<T>, capacity: nat): (items: seq<T>)
    requires Wf(q, capacity) && q.size <= capacity
    ensures |items| == q.size
  {
    seq(q.size, i requires 0 <= i < q.size => q.slots[Pos(q.head, i, capacity)])
  }

  lemma EnqueuedWf<T>(q: QueueState<T>, capacity: nat, data: T)
    requires Wf(q, capacity)
    ensures Wf(Enqueued(q, capacity, data), capacity)
    ensures Enqueued(q, capacity, data).size == q.size + 1
  {
    var n := capacity;
    PosSmall(q.tail, 1, n);
    PosSmall(q.head, 1, n);
    if q.size == n {
      PosSmall(q.head, n, n);
      PosSmall(Next(q.head, n), n, n);
    } else if q.size > n {
      PosSucc(q.head, q.size - 1, n);
    } else {
      PosSucc(q.head, q.size, n);
    }
  }

  lemma DequeuedWf<T>(q: QueueState<T>, capacity: nat)
    requires Wf(q, capacity)
    ensures Wf(Dequeued(q, capacity), capacity)
    ensures q.head != q.tail ==> q.size > 0 && Dequeued(q, capacity).size == q.size - 1
  {
    var n := capacity;
    PosSmall(q.head, 1, n);
    if q.head != q.tail {
      if q.size == 0 {
        PosSmall(q.head, 0, n);
      } else if q.size == n || q.size == n + 1 {
        PosSmall(q.head, n, n);
      } else if q.size > n + 1 {
        PosShift(q.head, q.size - 2, n);
      } else {
        PosShift(q.head, q.size - 1, n);
      }
    }
  }

  /** Below the capacity, `enq` appends to the elements in queue order. */
  lemma EnqueueAppends<T>(q: QueueState<T>, capacity: nat, data: T)
    requires Wf(q, capacity) && q.size < capacity
    ensures Wf(Enqueued(q, capacity, data), capacity)
    ensures Items(Enqueued(q, capacity, data), capacity) == Items(q, capacity) + [data]
  {
    EnqueuedWf(q, capacity, data);
    var q' := Enqueued(q, capacity, data);
    PosSmall(q.head, q.size, capacity);
    forall i | 0 <= i < q.size
      ensures q'.slots[Pos(q'.head, i, capacity)] == q.slots[Pos(q.head, i, capacity)]
    {
      PosSmall(q.head, i, capacity);
    }
  }

  /** Between empty and full, `deq` removes and returns the oldest element. */
  lemma DequeueRemovesFront<T>(q: QueueState<T>, capacity: nat)
    requires Wf(q, capacity) && 0 < q.size < capacity
    ensures Front(q, capacity) == Items(q, capacity)[0]
    ensures Wf(Dequeued(q, capacity), capacity)
    ensures Items(Dequeued(q, capacity), capacity) == Items(q, capacity)[1..]
  {
    PosSmall(q.head, 0, capacity);
    PosSmall(q.head, q.size, capacity);
    DequeuedWf(q, capacity);
    var q' := Dequeued(q, capacity);
    forall i | 0 <= i < q'.size
      ensures q'.slots[Pos(q'.head, i, capacity)] == q.slots[Pos(q.head, i + 1, capacity)]
    {
      PosShift(q.head, i, capacity);
    }
  }

  /** `deq` on an empty queue returns a stale slot and changes nothing. */
  lemma DequeueEmpty<T>(q: QueueState<T>, capacity: nat)
    requires Wf(q, capacity) && q.size == 0
    ensures Dequeued(q, capacity) == q
  {
    PosSmall(q.head, 0, capacity);
  }

  /**
   * Once the size has reached the capacity, `deq` never takes it below the
   * capacity again: at size `SIZE` and `SIZE + 1` head and tail coincide and
   * `deq` is a no-op, so the queue never reports empty afterwards.
   */
  lemma FullQueueNeverDrains<T>(q: QueueState<T>, capacity: nat, data: T)
    requires Wf(q, capacity) && q.size >= capacity
    ensures Dequeued(q, capacity).size >= capacity
    ensures Enqueued(q, capacity, data).size >= capacity
    ensures q.size <= capacity + 1 ==> Dequeued(q, capacity) == q
  {
    PosSmall(q.head, capacity, capacity);
  }

  /** `enq` on a full queue overwrites the oldest element and moves the head past it. */
  lemma OverflowOverwritesOldest<T>(q: QueueState<T>, capacity: nat, data: T)
    requires Wf(q, capacity) && q.size == capacity
    ensures Enqueued(q, capacity, data).slots == q.slots[q.head := data]
    ensures Enqueued(q, capacity, data).head == Next(q.head, capacity)
    ensures Enqueued(q, capacity, data).size == capacity + 1
  {
    PosSmall(q.head, capacity, capacity);
  }

  /** `sky::queue<T, SIZE>`. */
  class Queue<T> {
    const capacity: nat
    const buffer: array<T>
    var head: nat
    var tail: nat
    var size: nat

    function State(): QueueState<T>
      reads this, buffer
    {
      QueueState(buffer[..], head, tail, size)
    }

    ghost predicate Valid()
      reads this, buffer
    {
      buffer.Length == capacity && Wf(State(), capacity)
    }

    /** A value-initialised queue; `blank` is `T{}`. */
    constructor (capacity: nat, blank: T)
      requires capacity > 0
      ensures Valid() && fresh(buffer)
      ensures this.capacity == capacity && State() == Empty(capacity, blank)
    {
      this.capacity := capacity;
      buffer := new T[capacity](_ => blank);
      head, tail, size := 0, 0, 0;
      new;
      assert buffer[..] == seq(capacity, _ => blank);
    }

    method Enq(data: T)
      requires Valid()
      modifies this, buffer
      ensures Valid()
      ensures State() == Enqueued(old(State()), capacity, data)
    {
      EnqueuedWf(State(), capacity, data);
      if size == capacity {
        head := (head + 1) % capacity;
      }
      buffer[tail] := data;
      tail := (tail + 1) % capacity;
      size := size + 1;
    }

    method Deq() returns (value: T)
      requires Valid()
      modifies this
      ensures Valid()
      ensures value == Front(old(State()), capacity)
      ensures State() == Dequeued(old(State()), capacity)
    {
      DequeuedWf(State(), capacity);
      if head == tail {
        return buffer[head];
      }
      value := buffer[head];
      head := (head + 1) % capacity;
      size := size - 1;
    }

    predicate IsEmpty()
      reads this
    {
      size == 0
    }

    /** `peek(i)`: the raw slot `i`, wherever the head is. */
    function Peek(i: nat): T
      requires i < buffer.Length
      reads this, buffer
    {
      buffer[i]
    }
  }

  /**
   * The queue test `enq_full`: filling a fresh queue with `capacity` copies of
   * `x` leaves `x` in every slot.
   */
  method EnqFull<T>(capacity: nat, blank: T, x: T) returns (slots: seq<T>)
    requires capacity > 0
    ensures slots == seq(capacity, _ => x)
  {
    var q := new Queue<T>(capacity, blank);
    var k := 0;
    while k < capacity
      invariant k <= capacity
      invariant q.Valid() && q.capacity == capacity
      invariant q.head == 0 && q.tail == (if k < capacity then k else 0) && q.size == k
      invariant forall i :: 0 <= i < capacity ==> q.buffer[i] == if i < k then x else blank
    {
      PosSmall(k, 1, capacity);
      q.Enq(x);
      k := k + 1;
    }
    slots := seq(capacity, i requires 0 <= i < capacity reads q, q.buffer => q.Peek(i));
  }

  /**
   * The queue test `enq_extra`: one `enq` past the capacity lands in slot 0,
   * over the oldest element, and leaves head and tail together, so the
   * following `deq` returns the next-oldest element without removing it.
   */
  method EnqExtra<T>(capacity: nat, blank: T, x: T, y: T)
    returns (slots: seq<T>, size: nat, front: T, sizeAfterDeq: nat)
    requires capacity > 1
    ensures slots == [y] + seq(capacity - 1, _ => x)
    ensures size == capacity + 1
    ensures front == x && sizeAfterDeq == capacity + 1
  {
    var q := new Queue<T>(capacity, blank);
    var k := 0;
    while k < capacity
      invariant k <= capacity
      invariant q.Valid() && q.capacity == capacity
      invariant q.head == 0 && q.tail == (if k < capacity then k else 0) && q.size == k
      invariant forall i :: 0 <= i < capacity ==> q.buffer[i] == if i < k then x else blank
    {
      PosSmall(k, 1, capacity);
      q.Enq(x);
      k := k + 1;
    }
    q.Enq(y);
    slots := q.buffer[..];
    size := q.size;
    front := q.Deq();
    sizeAfterDeq := q.size;
    assert slots == [y] + seq(capacity - 1, _ => x);
  }
}
