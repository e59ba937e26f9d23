/**
 * The bounded circular queue `block_queue<T>` shared by the worker pool and the
 * asynchronous log. A fixed array of `m_max_size` slots holds the items; `m_front`
 * is the slot the last pop consumed (-1 before the first pop), `m_back` the slot
 * the last push filled (-1 before the first push), and both advance modulo the
 * capacity. The mutex and the condition variable are left out: every operation
 * is modelled as the critical section it guards, and `pop` on an empty queue
 * returns `false` instead of waiting.
 */
module BlockQueue {
  import opened Wrappers

  /** Capacity used when the constructor is called without an argument. */
  const DEFAULT_MAX_SIZE: int := 1000

  /**
   * The source advances an index with `(i + 1) % m_max_size`. For the operands it
   * uses (0 <= i + 1 <= m_max_size) C's `%` and Dafny's Euclidean `%` agree, and the
   * result is a single wrap-around.
   */
  lemma {:induction false} ModIsWrap(i: int, m: int)
    requires m > 0 && 0 <= i < 2 * m
    ensures i % m == Wrap(i, m)
  {
    if i < m {
      assert i == 0 * m + i;
    } else {
      assert i == 1 * m + (i - m);
    }
  }

  function Wrap(i: int, m: int): int
    requires m > 0 && 0 <= i < 2 * m
  {
    if i < m then i else i - m
  }

  /** What `front(value)` reads. */
  datatype FrontRead<T> =
    | EmptyQueue      // m_size == 0: returns false
    | BeforeFirstPop  // m_size > 0 but m_front == -1: the source reads m_array[-1]
    | Slot(value: T)  // returns true with m_array[m_front]

  class Queue<T(0)> {
    var arr: array<T>
    var maxSize: int
    var size: int
    var front: int
    var back: int

    /** The items in FIFO order, oldest first. */
    ghost var Contents: seq<T>
    /** The item returned by the most recent pop since construction or `clear`. */
    ghost var LastPopped: Option<T>

    /** Slot of the `k`-th oldest item. */
    function SlotOf(k: int): int
      reads this
      requires maxSize > 0 && -1 <= front < maxSize && 0 <= k < maxSize
    {
      Wrap(front + 1 + k, maxSize)
    }

    ghost predicate Valid()
      reads this, arr
    {
      maxSize > 0 && arr.Length == maxSize &&
      0 <= size <= maxSize && |Contents| == size &&
      -1 <= front < maxSize && -1 <= back < maxSize &&
      (size == 0 ==> back == front) &&
      (size > 0 ==> back == SlotOf(size - 1)) &&
      (forall k :: 0 <= k < size ==> arr[SlotOf(k)] == Contents[k]) &&
      (front >= 0 ==> LastPopped.Some?) &&
      (front >= 0 && size < maxSize ==> arr[front] == LastPopped.value)
    }

    /** `block_queue(max_size)` for `max_size > 0`; see `Create` for the other case. */
    constructor (capacity: int)
      requires capacity > 0
      ensures Valid() && fresh(arr)
      ensures maxSize == capacity && size == 0 && front == -1 && back == -1
      ensures Contents == [] && LastPopped == None
    {
      maxSize := capacity;
      arr := new T[capacity];
      size := 0;
      front := -1;
      back := -1;
      Contents := [];
      LastPopped := None;
    }

    /** `clear()`: back to the freshly constructed indices; the slots and the capacity stay. */
    method Clear()
      requires Valid()
      modifies this
      ensures Valid() && arr == old(arr) && arr[..] == old(arr[..])
      ensures maxSize == old(maxSize)
      ensures size == 0 && front == -1 && back == -1
      ensures Contents == [] && LastPopped == None
    {
      size := 0;
      front := -1;
      back := -1;
      Contents := [];
      LastPopped := None;
    }

    method Full() returns (r: bool)
      requires Valid()
      ensures r <==> |Contents| == maxSize
      ensures r <==> size >= maxSize
    {
      r := size >= maxSize;
    }

    method Empty() returns (r: bool)
      requires Valid()
      ensures r <==> Contents == []
    {
      r := size == 0;
    }

    method Size() returns (r: int)
      requires Valid()
      ensures r == |Contents|
    {
      r := size;
    }

    method MaxSize() returns (r: int)
      requires Valid()
      ensures r == maxSize && r > 0
    {
      r := maxSize;
    }

    /**
     * `front(value)`. This is NOT the next item `pop` returns: the slot `m_front`
     * is the one the last pop consumed. It still holds that item unless the queue
     * has since filled up, in which case the last push overwrote it.
     */
    method Front() returns (r: FrontRead<T>)
      requires Valid()
      ensures size == 0 <==> r == EmptyQueue
      ensures r == BeforeFirstPop <==> size > 0 && front == -1
      ensures r.Slot? && size < maxSize ==> LastPopped.Some? && r.value == LastPopped.value
      ensures r.Slot? && size == maxSize ==> r.value == Contents[size - 1]
    {
      if size == 0 {
        return EmptyQueue;
      }
      if front < 0 {
        return BeforeFirstPop;
      }
      r := Slot(arr[front]);
    }

    /** `back(value)`: `None` for the source's `false`; otherwise the most recently pushed item. */
    method Back() returns (r: Option<T>)
      requires Valid()
      ensures r.None? <==> Contents == []
      ensures r.Some? ==> r.value == Contents[|Contents| - 1]
    {
      if size == 0 {
        return None;
      }
      r := Some(arr[back]);
    }

    /** `push(item)`: fails without touching anything when full, else appends at the back. */
    method Push(item: T) returns (ok: bool)
      requires Valid()
      modifies this, arr
      ensures Valid() && arr == old(arr) && maxSize == old(maxSize)
      ensures ok <==> old(size) < maxSize
      ensures !ok ==> arr[..] == old(arr[..]) && size == old(size) && front == old(front) && back == old(back)
      ensures !ok ==> Contents == old(Contents)
      ensures ok ==> back == (old(back) + 1) % maxSize && arr[back] == item
      ensures ok ==> size == old(size) + 1 && front == old(front)
      ensures ok ==> Contents == old(Contents) + [item]
      ensures LastPopped == old(LastPopped)
    {
      if size >= maxSize {
        return false;
      }
      ModIsWrap(back + 1, maxSize);
      back := (back + 1) % maxSize;
      arr[back] := item;
      size := size + 1;
      Contents := Contents + [item];
      ok := true;
    }

    /** `pop(item)`: `None` for the source's `false` (it waits instead); otherwise removes and returns the oldest item. */
    method Pop() returns (r: Option<T>)
      requires Valid()
      modifies this
      ensures Valid() && arr == old(arr) && arr[..] == old(arr[..]) && maxSize == old(maxSize)
      ensures r.Some? <==> old(size) > 0
      ensures r.None? ==> size == old(size) && front == old(front) && back == old(back)
      ensures r.None? ==> Contents == old(Contents) && LastPopped == old(LastPopped)
      ensures r.Some? ==> front == (old(front) + 1) % maxSize && r.value == arr[front]
      ensures r.Some? ==> size == old(size) - 1 && back == old(back)
      ensures r.Some? ==> r.value == old(Contents)[0] && Contents == old(Contents)[1..]
      ensures r.Some? ==> LastPopped == r
    {
      if size <= 0 {
        return None;
      }
      ModIsWrap(front + 1, maxSize);
      ghost var oldFront := front;
      front := (front + 1) % maxSize;
      size := size - 1;
      forall k | 0 <= k < size ensures SlotOf(k) == Wrap(oldFront + 1 + (k + 1), maxSize) { }
      r := Some(arr[front]);
      Contents := Contents[1..];
      LastPopped := r;
    }
  }

  /**
   * `block_queue(max_size)`: a non-positive capacity makes the source call
   * `exit(-1)`, modelled by `null`.
   */
  method Create<T(0)>(capacity: int) returns (q: Queue?<T>)
    ensures q == null <==> capacity <= 0
    ensures q != null ==> fresh(q) && q.Valid() && q.maxSize == capacity && q.Contents == []
    ensures q != null ==> q.size == 0 && q.front == -1 && q.back == -1
  {
    if capacity <= 0 {
      return null;
    }
    q := new Queue(capacity);
  }

  /** `block_queue()` with the default argument: an empty queue of `DEFAULT_MAX_SIZE` slots. */
  method CreateDefault<T(0)>() returns (q: Queue<T>)
    ensures fresh(q) && q.Valid() && q.maxSize == DEFAULT_MAX_SIZE && q.Contents == []
    ensures q.size == 0 && q.front == -1 && q.back == -1
  {
    q := new Queue(DEFAULT_MAX_SIZE);
  }
}
