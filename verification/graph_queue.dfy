/**
 * The array queue of hw6/ldigraph_helpers.c used by breadth-first search:
 * a buffer of fixed size with `head` and `tail` indices, both -1 when the
 * queue is new.  Writing past the buffer is undefined behaviour in C, so
 * enqueue requires room; a failed malloc (que == NULL) is not modelled.
 */
module GraphQueue {

  datatype Queue = Queue(que: seq<int>, head: int, tail: int)

  /** The index bounds every queue built by these operations keeps. */
  predicate Inv(q: Queue) {
    && -1 <= q.tail < |q.que|
    && (q.head == -1 ==> q.tail == -1)
    && (q.head != -1 ==> 0 <= q.head <= q.tail + 1)
  }

  /** The values waiting in the queue, oldest first. */
  function Contents(q: Queue): seq<int>
    requires Inv(q)
  {
    if q.head == -1 then [] else q.que[q.head..q.tail + 1]
  }

  /** new_queue: room for `n` values, head and tail -1. */
  function NewQueue(n: nat): (q: Queue)
    ensures Inv(q) && |q.que| == n
    ensures Contents(q) == []
  {
    Queue(seq(n, _ => 0), -1, -1)
  }

  /** queue_isempty: head > tail. */
  predicate IsEmpty(q: Queue) {
    q.head > q.tail
  }

  /** A new queue holds nothing, yet queue_isempty reports it non-empty. */
  lemma NewQueueNotEmpty(n: nat)
    ensures Contents(NewQueue(n)) == [] && !IsEmpty(NewQueue(n))
  {
  }

  /** Once something has been enqueued, queue_isempty means "holds nothing". */
  lemma IsEmptyIffNoContents(q: Queue)
    requires Inv(q) && q.head != -1
    ensures IsEmpty(q) <==> Contents(q) == []
  {
  }

  /** enqueue: writes at tail + 1; the first enqueue also moves head to 0. */
  function Enqueue(q: Queue, v: int): (r: Queue)
    requires Inv(q) && q.tail + 1 < |q.que|
    ensures Inv(r) && |r.que| == |q.que|
    ensures Contents(r) == Contents(q) + [v]
    ensures r.tail == q.tail + 1 && r.head == (if q.head == -1 then 0 else q.head)
    ensures !IsEmpty(r)
  {
    Queue(q.que[q.tail + 1 := v], if q.head == -1 then 0 else q.head, q.tail + 1)
  }

  /** dequeue: the value at head, and head moved on by one. */
  function Dequeue(q: Queue): (r: (int, Queue))
    requires Inv(q) && Contents(q) != []
    ensures r.0 == Contents(q)[0]
    ensures Inv(r.1) && |r.1.que| == |q.que| && r.1.head == q.head + 1 && r.1.tail == q.tail
    ensures Contents(r.1) == Contents(q)[1..]
  {
    (q.que[q.head], q.(head := q.head + 1))
  }
}
