/** The list-backed FIFO `Queue` of the traversal script. The queue value
    is immutable here: each mutating call returns the new queue alongside
    whatever the Python method returns. */
module Queues {

  datatype Queue<T> = Queue(items: seq<T>)

  /** What `dequeue` and `peek` hand back: an element, or the literal message
      "Queue is empty" that the source returns in place of one. */
  datatype Reply<T> = Elem(value: T) | EmptyMsg

  /** `Queue()`: the constructor starts from an empty list. */
  function EmptyQueue<T>(): (q: Queue<T>)
    ensures IsEmpty<T>(q) && Size<T>(q) == 0
  {
    Queue([])
  }

  /** `getQueue()`: the backing list, front first. */
  function GetQueue<T>(q: Queue<T>): seq<T> {
    q.items
  }

  function Size<T>(q: Queue<T>): nat {
    |q.items|
  }

  /** `isEmpty()` is true exactly when `size()` is zero. */
  function IsEmpty<T>(q: Queue<T>): (b: bool)
    ensures b <==> Size(q) == 0
    ensures b <==> GetQueue(q) == []
  {
    |q.items| == 0
  }

  /** `enqueue(x)` appends at the back: one more element, and the front is
      the old front unless the queue was empty. */
  function Enqueue<T>(q: Queue<T>, x: T): (r: Queue<T>)
    ensures GetQueue(r) == GetQueue(q) + [x]
    ensures Size(r) == Size(q) + 1 && !IsEmpty(r)
    ensures Peek(r) == if IsEmpty(q) then Elem(x) else Peek(q)
  {
    Queue(q.items + [x])
  }

  /** `dequeue()`: the front element and the rest of the list; on an empty
      queue, the message and an unchanged queue. */
  function Dequeue<T>(q: Queue<T>): (r: (Reply<T>, Queue<T>))
    ensures IsEmpty(q) ==> r == (EmptyMsg, q)
    ensures !IsEmpty(q) ==> r.0 == Elem(GetQueue(q)[0]) && GetQueue(r.1) == GetQueue(q)[1..]
    ensures !IsEmpty(q) ==> Size(r.1) == Size(q) - 1 && r.0 == Peek(q)
  {
    if |q.items| == 0 then (EmptyMsg, q) else (Elem(q.items[0]), Queue(q.items[1..]))
  }

  /** `peek()`: the front element without removing it, or the message. */
  function Peek<T>(q: Queue<T>): (r: Reply<T>)
    ensures IsEmpty(q) <==> r == EmptyMsg
    ensures !IsEmpty(q) ==> r == Elem(GetQueue(q)[0])
  {
    if |q.items| == 0 then EmptyMsg else Elem(q.items[0])
  }

  /** Enqueue followed by dequeue: on an empty queue the element just
      enqueued comes straight back; on a non-empty queue the dequeue could
      as well have happened first. */
  lemma {:induction false} DequeueEnqueue<T>(q: Queue<T>, x: T)
    ensures Dequeue(Enqueue(q, x)) ==
              if IsEmpty(q) then (Elem(x), q)
              else (Dequeue(q).0, Enqueue(Dequeue(q).1, x))
  {
    if !IsEmpty(q) {
      assert (q.items + [x])[1..] == q.items[1..] + [x];
    }
  }

  /** A call sequence on the queue: `enqueue(x)` or `dequeue()`. */
  datatype Op<T> = Push(x: T) | Pop

  /** Runs the calls in order; the result is the final queue and the values
      the `dequeue` calls returned, in call order. */
  function Run<T>(q: Queue<T>, ops: seq<Op<T>>): (Queue<T>, seq<Reply<T>>)
    decreases |ops|
  {
    if ops == [] then (q, [])
    else
      var (q1, out) := Run(q, ops[..|ops| - 1]);
      match ops[|ops| - 1]
      case Push(x) => (Enqueue(q1, x), out)
      case Pop => var (reply, q2) := Dequeue(q1); (q2, out + [reply])
  }

  /** The elements offered by the `enqueue` calls, in call order. */
  function Pushed<T>(ops: seq<Op<T>>): seq<T>
    decreases |ops|
  {
    if ops == [] then []
    else
      match ops[|ops| - 1]
      case Push(x) => Pushed(ops[..|ops| - 1]) + [x]
      case Pop => Pushed(ops[..|ops| - 1])
  }

  /** The elements the replies carry, dropping the empty-queue messages. */
  function Delivered<T>(out: seq<Reply<T>>): seq<T>
    decreases |out|
  {
    if out == [] then []
    else
      match out[|out| - 1]
      case Elem(x) => Delivered(out[..|out| - 1]) + [x]
      case EmptyMsg => Delivered(out[..|out| - 1])
  }

  /** FIFO order: after any call sequence, what came out followed by what is
      still queued is exactly what was there before followed by what went
      in, so elements leave in the order they were enqueued, none is lost
      and none is repeated. A "Queue is empty" reply leaves the queue as it
      was. */
  lemma {:induction false} FifoOrder<T>(q: Queue<T>, ops: seq<Op<T>>)
    ensures Delivered(Run(q, ops).1) + GetQueue(Run(q, ops).0) == GetQueue(q) + Pushed(ops)
    decreases |ops|
  {
    if ops != [] {
      var init := ops[..|ops| - 1];
      FifoOrder(q, init);
      var (q1, out) := Run(q, init);
      match ops[|ops| - 1]
      case Push(x) =>
        assert Delivered(out) + (q1.items + [x]) == (Delivered(out) + q1.items) + [x];
      case Pop =>
        var (reply, q2) := Dequeue(q1);
        assert (out + [reply])[..|out + [reply]| - 1] == out;
        if !IsEmpty(q1) {
          assert q1.items == [q1.items[0]] + q2.items;
        }
    }
  }

  /** Pushing `xs` onto an empty queue and then dequeuing as many times
      returns `xs` in order and leaves the queue empty. */
  lemma DrainInOrder<T>(xs: seq<T>)
    ensures Delivered(Run(EmptyQueue(), PushAll(xs) + PopN(|xs|)).1) == xs
    ensures IsEmpty(Run(EmptyQueue(), PushAll(xs) + PopN(|xs|)).0)
  {
    var e := EmptyQueue<T>();
    var ops := PushAll(xs) + PopN(|xs|);
    RunPushAll(e, xs);
    assert Run(e, PushAll(xs)).0 == Queue(xs);
    RunPopN(Queue(xs), |xs|);
    RunSplit(e, PushAll(xs), PopN(|xs|));
    var final := Run(e, ops).0;
    assert final.items == [];
    PushedPushAllPopN(xs, |xs|);
    FifoOrder(e, ops);
    assert Delivered(Run(e, ops).1) + [] == [] + xs;
  }

  function PushAll<T>(xs: seq<T>): (ops: seq<Op<T>>)
    ensures |ops| == |xs|
    ensures forall k | 0 <= k < |xs| :: ops[k] == Push(xs[k])
  {
    if xs == [] then [] else PushAll(xs[..|xs| - 1]) + [Push(xs[|xs| - 1])]
  }

  function PopN<T>(n: nat): (ops: seq<Op<T>>)
    ensures |ops| == n
    ensures forall k | 0 <= k < n :: ops[k] == Pop
  {
    if n == 0 then [] else PopN(n - 1) + [Pop]
  }

  lemma {:induction false} PushedPushAllPopN<T>(xs: seq<T>, n: nat)
    ensures Pushed(PushAll(xs) + PopN(n)) == xs
    decreases |xs| + n
  {
    if n > 0 {
      var ops := PushAll(xs) + PopN(n);
      assert ops[..|ops| - 1] == PushAll(xs) + PopN(n - 1);
      PushedPushAllPopN(xs, n - 1);
    } else if xs != [] {
      var ops := PushAll(xs) + PopN<T>(0);
      assert ops == PushAll(xs[..|xs| - 1]) + [Push(xs[|xs| - 1])];
      assert PushAll(xs[..|xs| - 1]) == PushAll(xs[..|xs| - 1]) + PopN(0);
      PushedPushAllPopN(xs[..|xs| - 1], 0);
      assert xs[..|xs| - 1] + [xs[|xs| - 1]] == xs;
    } else {
      assert PushAll(xs) + PopN<T>(n) == [];
    }
  }

  lemma {:induction false} RunPushAll<T>(q: Queue<T>, xs: seq<T>)
    ensures Run(q, PushAll(xs)) == (Queue(q.items + xs), [])
    decreases |xs|
  {
    if xs != [] {
      var init := xs[..|xs| - 1];
      RunPushAll(q, init);
      var ops := PushAll(xs);
      assert ops == PushAll(init) + [Push(xs[|xs| - 1])];
      assert ops[..|ops| - 1] == PushAll(init);
      assert Run(q, ops) == (Enqueue(Queue(q.items + init), xs[|xs| - 1]), []);
      assert init + [xs[|xs| - 1]] == xs;
      assert (q.items + init) + [xs[|xs| - 1]] == q.items + xs;
      assert Enqueue(Queue(q.items + init), xs[|xs| - 1]) == Queue(q.items + xs);
    } else {
      assert q.items + xs == q.items;
    }
  }

  lemma {:induction false} RunPopN<T>(q: Queue<T>, n: nat)
    requires n <= |q.items|
    ensures Run(q, PopN(n)).0 == Queue(q.items[n..])
    decreases n
  {
    if n > 0 {
      RunPopN(q, n - 1);
      assert PopN<T>(n)[..n - 1] == PopN(n - 1);
      assert q.items[n - 1..][1..] == q.items[n..];
    }
  }

  /** Running two call sequences back to back is running their
      concatenation. */
  lemma {:induction false} RunSplit<T>(q: Queue<T>, a: seq<Op<T>>, b: seq<Op<T>>)
    ensures Run(q, a + b).0 == Run(Run(q, a).0, b).0
    decreases |b|
  {
    if b != [] {
      assert (a + b)[..|a + b| - 1] == a + b[..|b| - 1];
      assert (a + b)[|a + b| - 1] == b[|b| - 1];
      RunSplit(q, a, b[..|b| - 1]);
    } else {
      assert a + b == a;
    }
  }
}
