/** Cycle-level queues: the pipe, bypass and normal queues.

    Each queue keeps its messages in a Python `deque` bounded by `maxlen`.
    `enq` appends at the left end, `deq` and `peek` work on the right end.
    The three queues differ only in the guards of their methods and in the
    order that their declared constraints impose on the calls of one cycle;
    each cycle is modelled as that fixed sequence of steps. */
module ClQueues {
  import opened Wrappers

  /** A bounded deque. `items[0]` is the left end, `items[|items| - 1]` the right end. */
  datatype Deque<T> = Deque(items: seq<T>, maxlen: nat)

  /** A deque never holds more than `maxlen` items. */
  predicate Valid<T>(d: Deque<T>) {
    |d.items| <= d.maxlen
  }

  /** `deque(maxlen=num_entries)` as built by each queue's `construct`. */
  function NewQueue<T>(numEntries: nat): (d: Deque<T>)
    ensures Valid(d) && |d.items| == 0 && d.maxlen == numEntries
  {
    Deque([], numEntries)
  }

  function Reverse<T>(s: seq<T>): (r: seq<T>)
    ensures |r| == |s|
  {
    if |s| == 0 then [] else Reverse(s[1..]) + [s[0]]
  }

  lemma {:induction false} ReverseDropLast<T>(s: seq<T>)
    requires |s| > 0
    ensures Reverse(s)[0] == s[|s| - 1]
    ensures Reverse(s)[1..] == Reverse(s[..|s| - 1])
  {
    if |s| == 1 {
    } else {
      ReverseDropLast(s[1..]);
      assert s[1..][..|s[1..]| - 1] == s[..|s| - 1][1..];
      assert s[..|s| - 1][0] == s[0];
    }
  }

  lemma ReversePrepend<T>(m: T, s: seq<T>)
    ensures Reverse([m] + s) == Reverse(s) + [m]
  {
    assert ([m] + s)[1..] == s;
  }

  /** The messages in arrival order, oldest first: the order in which `deq` returns them. */
  function Contents<T>(d: Deque<T>): seq<T> {
    Reverse(d.items)
  }

  /** `deque.appendleft` on a bounded deque: when the deque is full the
      right-most item is discarded (and with `maxlen = 0` nothing is kept). */
  function AppendLeft<T>(d: Deque<T>, m: T): (r: Deque<T>)
    requires Valid(d)
    ensures Valid(r) && r.maxlen == d.maxlen
    ensures |d.items| < d.maxlen ==> Contents(r) == Contents(d) + [m]
  {
    ReversePrepend(m, d.items);
    if d.maxlen == 0 then d
    else if |d.items| == d.maxlen then Deque([m] + d.items[..|d.items| - 1], d.maxlen)
    else Deque([m] + d.items, d.maxlen)
  }

  /** `deque.pop`: removes and returns the right-most item; None where Python raises IndexError. */
  function Pop<T>(d: Deque<T>): (r: Option<(T, Deque<T>)>)
    requires Valid(d)
    ensures r.Some? <==> |d.items| > 0
    ensures r.Some? ==> Valid(r.value.1) && r.value.1.maxlen == d.maxlen
    ensures r.Some? ==> r.value.0 == Contents(d)[0] && Contents(r.value.1) == Contents(d)[1..]
  {
    if |d.items| == 0 then None
    else
      ReverseDropLast(d.items);
      Some((d.items[|d.items| - 1], Deque(d.items[..|d.items| - 1], d.maxlen)))
  }

  /** `deque[-1]`: the right-most item; None where Python raises IndexError. */
  function PeekRight<T>(d: Deque<T>): (r: Option<T>)
    ensures r.Some? <==> |d.items| > 0
    ensures r.Some? ==> r.value == Contents(d)[0]
  {
    if |d.items| == 0 then None
    else
      ReverseDropLast(d.items);
      Some(d.items[|d.items| - 1])
  }

  /** The ready predicate of `enq` in the pipe and bypass queues. */
  predicate EnqRdy<T>(d: Deque<T>) {
    |d.items| < d.maxlen
  }

  /** The ready predicate of `deq` and `peek` (and of the normal queue's `peek`). */
  predicate DeqRdy<T>(d: Deque<T>) {
    |d.items| > 0
  }

  /** What the queue's caller attempts in one cycle. A caller checks the
      method's ready predicate at the method's place in the cycle and calls
      the method only when it holds. */
  datatype Calls<T> = Calls(peek: bool, deq: bool, enq: Option<T>)

  /** What happened in one cycle: the value `peek` returned, the value `deq`
      returned, and whether `enq` was called. */
  datatype Outcome<T> = Outcome(peeked: Option<T>, dequeued: Option<T>, enqueued: bool)

  /** The messages that left the queue in a cycle. */
  function Delivered<T>(o: Outcome<T>): seq<T> {
    if o.dequeued.Some? then [o.dequeued.value] else []
  }

  /** The messages that entered the queue in a cycle. */
  function Accepted<T>(c: Calls<T>, o: Outcome<T>): seq<T> {
    if o.enqueued && c.enq.Some? then [c.enq.value] else []
  }

  /** `peek` if the caller wants it and `ready` holds. */
  function StepPeek<T>(d: Deque<T>, want: bool, ready: bool): (r: Option<T>)
    requires ready ==> DeqRdy(d)
    ensures r.Some? <==> want && ready
    ensures r.Some? ==> r.value == Contents(d)[0]
  {
    if want && ready then PeekRight(d) else None
  }

  /** `deq` if the caller wants it and `ready` holds. */
  function StepDeq<T>(d: Deque<T>, want: bool, ready: bool): (r: (Deque<T>, Option<T>))
    requires Valid(d)
    requires ready ==> DeqRdy(d)
    ensures Valid(r.0) && r.0.maxlen == d.maxlen
    ensures r.1.Some? <==> want && ready
    ensures r.1.Some? ==> r.1.value == Contents(d)[0] && Contents(r.0) == Contents(d)[1..]
    ensures r.1.None? ==> r.0 == d
  {
    if want && ready then
      var p := Pop(d).value;
      (p.1, Some(p.0))
    else (d, None)
  }

  /** `enq` if the caller has a message and `ready` holds. */
  function StepEnq<T>(d: Deque<T>, msg: Option<T>, ready: bool): (r: (Deque<T>, bool))
    requires Valid(d)
    requires ready ==> EnqRdy(d)
    ensures Valid(r.0) && r.0.maxlen == d.maxlen
    ensures r.1 <==> msg.Some? && ready
    ensures r.1 ==> Contents(r.0) == Contents(d) + [msg.value]
    ensures !r.1 ==> r.0 == d
  {
    if msg.Some? && ready then (AppendLeft(d, msg.value), true) else (d, false)
  }

  /** One cycle of `PipeQueueCL`: `peek` and `deq` come before `enq`, so a full
      queue that is dequeued accepts a new message in the same cycle. */
  function PipeTick<T>(d: Deque<T>, c: Calls<T>): (r: (Deque<T>, Outcome<T>))
    requires Valid(d)
    ensures Valid(r.0) && r.0.maxlen == d.maxlen
    ensures r.1.peeked.Some? <==> c.peek && DeqRdy(d)
    ensures r.1.dequeued.Some? <==> c.deq && DeqRdy(d)
    ensures r.1.enqueued <==> c.enq.Some? && (EnqRdy(d) || (c.deq && DeqRdy(d)))
    ensures r.1.peeked.Some? ==> r.1.peeked.value == Contents(d)[0]
    ensures r.1.dequeued.Some? ==> r.1.dequeued.value == Contents(d)[0]
    ensures r.1.peeked.Some? && r.1.dequeued.Some? ==> r.1.peeked == r.1.dequeued
    ensures Delivered(r.1) + Contents(r.0) == Contents(d) + Accepted(c, r.1)
  {
    var peeked := StepPeek(d, c.peek, DeqRdy(d));
    var (d1, dequeued) := StepDeq(d, c.deq, DeqRdy(d));
    var (d2, enqueued) := StepEnq(d1, c.enq, EnqRdy(d1));
    (d2, Outcome(peeked, dequeued, enqueued))
  }

  /** One cycle of `BypassQueueCL`: `enq` comes before `peek` and `deq`, so an
      empty queue can hand out the message enqueued in the same cycle. */
  function BypassTick<T>(d: Deque<T>, c: Calls<T>): (r: (Deque<T>, Outcome<T>))
    requires Valid(d)
    ensures Valid(r.0) && r.0.maxlen == d.maxlen
    ensures r.1.enqueued <==> c.enq.Some? && EnqRdy(d)
    ensures r.1.peeked.Some? <==> c.peek && (DeqRdy(d) || r.1.enqueued)
    ensures r.1.dequeued.Some? <==> c.deq && (DeqRdy(d) || r.1.enqueued)
    ensures r.1.peeked.Some? ==> r.1.peeked.value == (Contents(d) + Accepted(c, r.1))[0]
    ensures r.1.dequeued.Some? ==> r.1.dequeued.value == (Contents(d) + Accepted(c, r.1))[0]
    ensures r.1.peeked.Some? && r.1.dequeued.Some? ==> r.1.peeked == r.1.dequeued
    ensures Delivered(r.1) + Contents(r.0) == Contents(d) + Accepted(c, r.1)
  {
    var (d1, enqueued) := StepEnq(d, c.enq, EnqRdy(d));
    var peeked := StepPeek(d1, c.peek, DeqRdy(d1));
    var (d2, dequeued) := StepDeq(d1, c.deq, DeqRdy(d1));
    (d2, Outcome(peeked, dequeued, enqueued))
  }

  /** The two flags `up_pulse` of `NormalQueueCL` samples at the start of a cycle. */
  datatype Pulse = Pulse(enqRdy: bool, deqRdy: bool)

  function UpPulse<T>(d: Deque<T>): (p: Pulse)
    ensures p.enqRdy <==> EnqRdy(d)
    ensures p.deqRdy <==> DeqRdy(d)
  {
    Pulse(|d.items| < d.maxlen, |d.items| > 0)
  }

  /** One cycle of `NormalQueueCL`: `up_pulse` samples both ready flags first,
      then `peek` (whose guard looks at the live deque), then `enq` and `deq`,
      whose guards are the sampled flags. */
  function NormalTick<T>(d: Deque<T>, c: Calls<T>): (r: (Deque<T>, Outcome<T>))
    requires Valid(d)
    ensures Valid(r.0) && r.0.maxlen == d.maxlen
    ensures r.1.peeked.Some? <==> c.peek && DeqRdy(d)
    ensures r.1.enqueued <==> c.enq.Some? && EnqRdy(d)
    ensures r.1.dequeued.Some? <==> c.deq && DeqRdy(d)
    ensures r.1.peeked.Some? ==> r.1.peeked.value == Contents(d)[0]
    ensures r.1.dequeued.Some? ==> r.1.dequeued.value == Contents(d)[0]
    ensures r.1.peeked.Some? && r.1.dequeued.Some? ==> r.1.peeked == r.1.dequeued
    ensures Delivered(r.1) + Contents(r.0) == Contents(d) + Accepted(c, r.1)
  {
    var pulse := UpPulse(d);
    var peeked := StepPeek(d, c.peek, DeqRdy(d));
    var (d1, enqueued) := StepEnq(d, c.enq, pulse.enqRdy);
    var (d2, dequeued) := StepDeq(d1, c.deq, pulse.deqRdy);
    assert enqueued ==> |d1.items| == |d.items| + 1;
    (d2, Outcome(peeked, dequeued, enqueued))
  }

  /** `NormalTick` with `deq` performed before `enq`: the constraints leave
      the two unordered, and the order does not matter. */
  function NormalTickDeqFirst<T>(d: Deque<T>, c: Calls<T>): (r: (Deque<T>, Outcome<T>))
    requires Valid(d)
    ensures Valid(r.0)
  {
    var pulse := UpPulse(d);
    var peeked := StepPeek(d, c.peek, DeqRdy(d));
    var (d1, dequeued) := StepDeq(d, c.deq, pulse.deqRdy);
    var (d2, enqueued) := StepEnq(d1, c.enq, pulse.enqRdy);
    (d2, Outcome(peeked, dequeued, enqueued))
  }

  lemma NormalOrderIrrelevant<T>(d: Deque<T>, c: Calls<T>)
    requires Valid(d)
    ensures NormalTickDeqFirst(d, c) == NormalTick(d, c)
  {
    if c.enq.Some? && EnqRdy(d) && c.deq && DeqRdy(d) {
      var n := |d.items|;
      assert ([c.enq.value] + d.items)[..n] == [c.enq.value] + d.items[..n - 1];
    }
  }

  /** Pipe queue: a full queue that is dequeued accepts an `enq` in the same cycle. */
  lemma PipeFullDeqThenEnq<T>(d: Deque<T>, m: T)
    requires Valid(d) && |d.items| == d.maxlen > 0
    ensures var r := PipeTick(d, Calls(false, true, Some(m)));
      && r.1.dequeued == Some(Contents(d)[0])
      && r.1.enqueued
      && Contents(r.0) == Contents(d)[1..] + [m]
  {
  }

  /** Pipe queue: a message enqueued into an empty queue cannot leave in the same cycle. */
  lemma PipeEmptyNoBypass<T>(d: Deque<T>, m: T)
    requires Valid(d) && |d.items| == 0 < d.maxlen
    ensures var r := PipeTick(d, Calls(true, true, Some(m)));
      && r.1.peeked.None? && r.1.dequeued.None? && r.1.enqueued
      && Contents(r.0) == [m]
  {
  }

  /** Bypass queue: an empty queue hands out, in the same cycle, the message enqueued in it. */
  lemma BypassEmptyEnqThenDeq<T>(d: Deque<T>, m: T)
    requires Valid(d) && |d.items| == 0 < d.maxlen
    ensures var r := BypassTick(d, Calls(true, true, Some(m)));
      && r.1.enqueued && r.1.peeked == Some(m) && r.1.dequeued == Some(m)
      && |r.0.items| == 0
  {
  }

  /** Bypass queue: a full queue refuses `enq` even when it is dequeued in the same cycle. */
  lemma BypassFullRefusesEnq<T>(d: Deque<T>, m: T)
    requires Valid(d) && |d.items| == d.maxlen > 0
    ensures var r := BypassTick(d, Calls(false, true, Some(m)));
      && !r.1.enqueued && r.1.dequeued == Some(Contents(d)[0])
  {
  }

  /** Normal queue: a `deq` never makes `enq` ready in the same cycle, and an
      `enq` never makes `deq` ready in the same cycle. */
  lemma NormalNoSameCycleForwarding<T>(d: Deque<T>, m: T)
    requires Valid(d)
    ensures |d.items| == d.maxlen ==> !NormalTick(d, Calls(false, true, Some(m))).1.enqueued
    ensures |d.items| == 0 ==> NormalTick(d, Calls(true, true, Some(m))).1.dequeued.None?
    ensures |d.items| == 0 ==> NormalTick(d, Calls(true, true, Some(m))).1.peeked.None?
  {
  }

  /** `peek` returns exactly what `deq` returns, and leaves the deque as it was. */
  lemma PeekAgreesWithDeq<T>(d: Deque<T>)
    requires Valid(d) && DeqRdy(d)
    ensures StepPeek(d, true, true) == StepDeq(d, true, true).1
    ensures Contents(d) == [StepPeek(d, true, true).value] + Contents(StepDeq(d, true, true).0)
  {
  }

  datatype QueueKind = PipeQueue | BypassQueue | NormalQueue

  /** One cycle of the queue of kind `k`. Whatever the kind, `peek` and `deq`
      hand out the oldest message present at their place in the cycle, and
      they agree with each other. */
  function Tick<T>(k: QueueKind, d: Deque<T>, c: Calls<T>): (r: (Deque<T>, Outcome<T>))
    requires Valid(d)
    ensures Valid(r.0) && r.0.maxlen == d.maxlen
    ensures r.1.peeked.Some? ==>
      |Contents(d) + Accepted(c, r.1)| > 0 && r.1.peeked.value == (Contents(d) + Accepted(c, r.1))[0]
    ensures r.1.dequeued.Some? ==>
      |Contents(d) + Accepted(c, r.1)| > 0 && r.1.dequeued.value == (Contents(d) + Accepted(c, r.1))[0]
    ensures r.1.peeked.Some? && r.1.dequeued.Some? ==> r.1.peeked == r.1.dequeued
    ensures Delivered(r.1) + Contents(r.0) == Contents(d) + Accepted(c, r.1)
  {
    match k
    case PipeQueue => PipeTick(d, c)
    case BypassQueue => BypassTick(d, c)
    case NormalQueue => NormalTick(d, c)
  }

  /** The result of running a queue for several cycles. */
  datatype Trace<T> = Trace(last: Deque<T>, accepted: seq<T>, delivered: seq<T>)

  function Run<T>(k: QueueKind, d: Deque<T>, calls: seq<Calls<T>>): (t: Trace<T>)
    requires Valid(d)
    ensures Valid(t.last) && t.last.maxlen == d.maxlen
    decreases |calls|
  {
    if |calls| == 0 then Trace(d, [], [])
    else
      var (d1, o) := Tick(k, d, calls[0]);
      var rest := Run(k, d1, calls[1..]);
      Trace(rest.last, Accepted(calls[0], o) + rest.accepted, Delivered(o) + rest.delivered)
  }

  /** FIFO order over any number of cycles: what leaves, followed by what is
      still queued, is exactly what was queued at the start followed by what
      was accepted, in arrival order. Nothing is lost, duplicated or reordered. */
  lemma {:induction false} RunIsFifo<T>(k: QueueKind, d: Deque<T>, calls: seq<Calls<T>>)
    requires Valid(d)
    ensures var t := Run(k, d, calls);
      t.delivered + Contents(t.last) == Contents(d) + t.accepted
    decreases |calls|
  {
    if |calls| > 0 {
      var (d1, o) := Tick(k, d, calls[0]);
      var rest := Run(k, d1, calls[1..]);
      RunIsFifo(k, d1, calls[1..]);
      assert Run(k, d, calls) == Trace(rest.last, Accepted(calls[0], o) + rest.accepted, Delivered(o) + rest.delivered);
      ChainConserved(Contents(d), Delivered(o), Accepted(calls[0], o), Contents(d1),
                     rest.delivered, rest.accepted, Contents(rest.last));
    }
  }

  /** Two conservation steps in a row compose into one. */
  lemma ChainConserved<T>(c0: seq<T>, out1: seq<T>, in1: seq<T>, c1: seq<T>, out2: seq<T>, in2: seq<T>, c2: seq<T>)
    requires out1 + c1 == c0 + in1
    requires out2 + c2 == c1 + in2
    ensures (out1 + out2) + c2 == c0 + (in1 + in2)
  {
    calc {
      (out1 + out2) + c2;
      out1 + (out2 + c2);
      out1 + (c1 + in2);
      (out1 + c1) + in2;
      (c0 + in1) + in2;
    }
  }

  /** From an empty queue, the messages leave in the order they arrived. */
  lemma EmptyQueueDeliversInArrivalOrder<T>(k: QueueKind, n: nat, calls: seq<Calls<T>>)
    ensures var t := Run(k, NewQueue<T>(n), calls);
      t.delivered + Contents(t.last) == t.accepted
  {
    RunIsFifo(k, NewQueue<T>(n), calls);
  }
}
