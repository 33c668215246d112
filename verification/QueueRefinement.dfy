/** Runs without overlap on a slot refine a bounded first-in first-out queue, whichever calls are made.
    A push takes effect when its ticket is within a ring of tail, a pop when its element has been pushed:
    for the try calls that is where the ticket is taken, while a blocking push may wait for a pop to make
    room and a blocking pop for a push to bring an element. */
module QueueRefinement {
  import opened Options
  import opened Arith
  import opened RingIndex
  import opened AtomicQueue
  import opened QueueLedger
  import opened QueueFifo

  // ------------------------------------------------------------------ the bounded queue

  datatype Op<T> = Enqueue(e: T) | Dequeue(e: T)

  /** A queue of at most `size` elements goes from q to q' by the operations: an enqueue needs room, a
      dequeue returns the oldest element. */
  ghost predicate Executes<T>(size: nat, q: seq<T>, ops: seq<Op<T>>, q': seq<T>)
    decreases |ops|
  {
    if ops == [] then q' == q
    else
      match ops[0]
      case Enqueue(e) => |q| < size && Executes(size, q + [e], ops[1..], q')
      case Dequeue(e) => q != [] && q[0] == e && Executes(size, q[1..], ops[1..], q')
  }

  lemma {:induction false} ExecutesBoth<T>(size: nat, q: seq<T>, a: seq<Op<T>>, q1: seq<T>, b: seq<Op<T>>, q2: seq<T>)
    requires Executes(size, q, a, q1) && Executes(size, q1, b, q2)
    ensures Executes(size, q, a + b, q2)
    decreases |a|
  {
    if a == [] {
      assert a + b == b;
    } else {
      FirstOfBoth(a, b);
      match a[0]
      case Enqueue(e) => ExecutesBoth(size, q + [e], a[1..], q1, b, q2);
      case Dequeue(_) => ExecutesBoth(size, q[1..], a[1..], q1, b, q2);
    }
  }

  /** What the operations put in, in order. */
  ghost function Enqueued<T>(ops: seq<Op<T>>): seq<T> {
    if ops == [] then []
    else (if ops[0].Enqueue? then [ops[0].e] else []) + Enqueued(ops[1..])
  }

  /** What they returned, in order. */
  ghost function Dequeued<T>(ops: seq<Op<T>>): seq<T> {
    if ops == [] then []
    else (if ops[0].Dequeue? then [ops[0].e] else []) + Dequeued(ops[1..])
  }

  lemma Reassociate<T>(a: seq<T>, b: seq<T>, d: seq<T>)
    ensures a + (b + d) == (a + b) + d
  {}

  lemma FirstOfBoth<T>(a: seq<T>, b: seq<T>)
    requires a != []
    ensures (a + b)[0] == a[0] && (a + b)[1..] == a[1..] + b
  {}

  lemma {:induction false} EnqueuedBoth<T>(a: seq<Op<T>>, b: seq<Op<T>>)
    ensures Enqueued(a + b) == Enqueued(a) + Enqueued(b)
    decreases |a|
  {
    if a == [] {
      assert a + b == b;
    } else {
      FirstOfBoth(a, b);
      EnqueuedBoth(a[1..], b);
      Reassociate(if a[0].Enqueue? then [a[0].e] else [], Enqueued(a[1..]), Enqueued(b));
    }
  }

  lemma {:induction false} DequeuedBoth<T>(a: seq<Op<T>>, b: seq<Op<T>>)
    ensures Dequeued(a + b) == Dequeued(a) + Dequeued(b)
    decreases |a|
  {
    if a == [] {
      assert a + b == b;
    } else {
      FirstOfBoth(a, b);
      DequeuedBoth(a[1..], b);
      Reassociate(if a[0].Dequeue? then [a[0].e] else [], Dequeued(a[1..]), Dequeued(b));
    }
  }

  // ------------------------------------------------------------------ what the ring stands for

  function Min(a: nat, b: nat): nat {
    if a < b then a else b
  }

  /** Number of pushes that have taken effect: those within a ring of tail. */
  function Ins<T>(c: Config, s: State<T>): nat {
    Min(s.head, s.tail + Size(c))
  }

  /** Number of pops that have taken effect: those whose element has been pushed. */
  function Outs<T>(s: State<T>): nat {
    Min(s.tail, s.head)
  }

  ghost predicate Aligned<T>(s: State<T>) {
    |s.pushed| == s.head
  }

  /** The contents of the queue in ticket order. */
  ghost function Contents<T>(c: Config, s: State<T>): (q: seq<T>)
    requires Aligned(s)
    ensures |q| <= Size(c)
  {
    s.pushed[Outs(s)..Ins(c, s)]
  }

  /** The operations that take effect between two states. A push that meets a waiting pop goes in before
      the element comes out; a pop that makes room for a waiting push goes first. */
  ghost function Effect<T>(c: Config, s: State<T>, s': State<T>): seq<Op<T>>
    requires Aligned(s')
  {
    var ins := if Ins(c, s) < Ins(c, s') then [Enqueue(s'.pushed[Ins(c, s)])] else [];
    var outs := if Outs(s) < Outs(s') then [Dequeue(s'.pushed[Outs(s)])] else [];
    if Outs(s) == Ins(c, s) then ins + outs else outs + ins
  }

  /** What any step does to counters and push history. */
  ghost predicate CounterStep<T>(s: State<T>, s': State<T>) {
    && Aligned(s) && Aligned(s') && s.pushed <= s'.pushed
    && ((s'.head == s.head && s'.tail == s.tail)
        || (s'.head == s.head + 1 && s'.tail == s.tail)
        || (s'.head == s.head && s'.tail == s.tail + 1))
  }

  lemma ExecutesOne<T>(size: nat, q: seq<T>, op: Op<T>, q': seq<T>)
    requires op.Enqueue? ==> |q| < size && q' == q + [op.e]
    requires op.Dequeue? ==> q != [] && op.e == q[0] && q' == q[1..]
    ensures Executes(size, q, [op], q')
  {
    assert [op][1..] == [];
  }

  lemma ExecutesTwo<T>(size: nat, q: seq<T>, a: Op<T>, q1: seq<T>, b: Op<T>, q2: seq<T>)
    requires Executes(size, q, [a], q1) && Executes(size, q1, [b], q2)
    ensures Executes(size, q, [a, b], q2)
  {
    ExecutesBoth(size, q, [a], q1, [b], q2);
    assert [a] + [b] == [a, b];
  }

  lemma PrefixSlice<T>(a: seq<T>, b: seq<T>, i: nat, j: nat)
    requires a <= b && i <= j <= |a|
    ensures a[i..j] == b[i..j]
  {}

  /** A step that takes a push ticket. */
  lemma PushEffect<T>(c: Config, s: State<T>, s': State<T>)
    requires CounterStep(s, s') && s'.head == s.head + 1
    ensures Executes(Size(c), Contents(c, s), Effect(c, s, s'), Contents(c, s'))
  {
    var q, q' := Contents(c, s), Contents(c, s');
    var e := s'.pushed[s.head];
    if s.head < s.tail {
      ExecutesOne(Size(c), q, Enqueue(e), [e]);
      ExecutesOne(Size(c), [e], Dequeue(e), q');
      ExecutesTwo(Size(c), q, Enqueue(e), [e], Dequeue(e), q');
      assert Effect(c, s, s') == [Enqueue(e), Dequeue(e)];
    } else if s.head < s.tail + Size(c) {
      PrefixSlice(s.pushed, s'.pushed, s.tail, s.head);
      assert q' == q + [e];
      ExecutesOne(Size(c), q, Enqueue(e), q');
      assert Effect(c, s, s') == [Enqueue(e)];
    } else {
      PrefixSlice(s.pushed, s'.pushed, Outs(s), Ins(c, s));
    }
  }

  /** A step that takes a pop ticket. */
  lemma PopEffect<T>(c: Config, s: State<T>, s': State<T>)
    requires CounterStep(s, s') && s'.tail == s.tail + 1
    ensures Executes(Size(c), Contents(c, s), Effect(c, s, s'), Contents(c, s'))
  {
    var q, q' := Contents(c, s), Contents(c, s');
    if s.head <= s.tail {
      assert q == q' == [];
    } else if s.head <= s.tail + Size(c) {
      PrefixSlice(s.pushed, s'.pushed, s.tail, s.head);
      assert q' == q[1..];
      ExecutesOne(Size(c), q, Dequeue(q[0]), q');
      assert Effect(c, s, s') == [Dequeue(q[0])];
    } else {
      PopLetsPushIn(c, s, s', q, q');
    }
  }

  /** A pop ticket that makes room for a waiting push. */
  lemma PopLetsPushIn<T>(c: Config, s: State<T>, s': State<T>, q: seq<T>, q': seq<T>)
    requires CounterStep(s, s') && s'.tail == s.tail + 1 && s.tail + Size(c) < s.head
    requires q == Contents(c, s) && q' == Contents(c, s')
    ensures Executes(Size(c), q, Effect(c, s, s'), q')
  {
    var e, x := s'.pushed[s.tail], s'.pushed[s.tail + Size(c)];
    PrefixSlice(s.pushed, s'.pushed, s.tail, s.tail + Size(c) + 1);
    assert q == s.pushed[s.tail..s.tail + Size(c)] && q' == s.pushed[s.tail + 1..s.tail + Size(c) + 1];
    assert q' == q[1..] + [x];
    ExecutesOne(Size(c), q, Dequeue(e), q[1..]);
    ExecutesOne(Size(c), q[1..], Enqueue(x), q');
    ExecutesTwo(Size(c), q, Dequeue(e), q[1..], Enqueue(x), q');
    FullEffect(c, s, s', e, x);
  }

  lemma FullEffect<T>(c: Config, s: State<T>, s': State<T>, e: T, x: T)
    requires Aligned(s') && s'.tail == s.tail + 1 && s.tail + Size(c) < s.head == s'.head
    requires e == s'.pushed[s.tail] && x == s'.pushed[s.tail + Size(c)]
    ensures Effect(c, s, s') == [Dequeue(e), Enqueue(x)]
  {}

  lemma EffectExecutes<T>(c: Config, s: State<T>, s': State<T>)
    requires CounterStep(s, s')
    ensures Executes(Size(c), Contents(c, s), Effect(c, s, s'), Contents(c, s'))
  {
    if s'.head != s.head {
      PushEffect(c, s, s');
    } else if s'.tail != s.tail {
      PopEffect(c, s, s');
    } else {
      PrefixSlice(s.pushed, s'.pushed, Outs(s), Ins(c, s));
    }
  }

  // ------------------------------------------------------------------ completed calls have taken effect

  /** A completed push has taken effect, and a completed pop has, with the element of its ticket. */
  ghost predicate Completed<T>(c: Config, s: State<T>) {
    && (forall t: nat :: PushDone(s, t) ==> t < Ins(c, s))
    && (forall t: nat :: PopDone(s, t) ==> t < Outs(s) && t < |s.pushed| && s.popped[t] == Some(s.pushed[t]))
  }

  /** Tickets a ring apart share a slot. */
  lemma RoundLater(c: Config, t: nat)
    requires ValidConfig(c)
    ensures SlotOf(c, t + Size(c)) == SlotOf(c, t)
  {
    SlotOfTicket(c, t);
    SlotOfTicket(c, t + Size(c));
    ModAddMultiple(t, Size(c), 1);
    SlotEqual(c.bits, c.m, t, t + Size(c));
  }

  /** A push a full ring ahead of tail cannot have stored: the pop of the round before is yet to come. */
  lemma PushWithinRing<T>(c: Config, s: State<T>, t: nat)
    requires ValidConfig(c) && Inv(c, s) && Fifo(c, s) && PushDone(s, t)
    ensures t < s.tail + Size(c)
  {
    if t >= Size(c) {
      var a: nat := t - Size(c);
      RoundLater(c, a);
      assert Alternates(c, s, a, t);
    }
  }

  lemma FifoCompleted<T>(c: Config, s: State<T>)
    requires ValidConfig(c) && Inv(c, s) && Fifo(c, s)
    ensures Completed(c, s)
  {
    forall t: nat | PushDone(s, t) ensures t < Ins(c, s) { PushWithinRing(c, s, t); }
    forall t: nat | PopDone(s, t) ensures t < Outs(s) && t < |s.pushed| && s.popped[t] == Some(s.pushed[t]) {
      assert Paired(s, t);
    }
  }

  // ------------------------------------------------------------------ every step

  /** From state n on, the pop with ticket t can return nothing but e. */
  ghost predicate Delivers<T>(run: seq<State<T>>, n: nat, t: nat, e: T) {
    forall m :: n <= m < |run| && t < |run[m].popped| && run[m].popped[t].Some? ==> run[m].popped[t] == Some(e)
  }

  /** Tickets go to the thread that takes the step, a push ticket with the element of its call. An idle thread
      begins a call, and a thread keeps its element from the call to the ticket and to the store. */
  ghost predicate TakesTicket<T>(s: State<T>, s': State<T>, i: nat)
    requires i < |s.threads| == |s'.threads|
  {
    && (s.threads[i].Idle? ==> !s'.threads[i].Idle?)
    && (Producing(s.threads[i]) && Producing(s'.threads[i]) ==> s'.threads[i].elem == s.threads[i].elem)
    && if s'.head != s.head then
      && s'.threads[i].Pushing? && s'.threads[i].ticket == s.head && s'.pushed == s.pushed + [s'.threads[i].elem]
    else if s'.tail != s.tail then
      s'.threads[i] == Popping(s.tail) && s'.pushed == s.pushed
    else
      s'.pushed == s.pushed
  }

  /** A call returns with its ticket done, or, without a ticket, on a full queue from a push and on an empty one
      from a pop. */
  ghost predicate GivesUpRightly<T>(c: Config, s: State<T>, s': State<T>, i: nat)
    requires i < |s.threads| == |s'.threads| && Aligned(s)
  {
    s'.threads[i].Idle? ==>
      match s.threads[i]
      case Idle => false
      case Pushing(_, t) => PushDone(s', t)
      case Popping(t) => PopDone(s', t)
      case PushLoaded(_, _) => |Contents(c, s)| == Size(c)
      case PushChecked(_, _, _) => |Contents(c, s)| == Size(c)
      case PopLoaded(_) => Contents(c, s) == []
      case PopChecked(_, _) => Contents(c, s) == []
  }

  /** Thread i takes step n of the run, and the bounded queue follows: it executes the operations that take
      effect, an element that goes out is what its pop returns, calls that have returned have taken effect,
      and calls give up only where the bounded queue would refuse them. */
  ghost predicate BoundedQueueStep<T>(c: Config, run: seq<State<T>>, n: nat, i: nat)
    requires n + 1 < |run| && Aligned(run[n]) && Aligned(run[n + 1])
  {
    var s, s' := run[n], run[n + 1];
    && i < |s.threads| == |s'.threads|
    && Executes(Size(c), Contents(c, s), Effect(c, s, s'), Contents(c, s'))
    && (Outs(s) < Outs(s') ==> Delivers(run, n + 1, Outs(s), s'.pushed[Outs(s)]))
    && Completed(c, s)
    && TakesTicket(s, s', i)
    && GivesUpRightly(c, s, s', i)
  }

  lemma TicketStep<T>(c: Config, s: State<T>, i: nat, a: Action<T>, s': State<T>)
    requires Inv(c, s) && Enabled(c, s, i, a) && s' == Step(c, s, i, a)
    ensures |s'.threads| == |s.threads| && CounterStep(s, s') && TakesTicket(s, s', i)
  {
    assert ThreadOk(c, s, s.threads[i]);
  }

  lemma GivesUp<T>(c: Config, s: State<T>, i: nat, a: Action<T>, s': State<T>)
    requires Inv(c, s) && Calm(s) && Enabled(c, s, i, a) && s' == Step(c, s, i, a) && |s'.threads| == |s.threads|
    ensures GivesUpRightly(c, s, s', i)
  {
    assert ThreadOk(c, s, s.threads[i]) && CalmThread(s, s.threads[i]);
    match s.threads[i] {
      case PushLoaded(_, h) => DiffExact(h, s.tail);
      case PopLoaded(t) => DiffExact(s.head, t);
      case Pushing(e, t) => if s'.threads[i].Idle? { StoreDone(c, s, i, e, t, t); }
      case _ =>
    }
  }

  lemma CountersNext<T(!new)>(c: Config, mode: Mode, s: State<T>, s': State<T>)
    requires Inv(c, s) && Next(c, mode, s, s')
    ensures CounterStep(s, s')
  {
    var i: nat, a: Action<T> :| Allowed(mode, a) && Enabled(c, s, i, a) && s' == Step(c, s, i, a);
    TicketStep(c, s, i, a, s');
  }

  lemma RunCounters<T(!new)>(c: Config, mode: Mode, run: seq<State<T>>, n: nat)
    requires IsRun(c, mode, run) && n + 1 < |run|
    ensures CounterStep(run[n], run[n + 1])
  {
    SoundRun(c, mode, run, n);
    CountersNext(c, mode, run[n], run[n + 1]);
  }

  lemma StepKeeps<T(!new)>(c: Config, mode: Mode, run: seq<State<T>>, n: nat, t: nat)
    requires IsRun(c, mode, run) && n + 1 < |run| && t < |run[n].pushed|
    ensures t < |run[n + 1].pushed| && run[n + 1].pushed[t] == run[n].pushed[t]
  {
    RunCounters(c, mode, run, n);
  }

  /** The push history keeps what it records. */
  lemma {:induction false} HistoryKeeps<T(!new)>(c: Config, mode: Mode, run: seq<State<T>>, n: nat, m: nat, t: nat)
    requires IsRun(c, mode, run) && n <= m < |run| && t < |run[n].pushed|
    ensures t < |run[m].pushed| && run[m].pushed[t] == run[n].pushed[t]
    decreases m
  {
    if n < m {
      HistoryKeeps(c, mode, run, n, m - 1, t);
      StepKeeps(c, mode, run, m - 1, t);
    }
  }

  /** No slot has two pushes or two pops in flight, in any state of the run. */
  ghost predicate NeverOverlaps<T>(c: Config, run: seq<State<T>>) {
    forall k :: 0 <= k < |run| ==> NonOverlapping(c, run[k])
  }

  /** The element of a push ticket is what the pop with that ticket returns, now or later. */
  lemma TicketDelivers<T(!new)>(c: Config, mode: Mode, run: seq<State<T>>, n: nat, t: nat)
    requires IsRun(c, mode, run) && NeverOverlaps(c, run) && n < |run| && t < |run[n].pushed|
    ensures Delivers(run, n, t, run[n].pushed[t])
  {
    forall m | n <= m < |run| && t < |run[m].popped| && run[m].popped[t].Some?
      ensures run[m].popped[t] == Some(run[n].pushed[t]) {
      HistoryKeeps(c, mode, run, n, m, t);
      PopReturnsOwnTicket(c, mode, run, m, t);
    }
  }

  lemma StepDelivers<T(!new)>(c: Config, mode: Mode, run: seq<State<T>>, n: nat)
    requires IsRun(c, mode, run) && NeverOverlaps(c, run) && n + 1 < |run| && Aligned(run[n + 1])
    ensures Outs(run[n]) < Outs(run[n + 1]) ==> Delivers(run, n + 1, Outs(run[n]), run[n + 1].pushed[Outs(run[n])])
  {
    if Outs(run[n]) < Outs(run[n + 1]) { TicketDelivers(c, mode, run, n + 1, Outs(run[n])); }
  }

  lemma RunCompleted<T(!new)>(c: Config, mode: Mode, run: seq<State<T>>, n: nat)
    requires ValidConfig(c) && IsRun(c, mode, run) && NeverOverlaps(c, run) && n < |run|
    ensures Aligned(run[n]) && Completed(c, run[n])
  {
    SoundRun(c, mode, run, n);
    FifoRun(c, mode, run, n);
    FifoCompleted(c, run[n]);
  }

  /** In every run without overlap on a slot, whatever calls are made, every step is one of a bounded
      first-in first-out queue, results and refusals included. */
  lemma RefinesBoundedFifo<T(!new)>(c: Config, mode: Mode, run: seq<State<T>>, n: nat) returns (i: nat)
    requires ValidConfig(c) && IsRun(c, mode, run) && NeverOverlaps(c, run) && n + 1 < |run|
    ensures Aligned(run[n]) && Aligned(run[n + 1]) && BoundedQueueStep(c, run, n, i)
  {
    var s, s' := run[n], run[n + 1];
    SoundRun(c, mode, run, n);
    RunCompleted(c, mode, run, n);
    RunCompleted(c, mode, run, n + 1);
    assert Next(c, mode, s, run[n + 1]);
    var k: nat, a: Action<T> :| Allowed(mode, a) && Enabled(c, s, k, a) && s' == Step(c, s, k, a);
    i := k;
    TicketStep(c, s, i, a, s');
    GivesUp(c, s, i, a, s');
    EffectExecutes(c, s, s');
    StepDelivers(c, mode, run, n);
  }

  // ------------------------------------------------------------------ whole runs

  ghost predicate AllAligned<T>(run: seq<State<T>>) {
    forall k :: 0 <= k < |run| ==> Aligned(run[k])
  }

  /** The operations that have taken effect up to state n. */
  ghost function History<T>(c: Config, run: seq<State<T>>, n: nat): seq<Op<T>>
    requires AllAligned(run) && n < |run|
  {
    if n == 0 then [] else History(c, run, n - 1) + Effect(c, run[n - 1], run[n])
  }

  /** An order of operations, all of calls made so far, that explains everything returned so far. */
  ghost predicate Explains<T>(c: Config, ops: seq<Op<T>>, s: State<T>)
    requires Aligned(s)
  {
    && Executes(Size(c), [], ops, Contents(c, s))
    && Enqueued(ops) <= s.pushed && |Dequeued(ops)| <= |s.popped|
    && (forall t: nat :: PushDone(s, t) ==> t < |Enqueued(ops)|)
    && (forall t: nat :: PopDone(s, t) ==> t < |Dequeued(ops)| && s.popped[t] == Some(Dequeued(ops)[t]))
  }

  /** What one effect puts in and brings out. */
  lemma EffectParts<T>(c: Config, s: State<T>, s': State<T>)
    requires Aligned(s')
    ensures Enqueued(Effect(c, s, s')) == if Ins(c, s) < Ins(c, s') then [s'.pushed[Ins(c, s)]] else []
    ensures Dequeued(Effect(c, s, s')) == if Outs(s) < Outs(s') then [s'.pushed[Outs(s)]] else []
  {
    var ins := if Ins(c, s) < Ins(c, s') then [Enqueue(s'.pushed[Ins(c, s)])] else [];
    var outs := if Outs(s) < Outs(s') then [Dequeue(s'.pushed[Outs(s)])] else [];
    EnqueuedBoth(ins, outs);
    EnqueuedBoth(outs, ins);
    DequeuedBoth(ins, outs);
    DequeuedBoth(outs, ins);
  }

  lemma PrefixGrows<T>(a: seq<T>, b: seq<T>, k: nat, k': nat)
    requires a <= b && k <= |a| && k <= k' <= |b| && k' <= k + 1
    ensures b[..k'] == a[..k] + (if k < k' then [b[k]] else [])
  {}

  /** One step adds to what went in and came out what the counters say. */
  lemma EffectProjects<T>(c: Config, s: State<T>, s': State<T>, e: seq<Op<T>>)
    requires CounterStep(s, s') && e == Effect(c, s, s')
    ensures s.pushed[..Ins(c, s)] + Enqueued(e) == s'.pushed[..Ins(c, s')]
    ensures s.pushed[..Outs(s)] + Dequeued(e) == s'.pushed[..Outs(s')]
  {
    EffectParts(c, s, s');
    PrefixGrows(s.pushed, s'.pushed, Ins(c, s), Ins(c, s'));
    PrefixGrows(s.pushed, s'.pushed, Outs(s), Outs(s'));
  }

  lemma {:induction false} HistoryExecutes<T(!new)>(c: Config, mode: Mode, run: seq<State<T>>, n: nat)
    requires IsRun(c, mode, run) && AllAligned(run) && n < |run|
    ensures Executes(Size(c), [], History(c, run, n), Contents(c, run[n]))
    ensures Enqueued(History(c, run, n)) == run[n].pushed[..Ins(c, run[n])]
    ensures Dequeued(History(c, run, n)) == run[n].pushed[..Outs(run[n])]
  {
    if n > 0 {
      HistoryExecutes(c, mode, run, n - 1);
      var s, s' := run[n - 1], run[n];
      RunCounters(c, mode, run, n - 1);
      EffectExecutes(c, s, s');
      var h, e := History(c, run, n - 1), Effect(c, s, s');
      EffectProjects(c, s, s', e);
      ExecutesBoth(Size(c), [], h, Contents(c, s), e, Contents(c, s'));
      EnqueuedBoth(h, e);
      DequeuedBoth(h, e);
    }
  }

  lemma RunAligned<T(!new)>(c: Config, mode: Mode, run: seq<State<T>>)
    requires IsRun(c, mode, run)
    ensures AllAligned(run)
  {
    forall k | 0 <= k < |run| ensures Aligned(run[k]) { SoundRun(c, mode, run, k); }
  }

  /** Linearizability: in every run without overlap on a slot, the operations that have taken effect are an
      execution of the bounded queue that explains every result so far; later steps only append to it. */
  lemma Linearizes<T(!new)>(c: Config, mode: Mode, run: seq<State<T>>, n: nat)
    requires ValidConfig(c) && IsRun(c, mode, run) && NeverOverlaps(c, run) && n < |run|
    ensures AllAligned(run) && Explains(c, History(c, run, n), run[n])
    ensures n > 0 ==> History(c, run, n - 1) <= History(c, run, n)
  {
    RunAligned(c, mode, run);
    HistoryExecutes(c, mode, run, n);
    RunCompleted(c, mode, run, n);
    SoundRun(c, mode, run, n);
  }

  // ------------------------------------------------------------------ the try calls

  /** With try_push and try_pop alone, operations take effect where the ticket is taken. */
  lemma TryCallsTakeEffect<T(!new)>(c: Config, run: seq<State<T>>, n: nat)
    requires IsRun(c, TryCalls, run) && n < |run|
    ensures Aligned(run[n]) && Ins(c, run[n]) == run[n].head && Outs(run[n]) == run[n].tail
    ensures Contents(c, run[n]) == run[n].pushed[run[n].tail..]
  {
    SoundRun(c, TryCalls, run, n);
  }

  /** Then each step is one operation of the bounded queue, or none: an enqueue of the thread's element into
      a queue that is not full, or a dequeue of the oldest element. */
  lemma TryCallsRefineBoundedFifo<T(!new)>(c: Config, run: seq<State<T>>, n: nat) returns (i: nat)
    requires ValidConfig(c) && IsRun(c, TryCalls, run) && NeverOverlaps(c, run) && n + 1 < |run|
    ensures Aligned(run[n]) && Aligned(run[n + 1]) && BoundedQueueStep(c, run, n, i)
    ensures run[n + 1].tail != run[n].tail ==> run[n].tail < |run[n].pushed|
    ensures var s, s' := run[n], run[n + 1];
            Effect(c, s, s') == if s'.head != s.head then [Enqueue(s'.threads[i].elem)]
                                else if s'.tail != s.tail then [Dequeue(s.pushed[s.tail])]
                                else []
  {
    i := RefinesBoundedFifo(c, TryCalls, run, n);
    TryCallsTakeEffect(c, run, n);
    TryCallsTakeEffect(c, run, n + 1);
  }

  // ------------------------------------------------------------------ one producer, one consumer

  predicate Producing<T>(pc: PC<T>) { pc.PushLoaded? || pc.PushChecked? || pc.Pushing? }

  predicate Consuming<T>(pc: PC<T>) { pc.PopLoaded? || pc.PopChecked? || pc.Popping? }

  /** Only threads of ps push and only threads of qs pop. */
  ghost predicate Roles<T>(s: State<T>, ps: set<nat>, qs: set<nat>) {
    forall i :: 0 <= i < |s.threads| ==>
      (Producing(s.threads[i]) ==> i in ps) && (Consuming(s.threads[i]) ==> i in qs)
  }

  ghost predicate RunRoles<T>(run: seq<State<T>>, ps: set<nat>, qs: set<nat>) {
    forall n :: 0 <= n < |run| ==> Roles(run[n], ps, qs)
  }

  lemma OneEachNeverOverlaps<T>(c: Config, run: seq<State<T>>, p: nat, q: nat)
    requires RunRoles(run, {p}, {q})
    ensures NeverOverlaps(c, run)
  {
    forall n, i, j | 0 <= n < |run| && 0 <= i < j < |run[n].threads|
      ensures SlotsDiffer(c, run[n].threads[i], run[n].threads[j]) {
      assert Roles(run[n], {p}, {q});
      assert Producing(run[n].threads[i]) ==> i == p;
      assert Producing(run[n].threads[j]) ==> j == p;
    }
  }

  /** With one producer and one consumer, whatever calls they make, every pop returns the element pushed
      with its ticket: elements come out in the order they went in. */
  lemma SingleProducerSingleConsumer<T(!new)>(c: Config, mode: Mode, run: seq<State<T>>, p: nat, q: nat, n: nat, t: nat)
    requires IsRun(c, mode, run) && RunRoles(run, {p}, {q}) && n < |run| && t < |run[n].pushed|
    ensures Delivers(run, n, t, run[n].pushed[t])
  {
    OneEachNeverOverlaps(c, run, p, q);
    TicketDelivers(c, mode, run, n, t);
  }

  /** One producer and one consumer refine a bounded first-in first-out queue, whatever calls they make. */
  lemma SpscRefinesBoundedFifo<T(!new)>(c: Config, mode: Mode, run: seq<State<T>>, p: nat, q: nat, n: nat)
    returns (i: nat)
    requires ValidConfig(c) && IsRun(c, mode, run) && RunRoles(run, {p}, {q}) && n + 1 < |run|
    ensures Aligned(run[n]) && Aligned(run[n + 1]) && BoundedQueueStep(c, run, n, i)
    ensures AllAligned(run) && Explains(c, History(c, run, n), run[n])
  {
    OneEachNeverOverlaps(c, run, p, q);
    i := RefinesBoundedFifo(c, mode, run, n);
    Linearizes(c, mode, run, n);
  }
}
