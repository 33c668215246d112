/** The queue as its callers see it: a call works on its own argument, takes its ticket while it runs,
    returns with what its ticket stands for, and is refused only by a full or an empty queue. */
module QueueCalls {
  import opened Options
  import opened AtomicQueue
  import opened QueueLedger
  import opened QueueFifo
  import opened QueueRefinement

  // ------------------------------------------------------------------ runs with their steps

  /** Thread i does a. */
  datatype Act<T> = Act(i: nat, a: Action<T>)

  /** Step n of the run is the n-th act. */
  ghost predicate StepAt<T(!new)>(c: Config, mode: Mode, run: seq<State<T>>, acts: seq<Act<T>>, n: nat)
    requires n < |acts| && |run| == |acts| + 1
  {
    var s, act := run[n], acts[n];
    Calm(s) && Allowed(mode, act.a) && Enabled(c, s, act.i, act.a) && run[n + 1] == Step(c, s, act.i, act.a)
  }

  ghost predicate IsTrace<T(!new)>(c: Config, mode: Mode, run: seq<State<T>>, acts: seq<Act<T>>) {
    && |run| == |acts| + 1 && Init(c, run[0])
    && forall n :: 0 <= n < |acts| ==> StepAt(c, mode, run, acts, n)
  }

  lemma TraceIsRun<T(!new)>(c: Config, mode: Mode, run: seq<State<T>>, acts: seq<Act<T>>)
    requires IsTrace(c, mode, run, acts)
    ensures IsRun(c, mode, run)
  {
    forall n | 0 <= n < |run| - 1 ensures Next(c, mode, run[n], run[n + 1]) {
      assert StepAt(c, mode, run, acts, n);
    }
  }

  lemma TraceExtends<T(!new)>(c: Config, mode: Mode, run: seq<State<T>>, acts: seq<Act<T>>, act: Act<T>, s': State<T>)
    requires IsTrace(c, mode, run, acts)
    requires var s := run[|acts|];
             Calm(s) && Allowed(mode, act.a) && Enabled(c, s, act.i, act.a) && s' == Step(c, s, act.i, act.a)
    ensures IsTrace(c, mode, run + [s'], acts + [act])
  {
    forall k | 0 <= k < |acts| + 1 ensures StepAt(c, mode, run + [s'], acts + [act], k) {
      if k < |acts| { assert StepAt(c, mode, run, acts, k); }
    }
  }

  lemma RunPrefix<T(!new)>(c: Config, mode: Mode, run: seq<State<T>>, n: nat)
    requires IsRun(c, mode, run) && 0 < n <= |run|
    ensures IsRun(c, mode, run[..n])
  {
    forall k | 0 <= k < n - 1 ensures Next(c, mode, run[..n][k], run[..n][k + 1]) {
      assert Next(c, mode, run[k], run[k + 1]);
    }
  }

  lemma TraceSound<T(!new)>(c: Config, mode: Mode, run: seq<State<T>>, acts: seq<Act<T>>, n: nat)
    requires IsTrace(c, mode, run, acts) && n < |run|
    ensures Inv(c, run[n]) && Aligned(run[n])
  {
    TraceIsRun(c, mode, run, acts);
    SoundRun(c, mode, run, n);
  }

  /** Every run has the steps that make it: the laws of this module are about all runs. */
  lemma {:induction false} RunHasTrace<T(!new)>(c: Config, mode: Mode, run: seq<State<T>>) returns (acts: seq<Act<T>>)
    requires IsRun(c, mode, run)
    ensures IsTrace(c, mode, run, acts)
  {
    if |run| == 1 {
      acts := [];
    } else {
      var n := |run| - 1;
      RunPrefix(c, mode, run, n);
      acts := RunHasTrace(c, mode, run[..n]);
      assert Next(c, mode, run[n - 1], run[n - 1 + 1]);
      var i: nat, a: Action<T> :| Allowed(mode, a) && Enabled(c, run[n - 1], i, a)
        && run[n] == Step(c, run[n - 1], i, a);
      TraceExtends(c, mode, run[..n], acts, Act(i, a), run[n]);
      acts := acts + [Act(i, a)];
      assert run == run[..n] + [run[n]];
    }
  }

  // ------------------------------------------------------------------ a thread serves its last call

  predicate IsPush<T>(a: Action<T>) { a.BeginTryPush? || a.BeginPush? }

  predicate IsPop<T>(a: Action<T>) { a.BeginTryPop? || a.BeginPop? }

  /** The last call that thread i made in the first n steps. */
  ghost function LastCall<T>(acts: seq<Act<T>>, n: nat, i: nat): Option<Action<T>>
    requires n <= |acts|
  {
    if n == 0 then None
    else if acts[n - 1].i == i && !acts[n - 1].a.Advance? then Some(acts[n - 1].a)
    else LastCall(acts, n - 1, i)
  }

  /** What a thread does is its last call, with the argument of that call. */
  ghost predicate Serves<T>(call: Option<Action<T>>, pc: PC<T>) {
    match pc
    case Idle => true
    case PushLoaded(e, _) => call == Some(BeginTryPush(e))
    case PushChecked(e, _, _) => call == Some(BeginTryPush(e))
    case Pushing(e, _) => call == Some(BeginTryPush(e)) || call == Some(BeginPush(e))
    case PopLoaded(_) => call == Some(BeginTryPop)
    case PopChecked(_, _) => call == Some(BeginTryPop)
    case Popping(_) => call == Some(BeginTryPop) || call == Some(BeginPop)
  }

  lemma ServesStep<T(!new)>(c: Config, s: State<T>, i: nat, a: Action<T>, s': State<T>, call: Option<Action<T>>)
    requires Enabled(c, s, i, a) && s' == Step(c, s, i, a)
    requires a.Advance? ==> Serves(call, s.threads[i])
    ensures |s'.threads| == |s.threads| && forall j :: 0 <= j < |s.threads| && j != i ==> s'.threads[j] == s.threads[j]
    ensures Serves(if a.Advance? then call else Some(a), s'.threads[i])
  {}

  /** From the call until it returns, the thread works on that call and no other, with its argument. */
  lemma {:induction false} ServesRun<T(!new)>(c: Config, mode: Mode, run: seq<State<T>>, acts: seq<Act<T>>, n: nat,
                                              i: nat)
    requires IsTrace(c, mode, run, acts) && n < |run| && i < |run[n].threads|
    ensures Serves(LastCall(acts, n, i), run[n].threads[i])
  {
    if n > 0 {
      var k := n - 1;
      assert StepAt(c, mode, run, acts, k);
      var j := acts[k].i;
      if j < |run[k].threads| { ServesRun(c, mode, run, acts, k, j); }
      ServesStep(c, run[k], j, acts[k].a, run[n], LastCall(acts, k, j));
      if i != j { ServesRun(c, mode, run, acts, k, i); }
    }
  }

  // ------------------------------------------------------------------ how a call begins, goes on and returns

  /** A blocking call takes its ticket at once, a try call none yet; no call is over when it begins. */
  ghost predicate Begins<T>(s: State<T>, s': State<T>, i: nat, a: Action<T>)
    requires i < |s.threads| == |s'.threads|
  {
    && !s'.threads[i].Idle? && s'.slots == s.slots
    && match a
       case BeginPush(e) =>
         && s'.threads[i] == Pushing(e, s.head) && s'.head == s.head + 1 && s'.tail == s.tail
         && s'.pushed == s.pushed + [e] && s'.popped == s.popped
       case BeginPop =>
         && s'.threads[i] == Popping(s.tail) && s'.head == s.head && s'.tail == s.tail + 1
         && s'.pushed == s.pushed && s'.popped == s.popped + [None]
       case _ =>
         && !s'.threads[i].Pushing? && !s'.threads[i].Popping?
         && s'.head == s.head && s'.tail == s.tail && s'.pushed == s.pushed && s'.popped == s.popped
  }

  /** The push of thread i has stored its element: the ticket it holds is done, and was not before. */
  ghost predicate Stored<T>(s: State<T>, s': State<T>, i: nat, e: T)
    requires i < |s.threads| == |s'.threads|
  {
    && s.threads[i].Pushing? && var t := s.threads[i].ticket;
    && t < |s.pushed| && s.pushed[t] == e && !PushDone(s, t) && PushDone(s', t)
    && s'.pushed == s.pushed && s'.popped == s.popped && s'.head == s.head && s'.tail == s.tail
  }

  /** The pop of thread i has returned: exactly the entry of the ticket it holds is filled. */
  ghost predicate Delivered<T>(s: State<T>, s': State<T>, i: nat)
    requires i < |s.threads| == |s'.threads|
  {
    && s.threads[i].Popping? && var t := s.threads[i].ticket;
    && t < |s.popped| == |s'.popped| && s.popped[t].None? && s'.popped[t].Some?
    && s'.popped == s.popped[t := s'.popped[t]]
    && s'.pushed == s.pushed && s'.head == s.head && s'.tail == s.tail
  }

  ghost predicate Refused<T>(s: State<T>, s': State<T>, i: nat)
    requires i < |s.threads|
  {
    !s.threads[i].Pushing? && !s.threads[i].Popping? && s' == SetPC(s, i, Idle)
  }

  /** A call returns: a blocking one with its work done, a try call also when the queue is full, or empty. */
  ghost predicate Returns<T>(c: Config, call: Action<T>, s: State<T>, s': State<T>, i: nat)
    requires i < |s.threads| == |s'.threads| && Aligned(s)
  {
    match call
    case BeginPush(e) => Stored(s, s', i, e)
    case BeginTryPush(e) => Stored(s, s', i, e) || (Refused(s, s', i) && |Contents(c, s)| == Size(c))
    case BeginPop => Delivered(s, s', i)
    case BeginTryPop => Delivered(s, s', i) || (Refused(s, s', i) && Contents(c, s) == [])
    case Advance => false
  }

  /** A step inside a call stores and delivers nothing; a try call goes round only when another thread has
      taken the ticket it was after. */
  ghost predicate GoesOn<T>(s: State<T>, s': State<T>, i: nat)
    requires i < |s.threads| == |s'.threads|
  {
    && !s.threads[i].Idle? && s'.slots == s.slots && (s'.popped == s.popped || s'.popped == s.popped + [None])
    && (s.threads[i].Pushing? || s.threads[i].Popping? ==> s' == s)
    && (s.threads[i].PushLoaded? ==> s'.threads[i].PushChecked? && s'.threads[i].h == s.threads[i].h)
    && (s.threads[i].PopLoaded? ==> s'.threads[i].PopChecked? && s'.threads[i].t == s.threads[i].t)
    && (s.threads[i].PushChecked? ==>
          if s.head == s.threads[i].h then s'.threads[i] == Pushing(s.threads[i].elem, s.head) && s'.head == s.head + 1
          else s.threads[i].h < s.head && s'.threads[i] == PushLoaded(s.threads[i].elem, s.head))
    && (s.threads[i].PopChecked? ==>
          if s.tail == s.threads[i].t then s'.threads[i] == Popping(s.tail) && s'.tail == s.tail + 1
          else s.threads[i].t < s.tail && s'.threads[i] == PopLoaded(s.tail))
  }

  lemma BeginStep<T>(c: Config, s: State<T>, i: nat, a: Action<T>, s': State<T>)
    requires Enabled(c, s, i, a) && !a.Advance? && s' == Step(c, s, i, a)
    ensures |s'.threads| == |s.threads| && Begins(s, s', i, a)
  {}

  lemma StoreReturns<T>(c: Config, s: State<T>, i: nat, s': State<T>)
    requires Inv(c, s) && Enabled(c, s, i, Advance) && s' == Step(c, s, i, Advance) && |s'.threads| == |s.threads|
    requires s.threads[i].Pushing? && s'.threads[i].Idle?
    ensures Stored(s, s', i, s.threads[i].elem)
  {
    assert ThreadOk(c, s, s.threads[i]);
    StoreDone(c, s, i, s.threads[i].elem, s.threads[i].ticket, s.threads[i].ticket);
  }

  lemma TakeReturns<T>(c: Config, s: State<T>, i: nat, s': State<T>)
    requires Inv(c, s) && Enabled(c, s, i, Advance) && s' == Step(c, s, i, Advance) && |s'.threads| == |s.threads|
    requires s.threads[i].Popping? && s'.threads[i].Idle?
    ensures Delivered(s, s', i)
  {
    assert ThreadOk(c, s, s.threads[i]);
  }

  lemma RefusalReturns<T>(c: Config, s: State<T>, i: nat, s': State<T>)
    requires Inv(c, s) && Calm(s) && Enabled(c, s, i, Advance) && s' == Step(c, s, i, Advance)
    requires |s'.threads| == |s.threads| && !s.threads[i].Pushing? && !s.threads[i].Popping? && s'.threads[i].Idle?
    ensures Refused(s, s', i)
    ensures if Producing(s.threads[i]) then |Contents(c, s)| == Size(c) else Contents(c, s) == []
  {
    GivesUp(c, s, i, Advance, s');
  }

  /** Every step that ends a call ends it rightly. */
  lemma ReturnStep<T>(c: Config, s: State<T>, i: nat, s': State<T>, call: Action<T>)
    requires Inv(c, s) && Calm(s) && Enabled(c, s, i, Advance) && s' == Step(c, s, i, Advance)
    requires |s'.threads| == |s.threads| && s'.threads[i].Idle? && Serves(Some(call), s.threads[i])
    ensures Returns(c, call, s, s', i)
  {
    if s.threads[i].Pushing? {
      StoreReturns(c, s, i, s');
    } else if s.threads[i].Popping? {
      TakeReturns(c, s, i, s');
    } else {
      RefusalReturns(c, s, i, s');
    }
  }

  lemma GoOnStep<T>(c: Config, s: State<T>, i: nat, s': State<T>)
    requires Inv(c, s) && Calm(s) && Enabled(c, s, i, Advance) && s' == Step(c, s, i, Advance)
    requires |s'.threads| == |s.threads| && !s'.threads[i].Idle?
    ensures GoesOn(s, s', i)
  {
    assert ThreadOk(c, s, s.threads[i]) && CalmThread(s, s.threads[i]);
    match s.threads[i] {
      case PushChecked(_, h, _) => CasExact(h, s.head);
      case PopChecked(t, _) => CasExact(t, s.tail);
      case _ =>
    }
  }

  /** An operation that can finish returns with its next step. */
  lemma FinishReturns<T>(c: Config, s: State<T>, i: nat, j: nat)
    requires Inv(c, s) && CanFinish(c, s, i, j)
    ensures Enabled(c, s, i, Advance) && Step(c, s, i, Advance).threads[i].Idle?
  {
    assert ThreadOk(c, s, s.threads[i]);
  }

  /** What step n of a trace does to the call of its thread. */
  ghost predicate CallStep<T>(c: Config, run: seq<State<T>>, acts: seq<Act<T>>, n: nat)
    requires n < |acts| && |run| == |acts| + 1
  {
    var s, s', i := run[n], run[n + 1], acts[n].i;
    && i < |s.threads| == |s'.threads| && Aligned(s)
    && if !acts[n].a.Advance? then s.threads[i].Idle? && Begins(s, s', i, acts[n].a)
       else if s'.threads[i].Idle? then
         LastCall(acts, n, i).Some? && Returns(c, LastCall(acts, n, i).value, s, s', i)
       else GoesOn(s, s', i)
  }

  /** In every run each step begins a call, carries one on, or returns from it, as the calls promise. */
  lemma CallsKeepTheirWord<T(!new)>(c: Config, mode: Mode, run: seq<State<T>>, acts: seq<Act<T>>, n: nat)
    requires IsTrace(c, mode, run, acts) && n < |acts|
    ensures CallStep(c, run, acts, n)
  {
    var s, s', i := run[n], run[n + 1], acts[n].i;
    TraceSound(c, mode, run, acts, n);
    assert StepAt(c, mode, run, acts, n);
    ServesRun(c, mode, run, acts, n, i);
    if !acts[n].a.Advance? {
      BeginStep(c, s, i, acts[n].a, s');
    } else {
      ServesStep(c, s, i, Advance, s', LastCall(acts, n, i));
      if s'.threads[i].Idle? {
        ReturnStep(c, s, i, s', LastCall(acts, n, i).value);
      } else {
        GoOnStep(c, s, i, s');
      }
    }
  }

  // ------------------------------------------------------------------ a call from its beginning to its return

  /** Thread i makes a call in step n and is back in state m, and not before. */
  ghost predicate Span<T>(run: seq<State<T>>, acts: seq<Act<T>>, n: nat, m: nat, i: nat) {
    && n < m <= |acts| && |run| == |acts| + 1 && acts[n].i == i && !acts[n].a.Advance?
    && i < |run[m].threads| && run[m].threads[i].Idle?
    && forall k :: n < k < m ==> i < |run[k].threads| && !run[k].threads[i].Idle?
  }

  /** Other threads leave thread i alone. */
  lemma OthersLeave<T(!new)>(c: Config, mode: Mode, run: seq<State<T>>, acts: seq<Act<T>>, k: nat, i: nat)
    requires IsTrace(c, mode, run, acts) && k < |acts| && acts[k].i != i
    ensures |run[k + 1].threads| == |run[k].threads|
    ensures i < |run[k].threads| ==> run[k + 1].threads[i] == run[k].threads[i]
  {
    assert StepAt(c, mode, run, acts, k);
    var s, s' := run[k], run[k + 1];
    assert |s'.threads| == |s.threads| && (i < |s.threads| ==> s'.threads[i] == s.threads[i]);
  }

  lemma {:induction false} SpanCall<T(!new)>(c: Config, mode: Mode, run: seq<State<T>>, acts: seq<Act<T>>,
                                             n: nat, m: nat, i: nat, k: nat)
    requires IsTrace(c, mode, run, acts) && Span(run, acts, n, m, i) && n < k < m
    ensures LastCall(acts, k, i) == Some(acts[n].a)
  {
    if k > n + 1 {
      SpanCall(c, mode, run, acts, n, m, i, k - 1);
      assert StepAt(c, mode, run, acts, k - 1);
      assert acts[k - 1].i == i ==> acts[k - 1].a.Advance?;
    }
  }

  lemma CountersStep<T(!new)>(c: Config, mode: Mode, run: seq<State<T>>, n: nat)
    requires IsRun(c, mode, run) && n + 1 < |run|
    ensures run[n].head <= run[n + 1].head && run[n].tail <= run[n + 1].tail
  {
    RunCounters(c, mode, run, n);
  }

  lemma {:induction false} CountersGrow<T(!new)>(c: Config, mode: Mode, run: seq<State<T>>, n: nat, m: nat)
    requires IsRun(c, mode, run) && n <= m < |run|
    ensures run[n].head <= run[m].head && run[n].tail <= run[m].tail
    decreases m
  {
    if n < m {
      CountersGrow(c, mode, run, n, m - 1);
      CountersStep(c, mode, run, m - 1);
    }
  }

  lemma TraceGrows<T(!new)>(c: Config, mode: Mode, run: seq<State<T>>, acts: seq<Act<T>>, n: nat, m: nat)
    requires IsTrace(c, mode, run, acts) && n <= m < |run|
    ensures run[n].head <= run[m].head && run[n].tail <= run[m].tail
  {
    TraceIsRun(c, mode, run, acts);
    CountersGrow(c, mode, run, n, m);
  }

  /** A ticket taken since the given counters. */
  ghost predicate Since<T>(pc: PC<T>, head: nat, tail: nat) {
    (pc.Pushing? ==> head <= pc.ticket) && (pc.Popping? ==> tail <= pc.ticket)
  }

  lemma SinceStep<T>(c: Config, run: seq<State<T>>, acts: seq<Act<T>>, k: nat, head: nat, tail: nat)
    requires k < |acts| && |run| == |acts| + 1 && CallStep(c, run, acts, k)
    requires head <= run[k].head && tail <= run[k].tail
    requires acts[k].a.Advance? ==> Since(run[k].threads[acts[k].i], head, tail)
    ensures Since(run[k + 1].threads[acts[k].i], head, tail)
  {}

  lemma SinceNext<T(!new)>(c: Config, mode: Mode, run: seq<State<T>>, acts: seq<Act<T>>, k: nat, i: nat,
                           head: nat, tail: nat)
    requires IsTrace(c, mode, run, acts) && k < |acts| && i < |run[k].threads|
    requires head <= run[k].head && tail <= run[k].tail
    requires Since(run[k].threads[i], head, tail) || (acts[k].i == i && !acts[k].a.Advance?)
    ensures i < |run[k + 1].threads| && Since(run[k + 1].threads[i], head, tail)
  {
    if acts[k].i == i {
      CallsKeepTheirWord(c, mode, run, acts, k);
      SinceStep(c, run, acts, k, head, tail);
    } else {
      OthersLeave(c, mode, run, acts, k, i);
    }
  }

  lemma CallSince<T(!new)>(c: Config, mode: Mode, run: seq<State<T>>, acts: seq<Act<T>>, n: nat, i: nat)
    requires IsTrace(c, mode, run, acts) && n < |acts| && acts[n].i == i && !acts[n].a.Advance?
    ensures i < |run[n + 1].threads| && Since(run[n + 1].threads[i], run[n].head, run[n].tail)
  {
    assert StepAt(c, mode, run, acts, n);
    SinceNext(c, mode, run, acts, n, i, run[n].head, run[n].tail);
  }

  /** The ticket of a call is taken after the call was made. */
  lemma {:induction false} SpanTicket<T(!new)>(c: Config, mode: Mode, run: seq<State<T>>, acts: seq<Act<T>>,
                                               n: nat, m: nat, i: nat, k: nat, head: nat, tail: nat)
    requires IsTrace(c, mode, run, acts) && Span(run, acts, n, m, i) && n < k < m
    requires head == run[n].head && tail == run[n].tail
    ensures Since(run[k].threads[i], head, tail)
    decreases k
  {
    if k == n + 1 {
      CallSince(c, mode, run, acts, n, i);
    } else {
      SpanTicket(c, mode, run, acts, n, m, i, k - 1, head, tail);
      TraceGrows(c, mode, run, acts, n, k - 1);
      SinceNext(c, mode, run, acts, k - 1, i, head, tail);
    }
  }

  /** A step that stores and delivers nothing. */
  ghost predicate Quiet<T>(s: State<T>, s': State<T>) {
    s'.slots == s.slots && (s'.popped == s.popped || s'.popped == s.popped + [None])
  }

  lemma SpanEnds<T(!new)>(c: Config, mode: Mode, run: seq<State<T>>, acts: seq<Act<T>>, n: nat, m: nat, i: nat)
    requires IsTrace(c, mode, run, acts) && Span(run, acts, n, m, i)
    ensures n + 1 < m && acts[m - 1] == Act(i, Advance)
  {
    var k: nat := m - 1;
    CallsKeepTheirWord(c, mode, run, acts, k);
    if acts[k].i != i { OthersLeave(c, mode, run, acts, k, i); }
  }

  /** Every call that returns does so once, in a step of its own, with what it promises; before that it stores
      and delivers nothing, and the ticket it holds was taken since it was made. */
  lemma CallReturns<T(!new)>(c: Config, mode: Mode, run: seq<State<T>>, acts: seq<Act<T>>, n: nat, m: nat, i: nat)
    requires IsTrace(c, mode, run, acts) && Span(run, acts, n, m, i)
    ensures n + 1 < m && acts[m - 1] == Act(i, Advance)
    ensures i < |run[m - 1].threads| == |run[m].threads| && Aligned(run[m - 1])
    ensures Returns(c, acts[n].a, run[m - 1], run[m], i) && Since(run[m - 1].threads[i], run[n].head, run[n].tail)
    ensures forall k :: n <= k < m - 1 && acts[k].i == i ==> Quiet(run[k], run[k + 1])
  {
    SpanEnds(c, mode, run, acts, n, m, i);
    CallsKeepTheirWord(c, mode, run, acts, m - 1);
    SpanCall(c, mode, run, acts, n, m, i, m - 1);
    SpanTicket(c, mode, run, acts, n, m, i, m - 1, run[n].head, run[n].tail);
    forall k | n <= k < m - 1 && acts[k].i == i ensures Quiet(run[k], run[k + 1]) {
      CallsKeepTheirWord(c, mode, run, acts, k);
    }
  }

  /** The operation of a call is among those of the second history and not among those of the first. */
  ghost predicate InBetween<T>(before: seq<T>, after: seq<T>, t: nat, e: T) {
    |before| <= t < |after| && after[t] == e
  }

  /** Linearizability call by call: without overlap on a slot, a push takes effect between its call and its
      return, with its argument, and a pop likewise, with the element it returns. */
  lemma CallsLinearize<T(!new)>(c: Config, mode: Mode, run: seq<State<T>>, acts: seq<Act<T>>, n: nat, m: nat, i: nat)
    requires ValidConfig(c) && IsTrace(c, mode, run, acts) && NeverOverlaps(c, run) && Span(run, acts, n, m, i)
    ensures AllAligned(run) && i < |run[m - 1].threads| == |run[m].threads|
    ensures var call, s, s' := acts[n].a, run[m - 1], run[m];
            && (IsPush(call) && Stored(s, s', i, call.elem) ==>
                  InBetween(Enqueued(History(c, run, n)), Enqueued(History(c, run, m)), s.threads[i].ticket, call.elem))
            && (IsPop(call) && Delivered(s, s', i) ==>
                  InBetween(Dequeued(History(c, run, n)), Dequeued(History(c, run, m)), s.threads[i].ticket,
                            s'.popped[s.threads[i].ticket].value))
  {
    TraceIsRun(c, mode, run, acts);
    CallReturns(c, mode, run, acts, n, m, i);
    Linearizes(c, mode, run, n);
    Linearizes(c, mode, run, m);
    SoundRun(c, mode, run, n);
    var call, s, s' := acts[n].a, run[m - 1], run[m];
    var t := if s.threads[i].Pushing? || s.threads[i].Popping? then s.threads[i].ticket else 0;
    if IsPush(call) && Stored(s, s', i, call.elem) { assert PushDone(s', t); }
    if IsPop(call) && Delivered(s, s', i) { assert PopDone(s', t); }
  }

  // ------------------------------------------------------------------ all arguments and all calls accounted for

  ghost function One<T>(o: Option<T>): multiset<T> {
    if o.Some? then multiset{o.value} else multiset{}
  }

  function Is<T(==)>(o: Option<T>, x: T): nat {
    if o == Some(x) then 1 else 0
  }

  lemma BagUpdate<T(!new)>(s: seq<Option<T>>, i: nat, o: Option<T>)
    requires i < |s|
    ensures Bag(s[i := o]) + One(s[i]) == Bag(s) + One(o)
  {
    var a, b := Bag(s[i := o]) + One(s[i]), Bag(s) + One(o);
    forall x: T ensures a[x] == b[x] {
      BagOccurs(s, x);
      BagOccurs(s[i := o], x);
      OccursUpdate(s, i, o, x);
    }
    assert a == b;
  }

  /** The argument of a try_push that has no ticket yet. */
  function Before<T>(pc: PC<T>): Option<T> {
    if pc.PushLoaded? || pc.PushChecked? then Some(pc.elem) else None
  }

  /** How often x is the argument of such a call. */
  ghost function Preparing<T>(threads: seq<PC<T>>, x: T): nat {
    if threads == [] then 0
    else Preparing(threads[..|threads| - 1], x) + Is(Before(threads[|threads| - 1]), x)
  }

  /** The argument of a call, if it is a push. */
  function Argument<T>(a: Action<T>): Option<T> {
    if IsPush(a) then Some(a.elem) else None
  }

  /** How often x is the argument of a push call in the first n steps. */
  ghost function Arguments<T>(acts: seq<Act<T>>, n: nat, x: T): nat
    requires n <= |acts|
  {
    if n == 0 then 0 else Arguments(acts, n - 1, x) + Is(Argument(acts[n - 1].a), x)
  }

  predicate NoTicket<T>(pc: PC<T>) { !pc.Pushing? && !pc.Popping? }

  /** Step k returns from a call without having used a ticket. */
  ghost predicate Refusal<T>(run: seq<State<T>>, acts: seq<Act<T>>, k: nat)
    requires k < |acts| && |run| == |acts| + 1
  {
    && acts[k].a.Advance? && acts[k].i < |run[k].threads| == |run[k + 1].threads|
    && run[k + 1].threads[acts[k].i].Idle? && NoTicket(run[k].threads[acts[k].i])
  }

  /** The argument that step k refuses, by the call of its thread. */
  ghost function RefusedArgument<T>(run: seq<State<T>>, acts: seq<Act<T>>, k: nat): Option<T>
    requires k < |acts| && |run| == |acts| + 1
  {
    var call := LastCall(acts, k, acts[k].i);
    if Refusal(run, acts, k) && call.Some? then Argument(call.value) else None
  }

  /** How often x was refused in the first n steps. */
  ghost function Refusals<T>(run: seq<State<T>>, acts: seq<Act<T>>, n: nat, x: T): nat
    requires n <= |acts| && |run| == |acts| + 1
  {
    if n == 0 then 0 else Refusals(run, acts, n - 1, x) + Is(RefusedArgument(run, acts, n - 1), x)
  }

  lemma {:induction false} PreparingUpdate<T>(ts: seq<PC<T>>, i: nat, pc: PC<T>, x: T)
    requires i < |ts|
    ensures Preparing(ts[i := pc], x) + Is(Before(ts[i]), x) == Preparing(ts, x) + Is(Before(pc), x)
  {
    var n := |ts| - 1;
    if i == n {
      assert ts[i := pc][..n] == ts[..n];
    } else {
      PreparingUpdate(ts[..n], i, pc, x);
      assert ts[i := pc][..n] == ts[..n][i := pc];
    }
  }

  lemma {:induction false} PreparingIdle<T>(ts: seq<PC<T>>, x: T)
    requires forall i :: 0 <= i < |ts| ==> ts[i].Idle?
    ensures Preparing(ts, x) == 0
  {
    if ts != [] { PreparingIdle(ts[..|ts| - 1], x); }
  }

  /** The element that a step adds to the push history. */
  ghost function NewTicket<T>(s: State<T>, s': State<T>): Option<T> {
    if |s'.pushed| > |s.pushed| then Some(s'.pushed[|s.pushed|]) else None
  }

  lemma PushedGrows<T>(s: State<T>, s': State<T>, x: T)
    requires s'.pushed == s.pushed || (|s'.pushed| == |s.pushed| + 1 && s.pushed <= s'.pushed)
    ensures multiset(s'.pushed)[x] == multiset(s.pushed)[x] + Is(NewTicket(s, s'), x)
  {
    if s'.pushed != s.pushed {
      assert s'.pushed == s.pushed + [s'.pushed[|s.pushed|]];
    }
  }

  /** A step moves the argument of its thread on: from the call to the try, to a ticket, or to a refusal. */
  ghost predicate Moves<T>(s: State<T>, s': State<T>, i: nat, a: Action<T>, refused: Option<T>)
    requires i < |s.threads|
  {
    && |s'.threads| == |s.threads| && s'.threads == s.threads[i := s'.threads[i]]
    && (s'.pushed == s.pushed || (|s'.pushed| == |s.pushed| + 1 && s.pushed <= s'.pushed))
    && if NewTicket(s, s').Some? then
         && refused.None? && Before(s'.threads[i]).None?
         && NewTicket(s, s') == (if a.Advance? then Before(s.threads[i]) else Argument(a))
       else if refused.Some? then a.Advance? && refused == Before(s.threads[i]) && Before(s'.threads[i]).None?
       else Before(s'.threads[i]) == (if a.Advance? then Before(s.threads[i]) else Argument(a))
  }

  lemma BeginMoves<T>(c: Config, s: State<T>, i: nat, a: Action<T>, s': State<T>)
    requires Enabled(c, s, i, a) && !a.Advance? && s' == Step(c, s, i, a)
    ensures Moves(s, s', i, a, None)
  {}

  lemma AdvanceMoves<T>(c: Config, s: State<T>, i: nat, s': State<T>, call: Option<Action<T>>)
    requires Enabled(c, s, i, Advance) && s' == Step(c, s, i, Advance) && Serves(call, s.threads[i])
    ensures |s'.threads| == |s.threads|
    ensures Moves(s, s', i, Advance,
                  if s'.threads[i].Idle? && NoTicket(s.threads[i]) && call.Some? then Argument(call.value) else None)
  {
    match s.threads[i] {
      case PushLoaded(_, _) =>
      case PushChecked(_, _, _) =>
      case Pushing(_, _) =>
      case PopLoaded(_) =>
      case PopChecked(_, _) =>
      case Popping(_) =>
    }
  }

  lemma TraceMoves<T(!new)>(c: Config, mode: Mode, run: seq<State<T>>, acts: seq<Act<T>>, k: nat)
    requires IsTrace(c, mode, run, acts) && k < |acts|
    ensures acts[k].i < |run[k].threads|
    ensures acts[k].a.Advance? || run[k].threads[acts[k].i].Idle?
    ensures Moves(run[k], run[k + 1], acts[k].i, acts[k].a, RefusedArgument(run, acts, k))
  {
    var s, s', i := run[k], run[k + 1], acts[k].i;
    assert StepAt(c, mode, run, acts, k);
    if acts[k].a.Advance? {
      ServesRun(c, mode, run, acts, k, i);
      AdvanceMoves(c, s, i, s', LastCall(acts, k, i));
    } else {
      BeginMoves(c, s, i, acts[k].a, s');
    }
  }

  lemma MovesCount<T>(s: State<T>, s': State<T>, i: nat, a: Action<T>, refused: Option<T>, x: T)
    requires i < |s.threads| && Moves(s, s', i, a, refused) && (a.Advance? || s.threads[i].Idle?)
    ensures multiset(s'.pushed)[x] + Is(refused, x) + Preparing(s'.threads, x)
            == multiset(s.pushed)[x] + Preparing(s.threads, x) + Is(Argument(a), x)
  {
    PushedGrows(s, s', x);
    PreparingUpdate(s.threads, i, s'.threads[i], x);
  }

  /** By how much the books on x are out in state n. */
  ghost function Gap<T(!new)>(run: seq<State<T>>, acts: seq<Act<T>>, n: nat, x: T): int
    requires n <= |acts| && |run| == |acts| + 1
  {
    multiset(run[n].pushed)[x] + Refusals(run, acts, n, x) + Preparing(run[n].threads, x) - Arguments(acts, n, x) as int
  }

  /** The counts go on step by step. */
  lemma CountsNext<T>(run: seq<State<T>>, acts: seq<Act<T>>, k: nat, x: T)
    requires k < |acts| && |run| == |acts| + 1
    ensures Arguments(acts, k + 1, x) == Arguments(acts, k, x) + Is(Argument(acts[k].a), x)
    ensures Refusals(run, acts, k + 1, x) == Refusals(run, acts, k, x) + Is(RefusedArgument(run, acts, k), x)
  {}

  lemma GapNext<T(!new)>(c: Config, mode: Mode, run: seq<State<T>>, acts: seq<Act<T>>, k: nat, x: T, gap: int,
                         gap': int)
    requires IsTrace(c, mode, run, acts) && k < |acts|
    requires gap == Gap(run, acts, k, x) && gap' == Gap(run, acts, k + 1, x)
    ensures gap' == gap
  {
    CountsNext(run, acts, k, x);
    TraceMoves(c, mode, run, acts, k);
    MovesCount(run[k], run[k + 1], acts[k].i, acts[k].a, RefusedArgument(run, acts, k), x);
  }

  lemma GapStart<T(!new)>(c: Config, run: seq<State<T>>, acts: seq<Act<T>>, x: T)
    requires |run| == |acts| + 1 && Init(c, run[0])
    ensures Gap(run, acts, 0, x) == 0
  {
    PreparingIdle(run[0].threads, x);
  }

  lemma {:induction false} NoGap<T(!new)>(c: Config, mode: Mode, run: seq<State<T>>, acts: seq<Act<T>>, n: nat, x: T,
                                          gap: int)
    requires IsTrace(c, mode, run, acts) && n < |run| && gap == Gap(run, acts, n, x)
    ensures gap == 0
  {
    if n == 0 {
      GapStart(c, run, acts, x);
    } else {
      var before := Gap(run, acts, n - 1, x);
      NoGap(c, mode, run, acts, n - 1, x, before);
      GapNext(c, mode, run, acts, n - 1, x, before, gap);
    }
  }

  /** Nothing that a caller pushes is lost, invented or changed: each value is the argument of as many push
      calls as there are tickets with it, refusals of it, and try calls with it that have no ticket yet. */
  lemma ArgumentsConserved<T(!new)>(c: Config, mode: Mode, run: seq<State<T>>, acts: seq<Act<T>>, n: nat, x: T)
    requires IsTrace(c, mode, run, acts) && n < |run|
    ensures Arguments(acts, n, x) ==
            multiset(run[n].pushed)[x] + Refusals(run, acts, n, x) + Preparing(run[n].threads, x)
  {
    NoGap(c, mode, run, acts, n, x, Gap(run, acts, n, x));
  }

  lemma PrefixBag<T>(a: seq<T>, b: seq<T>)
    requires a <= b
    ensures multiset(a) <= multiset(b)
  {
    assert b == a + b[|a|..];
  }

  /** The operations that explain a run enqueue arguments of push calls made so far, each at most once. */
  lemma EnqueuedAreArguments<T(!new)>(c: Config, mode: Mode, run: seq<State<T>>, acts: seq<Act<T>>, n: nat)
    requires ValidConfig(c) && IsTrace(c, mode, run, acts) && NeverOverlaps(c, run) && n < |run|
    ensures AllAligned(run) && Explains(c, History(c, run, n), run[n])
    ensures forall x :: multiset(Enqueued(History(c, run, n)))[x] <= Arguments(acts, n, x)
  {
    TraceIsRun(c, mode, run, acts);
    Linearizes(c, mode, run, n);
    var ins := Enqueued(History(c, run, n));
    PrefixBag(ins, run[n].pushed);
    forall x ensures multiset(ins)[x] <= Arguments(acts, n, x) { ArgumentsConserved(c, mode, run, acts, n, x); }
  }

  /** Number of threads that are in a pop call. */
  ghost function InPop<T>(threads: seq<PC<T>>): nat {
    if threads == [] then 0
    else InPop(threads[..|threads| - 1]) + (if Consuming(threads[|threads| - 1]) then 1 else 0)
  }

  /** Number of pop and try_pop calls made in the first n steps. */
  ghost function PopCalls<T>(acts: seq<Act<T>>, n: nat): nat
    requires n <= |acts|
  {
    if n == 0 then 0 else PopCalls(acts, n - 1) + (if IsPop(acts[n - 1].a) then 1 else 0)
  }

  /** Number of try_pop calls refused in the first n steps. */
  ghost function PopRefusals<T>(run: seq<State<T>>, acts: seq<Act<T>>, n: nat): nat
    requires n <= |acts| && |run| == |acts| + 1
  {
    if n == 0 then 0
    else PopRefusals(run, acts, n - 1)
         + (if Refusal(run, acts, n - 1) && LastCall(acts, n - 1, acts[n - 1].i) == Some(BeginTryPop) then 1 else 0)
  }

  lemma {:induction false} InPopUpdate<T>(ts: seq<PC<T>>, i: nat, pc: PC<T>)
    requires i < |ts|
    ensures InPop(ts[i := pc]) + (if Consuming(ts[i]) then 1 else 0) == InPop(ts) + (if Consuming(pc) then 1 else 0)
  {
    var n := |ts| - 1;
    if i == n {
      assert ts[i := pc][..n] == ts[..n];
    } else {
      InPopUpdate(ts[..n], i, pc);
      assert ts[i := pc][..n] == ts[..n][i := pc];
    }
  }

  lemma {:induction false} InPopIdle<T>(ts: seq<PC<T>>)
    requires forall i :: 0 <= i < |ts| ==> ts[i].Idle?
    ensures InPop(ts) == 0
  {
    if ts != [] { InPopIdle(ts[..|ts| - 1]); }
  }

  /** What one step does to the pop history: nothing, a new entry, or a filled one. */
  lemma PoppedStep<T(!new)>(c: Config, run: seq<State<T>>, acts: seq<Act<T>>, k: nat)
    requires k < |acts| && |run| == |acts| + 1 && CallStep(c, run, acts, k)
    ensures var s, s', i := run[k], run[k + 1], acts[k].i;
            |Bag(s'.popped)| == |Bag(s.popped)| + (if Delivered(s, s', i) then 1 else 0)
  {
    var s, s', i := run[k], run[k + 1], acts[k].i;
    if Delivered(s, s', i) {
      var t := s.threads[i].ticket;
      BagUpdate(s.popped, t, s'.popped[t]);
      assert |Bag(s'.popped) + One(s.popped[t])| == |Bag(s.popped) + One(s'.popped[t])|;
    } else if s'.popped == s.popped + [None] {
      assert s'.popped[..|s.popped|] == s.popped;
    }
  }

  lemma PopCallMoves<T(!new)>(c: Config, mode: Mode, run: seq<State<T>>, acts: seq<Act<T>>, k: nat)
    requires IsTrace(c, mode, run, acts) && k < |acts| && CallStep(c, run, acts, k)
    requires Serves(LastCall(acts, k, acts[k].i), run[k].threads[acts[k].i])
    ensures var s, s', i := run[k], run[k + 1], acts[k].i;
            && s'.threads == s.threads[i := s'.threads[i]]
            && (if Consuming(s'.threads[i]) then 1 else 0) + (if Delivered(s, s', i) then 1 else 0)
               + (if Refusal(run, acts, k) && LastCall(acts, k, i) == Some(BeginTryPop) then 1 else 0)
               == (if Consuming(s.threads[i]) then 1 else 0) + (if IsPop(acts[k].a) then 1 else 0)
  {
    assert StepAt(c, mode, run, acts, k);
  }

  /** By how much the books on pop calls are out in state n. */
  ghost function PopGap<T(!new)>(run: seq<State<T>>, acts: seq<Act<T>>, n: nat): int
    requires n <= |acts| && |run| == |acts| + 1
  {
    |Bag(run[n].popped)| + PopRefusals(run, acts, n) + InPop(run[n].threads) - PopCalls(acts, n)
  }

  lemma PopCountsNext<T>(run: seq<State<T>>, acts: seq<Act<T>>, k: nat)
    requires k < |acts| && |run| == |acts| + 1
    ensures PopCalls(acts, k + 1) == PopCalls(acts, k) + (if IsPop(acts[k].a) then 1 else 0)
    ensures PopRefusals(run, acts, k + 1) ==
            PopRefusals(run, acts, k)
            + (if Refusal(run, acts, k) && LastCall(acts, k, acts[k].i) == Some(BeginTryPop) then 1 else 0)
  {}

  lemma PopGapNext<T(!new)>(c: Config, mode: Mode, run: seq<State<T>>, acts: seq<Act<T>>, k: nat, gap: int, gap': int)
    requires IsTrace(c, mode, run, acts) && k < |acts|
    requires gap == PopGap(run, acts, k) && gap' == PopGap(run, acts, k + 1)
    ensures gap' == gap
  {
    PopCountsNext(run, acts, k);
    assert StepAt(c, mode, run, acts, k);
    CallsKeepTheirWord(c, mode, run, acts, k);
    ServesRun(c, mode, run, acts, k, acts[k].i);
    PopCallMoves(c, mode, run, acts, k);
    PoppedStep(c, run, acts, k);
    InPopUpdate(run[k].threads, acts[k].i, run[k + 1].threads[acts[k].i]);
  }

  lemma PopGapStart<T(!new)>(c: Config, run: seq<State<T>>, acts: seq<Act<T>>)
    requires |run| == |acts| + 1 && Init(c, run[0])
    ensures PopGap(run, acts, 0) == 0
  {
    InPopIdle(run[0].threads);
  }

  lemma {:induction false} NoPopGap<T(!new)>(c: Config, mode: Mode, run: seq<State<T>>, acts: seq<Act<T>>, n: nat,
                                             gap: int)
    requires IsTrace(c, mode, run, acts) && n < |run| && gap == PopGap(run, acts, n)
    ensures gap == 0
  {
    if n == 0 {
      PopGapStart(c, run, acts);
    } else {
      var before := PopGap(run, acts, n - 1);
      NoPopGap(c, mode, run, acts, n - 1, before);
      PopGapNext(c, mode, run, acts, n - 1, before, gap);
    }
  }

  /** Every pop and try_pop call has delivered one element, has been refused, or is still in flight. */
  lemma PopCallsAccounted<T(!new)>(c: Config, mode: Mode, run: seq<State<T>>, acts: seq<Act<T>>, n: nat)
    requires IsTrace(c, mode, run, acts) && n < |run|
    ensures PopCalls(acts, n) == |Bag(run[n].popped)| + PopRefusals(run, acts, n) + InPop(run[n].threads)
  {
    NoPopGap(c, mode, run, acts, n, PopGap(run, acts, n));
  }
}
