/** What a worker's poll does in every interleaving, and how a task and a worker go from stage to stage. */
module TaskPolls {
  import opened Options
  import opened TaskGraph
  import opened TaskRuntime
  import opened TaskOrder

  // ------------------------------------------------------------------ runs with their steps

  /** Thread i does a. */
  datatype Act = Act(i: nat, a: Action)

  ghost predicate StepAt(run: seq<State>, acts: seq<Act>, n: nat)
    requires n < |acts| && |run| == |acts| + 1
  {
    Enabled(run[n], acts[n].i, acts[n].a) && run[n + 1] == Step(run[n], acts[n].i, acts[n].a)
  }

  ghost predicate IsTrace(run: seq<State>, acts: seq<Act>) {
    |run| == |acts| + 1 && Init(run[0]) && forall n :: 0 <= n < |acts| ==> StepAt(run, acts, n)
  }

  lemma TraceIsRun(run: seq<State>, acts: seq<Act>)
    requires IsTrace(run, acts)
    ensures IsRun(run)
  {
    forall n | 0 <= n < |run| - 1 ensures Next(run[n], run[n + 1]) { assert StepAt(run, acts, n); }
  }

  lemma TraceExtends(run: seq<State>, acts: seq<Act>, act: Act, s': State)
    requires IsTrace(run, acts) && Enabled(run[|acts|], act.i, act.a) && s' == Step(run[|acts|], act.i, act.a)
    ensures IsTrace(run + [s'], acts + [act])
  {
    forall k | 0 <= k < |acts| + 1 ensures StepAt(run + [s'], acts + [act], k) {
      if k < |acts| { assert StepAt(run, acts, k); }
    }
  }

  lemma RunPrefix(run: seq<State>, n: nat)
    requires IsRun(run) && 0 < n <= |run|
    ensures IsRun(run[..n])
  {
    forall k | 0 <= k < n - 1 ensures Next(run[..n][k], run[..n][k + 1]) { assert Next(run[k], run[k + 1]); }
  }

  /** Every run has the steps that make it: the laws of this module are about all runs. */
  lemma {:induction false} RunHasTrace(run: seq<State>) returns (acts: seq<Act>)
    requires IsRun(run)
    ensures IsTrace(run, acts)
  {
    if |run| == 1 {
      acts := [];
    } else {
      var n := |run| - 1;
      RunPrefix(run, n);
      acts := RunHasTrace(run[..n]);
      assert Next(run[n - 1], run[n - 1 + 1]);
      var i: nat, a :| Enabled(run[n - 1], i, a) && run[n] == Step(run[n - 1], i, a);
      TraceExtends(run[..n], acts, Act(i, a), run[n]);
      acts := acts + [Act(i, a)];
      assert run == run[..n] + [run[n]];
    }
  }

  /** A step changes the thread that takes it. */
  lemma OthersKeep(s: State, i: nat, a: Action, s': State, j: nat)
    requires Enabled(s, i, a) && s' == Step(s, i, a)
    ensures |s'.threads| == |s.threads|
    ensures j < |s.threads| && j != i ==> s'.threads[j] == s.threads[j]
  {}

  // ------------------------------------------------------------------ the life of a task

  /** Where a task is, if it was ever added. */
  ghost function PlaceOf(s: State, x: Label): Option<Place> {
    if x in s.place then Some(s.place[x]) else None
  }

  /** The task that a step is about. */
  ghost function Subject(s: State, i: nat, a: Action): Option<Label>
    requires Enabled(s, i, a)
  {
    match a
    case StartAdd(t, _) => Some(t)
    case PopOne(t) => Some(t)
    case Awaken(t) => Some(t)
    case LoadCount => None
    case PopNone => None
    case CheckNext => None
    case AddDependency(_) => None
    case _ => Some(s.threads[i].t)
  }

  /** A task is added by a thread that then queues it; it is popped from the queue, and put back or run; a
      running task is suspended, from where it goes to the queue, or it ends and is then done. */
  ghost predicate LifeStep(a: Action, i: nat, was: Option<Place>, now: Option<Place>) {
    match a
    case StartAdd(_, _) => was == None && now == Some(InHand(i))
    case PushNew => was == Some(InHand(i)) && now == Some(Queued)
    case PopOne(_) => was == Some(Queued) && now == Some(InHand(i))
    case PushBack => was == Some(InHand(i)) && now == Some(Queued)
    case Suspend => was == Some(InHand(i)) && now == Some(Suspended)
    case Awaken(_) => was == Some(Suspended) && now == Some(Queued)
    case CountDown => was == Some(InHand(i)) && now == Some(Ending(i))
    case InsertLabel => was == Some(Ending(i)) && now == Some(Done)
    case _ => false
  }

  lemma LifeOfSubject(s: State, i: nat, a: Action, s': State, x: Label)
    requires Places(s) && Enabled(s, i, a) && s' == Step(s, i, a) && Subject(s, i, a) == Some(x)
    ensures LifeStep(a, i, PlaceOf(s, x), PlaceOf(s', x))
  {
    assert x in s.queue ==> At(s, x, Queued);
    assert x in s.suspended ==> At(s, x, Suspended);
    assert Holds(s, i, x) ==> At(s, x, InHand(i));
    assert Finishes(s, i, x) ==> At(s, x, Ending(i));
  }

  lemma LifeOfOthers(s: State, i: nat, a: Action, s': State, x: Label)
    requires Enabled(s, i, a) && s' == Step(s, i, a) && Subject(s, i, a) != Some(x)
    ensures PlaceOf(s', x) == PlaceOf(s, x)
  {}

  /** Every step moves the task it is about to its next stage, and no other task. The stages are the queue, the
      suspended set, the hands of a thread, and the finished set of that state. */
  lemma LifeCycle(run: seq<State>, acts: seq<Act>, n: nat, s: State, s': State, i: nat, a: Action, x: Label)
    requires IsTrace(run, acts) && n < |acts| && s == run[n] && s' == run[n + 1] && Act(i, a) == acts[n]
    ensures Enabled(s, i, a) && Places(s) && Places(s')
    ensures if Subject(s, i, a) == Some(x) then LifeStep(a, i, PlaceOf(s, x), PlaceOf(s', x))
            else PlaceOf(s', x) == PlaceOf(s, x)
  {
    TraceIsRun(run, acts);
    RunOk(run, n);
    RunOk(run, n + 1);
    assert StepAt(run, acts, n);
    if Subject(s, i, a) == Some(x) {
      LifeOfSubject(s, i, a, s', x);
    } else {
      LifeOfOthers(s, i, a, s', x);
    }
  }

  /** Dependencies are those a task is added with, and those it adds while running, in order. */
  lemma DependencyStep(run: seq<State>, acts: seq<Act>, n: nat)
    requires IsTrace(run, acts) && n < |acts|
    ensures var s, s', i := run[n], run[n + 1], acts[n].i;
            match acts[n].a
            case StartAdd(t, d) => t !in s.deps && s'.deps == s.deps[t := d]
            case AddDependency(l) =>
              && i < |s.threads| && s.threads[i].Running? && var t := s.threads[i].t;
              t in s.deps && s'.deps == s.deps[t := s.deps[t] + [l]]
            case _ => s'.deps == s.deps
  {
    assert StepAt(run, acts, n);
  }

  // ------------------------------------------------------------------ the rounds of a worker

  /** How a thread goes on: it polls, checks what it popped, and puts it back or runs it. */
  ghost predicate WorkerStep(s: State, pc: PC, pc': PC) {
    match pc
    case Idle => (pc'.Polling? && s.count != 0) || (pc'.Stopped? && s.count == 0) || (pc'.Adding? && pc'.host.None?)
    case Polling => pc'.Idle? || (pc'.Checking? && pc'.k == 0 && pc'.t in s.queue)
    case Checking(t, k) =>
      || (pc' == Checking(t, k + 1) && t in s.deps && k < |s.deps[t]| && s.deps[t][k] in s.order)
      || (pc' == Returning(t) && Unready(s, t))
      || (pc' == Running(t) && Ready(s, t))
    case Returning(_) => pc'.Idle?
    case Running(t) => pc'.Idle? || pc' == Finishing(t) || (pc'.Adding? && pc'.host == Some(t))
    case Adding(_, host) => pc' == if host.Some? then Running(host.value) else Idle
    case Finishing(_) => pc'.Idle?
    case Stopped => false
  }

  /** Every dependency of the task has finished. */
  ghost predicate Ready(s: State, t: Label) {
    t in s.deps && forall d :: d in s.deps[t] ==> d in s.order
  }

  /** Some dependency of the task has not finished. */
  ghost predicate Unready(s: State, t: Label) {
    t in s.deps && exists d :: d in s.deps[t] && d !in s.order
  }

  lemma WorkerStepOf(s: State, i: nat, a: Action, s': State, j: nat)
    requires Sound(s) && Enabled(s, i, a) && s' == Step(s, i, a) && j < |s.threads|
    ensures |s'.threads| == |s.threads|
    ensures s'.threads[j] == s.threads[j] || WorkerStep(s, s.threads[j], s'.threads[j])
  {
    assert ThreadOk(s, s.threads[i]);
    if j == i && a.CheckNext? {
      var t, k := s.threads[i].t, s.threads[i].k;
      if k == |s.deps[t]| {
        assert Ready(s, t);
      } else if s.deps[t][k] !in s.order {
        assert Unready(s, t);
      }
    }
  }

  /** In every run a worker goes these rounds and no others: it stops only on a count of zero, puts a task back
      only if a dependency is missing, and runs it only if none is. */
  lemma WorkerCycle(run: seq<State>, n: nat, j: nat)
    requires IsRun(run) && n + 1 < |run| && j < |run[n].threads|
    ensures |run[n + 1].threads| == |run[n].threads|
    ensures run[n + 1].threads[j] == run[n].threads[j] || WorkerStep(run[n], run[n].threads[j], run[n + 1].threads[j])
  {
    RunOk(run, n);
    assert Next(run[n], run[n + 1]);
    var i: nat, a :| Enabled(run[n], i, a) && run[n + 1] == Step(run[n], i, a);
    WorkerStepOf(run[n], i, a, run[n + 1], j);
  }

  // ------------------------------------------------------------------ termination

  /** A worker that stops saw the count at zero: at that moment nothing was queued, suspended, held, being
      added or running. */
  lemma StopsWhenDone(run: seq<State>, n: nat, j: nat)
    requires IsRun(run) && n + 1 < |run| && j < |run[n].threads| == |run[n + 1].threads|
    requires !run[n].threads[j].Stopped? && run[n + 1].threads[j].Stopped?
    ensures run[n].count == 0 && run[n].queue == multiset{} && run[n].suspended == {}
    ensures forall i :: 0 <= i < |run[n].threads| ==> Held(run[n].threads[i]) == {}
  {
    WorkerCycle(run, n, j);
    ZeroMeansDone(run, n);
  }

  /** The termination test decides: at zero the worker stops, otherwise it goes on to the queue. */
  lemma PollDecides(run: seq<State>, acts: seq<Act>, n: nat)
    requires IsTrace(run, acts) && n < |acts| && acts[n].a.LoadCount?
    ensures var i := acts[n].i;
            && i < |run[n].threads| == |run[n + 1].threads| && run[n].threads[i].Idle?
            && run[n + 1] == run[n].(threads := run[n + 1].threads)
            && (run[n].count == 0 <==> run[n + 1].threads[i].Stopped?)
            && (run[n].count != 0 <==> run[n + 1].threads[i].Polling?)
  {
    assert StepAt(run, acts, n);
  }

  /** A stopped thread can at most awaken a task. */
  lemma StoppedStep(run: seq<State>, acts: seq<Act>, n: nat, j: nat)
    requires IsTrace(run, acts) && n < |acts| && j < |run[n].threads| && run[n].threads[j].Stopped?
    ensures j < |run[n + 1].threads| && run[n + 1].threads[j].Stopped? && (acts[n].i == j ==> acts[n].a.Awaken?)
  {
    assert StepAt(run, acts, n);
    OthersKeep(run[n], acts[n].i, acts[n].a, run[n + 1], j);
  }

  lemma {:induction false} StaysStopped(run: seq<State>, acts: seq<Act>, n: nat, m: nat, j: nat)
    requires IsTrace(run, acts) && n <= m < |run| && j < |run[n].threads| && run[n].threads[j].Stopped?
    ensures j < |run[m].threads| && run[m].threads[j].Stopped?
    decreases m
  {
    if n < m {
      StaysStopped(run, acts, n, m - 1, j);
      StoppedStep(run, acts, m - 1, j);
    }
  }

  /** A worker that has stopped polls no more, and stays so. */
  lemma StoppedForGood(run: seq<State>, acts: seq<Act>, n: nat, m: nat, j: nat)
    requires IsTrace(run, acts) && n <= m < |acts| && j < |run[n].threads| && run[n].threads[j].Stopped?
    ensures j < |run[m].threads| && run[m].threads[j].Stopped? && (acts[m].i == j ==> acts[m].a.Awaken?)
  {
    StaysStopped(run, acts, n, m, j);
    StoppedStep(run, acts, m, j);
  }

  // ------------------------------------------------------------------ a ready task is dispatched

  /** How many dependency lookups thread i made from step n to step m. */
  ghost function Checks(acts: seq<Act>, n: nat, m: nat, i: nat): nat
    requires n <= m <= |acts|
  {
    if m == n then 0 else Checks(acts, n, m - 1, i) + (if acts[m - 1] == Act(i, CheckNext) then 1 else 0)
  }

  /** The thread is through the first k dependencies of t, all of which have finished. */
  ghost predicate Underway(s: State, i: nat, t: Label, k: nat, ds: seq<Label>) {
    && i < |s.threads| && s.threads[i] == Checking(t, k) && t in s.deps && s.deps[t] == ds
    && forall d :: d in ds ==> d in s.order
  }

  /** The dependencies of a task in a thread's hands change by a step of that thread only. */
  lemma DepsKept(s: State, j: nat, a: Action, s': State, i: nat, t: Label)
    requires Places(s) && Enabled(s, j, a) && s' == Step(s, j, a) && Holds(s, i, t) && !s.threads[i].Running?
    ensures t in s.deps && t in s'.deps && s'.deps[t] == s.deps[t]
  {
    assert At(s, t, InHand(i));
    assert Holds(s, j, t) <==> At(s, t, InHand(j));
  }

  lemma OrderGrows(s: State, j: nat, a: Action, s': State, d: Label)
    requires Enabled(s, j, a) && s' == Step(s, j, a) && d in s.order
    ensures d in s'.order
  {
    assert s'.order == s.order || s'.order == s.order + [s.threads[j].t];
  }

  /** What a step does to a thread that looks up dependencies which have all finished. */
  lemma LookupStep(s: State, j: nat, a: Action, s': State, i: nat, t: Label, k: nat)
    requires Enabled(s, j, a) && s' == Step(s, j, a) && i < |s.threads| && s.threads[i] == Checking(t, k)
    requires t in s.deps && k <= |s.deps[t]| && forall d :: d in s.deps[t] ==> d in s.order
    ensures |s'.threads| == |s.threads|
    ensures s'.threads[i] == if j == i && a == CheckNext
                             then if k < |s.deps[t]| then Checking(t, k + 1) else Running(t)
                             else Checking(t, k)
  {
    OthersKeep(s, j, a, s', i);
    if j == i {
      assert a.CheckNext? || a.Awaken?;
      assert k < |s.deps[t]| ==> s.deps[t][k] in s.deps[t];
    }
  }

  /** Other threads do not disturb it, and a lookup takes it one further. */
  lemma UnderwayStep(s: State, j: nat, a: Action, s': State, i: nat, t: Label, k: nat, ds: seq<Label>)
    requires Places(s) && Enabled(s, j, a) && s' == Step(s, j, a) && Underway(s, i, t, k, ds) && k <= |ds|
    ensures if j == i && a == CheckNext then
              if k < |ds| then Underway(s', i, t, k + 1, ds) else i < |s'.threads| && s'.threads[i] == Running(t)
            else Underway(s', i, t, k, ds)
  {
    LookupStep(s, j, a, s', i, t, k);
    DepsKept(s, j, a, s', i, t);
    forall d | d in ds ensures d in s'.order { OrderGrows(s, j, a, s', d); }
  }

  lemma UnderwayNext(run: seq<State>, acts: seq<Act>, m: nat, i: nat, t: Label, k: nat, ds: seq<Label>)
    requires IsTrace(run, acts) && m < |acts| && Underway(run[m], i, t, k, ds) && k <= |ds|
    ensures if acts[m] == Act(i, CheckNext) then
              if k < |ds| then Underway(run[m + 1], i, t, k + 1, ds)
              else i < |run[m + 1].threads| && run[m + 1].threads[i] == Running(t)
            else Underway(run[m + 1], i, t, k, ds)
  {
    TraceIsRun(run, acts);
    RunOk(run, m);
    assert StepAt(run, acts, m);
    UnderwayStep(run[m], acts[m].i, acts[m].a, run[m + 1], i, t, k, ds);
  }

  lemma {:induction false} UnderwayRun(run: seq<State>, acts: seq<Act>, n: nat, m: nat, i: nat, t: Label, k: nat,
                                       ds: seq<Label>)
    requires IsTrace(run, acts) && n <= m <= |acts| && Underway(run[n], i, t, 0, ds)
    requires k == Checks(acts, n, m, i) <= |ds|
    ensures Underway(run[m], i, t, k, ds)
    decreases m
  {
    if n < m {
      var k0 := Checks(acts, n, m - 1, i);
      UnderwayRun(run, acts, n, m - 1, i, t, k0, ds);
      UnderwayNext(run, acts, m - 1, i, t, k0, ds);
    }
  }

  /** A thread that has popped a task whose dependencies have all finished starts it with its lookup number
      |ds| + 1, whatever other threads do in between. */
  lemma ReadyIsDispatched(run: seq<State>, acts: seq<Act>, n: nat, m: nat, i: nat, t: Label, ds: seq<Label>)
    requires IsTrace(run, acts) && n < m <= |acts| && Underway(run[n], i, t, 0, ds)
    requires acts[m - 1] == Act(i, CheckNext) && Checks(acts, n, m, i) == |ds| + 1
    ensures i < |run[m].threads| && run[m].threads[i] == Running(t)
  {
    UnderwayRun(run, acts, n, m - 1, i, t, |ds|, ds);
    UnderwayNext(run, acts, m - 1, i, t, |ds|, ds);
  }

  /** Progress: with acyclic dependencies on known tasks, when every active task is queued and no label is about
      to be inserted, there is a queued task that starts if it is popped, after one lookup per dependency. */
  lemma SomePollDispatches(run: seq<State>, acts: seq<Act>, n: nat) returns (t: Label)
    requires IsTrace(run, acts) && n < |run| && run[n].count > 0 && AllQueued(run[n])
    requires Closed(run[n].deps) && !Cyclic(run[n].deps)
    requires forall i :: 0 <= i < |run[n].threads| ==> !run[n].threads[i].Finishing?
    ensures t in run[n].queue && t in run[n].deps
    ensures forall i: nat, m :: n + 1 < m <= |acts| && acts[n] == Act(i, PopOne(t))
              && acts[m - 1] == Act(i, CheckNext) && Checks(acts, n + 1, m, i) == |run[n].deps[t]| + 1
              ==> i < |run[m].threads| && run[m].threads[i] == Running(t)
  {
    TraceIsRun(run, acts);
    t := SomeQueuedReady(run, n);
    var ds := run[n].deps[t];
    forall i: nat, m | n + 1 < m <= |acts| && acts[n] == Act(i, PopOne(t))
      && acts[m - 1] == Act(i, CheckNext) && Checks(acts, n + 1, m, i) == |ds| + 1
      ensures i < |run[m].threads| && run[m].threads[i] == Running(t) {
      assert StepAt(run, acts, n);
      ReadyIsDispatched(run, acts, n + 1, m, i, t, ds);
    }
  }
}
