/** What every interleaving of the task runtime guarantees: a task is dispatched only after all its
    dependencies, the finish order is topological, count zero means that nothing is left, and tasks that
    wait for each other stay blocked. */
module TaskOrder {
  import opened TaskGraph
  import opened TaskRuntime

  /** The first k dependencies are in the given part of the finish order. */
  ghost predicate Finished(ds: seq<Label>, k: nat, order: seq<Label>) {
    k <= |ds| && forall j :: 0 <= j < k ==> ds[j] in order
  }

  ghost predicate Dispatched(s: State, t: Label) {
    t in s.ready && t in s.deps && Finished(s.deps[t], s.ready[t], s.order)
  }

  ghost predicate ThreadOk(s: State, pc: PC) {
    match pc
    case Checking(t, k) => t in s.deps && Finished(s.deps[t], k, s.order)
    case Running(t) => Dispatched(s, t)
    case Adding(_, Some(h)) => Dispatched(s, h)
    case Finishing(t) => Dispatched(s, t)
    case _ => true
  }

  /** Entry n of the finish order comes after the dependencies that were checked at its dispatch. */
  ghost predicate Ordered(s: State, n: nat)
    requires n < |s.order|
  {
    var t := s.order[n];
    t in s.ready && t in s.deps && Finished(s.deps[t], s.ready[t], s.order[..n])
  }

  ghost predicate Sound(s: State) {
    match s
    case State(_, _, suspended, order, threads, _, _, ready) =>
      && (forall i :: 0 <= i < |threads| ==> ThreadOk(s, threads[i]))
      && (forall t :: t in ready ==> Dispatched(s, t))
      && (forall t :: t in suspended ==> t in ready)
      && (forall n :: 0 <= n < |order| ==> Ordered(s, n))
  }

  /** How a step may change what these facts are about: the finish order and dependency lists grow, and
      those of finished tasks stay; what was dispatched stays so, unless it is dispatched anew. */
  ghost predicate Grows(s: State, s': State) {
    && s.order <= s'.order
    && (forall t :: t in s.deps ==> t in s'.deps && s.deps[t] <= s'.deps[t])
    && (forall t :: t in s.ready ==> t in s'.ready)
    && (forall t :: t in s.ready && s'.ready[t] != s.ready[t] ==> t !in s.order && Dispatched(s', t))
  }

  lemma FinishedGrows(ds: seq<Label>, k: nat, order: seq<Label>, ds': seq<Label>, order': seq<Label>)
    requires Finished(ds, k, order) && ds <= ds' && order <= order'
    ensures Finished(ds', k, order')
  {
    forall j | 0 <= j < k ensures ds'[j] in order' {
      var m :| 0 <= m < |order| && order[m] == ds[j];
      assert order'[m] == order[m];
    }
  }

  lemma DispatchedGrows(s: State, s': State, t: Label)
    requires Grows(s, s') && Dispatched(s, t)
    ensures Dispatched(s', t)
  {
    if s'.ready[t] == s.ready[t] { FinishedGrows(s.deps[t], s.ready[t], s.order, s'.deps[t], s'.order); }
  }

  lemma ThreadGrows(s: State, s': State, pc: PC)
    requires Grows(s, s') && ThreadOk(s, pc)
    ensures ThreadOk(s', pc)
  {
    match pc
    case Checking(t, k) => FinishedGrows(s.deps[t], k, s.order, s'.deps[t], s'.order);
    case Running(t) => DispatchedGrows(s, s', t);
    case Adding(_, Some(h)) => DispatchedGrows(s, s', h);
    case Finishing(t) => DispatchedGrows(s, s', t);
    case _ =>
  }

  lemma OrderedGrows(s: State, s': State, n: nat)
    requires Grows(s, s') && n < |s.order| && Ordered(s, n)
    ensures n < |s'.order| && Ordered(s', n)
  {
    var t := s.order[n];
    assert s'.order[n] == t && s'.order[..n] == s.order[..n];
    FinishedGrows(s.deps[t], s.ready[t], s.order[..n], s'.deps[t], s'.order[..n]);
  }

  /** A growing step keeps everything for the threads, tasks and entries that it does not add. */
  lemma SoundGrows(s: State, s': State, i: nat)
    requires Sound(s) && Grows(s, s') && OnlyThread(s, s', i) && ThreadOk(s', s'.threads[i])
    requires forall t :: t in s'.ready && t !in s.ready ==> Dispatched(s', t)
    requires forall t :: t in s'.suspended && t !in s.suspended ==> t in s'.ready
    requires forall n :: |s.order| <= n < |s'.order| ==> Ordered(s', n)
    ensures Sound(s')
  {
    forall j | 0 <= j < |s'.threads| ensures ThreadOk(s', s'.threads[j]) {
      if j != i { ThreadGrows(s, s', s.threads[j]); }
    }
    forall t | t in s'.ready ensures Dispatched(s', t) {
      if t in s.ready { DispatchedGrows(s, s', t); }
    }
    forall n | 0 <= n < |s'.order| ensures Ordered(s', n) {
      if n < |s.order| { OrderedGrows(s, s', n); }
    }
  }

  /** Steps that leave order, dependencies of known tasks and dispatches alone. */
  lemma SoundSame(s: State, s': State, i: nat)
    requires Sound(s) && OnlyThread(s, s', i) && ThreadOk(s', s'.threads[i])
    requires s'.order == s.order && s'.ready == s.ready && forall t :: t in s.deps ==>
             t in s'.deps && s'.deps[t] == s.deps[t]
    requires forall t :: t in s'.suspended ==> t in s.suspended || t in s.ready
    ensures Sound(s')
  {
    SoundGrows(s, s', i);
  }

  lemma SoundCheck(s: State, i: nat)
    requires Places(s) && Sound(s) && Enabled(s, i, CheckNext)
    ensures Sound(Step(s, i, CheckNext))
  {
    var s', t, k := Step(s, i, CheckNext), s.threads[i].t, s.threads[i].k;
    assert ThreadOk(s, s.threads[i]);
    if k == |s.deps[t]| {
      NotFinished(s, i, t);
      SoundGrows(s, s', i);
    } else {
      SoundSame(s, s', i);
    }
  }

  /** A task in a thread's hands has not finished. */
  lemma NotFinished(s: State, i: nat, t: Label)
    requires Places(s) && Holds(s, i, t)
    ensures t !in s.order && t in s.deps
  {
    assert At(s, t, InHand(i)) && !At(s, t, Done);
  }

  lemma SoundDependency(s: State, i: nat, l: Label)
    requires Places(s) && Sound(s) && Enabled(s, i, AddDependency(l))
    ensures Sound(Step(s, i, AddDependency(l)))
  {
    var s', t := Step(s, i, AddDependency(l)), s.threads[i].t;
    assert ThreadOk(s, s.threads[i]);
    assert s.deps[t] <= s'.deps[t];
    ThreadGrows(s, s', s.threads[i]);
    SoundGrows(s, s', i);
  }

  lemma SoundInsert(s: State, i: nat)
    requires Places(s) && Sound(s) && Enabled(s, i, InsertLabel)
    ensures Sound(Step(s, i, InsertLabel))
  {
    var s', t := Step(s, i, InsertLabel), s.threads[i].t;
    assert ThreadOk(s, s.threads[i]);
    assert s'.order[..|s.order|] == s.order && s'.order[|s.order|] == t;
    SoundGrows(s, s', i);
  }

  lemma SoundOther(s: State, i: nat, a: Action, s': State)
    requires Places(s) && Sound(s) && Enabled(s, i, a) && !a.CheckNext? && !a.AddDependency? && !a.InsertLabel?
    requires s' == Step(s, i, a)
    ensures Sound(s')
  {
    assert ThreadOk(s, s.threads[i]);
    SoundSame(s, s', i);
  }

  lemma SoundStep(s: State, i: nat, a: Action, s': State)
    requires Places(s) && Sound(s) && Enabled(s, i, a) && s' == Step(s, i, a)
    ensures Sound(s')
  {
    match a
    case CheckNext => SoundCheck(s, i);
    case AddDependency(l) => SoundDependency(s, i, l);
    case InsertLabel => SoundInsert(s, i);
    case _ => SoundOther(s, i, a, s');
  }

  // ------------------------------------------------------------------ runs

  lemma InitOk(s: State)
    requires Init(s)
    ensures Places(s) && Sound(s)
  {
    assert Live(s.place) == {};
  }

  lemma {:induction false} RunOk(run: seq<State>, n: nat)
    requires IsRun(run) && n < |run|
    ensures Places(run[n]) && Sound(run[n])
  {
    if n == 0 {
      InitOk(run[0]);
    } else {
      RunOk(run, n - 1);
      var s, s' := run[n - 1], run[n];
      assert Next(s, run[n - 1 + 1]);
      var i: nat, a :| Enabled(s, i, a) && s' == Step(s, i, a);
      PlacesStep(s, i, a);
      SoundStep(s, i, a, s');
    }
  }

  /** Whenever a thread starts a task, every dependency of the task has been inserted by a finished task; it
      puts the task back only if some dependency has not; otherwise it goes on to the next dependency. */
  lemma DispatchAfterDependencies(run: seq<State>, n: nat, i: nat, t: Label, pc': PC)
    requires IsRun(run) && n < |run| && i < |run[n].threads| && run[n].threads[i].Checking? && run[n].threads[i].t == t
    requires Enabled(run[n], i, CheckNext) && pc' == Step(run[n], i, CheckNext).threads[i]
    ensures pc' == Running(t) ==> forall d :: d in run[n].deps[t] ==> d in run[n].order
    ensures pc' == Returning(t) ==> exists d :: d in run[n].deps[t] && d !in run[n].order
    ensures pc' == Running(t) || pc' == Returning(t) || pc' == Checking(t, run[n].threads[i].k + 1)
  {
    RunOk(run, n);
    assert ThreadOk(run[n], run[n].threads[i]);
    if pc' == Returning(t) { assert run[n].deps[t][run[n].threads[i].k] in run[n].deps[t]; }
  }

  /** Every finished task comes after all the dependencies it had when it was last dispatched. */
  lemma FinishOrderTopological(run: seq<State>, n: nat, p: nat)
    requires IsRun(run) && n < |run| && p < |run[n].order|
    ensures var s := run[n]; var t := s.order[p];
            t in s.deps && t in s.ready && s.ready[t] <= |s.deps[t]|
            && forall k :: 0 <= k < s.ready[t] ==> s.deps[t][k] in s.order[..p]
  {
    RunOk(run, n);
    assert Ordered(run[n], p);
  }

  function Last(run: seq<State>): State
    requires run != []
  {
    run[|run| - 1]
  }

  lemma Extend(run: seq<State>, i: nat, a: Action, s': State) returns (longer: seq<State>)
    requires IsRun(run) && Enabled(Last(run), i, a) && s' == Step(Last(run), i, a)
    ensures IsRun(longer) && Last(longer) == s'
  {
    longer := run + [s'];
    ExtendRun(run, i, a, s');
  }

  /** A single thread adds a task. */
  lemma AddTask(run: seq<State>, s: State, t: Label, d: seq<Label>, s': State) returns (longer: seq<State>)
    requires IsRun(run) && s == Last(run) && s.threads == [Idle] && t !in s.deps
    requires s' == s.(count := s.count + 1, queue := s.queue + multiset{t}, deps := s.deps[t := d],
             place := s.place[t := Queued])
    ensures IsRun(longer) && Last(longer) == s'
  {
    longer := Extend(run, 0, StartAdd(t, d), Step(s, 0, StartAdd(t, d)));
    assert s.place[t := InHand(0)][t := Queued] == s.place[t := Queued];
    longer := Extend(longer, 0, PushNew, s');
  }

  /** It polls, takes the task and starts it. */
  lemma StartTask(run: seq<State>, s: State, t: Label, s': State) returns (longer: seq<State>)
    requires IsRun(run) && s == Last(run) && s.threads == [Idle] && s.count != 0
    requires t in s.queue && t in s.deps && s.deps[t] == []
    requires s' == s.(threads := [Running(t)], queue := s.queue - multiset{t}, place := s.place[t := InHand(0)],
             ready := s.ready[t := 0])
    ensures IsRun(longer) && Last(longer) == s'
  {
    longer := Extend(run, 0, LoadCount, s.(threads := [Polling]));
    var held := s.(threads := [Checking(t, 0)], queue := s.queue - multiset{t}, place := s.place[t := InHand(0)]);
    longer := Extend(longer, 0, PopOne(t), held);
    longer := Extend(longer, 0, CheckNext, s');
  }

  /** It finishes the task. */
  lemma FinishTask(run: seq<State>, s: State, t: Label, s': State) returns (longer: seq<State>)
    requires IsRun(run) && s == Last(run) && s.threads == [Running(t)]
    requires s' == s.(count := s.count - 1, threads := [Idle], order := s.order + [t], place := s.place[t := Done])
    ensures IsRun(longer) && Last(longer) == s'
  {
    longer := Extend(run, 0, CountDown, Step(s, 0, CountDown));
    assert s.place[t := Ending(0)][t := Done] == s.place[t := Done];
    longer := Extend(longer, 0, InsertLabel, s');
  }

  /** Two tasks are added and the first one is started. */
  lemma TwoTasks(d: seq<Label>) returns (run: seq<State>)
    ensures IsRun(run)
    ensures Last(run) == State(2, multiset{1}, {}, [], [Running(0)], map[0 := [], 1 := d],
            map[0 := InHand(0), 1 := Queued], map[0 := 0])
  {
    var s0 := State(0, multiset{}, {}, [], [Idle], map[], map[], map[]);
    var s1 := State(1, multiset{0}, {}, [], [Idle], map[0 := []], map[0 := Queued], map[]);
    var s2 := State(2, multiset{0, 1}, {}, [], [Idle], map[0 := [], 1 := d], map[0 := Queued, 1 := Queued], map[]);
    run := [s0];
    run := AddTask(run, s0, 0, [], s1);
    run := AddTask(run, s1, 1, d, s2);
    run := StartTask(run, s2, 0,
      Last(run).(threads := [Running(0)], queue := multiset{1}, place := s2.place[0 := InHand(0)],
        ready := map[0 := 0]));
  }

  /** The limit of that guarantee: a task that adds a dependency on another task while it runs, and then
      finishes without being suspended, finishes before that task. */
  lemma LateDependencyEscapes() returns (run: seq<State>)
    ensures IsRun(run) && var s := Last(run); s.order == [0, 1] && 0 in s.deps && 1 in s.deps[0]
  {
    run := TwoTasks([]);
    var g: Graph, p := map[0 := [1], 1 := []], map[0 := InHand(0), 1 := Queued];
    assert Last(run).deps[0] + [1] == [1];
    var s1 := State(2, multiset{1}, {}, [], [Running(0)], g, p, map[0 := 0]);
    run := Extend(run, 0, AddDependency(1), s1);
    var s2 := State(1, multiset{1}, {}, [0], [Idle], g, p[0 := Done], map[0 := 0]);
    run := FinishTask(run, s1, 0, s2);
    var s3 := State(1, multiset{}, {}, [0], [Running(1)], g, p[0 := Done][1 := InHand(0)], map[0 := 0, 1 := 0]);
    run := StartTask(run, s2, 1, s3);
    run := FinishTask(run, s3, 1,
      State(0, multiset{}, {}, [0, 1], [Idle], g, s3.place[1 := Done], map[0 := 0, 1 := 0]));
  }

  /** Without such late dependencies the guarantee is complete: if everything a finished task depends on was
      known at its last dispatch, all of it finished before the task. */
  lemma AllDependenciesFirst(run: seq<State>, n: nat, p: nat, d: Label)
    requires IsRun(run) && n < |run| && p < |run[n].order|
    requires var s := run[n]; var t := s.order[p];
             t in s.ready && t in s.deps && s.ready[t] == |s.deps[t]| && d in s.deps[t]
    ensures d in run[n].order[..p]
  {
    FinishOrderTopological(run, n, p);
    var s := run[n];
    var ds := s.deps[s.order[p]];
    var k :| 0 <= k < |ds| && ds[k] == d;
  }

  /** Every task ever added is in exactly one place: once in the queue, suspended, in the hands of one
      thread, being finished by one thread, or finished. */
  lemma OnePlace(run: seq<State>, n: nat, t: Label)
    requires IsRun(run) && n < |run| && t in run[n].deps
    ensures var s := run[n];
            && s.queue[t] <= 1
            && ((s.queue[t] == 1) <==> At(s, t, Queued))
            && (t in s.suspended <==> At(s, t, Suspended))
            && (t in s.order <==> At(s, t, Done))
            && (forall i: nat :: Holds(s, i, t) <==> At(s, t, InHand(i)))
            && (forall i: nat :: Finishes(s, i, t) <==> At(s, t, Ending(i)))
            && t in s.place
  {
    RunOk(run, n);
  }

  /** The count that a worker sees as zero means that no task is queued, suspended, held, being added
      or running, by any thread; an idle worker that tests it then stops. */
  lemma ZeroMeansDone(run: seq<State>, n: nat)
    requires IsRun(run) && n < |run| && run[n].count == 0
    ensures run[n].queue == multiset{} && run[n].suspended == {}
    ensures forall i :: 0 <= i < |run[n].threads| ==> Held(run[n].threads[i]) == {}
    ensures forall i: nat :: i < |run[n].threads| && run[n].threads[i].Idle? ==>
              Enabled(run[n], i, LoadCount) && Step(run[n], i, LoadCount).threads[i].Stopped?
  {
    var s := run[n];
    RunOk(run, n);
    assert Live(s.place) == {};
    forall t ensures s.queue[t] == 0 && t !in s.suspended {
      assert t !in Live(s.place);
      assert !At(s, t, Queued) && !At(s, t, Suspended);
    }
    forall i | 0 <= i < |s.threads| ensures Held(s.threads[i]) == {} {
      forall t ensures t !in Held(s.threads[i]) {
        assert t !in Live(s.place);
        assert Holds(s, i, t) <==> At(s, t, InHand(i));
      }
    }
  }

  /** The queue never holds more elements than there are active tasks. */
  lemma QueueWithinCount(run: seq<State>, n: nat)
    requires IsRun(run) && n < |run|
    ensures |run[n].queue| <= run[n].count
  {
    RunOk(run, n);
    var s := run[n];
    var live := Live(s.place);
    assert s.queue <= multiset(live) by {
      forall t ensures s.queue[t] <= multiset(live)[t] {
        if At(s, t, Queued) { assert t in live; }
      }
    }
    SubMultisetSize(s.queue, multiset(live));
  }

  lemma SubMultisetSize(a: multiset<Label>, b: multiset<Label>)
    requires a <= b
    ensures |a| <= |b|
  {
    assert b == a + (b - a);
  }

  // ------------------------------------------------------------------ progress and deadlock

  /** Every active task is in the queue: none is suspended, held by a thread, being added or running. A
      thread may still be between the count and the label of a task that it finishes. */
  ghost predicate AllQueued(s: State) {
    s.suspended == {} && forall i :: 0 <= i < |s.threads| ==> Held(s.threads[i]) == {}
  }

  /** The task has finished, or a thread has counted it down and is about to insert its label. */
  ghost predicate Ended(s: State, d: Label) {
    d in s.order || exists i: nat :: Finishes(s, i, d)
  }

  /** With acyclic dependencies on known tasks, whenever every active task is queued some queued task waits
      for nothing but labels that are about to be inserted: the workers cannot all go round in vain. */
  lemma SomeQueuedUnblocked(run: seq<State>, n: nat) returns (t: Label)
    requires IsRun(run) && n < |run| && run[n].count > 0 && AllQueued(run[n])
    requires Closed(run[n].deps) && !Cyclic(run[n].deps)
    ensures t in run[n].queue && t in run[n].deps && forall d :: d in run[n].deps[t] ==> Ended(run[n], d)
  {
    var s := run[n];
    RunOk(run, n);
    var live, done := Live(s.place), set l | l in s.place && !Counted(s.place[l]);
    t := ReadyExists(s.deps, live, done);
    LiveIsQueued(s, t);
    forall d | d in s.deps[t] ensures Ended(s, d) { NotLiveIsEnded(s, d); }
  }

  lemma LiveIsQueued(s: State, t: Label)
    requires Places(s) && AllQueued(s) && t in Live(s.place)
    ensures t in s.queue
  {
    var p := s.place[t];
    assert p.InHand? ==> At(s, t, InHand(p.i)) && Holds(s, p.i, t);
    assert p.Suspended? ==> t in s.suspended;
    assert At(s, t, Queued);
  }

  lemma NotLiveIsEnded(s: State, d: Label)
    requires Places(s) && d in s.place && !Counted(s.place[d])
    ensures Ended(s, d)
  {
    var p := s.place[d];
    if p.Ending? { assert At(s, d, Ending(p.i)) && Finishes(s, p.i, d); } else { assert At(s, d, Done); }
  }

  /** While no thread is between the count and the label, that task is ready. */
  lemma SomeQueuedReady(run: seq<State>, n: nat) returns (t: Label)
    requires IsRun(run) && n < |run| && run[n].count > 0 && AllQueued(run[n])
    requires Closed(run[n].deps) && !Cyclic(run[n].deps)
    requires forall i :: 0 <= i < |run[n].threads| ==> !run[n].threads[i].Finishing?
    ensures t in run[n].queue && t in run[n].deps && forall d :: d in run[n].deps[t] ==> d in run[n].order
  {
    t := SomeQueuedUnblocked(run, n);
    forall d | d in run[n].deps[t] ensures d in run[n].order { assert Ended(run[n], d); }
  }

  /** In that window nothing need be ready: the counter goes down before the label is inserted, so the only
      active task may be queued behind a label that is yet to come. */
  lemma FinishWindow() returns (run: seq<State>)
    ensures IsRun(run) && var s := Last(run);
            && s.count == 1 && s.queue == multiset{1} && AllQueued(s) && Closed(s.deps) && !Cyclic(s.deps)
            && 1 in s.deps && 0 in s.deps[1] && 0 !in s.order && Finishes(s, 0, 0)
  {
    run := TwoTasks([0]);
    var g := Last(run).deps;
    run := Extend(run, 0, CountDown, Step(Last(run), 0, CountDown));
    DownhillIsAcyclic(g);
  }

  /** Tasks that were never dispatched and each depend on one of them. */
  ghost predicate Blocked(s: State, b: set<Label>) {
    (forall t :: t in b ==> t !in s.ready) && NoWayOut(s.deps, b)
  }

  lemma BlockedStep(s: State, i: nat, a: Action, b: set<Label>, s': State)
    requires Places(s) && Sound(s) && Enabled(s, i, a) && s' == Step(s, i, a) && Blocked(s, b)
    ensures Blocked(s', b)
  {
    forall t | t in b ensures DependsOn(s'.deps, t, b) {
      assert DependsOn(s.deps, t, b);
      var d :| d in s.deps[t] && d in b;
      assert s.deps[t] <= s'.deps[t];
      assert d in s'.deps[t];
    }
    forall t | t in b ensures t !in s'.ready { BlockedStays(s, i, a, b, t); }
  }

  lemma BlockedStays(s: State, i: nat, a: Action, b: set<Label>, t: Label)
    requires Places(s) && Sound(s) && Enabled(s, i, a) && Blocked(s, b) && t in b
    ensures t !in Step(s, i, a).ready
  {
    assert DependsOn(s.deps, t, b);
    var d :| d in s.deps[t] && d in b;
    assert d !in s.order by { InOrderReady(s, d); }
    assert ThreadOk(s, s.threads[i]);
  }

  lemma InOrderReady(s: State, d: Label)
    requires Sound(s)
    ensures d in s.order ==> d in s.ready
  {
    if d in s.order {
      var n :| 0 <= n < |s.order| && s.order[n] == d;
      assert Ordered(s, n);
    }
  }

  lemma {:induction false} BlockedStaysBlocked(run: seq<State>, n: nat, m: nat, b: set<Label>)
    requires IsRun(run) && n <= m < |run| && Blocked(run[n], b)
    ensures Blocked(run[m], b)
    decreases m
  {
    if n < m {
      BlockedStaysBlocked(run, n, m - 1, b);
      RunOk(run, m - 1);
      assert Next(run[m - 1], run[m - 1 + 1]);
      var i: nat, a :| Enabled(run[m - 1], i, a) && run[m] == Step(run[m - 1], i, a);
      BlockedStep(run[m - 1], i, a, b, run[m]);
    }
  }

  lemma BlockedNotRun(s: State, b: set<Label>, i: nat, t: Label)
    requires Sound(s) && Blocked(s, b) && i < |s.threads| && t in b
    ensures s.threads[i] != Running(t) && t !in s.order
  {
    assert ThreadOk(s, s.threads[i]);
    InOrderReady(s, t);
  }

  /** A set of waiting tasks that each depend on one of the set is never dispatched, whatever the
      interleaving and whatever tasks are added later. */
  lemma BlockedForever(run: seq<State>, n: nat, m: nat, b: set<Label>, i: nat, t: Label)
    requires IsRun(run) && n <= m < |run| && Blocked(run[n], b) && i < |run[m].threads| && t in b
    ensures run[m].threads[i] != Running(t) && t !in run[m].order
  {
    RunOk(run, m);
    BlockedStaysBlocked(run, n, m, b);
    BlockedNotRun(run[m], b, i, t);
  }
}
