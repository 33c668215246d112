/** The task runtime on the ring: one system in which the workers' queue operations are the atomic steps
    of the ring. Its runs project to runs of the ring and to runs of the runtime over an abstract queue,
    and the ring holds exactly the queued tasks. */
module RuntimeQueue {
  import opened Options
  import opened TaskGraph
  import R = TaskRuntime
  import O = TaskOrder
  import Q = AtomicQueue
  import L = QueueLedger

  // ------------------------------------------------------------------ the combined system

  /** Thread i of the ring is thread i of the runtime. */
  datatype State = State(ring: Q.State<Label>, rt: R.State)

  /** Local: a runtime step without the queue. StartPush: the call of push, where it takes its ticket.
      StartPop: the call of try_pop. RingStep: the next atomic step of the queue call in flight. */
  datatype Action = Local(a: R.Action) | StartPush(a: R.Action) | StartPop | RingStep

  predicate IsLocal(a: R.Action) {
    a.StartAdd? || a.LoadCount? || a.CheckNext? || a.AddDependency? || a.Suspend? || a.CountDown? || a.InsertLabel?
  }

  predicate IsPush(a: R.Action) {
    a.PushNew? || a.PushBack? || a.Awaken?
  }

  /** The task that a pushing step pushes. */
  ghost function PushedTask(r: R.State, i: nat, a: R.Action): Label
    requires R.Enabled(r, i, a) && IsPush(a)
  {
    if a.Awaken? then a.t else r.threads[i].t
  }

  /** What the next ring step means to the runtime: the exchange that delivers x is the pop of x, a
      try_pop that gives up is a pop that found nothing, and all other steps are silent. */
  ghost function Meaning(c: Q.Config, q: Q.State<Label>, i: nat): Option<R.Action>
    requires Q.Enabled(c, q, i, Q.Advance)
  {
    match q.threads[i]
    case Popping(t) =>
      var slot := q.slots[Q.SlotOf(c, t)];
      if slot.Some? then Some(R.PopOne(slot.value)) else None
    case PopLoaded(t) => if Q.Diff32(Q.Low32(q.head), Q.Low32(t)) <= 0 then Some(R.PopNone) else None
    case _ => None
  }

  /** A thread takes no runtime step while its queue call is in flight. */
  ghost predicate Enabled(c: Q.Config, s: State, i: nat, act: Action) {
    && i < |s.ring.threads| == |s.rt.threads|
    && match act
       case Local(a) => s.ring.threads[i].Idle? && IsLocal(a) && R.Enabled(s.rt, i, a)
       case StartPush(a) => s.ring.threads[i].Idle? && IsPush(a) && R.Enabled(s.rt, i, a)
       case StartPop => s.ring.threads[i].Idle? && s.rt.threads[i].Polling?
       case RingStep =>
         && Q.Enabled(c, s.ring, i, Q.Advance)
         && var m := Meaning(c, s.ring, i); m.Some? ==> R.Enabled(s.rt, i, m.value)
  }

  ghost function Step(c: Q.Config, s: State, i: nat, act: Action): State
    requires Enabled(c, s, i, act)
  {
    match act
    case Local(a) => State(s.ring, R.Step(s.rt, i, a))
    case StartPush(a) => State(Q.TakePushTicket(s.ring, i, PushedTask(s.rt, i, a)), R.Step(s.rt, i, a))
    case StartPop => State(Q.SetPC(s.ring, i, Q.PopLoaded(s.ring.tail)), s.rt)
    case RingStep =>
      var m := Meaning(c, s.ring, i);
      State(Q.Step(c, s.ring, i, Q.Advance), if m.Some? then R.Step(s.rt, i, m.value) else s.rt)
  }

  ghost predicate Init(c: Q.Config, s: State) {
    Q.Init(c, s.ring) && R.Init(s.rt) && |s.ring.threads| == |s.rt.threads|
  }

  ghost predicate Next(c: Q.Config, s: State, s': State) {
    Q.Calm(s.ring) && exists i: nat, act: Action :: Enabled(c, s, i, act) && s' == Step(c, s, i, act)
  }

  ghost predicate IsRun(c: Q.Config, run: seq<State>) {
    && |run| > 0 && Init(c, run[0])
    && forall n :: 0 <= n < |run| - 1 ==> Next(c, run[n], run[n + 1])
  }

  // ------------------------------------------------------------------ projections

  ghost predicate RingRunTo(c: Q.Config, ring: seq<Q.State<Label>>, q: Q.State<Label>) {
    Q.IsRun(c, Q.PushTryPop, ring) && ring[|ring| - 1] == q
  }

  ghost predicate RuntimeRunTo(run: seq<R.State>, r: R.State) {
    R.IsRun(run) && run[|run| - 1] == r
  }

  /** The ring's part of a step is a step of the ring, or nothing. */
  lemma ProjectRingStep(c: Q.Config, s: State, i: nat, act: Action, ring: seq<Q.State<Label>>)
    returns (longer: seq<Q.State<Label>>)
    requires Q.Calm(s.ring) && Enabled(c, s, i, act) && RingRunTo(c, ring, s.ring)
    ensures RingRunTo(c, longer, Step(c, s, i, act).ring)
  {
    var q' := Step(c, s, i, act).ring;
    longer := ring + [q'];
    match act
    case Local(_) => longer := ring;
    case StartPush(a) => Q.ExtendRun(c, Q.PushTryPop, ring, i, Q.BeginPush(PushedTask(s.rt, i, a)), q');
    case StartPop => Q.ExtendRun(c, Q.PushTryPop, ring, i, Q.BeginTryPop, q');
    case RingStep => Q.ExtendRun(c, Q.PushTryPop, ring, i, Q.Advance, q');
  }

  /** The runtime's part of a step is a step of the runtime, or nothing. */
  lemma ProjectRuntimeStep(c: Q.Config, s: State, i: nat, act: Action, run: seq<R.State>) returns (longer: seq<R.State>)
    requires Enabled(c, s, i, act) && RuntimeRunTo(run, s.rt)
    ensures RuntimeRunTo(longer, Step(c, s, i, act).rt)
  {
    var r' := Step(c, s, i, act).rt;
    longer := run;
    match act
    case Local(a) => longer := run + [r']; R.ExtendRun(run, i, a, r');
    case StartPush(a) => longer := run + [r']; R.ExtendRun(run, i, a, r');
    case StartPop =>
    case RingStep =>
      var m := Meaning(c, s.ring, i);
      if m.Some? {
        longer := run + [r'];
        R.ExtendRun(run, i, m.value, r');
      }
  }

  /** Every run projects to a run of the ring that uses push and try_pop, and to a run of the runtime. */
  lemma {:induction false} Projects(c: Q.Config, run: seq<State>, n: nat)
    returns (ring: seq<Q.State<Label>>, rt: seq<R.State>)
    requires IsRun(c, run) && n < |run|
    ensures RingRunTo(c, ring, run[n].ring) && RuntimeRunTo(rt, run[n].rt)
  {
    if n == 0 {
      ring, rt := [run[0].ring], [run[0].rt];
    } else {
      ring, rt := Projects(c, run, n - 1);
      assert Next(c, run[n - 1], run[n - 1 + 1]);
      var i: nat, act :| Enabled(c, run[n - 1], i, act) && run[n] == Step(c, run[n - 1], i, act);
      ring := ProjectRingStep(c, run[n - 1], i, act, ring);
      rt := ProjectRuntimeStep(c, run[n - 1], i, act, rt);
    }
  }

  // ------------------------------------------------------------------ the ring holds the queued tasks

  /** Pushed so often and not yet delivered means queued so often. */
  ghost predicate Accounted(s: State, x: Label) {
    s.rt.queue[x] + L.Occurs(s.ring.popped, x) == multiset(s.ring.pushed)[x]
  }

  /** A thread inside try_pop is polling. */
  ghost predicate PopsPoll(s: State) {
    && |s.ring.threads| == |s.rt.threads|
    && forall i :: 0 <= i < |s.ring.threads| ==> PollsAt(s.ring.threads[i], s.rt.threads[i])
  }

  predicate PollsAt(pc: Q.PC<Label>, at: R.PC) {
    && (pc.PopLoaded? || pc.PopChecked? || pc.Popping? ==> at.Polling?)
    && !pc.PushLoaded? && !pc.PushChecked?
  }

  lemma PollsStep(c: Q.Config, s: State, i: nat, act: Action)
    requires PopsPoll(s) && Enabled(c, s, i, act)
    ensures PopsPoll(Step(c, s, i, act))
  {
    var s' := Step(c, s, i, act);
    forall k | 0 <= k < |s'.ring.threads| ensures PollsAt(s'.ring.threads[k], s'.rt.threads[k]) {
      assert PollsAt(s.ring.threads[k], s.rt.threads[k]);
    }
  }

  lemma AccountedPush(s: State, i: nat, a: R.Action, x: Label)
    requires Accounted(s, x) && IsPush(a) && R.Enabled(s.rt, i, a) && i < |s.ring.threads|
    ensures var t := PushedTask(s.rt, i, a); Accounted(State(Q.TakePushTicket(s.ring, i, t), R.Step(s.rt, i, a)), x)
  {
    var t := PushedTask(s.rt, i, a);
    assert multiset(s.ring.pushed + [t]) == multiset(s.ring.pushed) + multiset{t};
    assert R.Step(s.rt, i, a).queue == s.rt.queue + multiset{t};
  }

  lemma AccountedTake(c: Q.Config, s: State, i: nat, t: nat, x: Label)
    requires Accounted(s, x) && Enabled(c, s, i, RingStep) && s.ring.threads[i] == Q.Popping(t)
    requires t < |s.ring.popped| && s.ring.popped[t].None?
    ensures Accounted(Step(c, s, i, RingStep), x)
  {
    var q, j := s.ring, Q.SlotOf(c, t);
    if q.slots[j].Some? {
      L.OccursUpdate(q.popped, t, q.slots[j], x);
      assert Step(c, s, i, RingStep).rt.queue == s.rt.queue - multiset{q.slots[j].value};
    }
  }

  lemma AccountedRing(c: Q.Config, s: State, i: nat, x: Label)
    requires Accounted(s, x) && Enabled(c, s, i, RingStep) && PollsAt(s.ring.threads[i], s.rt.threads[i])
    requires Q.ThreadOk(c, s.ring, s.ring.threads[i])
    ensures Accounted(Step(c, s, i, RingStep), x)
  {
    match s.ring.threads[i] {
      case Popping(t) => AccountedTake(c, s, i, t, x);
      case PopChecked(_, _) => L.OccursSnoc(s.ring.popped, None, x);
      case _ =>
    }
  }

  lemma AccountedStep(c: Q.Config, s: State, i: nat, act: Action, x: Label)
    requires Accounted(s, x) && Enabled(c, s, i, act) && Q.Inv(c, s.ring) && PopsPoll(s)
    ensures Accounted(Step(c, s, i, act), x)
  {
    match act
    case StartPush(a) => AccountedPush(s, i, a, x);
    case RingStep =>
      assert Q.ThreadOk(c, s.ring, s.ring.threads[i]);
      AccountedRing(c, s, i, x);
    case Local(_) =>
    case StartPop =>
  }

  ghost predicate Coupled(s: State) {
    PopsPoll(s) && forall x :: Accounted(s, x)
  }

  lemma {:induction false} CoupledRun(c: Q.Config, run: seq<State>, n: nat)
    requires IsRun(c, run) && n < |run|
    ensures Coupled(run[n])
  {
    if n > 0 {
      CoupledRun(c, run, n - 1);
      var s := run[n - 1];
      var ring, rt := Projects(c, run, n - 1);
      L.SoundRun(c, Q.PushTryPop, ring, |ring| - 1);
      assert Next(c, s, run[n - 1 + 1]);
      var i: nat, act :| Enabled(c, s, i, act) && run[n] == Step(c, s, i, act);
      PollsStep(c, s, i, act);
      forall x ensures Accounted(run[n], x) { AccountedStep(c, s, i, act, x); }
    }
  }

  /** In every reachable state the tasks stored in the ring or in the hands of pushing threads are exactly
      the queued tasks: the ring implements the runtime's queue. */
  lemma RingHoldsQueue(c: Q.Config, run: seq<State>, n: nat)
    requires IsRun(c, run) && n < |run|
    ensures L.Bag(run[n].ring.slots) + L.Bag(L.Hands(run[n].ring.threads)) == run[n].rt.queue
  {
    var q, r := run[n].ring, run[n].rt;
    CoupledRun(c, run, n);
    var ring, rt := Projects(c, run, n);
    L.SoundRun(c, Q.PushTryPop, ring, |ring| - 1);
    forall x ensures (L.Bag(q.slots) + L.Bag(L.Hands(q.threads)))[x] == r.queue[x] {
      assert Accounted(run[n], x) && L.ConservedAt(q, x);
      L.BagOccurs(q.slots, x);
      L.BagOccurs(L.Hands(q.threads), x);
    }
  }

  /** A delivered task is queued, so its pop is a step of the runtime. */
  lemma MeaningEnabled(c: Q.Config, s: State, i: nat)
    requires PopsPoll(s) && i < |s.ring.threads| && Q.Enabled(c, s.ring, i, Q.Advance)
    requires forall x :: x in L.Bag(s.ring.slots) ==> x in s.rt.queue
    ensures Enabled(c, s, i, RingStep)
  {
    assert PollsAt(s.ring.threads[i], s.rt.threads[i]);
    if s.ring.threads[i].Popping? {
      var j := Q.SlotOf(c, s.ring.threads[i].ticket);
      if s.ring.slots[j].Some? { StoredIsQueued(s.ring.slots, j); }
    }
  }

  /** The coupling never blocks the ring: a queue call in flight can always take its next atomic step. */
  lemma RingNeverWaits(c: Q.Config, run: seq<State>, n: nat, i: nat)
    requires Q.ValidConfig(c) && IsRun(c, run) && n < |run| && i < |run[n].ring.threads|
             && !run[n].ring.threads[i].Idle?
    ensures Enabled(c, run[n], i, RingStep)
  {
    CoupledRun(c, run, n);
    RingHoldsQueue(c, run, n);
    var ring, rt := Projects(c, run, n);
    L.SoundRun(c, Q.PushTryPop, ring, |ring| - 1);
    Q.AlwaysEnabled(c, run[n].ring, i);
    MeaningEnabled(c, run[n], i);
  }

  /** A worker whose try_pop returns has an answer: the task that the ring delivered, which was queued, or
      nothing, and then every push that has a ticket was matched by a pop. */
  lemma PollAnswered(c: Q.Config, run: seq<State>, n: nat, i: nat)
    requires IsRun(c, run) && n + 1 < |run| && i < |run[n].ring.threads| == |run[n + 1].ring.threads|
    requires run[n].ring.threads[i].PopLoaded? || run[n].ring.threads[i].PopChecked? || run[n].ring.threads[i].Popping?
    requires run[n + 1].ring.threads[i].Idle?
    ensures i < |run[n].rt.threads| == |run[n + 1].rt.threads| && run[n].rt.threads[i].Polling?
    ensures if run[n].ring.threads[i].Popping? then
              var t := run[n].ring.threads[i].ticket;
              && t < |run[n + 1].ring.popped| && run[n + 1].ring.popped[t].Some?
              && var x := run[n + 1].ring.popped[t].value;
              x in run[n].rt.queue && run[n + 1].rt.threads[i] == R.Checking(x, 0)
            else
              run[n + 1].rt.threads[i].Idle? && run[n].ring.head <= run[n].ring.tail
  {
    CoupledRun(c, run, n);
    var ring, rt := Projects(c, run, n);
    L.SoundRun(c, Q.PushTryPop, ring, |ring| - 1);
    var s := run[n];
    assert Next(c, s, run[n + 1]);
    var j: nat, act :| Enabled(c, s, j, act) && run[n + 1] == Step(c, s, j, act);
    AnswerStep(c, s, j, act, run[n + 1], i);
  }

  lemma AnswerStep(c: Q.Config, s: State, j: nat, act: Action, s': State, i: nat)
    requires PopsPoll(s) && Q.Inv(c, s.ring) && Q.Calm(s.ring) && Enabled(c, s, j, act) && s' == Step(c, s, j, act)
    requires i < |s.ring.threads| == |s'.ring.threads|
    requires s.ring.threads[i].PopLoaded? || s.ring.threads[i].PopChecked? || s.ring.threads[i].Popping?
    requires s'.ring.threads[i].Idle?
    ensures i < |s.rt.threads| == |s'.rt.threads| && s.rt.threads[i].Polling?
    ensures if s.ring.threads[i].Popping? then
              var t := s.ring.threads[i].ticket;
              && t < |s'.ring.popped| && s'.ring.popped[t].Some?
              && var x := s'.ring.popped[t].value; x in s.rt.queue && s'.rt.threads[i] == R.Checking(x, 0)
            else s'.rt.threads[i].Idle? && s.ring.head <= s.ring.tail
  {
    assert PollsAt(s.ring.threads[i], s.rt.threads[i]);
    assert Q.ThreadOk(c, s.ring, s.ring.threads[i]) && Q.CalmThread(s.ring, s.ring.threads[i]);
    assert j == i && act == RingStep;
    match s.ring.threads[i] {
      case PopLoaded(t) => Q.DiffExact(s.ring.head, t);
      case _ =>
    }
  }

  lemma {:induction false} StoredIsQueued(slots: seq<Option<Label>>, j: nat)
    requires j < |slots| && slots[j].Some?
    ensures slots[j].value in L.Bag(slots)
  {
    if j < |slots| - 1 { StoredIsQueued(slots[..|slots| - 1], j); }
  }

  // ------------------------------------------------------------------ no worker gets stuck

  /** Every push in flight waits for a slot that is empty or has a pop in flight that empties it. */
  ghost predicate NoPushStuck(c: Q.Config, q: Q.State<Label>) {
    forall i :: 0 <= i < |q.threads| && q.threads[i].Pushing? ==>
      var j := Q.SlotOf(c, q.threads[i].ticket);
      j < |q.slots| && (q.slots[j].None? || exists k :: 0 <= k < |q.threads| && L.PopsAt(c, q.threads[k], j))
  }

  /** In every reachable state of any number of workers with at most as many active tasks as ring slots,
      head is at most a ring ahead of tail and no push of a task is stuck. */
  lemma TaskPushNeverStuck(c: Q.Config, run: seq<State>, n: nat)
    requires Q.ValidConfig(c) && IsRun(c, run) && n < |run| && run[n].rt.count <= Q.Size(c)
    ensures run[n].ring.tail <= run[n].ring.head <= run[n].ring.tail + Q.Size(c)
    ensures NoPushStuck(c, run[n].ring)
  {
    RingHoldsQueue(c, run, n);
    var ring, rt := Projects(c, run, n);
    O.QueueWithinCount(rt, |rt| - 1);
    L.PushNeverStuck(c, ring, |ring| - 1);
  }
}
