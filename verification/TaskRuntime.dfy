/** The task runtime as a transition system: any number of threads that poll for tasks, run them, add
    tasks and finish them, one step per operation on shared state. The waiting queue may hand out its
    elements in any order, and a poll may find nothing. */
module TaskRuntime {
  import opened Options
  import opened TaskGraph

  /** Where a thread is. */
  datatype PC =
    | Idle
    | Polling                                 // count was not zero, about to pop
    | Checking(t: Label, k: nat)              // popped t; dependencies before k have finished
    | Returning(t: Label)                     // t is not ready, about to push it back
    | Running(t: Label)
    | Adding(t: Label, host: Option<Label>)   // t is counted but not pushed yet; host is the running task, if any
    | Finishing(t: Label)                     // t is no longer counted; its label is not inserted yet
    | Stopped                                 // saw count zero

  /** History: the place of every task ever added. */
  datatype Place = Queued | Suspended | InHand(i: nat) | Ending(i: nat) | Done

  /** `order` is the finished set in order of insertion. `deps`, `place` and `ready` are history: the
      dependencies of every task, its place, and how many of its dependencies had been checked when it
      was last dispatched. */
  datatype State = State(count: int, queue: multiset<Label>, suspended: set<Label>, order: seq<Label>, threads: seq<PC>,
                         deps: Graph, place: map<Label, Place>, ready: map<Label, nat>)

  datatype Action =
    | StartAdd(t: Label, d: seq<Label>) | PushNew | LoadCount | PopOne(t: Label) | PopNone | CheckNext | PushBack
    | AddDependency(l: Label) | Suspend | Awaken(t: Label) | CountDown | InsertLabel

  function Held(pc: PC): set<Label> {
    match pc
    case Checking(t, _) => {t}
    case Returning(t) => {t}
    case Running(t) => {t}
    case Adding(t, None) => {t}
    case Adding(t, Some(h)) => {t, h}
    case _ => {}
  }

  function HostOf(pc: PC): Option<Label> {
    if pc.Running? then Some(pc.t) else None
  }

  function BackTo(host: Option<Label>): PC {
    if host.Some? then Running(host.value) else Idle
  }

  // ------------------------------------------------------------------ steps

  ghost predicate Enabled(s: State, i: nat, a: Action) {
    && i < |s.threads|
    && var pc := s.threads[i];
       match a
       case StartAdd(t, _) => (pc.Idle? || pc.Running?) && t !in s.deps
       case PushNew => pc.Adding?
       case LoadCount => pc.Idle?
       case PopOne(t) => pc.Polling? && t in s.queue
       case PopNone => pc.Polling?
       case CheckNext => pc.Checking? && pc.t in s.deps && pc.k <= |s.deps[pc.t]|
       case PushBack => pc.Returning?
       case AddDependency(_) => pc.Running? && pc.t in s.deps
       case Suspend => pc.Running?
       case Awaken(t) => t in s.suspended
       case CountDown => pc.Running?
       case InsertLabel => pc.Finishing?
  }

  function SetPC(s: State, i: nat, pc: PC): State
    requires i < |s.threads|
  {
    s.(threads := s.threads[i := pc])
  }

  function Push(s: State, t: Label): State {
    s.(queue := s.queue + multiset{t}, place := s.place[t := Queued])
  }

  /** checkTaskReady, one lookup at a time; a task whose dependencies have all finished is dispatched. */
  function CheckOne(s: State, i: nat, t: Label, k: nat): State
    requires i < |s.threads| && t in s.deps && k <= |s.deps[t]|
  {
    if k == |s.deps[t]| then SetPC(s, i, Running(t)).(ready := s.ready[t := k])
    else if s.deps[t][k] in s.order then SetPC(s, i, Checking(t, k + 1))
    else SetPC(s, i, Returning(t))
  }

  ghost function Step(s: State, i: nat, a: Action): State
    requires Enabled(s, i, a)
  {
    var pc := s.threads[i];
    match a
    case StartAdd(t, d) =>
      SetPC(s, i, Adding(t, HostOf(pc))).(count := s.count + 1, deps := s.deps[t := d],
        place := s.place[t := InHand(i)])
    case PushNew => SetPC(Push(s, pc.t), i, BackTo(pc.host))
    case LoadCount => SetPC(s, i, if s.count == 0 then Stopped else Polling)
    case PopOne(t) => SetPC(s, i, Checking(t, 0)).(queue := s.queue - multiset{t}, place := s.place[t := InHand(i)])
    case PopNone => SetPC(s, i, Idle)
    case CheckNext => CheckOne(s, i, pc.t, pc.k)
    case PushBack => SetPC(Push(s, pc.t), i, Idle)
    case AddDependency(l) => s.(deps := s.deps[pc.t := s.deps[pc.t] + [l]])
    case Suspend => SetPC(s, i, Idle).(suspended := s.suspended + {pc.t}, place := s.place[pc.t := Suspended])
    case Awaken(t) => Push(s, t).(suspended := s.suspended - {t})
    case CountDown => SetPC(s, i, Finishing(pc.t)).(count := s.count - 1, place := s.place[pc.t := Ending(i)])
    case InsertLabel => SetPC(s, i, Idle).(order := s.order + [pc.t], place := s.place[pc.t := Done])
  }

  ghost predicate Init(s: State) {
    && s.count == 0 && s.queue == multiset{} && s.suspended == {} && s.order == []
    && s.deps == map[] && s.place == map[] && s.ready == map[]
    && forall i :: 0 <= i < |s.threads| ==> s.threads[i].Idle?
  }

  ghost predicate Next(s: State, s': State) {
    exists i: nat, a: Action :: Enabled(s, i, a) && s' == Step(s, i, a)
  }

  ghost predicate IsRun(run: seq<State>) {
    && |run| > 0 && Init(run[0])
    && forall n :: 0 <= n < |run| - 1 ==> Next(run[n], run[n + 1])
  }

  /** A run goes on with any step of its last state. */
  lemma ExtendRun(run: seq<State>, i: nat, a: Action, s': State)
    requires IsRun(run) && Enabled(run[|run| - 1], i, a) && s' == Step(run[|run| - 1], i, a)
    ensures IsRun(run + [s'])
  {
    var longer := run + [s'];
    forall n | 0 <= n < |longer| - 1 ensures Next(longer[n], longer[n + 1]) {
      assert longer[n] == run[n];
      if n + 1 < |run| { assert Next(run[n], run[n + 1]); }
    }
  }

  // ------------------------------------------------------------------ every task has one place

  ghost predicate At(s: State, t: Label, p: Place) {
    t in s.place && s.place[t] == p
  }

  predicate Counted(p: Place) {
    !p.Ending? && !p.Done?
  }

  ghost function Live(place: map<Label, Place>): set<Label> {
    set t | t in place && Counted(place[t])
  }

  ghost predicate QueueOk(s: State) {
    forall t :: s.queue[t] == if At(s, t, Queued) then 1 else 0
  }

  ghost predicate SuspendedOk(s: State) {
    forall t :: t in s.suspended <==> At(s, t, Suspended)
  }

  ghost predicate Holds(s: State, i: nat, t: Label) {
    i < |s.threads| && t in Held(s.threads[i])
  }

  ghost predicate Finishes(s: State, i: nat, t: Label) {
    i < |s.threads| && s.threads[i] == Finishing(t)
  }

  ghost predicate HandsOk(s: State) {
    forall i: nat, t :: At(s, t, InHand(i)) <==> Holds(s, i, t)
  }

  ghost predicate EndingOk(s: State) {
    forall i: nat, t :: At(s, t, Ending(i)) <==> Finishes(s, i, t)
  }

  /** A running task does not add itself. */
  predicate HostApart(pc: PC) {
    pc.Adding? ==> pc.host != Some(pc.t)
  }

  ghost predicate DoneOk(s: State) {
    forall t :: At(s, t, Done) <==> t in s.order
  }

  /** The queue, the suspended set, the threads and the finished set hold every task exactly once, and
      the counter counts those that are not finishing or finished. */
  ghost predicate Places(s: State) {
    match s
    case State(count, _, _, _, threads, deps, place, _) =>
      && place.Keys == deps.Keys && count == |Live(place)|
      && QueueOk(s) && SuspendedOk(s) && HandsOk(s) && EndingOk(s) && DoneOk(s)
      && forall i :: 0 <= i < |threads| ==> HostApart(threads[i])
  }

  /** Moving a task between counted places does not change the count. */
  lemma LiveMove(place: map<Label, Place>, t: Label, p: Place)
    requires t in place && Counted(place[t]) && Counted(p)
    ensures Live(place[t := p]) == Live(place)
  {}

  lemma LiveAdd(place: map<Label, Place>, t: Label, p: Place)
    requires t !in place && Counted(p)
    ensures Live(place[t := p]) == Live(place) + {t} && t !in Live(place) && |Live(place[t := p])| == |Live(place)| + 1
  {}

  lemma LiveDrop(place: map<Label, Place>, t: Label, p: Place)
    requires t in place && Counted(place[t]) && !Counted(p)
    ensures Live(place[t := p]) == Live(place) - {t} && |Live(place[t := p])| == |Live(place)| - 1
  {}

  lemma LiveDone(place: map<Label, Place>, t: Label, p: Place)
    requires t in place && !Counted(place[t]) && !Counted(p)
    ensures Live(place[t := p]) == Live(place)
  {}

  /** Only thread i moved. */
  ghost predicate OnlyThread(s: State, s': State, i: nat) {
    && i < |s.threads| && |s'.threads| == |s.threads|
    && forall j :: 0 <= j < |s.threads| && j != i ==> s'.threads[j] == s.threads[j]
  }

  /** Nothing but the thread's progress changed. */
  lemma PlacesKept(s: State, s': State, i: nat)
    requires Places(s) && OnlyThread(s, s', i) && HostApart(s'.threads[i])
    requires s'.place == s.place && s'.count == s.count && s'.deps.Keys == s.deps.Keys
    requires s'.queue == s.queue && s'.suspended == s.suspended && s'.order == s.order
    requires Held(s'.threads[i]) == Held(s.threads[i]) && !s'.threads[i].Finishing? && !s.threads[i].Finishing?
    ensures Places(s')
  {
    forall j: nat, x ensures At(s', x, InHand(j)) <==> Holds(s', j, x) {
      assert At(s, x, InHand(j)) <==> Holds(s, j, x);
    }
    forall j: nat, x ensures At(s', x, Ending(j)) <==> Finishes(s', j, x) {
      assert At(s, x, Ending(j)) <==> Finishes(s, j, x);
    }
  }

  /** Task t, not in another thread's hands, moved to place p, and no other task moved. */
  ghost predicate MovedTo(s: State, s': State, i: nat, t: Label, p: Place) {
    match s'
    case State(_, queue, suspended, order, _, _, place, _) =>
      && OnlyThread(s, s', i) && place == s.place[t := p]
      && (t in s.place && (s.place[t].InHand? || s.place[t].Ending?) ==> s.place[t].i == i)
      && (p.InHand? || p.Ending? ==> p.i == i)
      && (forall x :: x != t ==> queue[x] == s.queue[x])
      && (forall x :: x != t ==> (x in suspended <==> x in s.suspended))
      && (forall x :: x != t ==> (x in order <==> x in s.order))
      && (forall x :: x != t ==> (Holds(s', i, x) <==> Holds(s, i, x)))
      && (forall x :: x != t ==> (Finishes(s', i, x) <==> Finishes(s, i, x)))
      && queue[t] == (if p.Queued? then 1 else 0) && (t in suspended <==> p.Suspended?) && (t in order <==> p.Done?)
      && (Holds(s', i, t) <==> p.InHand?) && (Finishes(s', i, t) <==> p.Ending?)
  }

  lemma HandsMoved(s: State, s': State, i: nat, t: Label, p: Place)
    requires Places(s) && MovedTo(s, s', i, t, p)
    ensures HandsOk(s') && EndingOk(s')
  {
    forall j: nat, x ensures At(s', x, InHand(j)) <==> Holds(s', j, x) {
      assert At(s, x, InHand(j)) <==> Holds(s, j, x);
      if j != i { assert Holds(s', j, x) <==> Holds(s, j, x); }
    }
    forall j: nat, x ensures At(s', x, Ending(j)) <==> Finishes(s', j, x) {
      assert At(s, x, Ending(j)) <==> Finishes(s, j, x);
      if j != i { assert Finishes(s', j, x) <==> Finishes(s, j, x); }
    }
  }

  lemma PlacesMoved(s: State, s': State, i: nat, t: Label, p: Place)
    requires Places(s) && MovedTo(s, s', i, t, p) && HostApart(s'.threads[i])
    requires s'.place.Keys == s'.deps.Keys && s'.count == |Live(s'.place)|
    ensures Places(s')
  {
    HandsMoved(s, s', i, t, p);
    forall x ensures s'.queue[x] == if At(s', x, Queued) then 1 else 0 { assert At(s, x, Queued) <==> s.queue[x] == 1; }
    forall x ensures x in s'.suspended <==> At(s', x, Suspended) { assert x in s.suspended <==> At(s, x, Suspended); }
    forall x ensures At(s', x, Done) <==> x in s'.order { assert At(s, x, Done) <==> x in s.order; }
  }

  /** Thread i puts a task it holds into the queue. */
  lemma PlacesPush(s: State, i: nat, t: Label, pc: PC)
    requires Places(s) && Holds(s, i, t) && t !in Held(pc) && Held(s.threads[i]) == Held(pc) + {t} && HostApart(pc)
    requires !pc.Finishing? && !s.threads[i].Finishing?
    ensures Places(SetPC(Push(s, t), i, pc))
  {
    assert At(s, t, InHand(i)) && !At(s, t, Queued) && !At(s, t, Suspended) && !At(s, t, Done);
    LiveMove(s.place, t, Queued);
    PlacesMoved(s, SetPC(Push(s, t), i, pc), i, t, Queued);
  }

  /** A label that was never added is nowhere. */
  lemma Unplaced(s: State, t: Label, i: nat)
    requires Places(s) && t !in s.deps
    ensures t !in s.place && s.queue[t] == 0 && t !in s.suspended && t !in s.order && !Holds(s, i, t)
  {
    assert !At(s, t, Queued) && !At(s, t, Suspended) && !At(s, t, Done) && !At(s, t, InHand(i));
  }

  /** Task t came into the hands of thread i from nowhere. */
  lemma CameToHand(s: State, s': State, i: nat, t: Label, pc: PC)
    requires i < |s.threads| && s'.threads == s.threads[i := pc] && s'.place == s.place[t := InHand(i)]
    requires s'.queue == s.queue && s'.suspended == s.suspended && s'.order == s.order
    requires Held(pc) == Held(s.threads[i]) + {t} && !pc.Finishing? && !s.threads[i].Finishing?
    requires t !in s.place && s.queue[t] == 0 && t !in s.suspended && t !in s.order
    ensures MovedTo(s, s', i, t, InHand(i))
  {}

  lemma AddFields(s: State, i: nat, t: Label, d: seq<Label>, s': State, pc: PC)
    requires Enabled(s, i, StartAdd(t, d)) && s' == Step(s, i, StartAdd(t, d)) && pc == Adding(t, HostOf(s.threads[i]))
    ensures t !in s.deps && s'.threads == s.threads[i := pc] && Held(pc) == Held(s.threads[i]) + {t}
    ensures !s.threads[i].Finishing? && (t !in Held(s.threads[i]) ==> HostApart(pc))
    ensures s'.place == s.place[t := InHand(i)] && s'.deps.Keys == s.deps.Keys + {t} && s'.count == s.count + 1
    ensures s'.queue == s.queue && s'.suspended == s.suspended && s'.order == s.order
  {}

  lemma PlacesAdd(s: State, i: nat, t: Label, d: seq<Label>, s': State)
    requires Places(s) && Enabled(s, i, StartAdd(t, d)) && s' == Step(s, i, StartAdd(t, d))
    ensures Places(s')
  {
    var pc := Adding(t, HostOf(s.threads[i]));
    AddFields(s, i, t, d, s', pc);
    PlacesGain(s, s', i, t, pc);
  }

  lemma PlacesGain(s: State, s': State, i: nat, t: Label, pc: PC)
    requires Places(s) && t !in s.deps && i < |s.threads| && s'.threads == s.threads[i := pc]
    requires Held(pc) == Held(s.threads[i]) + {t} && !pc.Finishing? && !s.threads[i].Finishing?
             && (t !in Held(s.threads[i]) ==> HostApart(pc))
    requires s'.place == s.place[t := InHand(i)] && s'.deps.Keys == s.deps.Keys + {t} && s'.count == s.count + 1
    requires s'.queue == s.queue && s'.suspended == s.suspended && s'.order == s.order
    ensures Places(s')
  {
    Unplaced(s, t, i);
    CameToHand(s, s', i, t, pc);
    LiveAdd(s.place, t, InHand(i));
    PlacesMoved(s, s', i, t, InHand(i));
  }

  lemma PlacesPop(s: State, i: nat, t: Label)
    requires Places(s) && Enabled(s, i, PopOne(t))
    ensures Places(Step(s, i, PopOne(t)))
  {
    assert At(s, t, Queued) && !At(s, t, Suspended) && !At(s, t, Done);
    LiveMove(s.place, t, InHand(i));
    PlacesMoved(s, Step(s, i, PopOne(t)), i, t, InHand(i));
  }

  lemma PlacesAwaken(s: State, i: nat, t: Label)
    requires Places(s) && Enabled(s, i, Awaken(t))
    ensures Places(Step(s, i, Awaken(t)))
  {
    assert At(s, t, Suspended) && !At(s, t, Queued) && !At(s, t, Done) && !At(s, t, InHand(i)) && !At(s, t, Ending(i));
    LiveMove(s.place, t, Queued);
    PlacesMoved(s, Step(s, i, Awaken(t)), i, t, Queued);
  }

  /** A running task is suspended or counted down. */
  lemma PlacesLeave(s: State, i: nat, a: Action)
    requires Places(s) && (a.Suspend? || a.CountDown?) && Enabled(s, i, a)
    ensures Places(Step(s, i, a))
  {
    var t := s.threads[i].t;
    assert Holds(s, i, t);
    assert At(s, t, InHand(i)) && !At(s, t, Queued) && !At(s, t, Suspended) && !At(s, t, Done);
    if a.Suspend? { LiveMove(s.place, t, Suspended); } else { LiveDrop(s.place, t, Ending(i)); }
    PlacesMoved(s, Step(s, i, a), i, t, if a.Suspend? then Suspended else Ending(i));
  }

  lemma PlacesInsert(s: State, i: nat)
    requires Places(s) && Enabled(s, i, InsertLabel)
    ensures Places(Step(s, i, InsertLabel))
  {
    var t := s.threads[i].t;
    assert Finishes(s, i, t);
    assert At(s, t, Ending(i)) && !At(s, t, Queued) && !At(s, t, Suspended);
    LiveDone(s.place, t, Done);
    PlacesMoved(s, Step(s, i, InsertLabel), i, t, Done);
  }

  lemma PlacesQuiet(s: State, i: nat, a: Action)
    requires Places(s) && (a.LoadCount? || a.PopNone? || a.CheckNext? || a.AddDependency?) && Enabled(s, i, a)
    ensures Places(Step(s, i, a))
  {
    var s' := Step(s, i, a);
    assert s'.threads == s.threads[i := s'.threads[i]];
    PlacesKept(s, s', i);
  }

  lemma PlacesPushes(s: State, i: nat, a: Action)
    requires Places(s) && (a.PushNew? || a.PushBack?) && Enabled(s, i, a)
    ensures Places(Step(s, i, a))
  {
    PlacesPush(s, i, s.threads[i].t, if a.PushNew? then BackTo(s.threads[i].host) else Idle);
  }

  /** Every step keeps every task in exactly one place and the counter exact. */
  lemma PlacesStep(s: State, i: nat, a: Action)
    requires Places(s) && Enabled(s, i, a)
    ensures Places(Step(s, i, a))
  {
    match a
    case StartAdd(t, d) => PlacesAdd(s, i, t, d, Step(s, i, a));
    case PushNew => PlacesPushes(s, i, a);
    case PopOne(t) => PlacesPop(s, i, t);
    case PushBack => PlacesPushes(s, i, a);
    case Suspend => PlacesLeave(s, i, a);
    case Awaken(t) => PlacesAwaken(s, i, t);
    case CountDown => PlacesLeave(s, i, a);
    case InsertLabel => PlacesInsert(s, i);
    case LoadCount => PlacesQuiet(s, i, a);
    case PopNone => PlacesQuiet(s, i, a);
    case CheckNext => PlacesQuiet(s, i, a);
    case AddDependency(_) => PlacesQuiet(s, i, a);
  }
}
