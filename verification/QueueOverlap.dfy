/** Delivery in ticket order needs the absence of overlap, and among dedicated producers and consumers it
    holds exactly for one of each: two producers can overlap on a slot, and so can two consumers, in every
    ring that the queue can have. */
module QueueOverlap {
  import opened Options
  import opened Arith
  import opened AtomicQueue
  import opened QueueLedger
  import opened QueueFifo
  import opened QueueRefinement

  /** Every pop that has returned, returned the element pushed with its ticket. */
  ghost predicate InTicketOrder<T>(s: State<T>) {
    forall t: nat :: PopDone(s, t) ==> t < |s.pushed| && s.popped[t] == Some(s.pushed[t])
  }

  // ------------------------------------------------------------------ building runs

  /** The calls that are made, the threads that push and the threads that pop. */
  datatype Crew = Crew(mode: Mode, ps: set<nat>, qs: set<nat>)

  ghost predicate RunTo<T(!new)>(c: Config, crew: Crew, run: seq<State<T>>, s: State<T>) {
    IsRun(c, crew.mode, run) && RunRoles(run, crew.ps, crew.qs) && run[|run| - 1] == s
  }

  lemma Go<T(!new)>(c: Config, crew: Crew, run: seq<State<T>>, s: State<T>, i: nat, a: Action<T>, s': State<T>)
    returns (longer: seq<State<T>>)
    requires RunTo(c, crew, run, s) && Calm(s) && Allowed(crew.mode, a) && Enabled(c, s, i, a)
    requires s' == Step(c, s, i, a) && |s'.threads| == |s.threads|
    requires (Producing(s'.threads[i]) ==> i in crew.ps) && (Consuming(s'.threads[i]) ==> i in crew.qs)
    ensures RunTo(c, crew, longer, s')
  {
    longer := run + [s'];
    ExtendRun(c, crew.mode, run, i, a, s');
    assert Roles(run[|run| - 1], crew.ps, crew.qs);
    forall j | 0 <= j < |s'.threads|
      ensures (Producing(s'.threads[j]) ==> j in crew.ps) && (Consuming(s'.threads[j]) ==> j in crew.qs) {
      if j != i { assert s'.threads[j] == s.threads[j]; }
    }
    forall n | 0 <= n < |longer| ensures Roles(longer[n], crew.ps, crew.qs) {
      if n < |run| { assert longer[n] == run[n]; }
    }
  }

  /** No thread is between a load and its compare-exchange. */
  ghost predicate Steady<T>(threads: seq<PC<T>>) {
    forall k :: 0 <= k < |threads| ==> threads[k].Idle? || threads[k].Pushing? || threads[k].Popping?
  }

  /** Room in the ring, with counters far from 2^31 apart. */
  ghost predicate Roomy<T>(c: Config, s: State<T>) {
    s.tail <= s.head < s.tail + Size(c) && Size(c) <= HALF
  }

  /** A push up to its ticket: at once, or by loading head, seeing room and taking the ticket. */
  lemma PushTicket<T(!new)>(c: Config, crew: Crew, run: seq<State<T>>, i: nat, e: T, s: State<T>)
    returns (longer: seq<State<T>>)
    requires RunTo(c, crew, run, s) && Steady(s.threads) && Roomy(c, s)
    requires i < |s.threads| && s.threads[i].Idle? && i in crew.ps
    ensures RunTo(c, crew, longer, TakePushTicket(s, i, e))
  {
    if crew.mode == PushTryPop {
      longer := Go(c, crew, run, s, i, BeginPush(e), TakePushTicket(s, i, e));
    } else {
      DiffExact(s.head, s.tail);
      var s1, s2 := SetPC(s, i, PushLoaded(e, s.head)), SetPC(s, i, PushChecked(e, s.head, s.tail));
      longer := Go(c, crew, run, s, i, BeginTryPush(e), s1);
      longer := Go(c, crew, longer, s1, i, Advance, s2);
      longer := Go(c, crew, longer, s2, i, Advance, TakePushTicket(s, i, e));
    }
  }

  /** try_pop up to its ticket: load tail, see an element, take the ticket. */
  lemma PopTicket<T(!new)>(c: Config, crew: Crew, run: seq<State<T>>, i: nat, s: State<T>)
    returns (longer: seq<State<T>>)
    requires RunTo(c, crew, run, s) && Steady(s.threads) && s.tail < s.head < s.tail + HALF
    requires i < |s.threads| && s.threads[i].Idle? && i in crew.qs
    ensures RunTo(c, crew, longer, TakePopTicket(s, i))
  {
    DiffExact(s.head, s.tail);
    var s1, s2 := SetPC(s, i, PopLoaded(s.tail)), SetPC(s, i, PopChecked(s.tail, s.head));
    longer := Go(c, crew, run, s, i, BeginTryPop, s1);
    longer := Go(c, crew, longer, s1, i, Advance, s2);
    longer := Go(c, crew, longer, s2, i, Advance, TakePopTicket(s, i));
  }

  /** The store of a push, or the exchange of a pop. */
  lemma Finish<T(!new)>(c: Config, crew: Crew, run: seq<State<T>>, i: nat, s: State<T>, s': State<T>)
    returns (longer: seq<State<T>>)
    requires RunTo(c, crew, run, s) && Steady(s.threads) && Enabled(c, s, i, Advance)
    requires s' == Step(c, s, i, Advance) && |s'.threads| == |s.threads| && s'.threads[i].Idle?
    ensures RunTo(c, crew, longer, s')
  {
    longer := Go(c, crew, run, s, i, Advance, s');
  }

  lemma {:induction false} SizeBounds(m: nat)
    requires m <= 30
    ensures Pow2(m) <= HALF / 2 && (m >= 1 ==> Pow2(m) >= 2)
    decreases 30 - m
  {
    if m < 30 { SizeBounds(m + 1); } else { Pow2Thirty(); }
  }

  lemma Pow2Thirty()
    ensures Pow2(30) == HALF / 2
  {
    WrapIsPow2();
  }

  ghost function Empty(c: Config): (slots: seq<Option<nat>>)
    ensures |slots| == Size(c)
  {
    seq(Size(c), _ => None)
  }

  /** n idle threads before the first call. */
  ghost function Start(c: Config, n: nat): State<nat> {
    State(0, 0, Empty(c), seq(n, _ => Idle), [], [])
  }

  ghost function Numbers(k: nat): (s: seq<nat>)
    ensures |s| == k && forall t :: 0 <= t < k ==> s[t] == t
  {
    seq(k, t => t)
  }

  // ------------------------------------------------------------------ two pushes on a slot

  /** The slots after tickets 1 to k were stored, ticket 0 not yet. */
  ghost function Stored(c: Config, k: nat): (slots: seq<Option<nat>>)
    requires ValidConfig(c)
    ensures |slots| == Size(c)
  {
    if k == 0 then Empty(c)
    else SlotInRing(c, k); Stored(c, k - 1)[SlotOf(c, k) := Some(k)]
  }

  /** A slot that none of the tickets 1 to k uses is still empty. */
  lemma {:induction false} StoredFree(c: Config, k: nat, j: nat)
    requires ValidConfig(c) && j < Size(c) && forall t :: 1 <= t <= k ==> SlotOf(c, t) != j
    ensures Stored(c, k)[j].None?
  {
    if k > 0 { StoredFree(c, k - 1, j); }
  }

  /** A push and a pop hold ticket 0, and tickets 1 to k have been pushed. */
  ghost function Waiting(c: Config, k: nat, threads: seq<PC<nat>>): State<nat>
    requires ValidConfig(c)
  {
    State(k + 1, 1, Stored(c, k), threads, Numbers(k + 1), [None])
  }

  /** Thread a stalls before its store, and thread x takes the pop ticket. */
  lemma Stall(c: Config, crew: Crew, n: nat, a: nat, x: nat) returns (run: seq<State<nat>>)
    requires ValidConfig(c) && c.bits >= 1 && a < n && x < n && a != x && a in crew.ps && x in crew.qs
    ensures RunTo(c, crew, run, Waiting(c, 0, Start(c, n).threads[a := Pushing(0, 0)][x := Popping(0)]))
  {
    SizeBounds(c.m);
    var s0 := Start(c, n);
    run := [s0];
    run := PushTicket(c, crew, run, a, 0, s0);
    var s1 := TakePushTicket(s0, a, 0);
    run := PopTicket(c, crew, run, x, s1);
    assert TakePopTicket(s1, x) == Waiting(c, 0, s0.threads[a := Pushing(0, 0)][x := Popping(0)]);
  }

  /** Ticket k + 1 finds its slot empty. */
  lemma NextFree(c: Config, k: nat)
    requires ValidConfig(c) && k < Size(c)
    ensures SlotOf(c, k + 1) < Size(c) && Stored(c, k)[SlotOf(c, k + 1)].None?
  {
    SlotInRing(c, k + 1);
    forall t | 1 <= t <= k ensures SlotOf(c, t) != SlotOf(c, k + 1) { SlotsApart(c, t, k + 1); }
    StoredFree(c, k, SlotOf(c, k + 1));
  }

  lemma StoreNext(c: Config, k: nat, j: nat, threads: seq<PC<nat>>, b: nat, s': State<nat>)
    requires ValidConfig(c) && k < Size(c) && j == SlotOf(c, k + 1) < Size(c) && Stored(c, k)[j].None?
    requires b < |threads| && threads[b].Idle? && s' == TakePushTicket(Waiting(c, k, threads), b, k + 1)
    ensures Enabled(c, s', b, Advance) && Step(c, s', b, Advance) == Waiting(c, k + 1, threads)
  {
    var t := Step(c, s', b, Advance);
    assert t.slots == Stored(c, k + 1);
    assert t.pushed == Numbers(k + 2);
    assert t.threads == threads;
  }

  /** A whole push by thread i. */
  lemma Push<T(!new)>(c: Config, crew: Crew, run: seq<State<T>>, i: nat, e: T, s: State<T>, s1: State<T>, s2: State<T>)
    returns (longer: seq<State<T>>)
    requires RunTo(c, crew, run, s) && Steady(s.threads) && Roomy(c, s)
    requires i < |s.threads| && s.threads[i].Idle? && i in crew.ps
    requires s1 == TakePushTicket(s, i, e) && Enabled(c, s1, i, Advance) && s2 == Step(c, s1, i, Advance)
    requires s2.threads == s.threads
    ensures RunTo(c, crew, longer, s2)
  {
    longer := PushTicket(c, crew, run, i, e, s);
    longer := Finish(c, crew, longer, i, s1, s2);
  }

  lemma WaitingRoomy(c: Config, k: nat, threads: seq<PC<nat>>)
    requires ValidConfig(c) && k < Size(c)
    ensures Roomy(c, Waiting(c, k, threads))
  {
    SizeBounds(c.m);
  }

  /** Thread b pushes one more element. */
  lemma PushOne(c: Config, crew: Crew, run: seq<State<nat>>, k: nat, threads: seq<PC<nat>>, b: nat,
                s: State<nat>, s2: State<nat>) returns (longer: seq<State<nat>>)
    requires ValidConfig(c) && k < Size(c) && RunTo(c, crew, run, s)
    requires s == Waiting(c, k, threads) && s2 == Waiting(c, k + 1, threads)
    requires Steady(threads) && b < |threads| && threads[b].Idle? && b in crew.ps
    ensures RunTo(c, crew, longer, s2)
  {
    NextFree(c, k);
    WaitingRoomy(c, k, threads);
    var s1 := TakePushTicket(s, b, k + 1);
    StoreNext(c, k, SlotOf(c, k + 1), threads, b, s1);
    longer := Push(c, crew, run, b, k + 1, s, s1, s2);
  }

  lemma {:induction false} PushMany(c: Config, crew: Crew, run: seq<State<nat>>, k: nat, threads: seq<PC<nat>>, b: nat)
    returns (longer: seq<State<nat>>)
    requires ValidConfig(c) && k <= Size(c) && RunTo(c, crew, run, Waiting(c, 0, threads))
    requires Steady(threads) && b < |threads| && threads[b].Idle? && b in crew.ps
    ensures RunTo(c, crew, longer, Waiting(c, k, threads))
  {
    if k == 0 {
      longer := run;
    } else {
      longer := PushMany(c, crew, run, k - 1, threads, b);
      longer := PushOne(c, crew, longer, k - 1, threads, b, Waiting(c, k - 1, threads), Waiting(c, k, threads));
    }
  }

  /** What is left of the run: the pop with ticket 0 meets the element of ticket `size`. */
  lemma TakeLast(c: Config, x: nat, s: State<nat>, threads: seq<PC<nat>>)
    requires ValidConfig(c) && s == Waiting(c, Size(c), threads) && x < |threads| && threads[x] == Popping(0)
    ensures Enabled(c, s, x, Advance)
    ensures var s' := Step(c, s, x, Advance);
            s'.threads == threads[x := Idle] && s'.pushed == s.pushed && s'.popped == [Some(Size(c))]
  {
    SlotInRing(c, 0);
    RoundLater(c, 0);
  }

  /** Two producers overlap: the pop with ticket 0 returns the element of ticket `size`, because that push
      found the slot of ticket 0 empty and stored first. Only thread x pops. */
  lemma PushesReorder(c: Config, mode: Mode, a: nat, b: nat, x: nat) returns (run: seq<State<nat>>)
    requires ValidConfig(c) && c.bits >= 1 && a != b && a != x && b != x
    ensures IsRun(c, mode, run) && RunRoles(run, {a, b}, {x})
    ensures var s := run[|run| - 1];
            s.pushed == Numbers(Size(c) + 1) && s.popped == [Some(Size(c))] && !InTicketOrder(s)
  {
    var crew := Crew(mode, {a, b}, {x});
    run := Stall(c, crew, a + b + x + 1, a, x);
    var threads := Start(c, a + b + x + 1).threads[a := Pushing(0, 0)][x := Popping(0)];
    run := PushMany(c, crew, run, Size(c), threads, b);
    var s := Waiting(c, Size(c), threads);
    TakeLast(c, x, s, threads);
    run := Finish(c, crew, run, x, s, Step(c, s, x, Advance));
    assert PopDone(run[|run| - 1], 0);
  }

  // ------------------------------------------------------------------ two pops on a slot

  /** Only the element of ticket 0 is stored. */
  ghost function First(c: Config): (slots: seq<Option<nat>>)
    requires ValidConfig(c)
    ensures |slots| == Size(c)
  {
    SlotInRing(c, 0); Empty(c)[SlotOf(c, 0) := Some(0)]
  }

  /** The pop with ticket 0 is pending, those with tickets 1 to k have returned their elements. */
  ghost function Returned(k: nat): (popped: seq<Option<nat>>)
    ensures |popped| == k + 1
  {
    seq(k + 1, t => if t == 0 then None else Some(t))
  }

  /** Tickets 1 to k have been pushed and popped while the pop with ticket 0 has not taken its element. */
  ghost function Turned(c: Config, k: nat, threads: seq<PC<nat>>): State<nat>
    requires ValidConfig(c)
  {
    State(k + 1, k + 1, First(c), threads, Numbers(k + 1), Returned(k))
  }

  /** Thread a pushes ticket 0, and thread x stalls before it takes the element. */
  lemma StallPop(c: Config, crew: Crew, n: nat, a: nat, x: nat) returns (run: seq<State<nat>>)
    requires ValidConfig(c) && c.bits >= 1 && a < n && x < n && a != x && a in crew.ps && x in crew.qs
    ensures RunTo(c, crew, run, Turned(c, 0, Start(c, n).threads[x := Popping(0)]))
  {
    SizeBounds(c.m);
    SlotInRing(c, 0);
    var s0 := Start(c, n);
    run := [s0];
    run := PushTicket(c, crew, run, a, 0, s0);
    var s1 := TakePushTicket(s0, a, 0);
    var s2 := State(1, 0, First(c), s0.threads, [0], []);
    assert Store(c, s1, a, 0, 0) == s2;
    run := Finish(c, crew, run, a, s1, s2);
    run := PopTicket(c, crew, run, x, s2);
    assert TakePopTicket(s2, x) == Turned(c, 0, s0.threads[x := Popping(0)]);
  }

  /** The state between the push and the pop of ticket k + 1. */
  ghost function Between(c: Config, k: nat, threads: seq<PC<nat>>): State<nat>
    requires ValidConfig(c)
  {
    SlotInRing(c, k + 1);
    State(k + 2, k + 1, First(c)[SlotOf(c, k + 1) := Some(k + 1)], threads, Numbers(k + 2), Returned(k))
  }

  lemma TurnFree(c: Config, k: nat)
    requires ValidConfig(c) && k + 1 < Size(c)
    ensures SlotOf(c, k + 1) < Size(c) && First(c)[SlotOf(c, k + 1)].None?
  {
    SlotInRing(c, k + 1);
    SlotsApart(c, 0, k + 1);
  }

  lemma StoreTurn(c: Config, k: nat, j: nat, threads: seq<PC<nat>>, a: nat, s: State<nat>)
    requires ValidConfig(c) && j == SlotOf(c, k + 1) < Size(c) && First(c)[j].None?
    requires a < |threads| && threads[a].Idle? && s == TakePushTicket(Turned(c, k, threads), a, k + 1)
    ensures Enabled(c, s, a, Advance) && Step(c, s, a, Advance) == Between(c, k, threads)
  {
    var t := Step(c, s, a, Advance);
    assert t.slots == First(c)[j := Some(k + 1)];
    assert t.pushed == Numbers(k + 2);
    assert t.threads == threads;
  }

  lemma TakeTurn(c: Config, k: nat, j: nat, threads: seq<PC<nat>>, y: nat, s: State<nat>)
    requires ValidConfig(c) && j == SlotOf(c, k + 1) < Size(c) && First(c)[j].None?
    requires y < |threads| && threads[y].Idle? && s == TakePopTicket(Between(c, k, threads), y)
    ensures Enabled(c, s, y, Advance) && Step(c, s, y, Advance) == Turned(c, k + 1, threads)
  {
    var t := Step(c, s, y, Advance);
    assert t.threads == threads;
    assert t.popped == Returned(k + 1);
    assert t.slots == First(c);
  }

  /** Thread a pushes ticket k + 1, and thread y pops it. */
  lemma Turn(c: Config, crew: Crew, run: seq<State<nat>>, k: nat, threads: seq<PC<nat>>, a: nat, y: nat)
    returns (longer: seq<State<nat>>)
    requires ValidConfig(c) && k + 1 < Size(c) && RunTo(c, crew, run, Turned(c, k, threads)) && Steady(threads)
    requires a < |threads| && threads[a].Idle? && a in crew.ps && y < |threads| && threads[y].Idle? && y in crew.qs
    ensures RunTo(c, crew, longer, Turned(c, k + 1, threads))
  {
    SizeBounds(c.m);
    var s, s2 := Turned(c, k, threads), Between(c, k, threads);
    var s1, s3 := TakePushTicket(s, a, k + 1), TakePopTicket(s2, y);
    TurnFree(c, k);
    StoreTurn(c, k, SlotOf(c, k + 1), threads, a, s1);
    TakeTurn(c, k, SlotOf(c, k + 1), threads, y, s3);
    longer := PushTicket(c, crew, run, a, k + 1, s);
    longer := Finish(c, crew, longer, a, s1, s2);
    longer := PopTicket(c, crew, longer, y, s2);
    longer := Finish(c, crew, longer, y, s3, Turned(c, k + 1, threads));
  }

  lemma {:induction false} TurnMany(c: Config, crew: Crew, run: seq<State<nat>>, k: nat, threads: seq<PC<nat>>,
                                    a: nat, y: nat)
    returns (longer: seq<State<nat>>)
    requires ValidConfig(c) && k < Size(c) && RunTo(c, crew, run, Turned(c, 0, threads)) && Steady(threads)
    requires a < |threads| && threads[a].Idle? && a in crew.ps && y < |threads| && threads[y].Idle? && y in crew.qs
    ensures RunTo(c, crew, longer, Turned(c, k, threads))
  {
    if k == 0 {
      longer := run;
    } else {
      longer := TurnMany(c, crew, run, k - 1, threads, a, y);
      longer := Turn(c, crew, longer, k - 1, threads, a, y);
    }
  }

  /** The pop with ticket `size` meets the element of ticket 0. */
  lemma TakeFirst(c: Config, y: nat, s: State<nat>)
    requires ValidConfig(c) && y < |s.threads| && s.threads[y] == Popping(Size(c))
    requires s.slots == First(c) && |s.popped| == Size(c) + 1
    ensures Enabled(c, s, y, Advance)
    ensures Step(c, s, y, Advance) ==
            s.(slots := Empty(c), threads := s.threads[y := Idle], popped := s.popped[Size(c) := Some(0)])
  {
    SlotInRing(c, 0);
    RoundLater(c, 0);
    assert First(c)[SlotOf(c, 0) := None] == Empty(c);
  }

  /** Push and pop ticket `size` are taken. */
  lemma BothTickets(c: Config, s: State<nat>, threads: seq<PC<nat>>, a: nat, y: nat, s1: State<nat>, s2: State<nat>)
    requires ValidConfig(c) && s == Turned(c, Size(c) - 1, threads) && a < |threads| && y < |threads| && a != y
    requires s1 == TakePushTicket(s, a, Size(c)) && s2 == TakePopTicket(s1, y)
    ensures s2.slots == First(c) && s2.threads == threads[a := Pushing(Size(c), Size(c))][y := Popping(Size(c))]
    ensures s2.pushed == Numbers(Size(c) + 1) && s2.popped == Returned(Size(c) - 1) + [None]
    ensures s1.head == Size(c) + 1 && s1.tail == Size(c)
  {}

  /** What the pop with ticket `size` takes. */
  lemma Overtaken(c: Config, y: nat, s: State<nat>, s': State<nat>)
    requires ValidConfig(c) && y < |s.threads| && s.threads[y] == Popping(Size(c))
    requires s.slots == First(c) && s.popped == Returned(Size(c) - 1) + [None]
    requires Enabled(c, s, y, Advance) && s' == Step(c, s, y, Advance)
    ensures s'.pushed == s.pushed && s'.popped == Returned(Size(c) - 1) + [Some(0)]
    ensures s'.threads == s.threads[y := Idle]
  {
    TakeFirst(c, y, s);
  }

  lemma TurnedRoomy(c: Config, k: nat, threads: seq<PC<nat>>)
    requires ValidConfig(c)
    ensures Roomy(c, Turned(c, k, threads))
  {
    SizeBounds(c.m);
  }

  /** Thread a takes push ticket `size`, and thread y pops with that ticket. */
  lemma PopOvertakes(c: Config, crew: Crew, run: seq<State<nat>>, threads: seq<PC<nat>>, a: nat, y: nat, s: State<nat>)
    returns (longer: seq<State<nat>>, s': State<nat>)
    requires ValidConfig(c) && s == Turned(c, Size(c) - 1, threads) && RunTo(c, crew, run, s) && Steady(threads)
    requires a < |threads| && threads[a].Idle? && a in crew.ps
    requires y < |threads| && threads[y].Idle? && y in crew.qs && a != y
    ensures RunTo(c, crew, longer, s')
    ensures s'.pushed == Numbers(Size(c) + 1) && s'.popped == Returned(Size(c) - 1) + [Some(0)]
  {
    TurnedRoomy(c, Size(c) - 1, threads);
    var s1 := TakePushTicket(s, a, Size(c));
    var s2 := TakePopTicket(s1, y);
    BothTickets(c, s, threads, a, y, s1, s2);
    longer := PushTicket(c, crew, run, a, Size(c), s);
    longer := PopTicket(c, crew, longer, y, s1);
    TakeFirst(c, y, s2);
    s' := Step(c, s2, y, Advance);
    Overtaken(c, y, s2, s');
    longer := Finish(c, crew, longer, y, s2, s');
  }

  /** Two consumers overlap: the pop with ticket `size` returns the element of ticket 0, because the pop with
      ticket 0 has not taken it yet. Only thread a pushes. */
  lemma PopsReorder(c: Config, mode: Mode, a: nat, x: nat, y: nat) returns (run: seq<State<nat>>)
    requires ValidConfig(c) && c.bits >= 1 && a != x && a != y && x != y
    ensures IsRun(c, mode, run) && RunRoles(run, {a}, {x, y})
    ensures var s := run[|run| - 1];
            && s.pushed == Numbers(Size(c) + 1)
            && s.popped == Returned(Size(c) - 1) + [Some(0)] && !InTicketOrder(s)
  {
    var crew := Crew(mode, {a}, {x, y});
    run := StallPop(c, crew, a + x + y + 1, a, x);
    var threads := Start(c, a + x + y + 1).threads[x := Popping(0)];
    run := TurnMany(c, crew, run, Size(c) - 1, threads, a, y);
    var s;
    run, s := PopOvertakes(c, crew, run, threads, a, y, Turned(c, Size(c) - 1, threads));
    assert PopDone(s, Size(c)) && s.popped[Size(c)] == Some(0);
  }

  // ------------------------------------------------------------------ exactly one of each

  /** Whatever the threads of ps push and those of qs pop, pops return the elements of their tickets. */
  ghost predicate AlwaysInOrder(c: Config, mode: Mode, ps: set<nat>, qs: set<nat>) {
    forall run: seq<State<nat>>, n ::
      IsRun(c, mode, run) && RunRoles(run, ps, qs) && 0 <= n < |run| ==> InTicketOrder(run[n])
  }

  lemma RolesWiden<T>(run: seq<State<T>>, ps: set<nat>, qs: set<nat>, ps': set<nat>, qs': set<nat>)
    requires RunRoles(run, ps, qs) && ps <= ps' && qs <= qs'
    ensures RunRoles(run, ps', qs')
  {
    forall n | 0 <= n < |run| ensures Roles(run[n], ps', qs') { assert Roles(run[n], ps, qs); }
  }

  lemma SpscInOrder(c: Config, mode: Mode, p: nat, q: nat)
    ensures AlwaysInOrder(c, mode, {p}, {q})
  {
    forall run: seq<State<nat>>, n | IsRun(c, mode, run) && RunRoles(run, {p}, {q}) && 0 <= n < |run|
      ensures InTicketOrder(run[n]) {
      OneEachNeverOverlaps(c, run, p, q);
      forall t: nat | PopDone(run[n], t) ensures t < |run[n].pushed| && run[n].popped[t] == Some(run[n].pushed[t]) {
        PopReturnsOwnTicket(c, mode, run, n, t);
      }
    }
  }

  lemma Singleton(s: set<nat>, x: nat)
    requires x in s
    ensures |s| == 1 <==> s == {x}
  {
    assert s == {x} + (s - {x});
  }

  /** Dedicated producers and consumers see ticket order in every run if and only if there is one of each,
      in every ring with BITS of at least 1 and for each way to use the queue. */
  lemma OrderedExactly(c: Config, mode: Mode, ps: set<nat>, qs: set<nat>)
    requires ValidConfig(c) && c.bits >= 1 && ps != {} && qs != {} && ps !! qs
    ensures AlwaysInOrder(c, mode, ps, qs) <==> |ps| == 1 && |qs| == 1
  {
    var p, q :| p in ps && q in qs;
    Singleton(ps, p);
    Singleton(qs, q);
    if b :| b in ps && b != p {
      var run := PushesReorder(c, mode, p, b, q);
      RolesWiden(run, {p, b}, {q}, ps, qs);
    } else if y :| y in qs && y != q {
      var run := PopsReorder(c, mode, p, q, y);
      RolesWiden(run, {p}, {q, y}, ps, qs);
    } else {
      SpscInOrder(c, mode, p, q);
    }
  }
}
