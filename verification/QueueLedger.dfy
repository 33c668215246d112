/** What every interleaving of the queue conserves, and why an operation on a slot can always step. */
module QueueLedger {
  import opened Options
  import opened AtomicQueue
  import opened RingIndex

  // ------------------------------------------------------------------ conservation of elements

  /** How often x is stored in a sequence of optional elements. */
  function Occurs<T(==)>(s: seq<Option<T>>, x: T): nat {
    if s == [] then 0 else Occurs(s[..|s| - 1], x) + (if s[|s| - 1] == Some(x) then 1 else 0)
  }

  /** The element a thread holds after taking a push ticket. */
  function InHand<T>(pc: PC<T>): Option<T> {
    if pc.Pushing? then Some(pc.elem) else None
  }

  function Hands<T>(threads: seq<PC<T>>): seq<Option<T>> {
    seq(|threads|, i requires 0 <= i < |threads| => InHand(threads[i]))
  }

  lemma {:induction false} OccursUpdate<T>(s: seq<Option<T>>, i: nat, o: Option<T>, x: T)
    requires i < |s|
    ensures Occurs(s[i := o], x) == Occurs(s, x) - (if s[i] == Some(x) then 1 else 0) + (if o == Some(x) then 1 else 0)
  {
    var n := |s| - 1;
    if i == n {
      assert s[i := o][..n] == s[..n];
    } else {
      OccursUpdate(s[..n], i, o, x);
      assert s[i := o][..n] == s[..n][i := o];
    }
  }

  lemma OccursSnoc<T>(s: seq<Option<T>>, o: Option<T>, x: T)
    ensures Occurs(s + [o], x) == Occurs(s, x) + (if o == Some(x) then 1 else 0)
  {
    assert (s + [o])[..|s|] == s;
  }

  lemma HandsUpdate<T>(ts: seq<PC<T>>, i: nat, pc: PC<T>, x: T)
    requires i < |ts|
    ensures Occurs(Hands(ts[i := pc]), x) ==
            Occurs(Hands(ts), x) - (if InHand(ts[i]) == Some(x) then 1 else 0)
              + (if InHand(pc) == Some(x) then 1 else 0)
  {
    assert Hands(ts[i := pc]) == Hands(ts)[i := InHand(pc)];
    OccursUpdate(Hands(ts), i, InHand(pc), x);
  }

  /** x was pushed as often as it was delivered, is stored, or is held by a waiting producer. */
  ghost predicate ConservedAt<T>(s: State<T>, x: T) {
    multiset(s.pushed)[x] == Occurs(s.popped, x) + Occurs(s.slots, x) + Occurs(Hands(s.threads), x)
  }

  ghost predicate Conserved<T(!new)>(s: State<T>) {
    forall x :: ConservedAt(s, x)
  }

  lemma ConservedSetPC<T>(s: State<T>, i: nat, pc: PC<T>, x: T)
    requires ConservedAt(s, x) && i < |s.threads| && InHand(pc) == InHand(s.threads[i])
    ensures ConservedAt(SetPC(s, i, pc), x)
  {
    HandsUpdate(s.threads, i, pc, x);
  }

  lemma ConservedTakePush<T>(s: State<T>, i: nat, e: T, x: T)
    requires ConservedAt(s, x) && i < |s.threads| && InHand(s.threads[i]).None?
    ensures ConservedAt(TakePushTicket(s, i, e), x)
  {
    HandsUpdate(s.threads, i, Pushing(e, s.head), x);
    assert multiset(s.pushed + [e]) == multiset(s.pushed) + multiset{e};
  }

  lemma ConservedTakePop<T>(s: State<T>, i: nat, x: T)
    requires ConservedAt(s, x) && i < |s.threads| && InHand(s.threads[i]).None?
    ensures ConservedAt(TakePopTicket(s, i), x)
  {
    HandsUpdate(s.threads, i, Popping(s.tail), x);
    OccursSnoc(s.popped, None, x);
  }

  lemma ConservedStore<T>(c: Config, s: State<T>, i: nat, e: T, t: nat, x: T)
    requires ConservedAt(s, x) && i < |s.threads| && s.threads[i] == Pushing(e, t) && SlotOf(c, t) < |s.slots|
    ensures ConservedAt(Store(c, s, i, e, t), x)
  {
    HandsUpdate(s.threads, i, Idle, x);
    OccursUpdate(s.slots, SlotOf(c, t), Some(e), x);
  }

  lemma ConservedTake<T>(c: Config, s: State<T>, i: nat, t: nat, x: T)
    requires ConservedAt(s, x) && i < |s.threads| && s.threads[i] == Popping(t)
    requires SlotOf(c, t) < |s.slots| && t < |s.popped| && s.popped[t].None?
    ensures ConservedAt(Take(c, s, i, t), x)
  {
    var j := SlotOf(c, t);
    HandsUpdate(s.threads, i, Idle, x);
    OccursUpdate(s.slots, j, None, x);
    OccursUpdate(s.popped, t, s.slots[j], x);
  }

  lemma ConservedStep<T>(c: Config, s: State<T>, i: nat, a: Action<T>, x: T)
    requires Inv(c, s) && ConservedAt(s, x) && Enabled(c, s, i, a)
    ensures ConservedAt(Step(c, s, i, a), x)
  {
    var pc := s.threads[i];
    assert ThreadOk(c, s, pc);
    match a {
      case BeginTryPush(e) => ConservedSetPC(s, i, PushLoaded(e, s.head), x);
      case BeginPush(e) => ConservedTakePush(s, i, e, x);
      case BeginTryPop => ConservedSetPC(s, i, PopLoaded(s.tail), x);
      case BeginPop => ConservedTakePop(s, i, x);
      case Advance =>
        match pc {
          case PushLoaded(e, h) =>
            ConservedSetPC(s, i, Idle, x);
            ConservedSetPC(s, i, PushChecked(e, h, s.tail), x);
          case PushChecked(e, h, _) =>
            ConservedTakePush(s, i, e, x);
            ConservedSetPC(s, i, PushLoaded(e, s.head), x);
          case Pushing(e, t) => ConservedStore(c, s, i, e, t, x);
          case PopLoaded(t) =>
            ConservedSetPC(s, i, Idle, x);
            ConservedSetPC(s, i, PopChecked(t, s.head), x);
          case PopChecked(t, _) =>
            ConservedTakePop(s, i, x);
            ConservedSetPC(s, i, PopLoaded(s.tail), x);
          case Popping(t) => ConservedTake(c, s, i, t, x);
        }
    }
  }

  // ------------------------------------------------------------------ the ledger of a slot

  /** Number of tickets below n that map to slot j. */
  function Tickets(c: Config, n: nat, j: nat): nat {
    if n == 0 then 0 else Tickets(c, n - 1, j) + (if SlotOf(c, n - 1) == j then 1 else 0)
  }

  predicate PushesAt<T>(c: Config, pc: PC<T>, j: nat) {
    pc.Pushing? && SlotOf(c, pc.ticket) == j
  }

  predicate PopsAt<T>(c: Config, pc: PC<T>, j: nat) {
    pc.Popping? && SlotOf(c, pc.ticket) == j
  }

  /** Waiting pushes minus waiting pops of one thread on slot j. */
  function Weight<T>(c: Config, pc: PC<T>, j: nat): int {
    if PushesAt(c, pc, j) then 1 else if PopsAt(c, pc, j) then -1 else 0
  }

  function Waiting<T>(c: Config, threads: seq<PC<T>>, j: nat): int {
    if threads == [] then 0 else Waiting(c, threads[..|threads| - 1], j) + Weight(c, threads[|threads| - 1], j)
  }

  lemma {:induction false} WaitingUpdate<T>(c: Config, ts: seq<PC<T>>, i: nat, pc: PC<T>, j: nat)
    requires i < |ts|
    ensures Waiting(c, ts[i := pc], j) == Waiting(c, ts, j) - Weight(c, ts[i], j) + Weight(c, pc, j)
  {
    var n := |ts| - 1;
    if i == n {
      assert ts[i := pc][..n] == ts[..n];
    } else {
      WaitingUpdate(c, ts[..n], i, pc, j);
      assert ts[i := pc][..n] == ts[..n][i := pc];
    }
  }

  /** A positive balance needs a waiting push; with a waiting push, a balance of zero or less needs a
      waiting pop, and symmetrically. */
  lemma {:induction false} WaitingWitness<T>(c: Config, ts: seq<PC<T>>, j: nat)
    ensures (forall i :: 0 <= i < |ts| ==> !PopsAt(c, ts[i], j)) ==>
              Waiting(c, ts, j) >= 0 && ((exists i :: 0 <= i < |ts| && PushesAt(c, ts[i], j)) ==> Waiting(c, ts, j) > 0)
    ensures (forall i :: 0 <= i < |ts| ==> !PushesAt(c, ts[i], j)) ==>
              Waiting(c, ts, j) <= 0 && ((exists i :: 0 <= i < |ts| && PopsAt(c, ts[i], j)) ==> Waiting(c, ts, j) < 0)
  {
    if ts != [] {
      var n := |ts| - 1;
      var us := ts[..n];
      WaitingWitness(c, us, j);
      assert forall i :: 0 <= i < n ==> us[i] == ts[i];
    }
  }

  function Occupied<T>(s: State<T>, j: nat): nat
    requires j < |s.slots|
  {
    if s.slots[j].Some? then 1 else 0
  }

  /** Push tickets minus pop tickets of slot j = occupied + waiting pushes - waiting pops. */
  ghost predicate Balanced<T>(c: Config, s: State<T>, j: nat)
    requires j < |s.slots|
  {
    Tickets(c, s.head, j) - Tickets(c, s.tail, j) == Occupied(s, j) + Waiting(c, s.threads, j)
  }

  ghost predicate Ledger<T>(c: Config, s: State<T>) {
    forall j :: 0 <= j < |s.slots| ==> Balanced(c, s, j)
  }

  lemma BalancedSetPC<T>(c: Config, s: State<T>, i: nat, pc: PC<T>, j: nat)
    requires j < |s.slots| && Balanced(c, s, j) && i < |s.threads|
    requires Weight(c, pc, j) == Weight(c, s.threads[i], j)
    ensures Balanced(c, SetPC(s, i, pc), j)
  {
    WaitingUpdate(c, s.threads, i, pc, j);
  }

  lemma BalancedTakePush<T>(c: Config, s: State<T>, i: nat, e: T, j: nat)
    requires j < |s.slots| && Balanced(c, s, j) && i < |s.threads| && Weight(c, s.threads[i], j) == 0
    ensures Balanced(c, TakePushTicket(s, i, e), j)
  {
    WaitingUpdate(c, s.threads, i, Pushing(e, s.head), j);
  }

  lemma BalancedTakePop<T>(c: Config, s: State<T>, i: nat, j: nat)
    requires j < |s.slots| && Balanced(c, s, j) && i < |s.threads| && Weight(c, s.threads[i], j) == 0
    ensures Balanced(c, TakePopTicket(s, i), j)
  {
    WaitingUpdate(c, s.threads, i, Popping(s.tail), j);
  }

  lemma BalancedStore<T>(c: Config, s: State<T>, i: nat, e: T, t: nat, j: nat)
    requires j < |s.slots| && Balanced(c, s, j) && i < |s.threads| && s.threads[i] == Pushing(e, t)
             && SlotOf(c, t) < |s.slots|
    ensures Balanced(c, Store(c, s, i, e, t), j)
  {
    WaitingUpdate(c, s.threads, i, Idle, j);
  }

  lemma BalancedTake<T>(c: Config, s: State<T>, i: nat, t: nat, j: nat)
    requires j < |s.slots| && Balanced(c, s, j) && i < |s.threads| && s.threads[i] == Popping(t)
    requires SlotOf(c, t) < |s.slots| && t < |s.popped|
    ensures Balanced(c, Take(c, s, i, t), j)
  {
    WaitingUpdate(c, s.threads, i, Idle, j);
  }

  /** A step keeps the ledger of every slot. */
  lemma BalancedStep<T>(c: Config, s: State<T>, i: nat, a: Action<T>, j: nat)
    requires Inv(c, s) && Enabled(c, s, i, a) && j < |s.slots| && Balanced(c, s, j)
    ensures j < |Step(c, s, i, a).slots| && Balanced(c, Step(c, s, i, a), j)
  {
    match a {
      case BeginTryPush(e) => BalancedSetPC(c, s, i, PushLoaded(e, s.head), j);
      case BeginPush(e) => BalancedTakePush(c, s, i, e, j);
      case BeginTryPop => BalancedSetPC(c, s, i, PopLoaded(s.tail), j);
      case BeginPop => BalancedTakePop(c, s, i, j);
      case Advance =>
        match s.threads[i] {
          case PushLoaded(e, h) =>
            BalancedSetPC(c, s, i, if Diff32(Low32(h), Low32(s.tail)) >= Size(c) then Idle
              else PushChecked(e, h, s.tail), j);
          case PushChecked(e, h, _) =>
            BalancedTakePush(c, s, i, e, j);
            BalancedSetPC(c, s, i, PushLoaded(e, s.head), j);
          case PopLoaded(t) =>
            BalancedSetPC(c, s, i, if Diff32(Low32(s.head), Low32(t)) <= 0 then Idle else PopChecked(t, s.head), j);
          case PopChecked(t, _) =>
            BalancedTakePop(c, s, i, j);
            BalancedSetPC(c, s, i, PopLoaded(s.tail), j);
          case Pushing(e, t) => BalancedStore(c, s, i, e, t, j);
          case Popping(t) => BalancedTake(c, s, i, t, j);
        }
    }
  }

  lemma LedgerStep<T>(c: Config, s: State<T>, i: nat, a: Action<T>)
    requires Inv(c, s) && Ledger(c, s) && Enabled(c, s, i, a)
    ensures Ledger(c, Step(c, s, i, a))
  {
    forall j | 0 <= j < |Step(c, s, i, a).slots| ensures Balanced(c, Step(c, s, i, a), j) {
      BalancedStep(c, s, i, a, j);
    }
  }

  // ------------------------------------------------------------------ bounds on the counters

  /** try_pop never takes a ticket beyond head; try_push never one a full ring ahead of tail. */
  ghost predicate Bounded<T>(c: Config, mode: Mode, s: State<T>) {
    && (mode != AnyCall ==> s.tail <= s.head)
    && (mode == TryCalls ==> s.head <= s.tail + Size(c))
  }

  lemma BoundedStep<T>(c: Config, mode: Mode, s: State<T>, i: nat, a: Action<T>)
    requires Inv(c, s) && Calm(s) && Enabled(c, s, i, a) && Allowed(mode, a)
    requires Bounded(c, mode, s)
    ensures Bounded(c, mode, Step(c, s, i, a))
  {
    assert ThreadOk(c, s, s.threads[i]) && CalmThread(s, s.threads[i]);
    match s.threads[i] {
      case PushChecked(e, h, tl) => CasExact(h, s.head);
      case PopChecked(t, hd) => CasExact(t, s.tail);
      case _ =>
    }
  }

  lemma {:induction false} TicketsMonotone(c: Config, a: nat, b: nat, j: nat)
    requires a <= b
    ensures Tickets(c, a, j) <= Tickets(c, b, j)
    decreases b
  {
    if a < b { TicketsMonotone(c, a, b - 1, j); }
  }

  /** Two tickets less than a ring apart use different slots. */
  lemma SlotsApart(c: Config, s: nat, t: nat)
    requires ValidConfig(c) && s < t < s + Size(c)
    ensures SlotOf(c, s) != SlotOf(c, t)
  {
    SlotOfTicket(c, s);
    SlotOfTicket(c, t);
    NotCongruent(s, t, Size(c));
    SlotEqual(c.bits, c.m, s, t);
  }

  lemma {:induction false} NoTicketBetween(c: Config, a: nat, b: nat, j: nat)
    requires a <= b && forall t :: a <= t < b ==> SlotOf(c, t) != j
    ensures Tickets(c, b, j) == Tickets(c, a, j)
    decreases b
  {
    if a < b { NoTicketBetween(c, a, b - 1, j); }
  }

  /** A range of at most Size(c) tickets uses each slot at most once. */
  lemma {:induction false} OneTicketPerRound(c: Config, a: nat, b: nat, j: nat)
    requires ValidConfig(c) && a <= b <= a + Size(c)
    ensures Tickets(c, a, j) <= Tickets(c, b, j) <= Tickets(c, a, j) + 1
    decreases b
  {
    TicketsMonotone(c, a, b, j);
    if a < b {
      if SlotOf(c, b - 1) == j {
        forall t | a <= t < b - 1 ensures SlotOf(c, t) != j {
          SlotsApart(c, t, b - 1);
        }
        NoTicketBetween(c, a, b - 1, j);
      } else {
        OneTicketPerRound(c, a, b - 1, j);
      }
    }
  }

  // ------------------------------------------------------------------ progress

  /** The next step of thread i completes its operation on slot j. */
  ghost predicate CanFinish<T>(c: Config, s: State<T>, i: nat, j: nat) {
    && i < |s.threads| && j < |s.slots|
    && ((PushesAt(c, s.threads[i], j) && s.slots[j].None?) || (PopsAt(c, s.threads[i], j) && s.slots[j].Some?))
  }

  /** Whenever 0 <= head - tail <= size, a slot with an operation in flight has one that can complete. */
  lemma SlotProgress<T>(c: Config, s: State<T>, i: nat, j: nat)
    requires ValidConfig(c) && Ledger(c, s) && s.tail <= s.head <= s.tail + Size(c)
    requires j < |s.slots| && i < |s.threads| && (PushesAt(c, s.threads[i], j) || PopsAt(c, s.threads[i], j))
    ensures exists k :: 0 <= k && CanFinish(c, s, k, j)
  {
    assert Balanced(c, s, j);
    OneTicketPerRound(c, s.tail, s.head, j);
    WaitingWitness(c, s.threads, j);
    if s.slots[j].Some? {
      if k :| 0 <= k < |s.threads| && PopsAt(c, s.threads[k], j) {
        assert CanFinish(c, s, k, j);
      }
    } else {
      if k :| 0 <= k < |s.threads| && PushesAt(c, s.threads[k], j) {
        assert CanFinish(c, s, k, j);
      }
    }
  }

  // ------------------------------------------------------------------ theorems over whole runs

  /** Everything that holds in each state of a run. */
  ghost predicate Sound<T(!new)>(c: Config, mode: Mode, s: State<T>) {
    Inv(c, s) && Conserved(s) && Ledger(c, s) && Bounded(c, mode, s)
  }

  lemma SoundInit<T(!new)>(c: Config, mode: Mode, s: State<T>)
    requires Init(c, s)
    ensures Sound(c, mode, s)
  {
    forall x ensures ConservedAt(s, x) {
      OccursNone(s.slots, x);
      OccursNone(Hands(s.threads), x);
    }
    forall j | 0 <= j < |s.slots| ensures Balanced(c, s, j) {
      WaitingWitness(c, s.threads, j);
    }
  }

  lemma {:induction false} OccursNone<T>(s: seq<Option<T>>, x: T)
    requires forall i :: 0 <= i < |s| ==> s[i].None?
    ensures Occurs(s, x) == 0
  {
    if s != [] { OccursNone(s[..|s| - 1], x); }
  }

  lemma {:induction false} SoundUpTo<T(!new)>(c: Config, mode: Mode, run: seq<State<T>>, n: nat)
    requires IsRun(c, mode, run) && n < |run|
    ensures forall k :: 0 <= k <= n ==> Sound(c, mode, run[k])
  {
    if n == 0 {
      SoundInit(c, mode, run[0]);
    } else {
      SoundUpTo(c, mode, run, n - 1);
      assert Next(c, mode, run[n - 1], run[n - 1 + 1]);
      SoundNext(c, mode, run[n - 1], run[n]);
    }
  }

  lemma SoundRun<T(!new)>(c: Config, mode: Mode, run: seq<State<T>>, n: nat)
    requires IsRun(c, mode, run) && n < |run|
    ensures Sound(c, mode, run[n])
  {
    SoundUpTo(c, mode, run, n);
  }

  lemma SoundNext<T(!new)>(c: Config, mode: Mode, s: State<T>, s': State<T>)
    requires Sound(c, mode, s) && Calm(s) && Next(c, mode, s, s')
    ensures Sound(c, mode, s')
  {
    var i: nat, a: Action<T> :| Allowed(mode, a) && Enabled(c, s, i, a) && s' == Step(c, s, i, a);
    SoundStep(c, mode, s, i, a);
  }

  lemma SoundStep<T(!new)>(c: Config, mode: Mode, s: State<T>, i: nat, a: Action<T>)
    requires Sound(c, mode, s) && Calm(s) && Allowed(mode, a) && Enabled(c, s, i, a)
    ensures Sound(c, mode, Step(c, s, i, a))
  {
    InvStep(c, s, i, a);
    LedgerStep(c, s, i, a);
    BoundedStep(c, mode, s, i, a);
    forall x ensures ConservedAt(Step(c, s, i, a), x) {
      ConservedStep(c, s, i, a, x);
    }
  }

  /** The elements of a sequence of optional elements. */
  ghost function Bag<T>(s: seq<Option<T>>): multiset<T> {
    if s == [] then multiset{}
    else Bag(s[..|s| - 1]) + (if s[|s| - 1].Some? then multiset{s[|s| - 1].value} else multiset{})
  }

  lemma {:induction false} BagOccurs<T>(s: seq<Option<T>>, x: T)
    ensures Bag(s)[x] == Occurs(s, x)
  {
    if s != [] { BagOccurs(s[..|s| - 1], x); }
  }

  lemma {:induction false} BagSize<T>(s: seq<Option<T>>)
    ensures |Bag(s)| <= |s|
  {
    if s != [] { BagSize(s[..|s| - 1]); }
  }

  /** In every interleaving of push, try_push, pop and try_pop, nothing is lost, duplicated or
      invented: the elements that took a push ticket are those delivered, those stored in slots and
      those still held by waiting producers. */
  lemma Conservation<T(!new)>(c: Config, mode: Mode, run: seq<State<T>>, n: nat)
    requires IsRun(c, mode, run) && n < |run|
    ensures multiset(run[n].pushed) == Bag(run[n].popped) + Bag(run[n].slots) + Bag(Hands(run[n].threads))
  {
    SoundRun(c, mode, run, n);
    var s := run[n];
    forall x ensures multiset(s.pushed)[x] == (Bag(s.popped) + Bag(s.slots) + Bag(Hands(s.threads)))[x] {
      assert ConservedAt(s, x);
      BagOccurs(s.popped, x);
      BagOccurs(s.slots, x);
      BagOccurs(Hands(s.threads), x);
    }
  }

  /** Every slot with an operation in flight has one whose next step completes. */
  ghost predicate NoSlotStuck<T>(c: Config, s: State<T>) {
    forall i, j :: 0 <= i < |s.threads| && 0 <= j < |s.slots|
      && (PushesAt(c, s.threads[i], j) || PopsAt(c, s.threads[i], j))
      ==> exists k :: 0 <= k && CanFinish(c, s, k, j)
  }

  /** With try_push and try_pop only, head never runs more than a ring ahead of tail, every slot's
      ledger balances, and no operation in flight is stuck. */
  lemma TryCallsSafe<T(!new)>(c: Config, run: seq<State<T>>, n: nat)
    requires ValidConfig(c) && IsRun(c, TryCalls, run) && n < |run|
    ensures run[n].tail <= run[n].head <= run[n].tail + Size(c)
    ensures Ledger(c, run[n]) && NoSlotStuck(c, run[n])
  {
    SoundRun(c, TryCalls, run, n);
    var s := run[n];
    forall i, j | 0 <= i < |s.threads| && 0 <= j < |s.slots|
      && (PushesAt(c, s.threads[i], j) || PopsAt(c, s.threads[i], j))
      ensures exists k :: 0 <= k && CanFinish(c, s, k, j) {
      SlotProgress(c, s, i, j);
    }
  }

  /** Elements in the queue or in the hands of a pushing thread. */
  ghost function InUse<T>(s: State<T>): nat {
    |Bag(s.slots)| + |Bag(Hands(s.threads))|
  }

  /** With blocking push and try_pop, as the task runtime calls the queue, and never more live
      elements than slots: head stays within a ring of tail, and the slot a push waits for is empty
      or has a pop in flight whose next step empties it. */
  lemma PushNeverStuck<T(!new)>(c: Config, run: seq<State<T>>, n: nat)
    requires ValidConfig(c) && IsRun(c, PushTryPop, run) && n < |run| && InUse(run[n]) <= Size(c)
    ensures run[n].tail <= run[n].head <= run[n].tail + Size(c)
    ensures forall i :: 0 <= i < |run[n].threads| && run[n].threads[i].Pushing? ==>
              var j := SlotOf(c, run[n].threads[i].ticket);
              j < |run[n].slots| && (run[n].slots[j].None? || exists k ::
                0 <= k < |run[n].threads| && PopsAt(c, run[n].threads[k], j))
  {
    var s := run[n];
    SoundRun(c, PushTryPop, run, n);
    Conservation(c, PushTryPop, run, n);
    BagSize(s.popped);
    assert |multiset(s.pushed)| == s.head;
    forall i | 0 <= i < |s.threads| && s.threads[i].Pushing?
      ensures var j := SlotOf(c, s.threads[i].ticket);
              j < |s.slots| && (s.slots[j].None? || exists k :: 0 <= k < |s.threads| && PopsAt(c, s.threads[k], j)) {
      var j := SlotOf(c, s.threads[i].ticket);
      SlotInRing(c, s.threads[i].ticket);
      SlotProgress(c, s, i, j);
      var k :| 0 <= k && CanFinish(c, s, k, j);
    }
  }
}
