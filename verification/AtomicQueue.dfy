/** AtomicQueueB as a transition system: any number of threads, one step per atomic operation,
    sequentially consistent steps. Counters are unbounded; the code sees their low 32 bits. */
module AtomicQueue {
  import opened Options
  import opened Arith
  import opened RingIndex

  /** 2^bits slots per cache line, 2^m slots in the ring. */
  datatype Config = Config(bits: nat, m: nat)

  ghost predicate ValidConfig(c: Config) {
    2 * c.bits <= c.m <= 30
  }

  function Size(c: Config): (n: nat)
    ensures n >= 1
  {
    Pow2(c.m)
  }

  /** The slot that do_push and do_pop use: the counter's low 32 bits, masked and shuffled. */
  function SlotOf(c: Config, ticket: nat): nat {
    Remap(c.bits, And(Low32(ticket), Size(c) - 1))
  }

  lemma WrapIsPow2()
    ensures Pow2(32) == WRAP
  {
    assert Pow2(4) == 0x10;
    assert Pow2(8) == 0x100;
    assert Pow2(12) == 0x1000;
    assert Pow2(16) == 0x1_0000;
    assert Pow2(20) == 0x10_0000;
    assert Pow2(24) == 0x100_0000;
    assert Pow2(28) == 0x1000_0000;
  }

  /** The 32-bit counter does not show: the slot is that of the unbounded ticket. */
  lemma SlotOfTicket(c: Config, ticket: nat)
    requires ValidConfig(c)
    ensures SlotOf(c, ticket) == Slot(c.bits, c.m, ticket)
  {
    WrapIsPow2();
    SlotAcrossWrap(c.bits, c.m, ticket);
  }

  // ------------------------------------------------------------------ 32-bit arithmetic

  const WRAP: int := 0x1_0000_0000
  const HALF: int := 0x8000_0000

  function Low32(x: int): (r: nat)
    ensures r < WRAP
  {
    x % WRAP
  }

  /** static_cast<int>(a - b) on unsigned operands. */
  function Diff32(a: nat, b: nat): int {
    var d := Low32(a - b);
    if d < HALF then d else d - WRAP
  }

  /** Differences below 2^31 survive the wrap-around. */
  lemma DiffExact(a: nat, b: nat)
    requires -HALF <= a - b < HALF
    ensures Diff32(Low32(a), Low32(b)) == a - b
  {
    var x, y := a / WRAP, b / WRAP;
    assert a == x * WRAP + Low32(a) && b == y * WRAP + Low32(b);
  }

  /** A compare-exchange of counters that drifted by less than 2^32 compares the true counters. */
  lemma CasExact(a: nat, b: nat)
    requires a <= b < a + WRAP
    ensures Low32(a) == Low32(b) <==> a == b
  {}

  // ------------------------------------------------------------------ states and steps

  /** Where a thread is. Local counters are the true values of what was loaded. */
  datatype PC<T> =
    | Idle
    | PushLoaded(elem: T, h: nat)            // try_push: head loaded
    | PushChecked(elem: T, h: nat, tl: nat)  // try_push: room seen with tail tl, about to CAS head
    | Pushing(elem: T, ticket: nat)          // do_push: storing into the slot of the ticket
    | PopLoaded(t: nat)                      // try_pop: tail loaded
    | PopChecked(t: nat, hd: nat)            // try_pop: element seen with head hd, about to CAS tail
    | Popping(ticket: nat)                   // do_pop: taking from the slot of the ticket

  /** `pushed` and `popped` record history: the element of every push ticket, and what every
      pop ticket has returned so far. */
  datatype State<T> = State(head: nat, tail: nat, slots: seq<Option<T>>, threads: seq<PC<T>>,
                            pushed: seq<T>, popped: seq<Option<T>>)

  datatype Action<T> = BeginTryPush(elem: T) | BeginPush(elem: T) | BeginTryPop | BeginPop | Advance

  function SetPC<T>(s: State<T>, i: nat, pc: PC<T>): State<T>
    requires i < |s.threads|
  {
    s.(threads := s.threads[i := pc])
  }

  function TakePushTicket<T>(s: State<T>, i: nat, e: T): State<T>
    requires i < |s.threads|
  {
    s.(head := s.head + 1, pushed := s.pushed + [e], threads := s.threads[i := Pushing(e, s.head)])
  }

  function TakePopTicket<T>(s: State<T>, i: nat): State<T>
    requires i < |s.threads|
  {
    s.(tail := s.tail + 1, popped := s.popped + [None], threads := s.threads[i := Popping(s.tail)])
  }

  /** try_push: give up if the ring looks full, else go on to the compare-exchange. */
  function CheckPush<T>(c: Config, s: State<T>, i: nat, e: T, h: nat): State<T>
    requires i < |s.threads|
  {
    if Diff32(Low32(h), Low32(s.tail)) >= Size(c) then SetPC(s, i, Idle)
    else SetPC(s, i, PushChecked(e, h, s.tail))
  }

  function CasHead<T>(s: State<T>, i: nat, e: T, h: nat): State<T>
    requires i < |s.threads|
  {
    if Low32(s.head) == Low32(h) then TakePushTicket(s, i, e) else SetPC(s, i, PushLoaded(e, s.head))
  }

  function CheckPop<T>(s: State<T>, i: nat, t: nat): State<T>
    requires i < |s.threads|
  {
    if Diff32(Low32(s.head), Low32(t)) <= 0 then SetPC(s, i, Idle)
    else SetPC(s, i, PopChecked(t, s.head))
  }

  function CasTail<T>(s: State<T>, i: nat, t: nat): State<T>
    requires i < |s.threads|
  {
    if Low32(s.tail) == Low32(t) then TakePopTicket(s, i) else SetPC(s, i, PopLoaded(s.tail))
  }

  /** do_push_atomic: compare-exchange NIL for the element, or spin. */
  function Store<T>(c: Config, s: State<T>, i: nat, e: T, ticket: nat): State<T>
    requires i < |s.threads| && SlotOf(c, ticket) < |s.slots|
  {
    if s.slots[SlotOf(c, ticket)].Some? then s
    else SetPC(s, i, Idle).(slots := s.slots[SlotOf(c, ticket) := Some(e)])
  }

  /** do_pop_atomic: exchange the slot with NIL; spin if it was NIL. */
  function Take<T>(c: Config, s: State<T>, i: nat, ticket: nat): State<T>
    requires i < |s.threads| && SlotOf(c, ticket) < |s.slots| && ticket < |s.popped|
  {
    var j := SlotOf(c, ticket);
    if s.slots[j].None? then s
    else SetPC(s, i, Idle).(slots := s.slots[j := None], popped := s.popped[ticket := s.slots[j]])
  }

  /** Tickets refer to existing slots and history entries. */
  ghost predicate TicketsInBounds<T>(c: Config, s: State<T>, i: nat)
    requires i < |s.threads|
  {
    match s.threads[i]
    case Pushing(_, t) => SlotOf(c, t) < |s.slots|
    case Popping(t) => SlotOf(c, t) < |s.slots| && t < |s.popped|
    case _ => true
  }

  ghost predicate Enabled<T>(c: Config, s: State<T>, i: nat, a: Action<T>) {
    && i < |s.threads|
    && TicketsInBounds(c, s, i)
    && (s.threads[i].Idle? <==> !a.Advance?)
  }

  ghost function Step<T>(c: Config, s: State<T>, i: nat, a: Action<T>): State<T>
    requires Enabled(c, s, i, a)
  {
    match a
    case BeginTryPush(e) => SetPC(s, i, PushLoaded(e, s.head))
    case BeginPush(e) => TakePushTicket(s, i, e)
    case BeginTryPop => SetPC(s, i, PopLoaded(s.tail))
    case BeginPop => TakePopTicket(s, i)
    case Advance =>
      match s.threads[i]
      case PushLoaded(e, h) => CheckPush(c, s, i, e, h)
      case PushChecked(e, h, _) => CasHead(s, i, e, h)
      case Pushing(e, t) => Store(c, s, i, e, t)
      case PopLoaded(t) => CheckPop(s, i, t)
      case PopChecked(t, _) => CasTail(s, i, t)
      case Popping(t) => Take(c, s, i, t)
      case Idle => s
  }

  /** Which calls a program makes: all of them, only try_push/try_pop, or push/try_pop as the
      task runtime does. */
  datatype Mode = AnyCall | TryCalls | PushTryPop

  predicate Allowed<T>(mode: Mode, a: Action<T>) {
    match a
    case BeginTryPush(_) => mode != PushTryPop
    case BeginPush(_) => mode != TryCalls
    case BeginPop => mode == AnyCall
    case _ => true
  }

  // ------------------------------------------------------------------ runs

  ghost predicate Init<T>(c: Config, s: State<T>) {
    && s.head == s.tail == 0 && s.pushed == [] && s.popped == []
    && |s.slots| == Size(c) && (forall j :: 0 <= j < |s.slots| ==> s.slots[j].None?)
    && (forall i :: 0 <= i < |s.threads| ==> s.threads[i].Idle?)
  }

  /** No thread sleeps through 2^32 increments between a load and its compare-exchange, and the
      counters it compares are less than 2^31 apart. */
  ghost predicate Calm<T>(s: State<T>) {
    forall i :: 0 <= i < |s.threads| ==> CalmThread(s, s.threads[i])
  }

  ghost predicate CalmThread<T>(s: State<T>, pc: PC<T>) {
    match pc
    case PushLoaded(_, h) => -HALF <= h - s.tail < HALF
    case PushChecked(_, h, _) => s.head < h + WRAP
    case PopLoaded(t) => -HALF <= s.head - t < HALF
    case PopChecked(t, _) => s.tail < t + WRAP
    case _ => true
  }

  ghost predicate Next<T(!new)>(c: Config, mode: Mode, s: State<T>, s': State<T>) {
    Calm(s) && exists i: nat, a: Action<T> :: Allowed(mode, a) && Enabled(c, s, i, a) && s' == Step(c, s, i, a)
  }

  ghost predicate IsRun<T(!new)>(c: Config, mode: Mode, run: seq<State<T>>) {
    && |run| > 0 && Init(c, run[0])
    && forall n :: 0 <= n < |run| - 1 ==> Next(c, mode, run[n], run[n + 1])
  }

  /** A run goes on with any allowed step of its last state. */
  lemma ExtendRun<T(!new)>(c: Config, mode: Mode, run: seq<State<T>>, i: nat, a: Action<T>, s': State<T>)
    requires IsRun(c, mode, run) && Allowed(mode, a)
    requires var s := run[|run| - 1]; Calm(s) && Enabled(c, s, i, a) && s' == Step(c, s, i, a)
    ensures IsRun(c, mode, run + [s'])
  {
    var longer := run + [s'];
    forall n | 0 <= n < |longer| - 1 ensures Next(c, mode, longer[n], longer[n + 1]) {
      assert longer[n] == run[n];
      if n + 1 < |run| { assert Next(c, mode, run[n], run[n + 1]); }
    }
  }

  // ------------------------------------------------------------------ basic invariant

  ghost predicate ThreadOk<T>(c: Config, s: State<T>, pc: PC<T>) {
    match pc
    case Idle => true
    case PushLoaded(_, h) => h <= s.head
    case PushChecked(_, h, tl) => h <= s.head && tl <= s.tail && h < tl + Size(c)
    case Pushing(e, t) => t < s.head && t < |s.pushed| && s.pushed[t] == e
    case PopLoaded(t) => t <= s.tail
    case PopChecked(t, hd) => t <= s.tail && t < hd <= s.head
    case Popping(t) => t < s.tail && t < |s.popped| && s.popped[t].None?
  }

  /** Two threads never hold the same ticket. */
  ghost predicate TicketsDiffer<T>(p: PC<T>, q: PC<T>) {
    && (p.Pushing? && q.Pushing? ==> p.ticket != q.ticket)
    && (p.Popping? && q.Popping? ==> p.ticket != q.ticket)
  }

  ghost predicate Inv<T>(c: Config, s: State<T>) {
    && |s.slots| == Size(c) && |s.pushed| == s.head && |s.popped| == s.tail
    && (forall i :: 0 <= i < |s.threads| ==> ThreadOk(c, s, s.threads[i]))
    && (forall i, j :: 0 <= i < j < |s.threads| ==> TicketsDiffer(s.threads[i], s.threads[j]))
  }

  lemma SlotInRing(c: Config, ticket: nat)
    requires ValidConfig(c)
    ensures SlotOf(c, ticket) < Size(c)
  {
    SlotOfTicket(c, ticket);
    RemapInRange(c.bits, c.m, ticket % Pow2(c.m));
  }

  lemma InvSetPC<T>(c: Config, s: State<T>, i: nat, pc: PC<T>)
    requires Inv(c, s) && i < |s.threads| && ThreadOk(c, s, pc) && !pc.Pushing? && !pc.Popping?
    ensures Inv(c, SetPC(s, i, pc))
  {
    var s' := SetPC(s, i, pc);
    forall j | 0 <= j < |s'.threads| ensures ThreadOk(c, s', s'.threads[j]) {
      assert ThreadOk(c, s, s.threads[j]);
    }
    forall j, k | 0 <= j < k < |s'.threads| ensures TicketsDiffer(s'.threads[j], s'.threads[k]) {
      assert TicketsDiffer(s.threads[j], s.threads[k]);
    }
  }

  lemma InvTakePush<T>(c: Config, s: State<T>, i: nat, e: T)
    requires Inv(c, s) && i < |s.threads|
    ensures Inv(c, TakePushTicket(s, i, e))
  {
    var s' := TakePushTicket(s, i, e);
    forall j | 0 <= j < |s'.threads| ensures ThreadOk(c, s', s'.threads[j]) {
      assert ThreadOk(c, s, s.threads[j]);
    }
    forall j, k | 0 <= j < k < |s'.threads| ensures TicketsDiffer(s'.threads[j], s'.threads[k]) {
      assert TicketsDiffer(s.threads[j], s.threads[k]);
      assert ThreadOk(c, s, s.threads[j]) && ThreadOk(c, s, s.threads[k]);
    }
  }

  lemma InvTakePop<T>(c: Config, s: State<T>, i: nat)
    requires Inv(c, s) && i < |s.threads|
    ensures Inv(c, TakePopTicket(s, i))
  {
    var s' := TakePopTicket(s, i);
    forall j | 0 <= j < |s'.threads| ensures ThreadOk(c, s', s'.threads[j]) {
      assert ThreadOk(c, s, s.threads[j]);
    }
    forall j, k | 0 <= j < k < |s'.threads| ensures TicketsDiffer(s'.threads[j], s'.threads[k]) {
      assert TicketsDiffer(s.threads[j], s.threads[k]);
      assert ThreadOk(c, s, s.threads[j]) && ThreadOk(c, s, s.threads[k]);
    }
  }

  lemma InvStore<T>(c: Config, s: State<T>, i: nat, e: T, t: nat)
    requires Inv(c, s) && i < |s.threads| && SlotOf(c, t) < |s.slots|
    ensures Inv(c, Store(c, s, i, e, t))
  {
    if s.slots[SlotOf(c, t)].None? {
      InvSetPC(c, s, i, Idle);
      var s1, s' := SetPC(s, i, Idle), Store(c, s, i, e, t);
      forall j | 0 <= j < |s'.threads| ensures ThreadOk(c, s', s'.threads[j]) {
        assert ThreadOk(c, s1, s1.threads[j]);
      }
    }
  }

  lemma InvTake<T>(c: Config, s: State<T>, i: nat, t: nat)
    requires Inv(c, s) && i < |s.threads| && s.threads[i] == Popping(t) && SlotOf(c, t) < |s.slots| && t < |s.popped|
    ensures Inv(c, Take(c, s, i, t))
  {
    if s.slots[SlotOf(c, t)].Some? {
      InvSetPC(c, s, i, Idle);
      var s1, s' := SetPC(s, i, Idle), Take(c, s, i, t);
      forall j | 0 <= j < |s'.threads| ensures ThreadOk(c, s', s'.threads[j]) {
        assert ThreadOk(c, s1, s1.threads[j]);
        if j < i { assert TicketsDiffer(s.threads[j], s.threads[i]); }
        if i < j { assert TicketsDiffer(s.threads[i], s.threads[j]); }
      }
    }
  }

  /** Every step keeps the invariant. */
  lemma InvStep<T>(c: Config, s: State<T>, i: nat, a: Action<T>)
    requires Inv(c, s) && Calm(s) && Enabled(c, s, i, a)
    ensures Inv(c, Step(c, s, i, a))
  {
    assert ThreadOk(c, s, s.threads[i]) && CalmThread(s, s.threads[i]);
    match a {
      case BeginTryPush(e) => InvSetPC(c, s, i, PushLoaded(e, s.head));
      case BeginPush(e) => InvTakePush(c, s, i, e);
      case BeginTryPop => InvSetPC(c, s, i, PopLoaded(s.tail));
      case BeginPop => InvTakePop(c, s, i);
      case Advance => InvAdvance(c, s, i);
    }
  }

  lemma InvAdvance<T>(c: Config, s: State<T>, i: nat)
    requires Inv(c, s) && Enabled(c, s, i, Advance)
    requires ThreadOk(c, s, s.threads[i]) && CalmThread(s, s.threads[i])
    ensures Inv(c, Step(c, s, i, Advance))
  {
    match s.threads[i] {
      case PushLoaded(e, h) =>
        DiffExact(h, s.tail);
        InvSetPC(c, s, i, if h - s.tail >= Size(c) then Idle else PushChecked(e, h, s.tail));
      case PushChecked(e, h, _) =>
        InvTakePush(c, s, i, e);
        InvSetPC(c, s, i, PushLoaded(e, s.head));
      case Pushing(e, t) => InvStore(c, s, i, e, t);
      case PopLoaded(t) =>
        DiffExact(s.head, t);
        InvSetPC(c, s, i, if s.head - t <= 0 then Idle else PopChecked(t, s.head));
      case PopChecked(t, _) =>
        InvTakePop(c, s, i);
        InvSetPC(c, s, i, PopLoaded(s.tail));
      case Popping(t) => InvTake(c, s, i, t);
    }
  }

  lemma {:induction false} InvRun<T(!new)>(c: Config, mode: Mode, run: seq<State<T>>, n: nat)
    requires ValidConfig(c) && IsRun(c, mode, run) && n < |run|
    ensures Inv(c, run[n])
  {
    if n > 0 {
      InvRun(c, mode, run, n - 1);
      assert Next(c, mode, run[n - 1], run[n - 1 + 1]);
      var i: nat, a: Action<T> :| Allowed(mode, a) && Enabled(c, run[n - 1], i, a)
        && run[n] == Step(c, run[n - 1], i, a);
      InvStep(c, run[n - 1], i, a);
    }
  }

  /** In a state of a run every thread can take its next step. */
  lemma AlwaysEnabled<T>(c: Config, s: State<T>, i: nat)
    requires ValidConfig(c) && Inv(c, s) && i < |s.threads| && !s.threads[i].Idle?
    ensures Enabled(c, s, i, Advance)
  {
    assert ThreadOk(c, s, s.threads[i]);
    match s.threads[i] {
      case Pushing(_, t) => SlotInRing(c, t);
      case Popping(t) => SlotInRing(c, t);
      case _ =>
    }
  }
}
