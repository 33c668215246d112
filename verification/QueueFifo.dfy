/** When no slot ever has two pushes or two pops in flight, the queue is a FIFO: the pop that holds
    ticket t returns the element that was pushed with ticket t. */
module QueueFifo {
  import opened Options
  import opened AtomicQueue
  import opened QueueLedger

  /** No slot has two pushes in flight, or two pops in flight. */
  ghost predicate NonOverlapping<T>(c: Config, s: State<T>) {
    forall i, j :: 0 <= i < j < |s.threads| ==> SlotsDiffer(c, s.threads[i], s.threads[j])
  }

  ghost predicate SlotsDiffer<T>(c: Config, p: PC<T>, q: PC<T>) {
    && (p.Pushing? && q.Pushing? ==> SlotOf(c, p.ticket) != SlotOf(c, q.ticket))
    && (p.Popping? && q.Popping? ==> SlotOf(c, p.ticket) != SlotOf(c, q.ticket))
  }

  /** The push with ticket t is still in flight. */
  ghost predicate PushPending<T>(s: State<T>, t: nat) {
    exists i :: 0 <= i < |s.threads| && s.threads[i].Pushing? && s.threads[i].ticket == t
  }

  ghost predicate PushDone<T>(s: State<T>, t: nat) {
    t < |s.pushed| && !PushPending(s, t)
  }

  ghost predicate PopDone<T>(s: State<T>, t: nat) {
    t < |s.popped| && s.popped[t].Some?
  }

  /** A later push on the same slot completes only after the earlier ticket was popped. */
  ghost predicate Alternates<T>(c: Config, s: State<T>, a: nat, b: nat) {
    a < b && SlotOf(c, a) == SlotOf(c, b) && PushDone(s, b) ==> PopDone(s, a)
  }

  /** The pop with ticket t returned the element of push ticket t, after that push completed. */
  ghost predicate Paired<T>(s: State<T>, t: nat) {
    PopDone(s, t) ==> PushDone(s, t) && s.popped[t] == Some(s.pushed[t])
  }

  /** A completed push that was not popped sits in its slot. */
  ghost predicate Sits<T>(c: Config, s: State<T>, t: nat) {
    PushDone(s, t) && !PopDone(s, t) ==> SlotOf(c, t) < |s.slots| && s.slots[SlotOf(c, t)] == Some(s.pushed[t])
  }

  /** An occupied slot holds a completed push that was not popped. */
  ghost predicate Explained<T>(c: Config, s: State<T>, j: nat)
    requires j < |s.slots|
  {
    s.slots[j].Some? ==> exists t :: 0 <= t && SlotOf(c, t) == j && PushDone(s, t) && !PopDone(s, t)
  }

  ghost predicate Fifo<T>(c: Config, s: State<T>) {
    && (forall a: nat, b: nat :: Alternates(c, s, a, b))
    && (forall t: nat :: Paired(s, t))
    && (forall t: nat :: Sits(c, s, t))
    && (forall j :: 0 <= j < |s.slots| ==> Explained(c, s, j))
  }

  /** Under the restriction, no other push is in flight on the slot of a pending push. */
  lemma OnlyPush<T>(c: Config, s: State<T>, i: nat, t: nat)
    requires NonOverlapping(c, s) && i < |s.threads| && s.threads[i].Pushing?
    requires t != s.threads[i].ticket && SlotOf(c, t) == SlotOf(c, s.threads[i].ticket)
    ensures !PushPending(s, t)
  {
    forall k | 0 <= k < |s.threads| && s.threads[k].Pushing? ensures s.threads[k].ticket != t {
      if k < i { assert SlotsDiffer(c, s.threads[k], s.threads[i]); }
      if i < k { assert SlotsDiffer(c, s.threads[i], s.threads[k]); }
    }
  }

  /** Every pop ticket that was taken is either in flight or done. */
  ghost predicate PopsAccounted<T>(s: State<T>) {
    forall t :: 0 <= t < |s.popped| ==> PopAccounted(s, t)
  }

  ghost predicate PopAccounted<T>(s: State<T>, t: nat)
    requires t < |s.popped|
  {
    s.popped[t].Some? || exists i :: 0 <= i < |s.threads| && s.threads[i].Popping? && s.threads[i].ticket == t
  }

  lemma OnlyPop<T>(c: Config, s: State<T>, i: nat, t: nat)
    requires NonOverlapping(c, s) && PopsAccounted(s) && i < |s.threads| && s.threads[i].Popping?
    requires t != s.threads[i].ticket && SlotOf(c, t) == SlotOf(c, s.threads[i].ticket) && t < |s.popped|
    ensures PopDone(s, t)
  {
    assert PopAccounted(s, t);
    forall k | 0 <= k < |s.threads| && s.threads[k].Popping? ensures s.threads[k].ticket != t {
      if k < i { assert SlotsDiffer(c, s.threads[k], s.threads[i]); }
      if i < k { assert SlotsDiffer(c, s.threads[i], s.threads[k]); }
    }
  }

  /** What the slot of a pending pop holds is the element of its own ticket. */
  lemma PopMatches<T>(c: Config, s: State<T>, i: nat)
    requires Inv(c, s) && NonOverlapping(c, s) && PopsAccounted(s) && Fifo(c, s)
    requires i < |s.threads| && s.threads[i].Popping?
    requires SlotOf(c, s.threads[i].ticket) < |s.slots| && s.slots[SlotOf(c, s.threads[i].ticket)].Some?
    ensures var t := s.threads[i].ticket;
            PushDone(s, t) && !PopDone(s, t) && s.slots[SlotOf(c, t)] == Some(s.pushed[t])
  {
    var t := s.threads[i].ticket;
    var j := SlotOf(c, t);
    assert ThreadOk(c, s, s.threads[i]);
    assert Explained(c, s, j);
    var u :| 0 <= u && SlotOf(c, u) == j && PushDone(s, u) && !PopDone(s, u);
    assert Alternates(c, s, t, u);
    if u < t { OnlyPop(c, s, i, u); }
    assert Sits(c, s, u);
  }

  // ------------------------------------------------------------------ preservation

  /** Changing one thread does not affect which other tickets are pending. */
  lemma PendingUpdate<T>(s: State<T>, i: nat, pc: PC<T>, t: nat)
    requires i < |s.threads|
    requires s.threads[i].Pushing? ==> s.threads[i].ticket != t
    requires pc.Pushing? ==> pc.ticket != t
    ensures PushPending(SetPC(s, i, pc), t) <==> PushPending(s, t)
  {
    var s' := SetPC(s, i, pc);
    if PushPending(s, t) {
      var k :| 0 <= k < |s.threads| && s.threads[k].Pushing? && s.threads[k].ticket == t;
      assert s'.threads[k] == s.threads[k];
    }
    if PushPending(s', t) {
      var k :| 0 <= k < |s'.threads| && s'.threads[k].Pushing? && s'.threads[k].ticket == t;
      assert s.threads[k] == s'.threads[k];
    }
  }

  /** Fifo depends only on which pushes are done, on the slots and on the history. */
  lemma FifoFrame<T>(c: Config, s: State<T>, s': State<T>)
    requires Fifo(c, s) && s'.slots == s.slots && s.pushed <= s'.pushed && s.popped <= s'.popped
    requires forall t :: |s.popped| <= t < |s'.popped| ==> s'.popped[t].None?
    requires forall t: nat :: PushDone(s', t) <==> PushDone(s, t)
    ensures Fifo(c, s')
  {
    forall a: nat, b: nat ensures Alternates(c, s', a, b) { assert Alternates(c, s, a, b); }
    forall t: nat ensures Paired(s', t) { assert Paired(s, t); }
    forall t: nat ensures Sits(c, s', t) { assert Sits(c, s, t); }
    forall j | 0 <= j < |s'.slots| ensures Explained(c, s', j) {
      assert Explained(c, s, j);
      if s.slots[j].Some? {
        var t :| 0 <= t && SlotOf(c, t) == j && PushDone(s, t) && !PopDone(s, t);
        assert PushDone(s', t) && !PopDone(s', t);
      }
    }
  }

  lemma FifoSetPC<T>(c: Config, s: State<T>, i: nat, pc: PC<T>)
    requires Fifo(c, s) && i < |s.threads| && !s.threads[i].Pushing? && !pc.Pushing?
    ensures Fifo(c, SetPC(s, i, pc))
  {
    var s' := SetPC(s, i, pc);
    forall t: nat ensures PushDone(s', t) <==> PushDone(s, t) { PendingUpdate(s, i, pc, t); }
    FifoFrame(c, s, s');
  }

  lemma FifoTakePush<T>(c: Config, s: State<T>, i: nat, e: T)
    requires Inv(c, s) && Fifo(c, s) && i < |s.threads| && !s.threads[i].Pushing?
    ensures Fifo(c, TakePushTicket(s, i, e))
  {
    var s' := TakePushTicket(s, i, e);
    forall t: nat ensures PushDone(s', t) <==> PushDone(s, t) {
      if t == s.head {
        assert s'.threads[i] == Pushing(e, t);
      } else {
        PendingUpdate(s, i, Pushing(e, s.head), t);
        assert s'.threads == SetPC(s, i, Pushing(e, s.head)).threads;
      }
    }
    FifoFrame(c, s, s');
  }

  lemma FifoTakePop<T>(c: Config, s: State<T>, i: nat)
    requires Fifo(c, s) && i < |s.threads| && !s.threads[i].Pushing?
    ensures Fifo(c, TakePopTicket(s, i))
  {
    var s' := TakePopTicket(s, i);
    forall t: nat ensures PushDone(s', t) <==> PushDone(s, t) {
      PendingUpdate(s, i, Popping(s.tail), t);
      assert s'.threads == SetPC(s, i, Popping(s.tail)).threads;
    }
    FifoFrame(c, s, s');
  }

  /** After the store, the stored ticket is done and nothing else changed. */
  lemma StoreDone<T>(c: Config, s: State<T>, i: nat, e: T, p: nat, t: nat)
    requires Inv(c, s) && i < |s.threads| && s.threads[i] == Pushing(e, p)
    requires SlotOf(c, p) < |s.slots| && s.slots[SlotOf(c, p)].None?
    ensures PushDone(Store(c, s, i, e, p), t) <==> PushDone(s, t) || t == p
    ensures !PushDone(s, p)
  {
    var s' := Store(c, s, i, e, p);
    assert ThreadOk(c, s, s.threads[i]);
    if t == p {
      forall k | 0 <= k < |s'.threads| && s'.threads[k].Pushing? ensures s'.threads[k].ticket != p {
        if k < i { assert TicketsDiffer(s.threads[k], s.threads[i]); }
        if i < k { assert TicketsDiffer(s.threads[i], s.threads[k]); }
      }
    } else {
      PendingUpdate(s, i, Idle, t);
      assert s'.threads == SetPC(s, i, Idle).threads;
    }
  }

  lemma FifoStore<T>(c: Config, s: State<T>, i: nat, e: T, p: nat)
    requires Inv(c, s) && NonOverlapping(c, s) && Fifo(c, s) && i < |s.threads| && s.threads[i] == Pushing(e, p)
    requires SlotOf(c, p) < |s.slots| && s.slots[SlotOf(c, p)].None?
    ensures Fifo(c, Store(c, s, i, e, p))
  {
    var s' := Store(c, s, i, e, p);
    assert ThreadOk(c, s, s.threads[i]);
    forall t: nat ensures PushDone(s', t) <==> PushDone(s, t) || t == p { StoreDone(c, s, i, e, p, t); }
    assert !PushDone(s, p) by { StoreDone(c, s, i, e, p, p); }
    forall a: nat, b: nat ensures Alternates(c, s', a, b) {
      assert Alternates(c, s, a, b);
      if b == p && a < b && SlotOf(c, a) == SlotOf(c, b) {
        OnlyPush(c, s, i, a);
        assert Sits(c, s, a);
      }
    }
    forall t: nat ensures Paired(s', t) { assert Paired(s, t); }
    forall t: nat ensures Sits(c, s', t) { assert Sits(c, s, t); }
    forall j | 0 <= j < |s'.slots| ensures Explained(c, s', j) {
      assert Explained(c, s, j);
      if j == SlotOf(c, p) {
        assert Paired(s, p);
        assert PushDone(s', p) && !PopDone(s', p);
      } else if s.slots[j].Some? {
        var t :| 0 <= t && SlotOf(c, t) == j && PushDone(s, t) && !PopDone(s, t);
        assert PushDone(s', t) && !PopDone(s', t);
      }
    }
  }

  lemma FifoTake<T>(c: Config, s: State<T>, i: nat, p: nat)
    requires Inv(c, s) && NonOverlapping(c, s) && PopsAccounted(s) && Fifo(c, s)
    requires i < |s.threads| && s.threads[i] == Popping(p) && p < |s.popped|
    requires SlotOf(c, p) < |s.slots| && s.slots[SlotOf(c, p)].Some?
    ensures Fifo(c, Take(c, s, i, p))
  {
    var s' := Take(c, s, i, p);
    PopMatches(c, s, i);
    forall t: nat ensures PushDone(s', t) <==> PushDone(s, t) {
      PendingUpdate(s, i, Idle, t);
      assert s'.threads == SetPC(s, i, Idle).threads;
    }
    forall t: nat ensures PopDone(s', t) <==> PopDone(s, t) || t == p {}
    forall a: nat, b: nat ensures Alternates(c, s', a, b) { assert Alternates(c, s, a, b); }
    forall t: nat ensures Paired(s', t) { assert Paired(s, t); }
    forall t: nat ensures Sits(c, s', t) {
      assert Sits(c, s, t) && Alternates(c, s, t, p) && Alternates(c, s, p, t);
    }
    forall j | 0 <= j < |s'.slots| ensures Explained(c, s', j) {
      assert Explained(c, s, j);
      if s'.slots[j].Some? {
        var t :| 0 <= t && SlotOf(c, t) == j && PushDone(s, t) && !PopDone(s, t);
        assert PushDone(s', t) && !PopDone(s', t);
      }
    }
  }

  lemma AccountedUpdate<T>(s: State<T>, s': State<T>, i: nat)
    requires PopsAccounted(s) && i < |s.threads| == |s'.threads| && |s.popped| <= |s'.popped|
    requires forall k :: 0 <= k < |s.threads| && k != i ==> s'.threads[k] == s.threads[k]
    requires forall t :: 0 <= t < |s.popped| ==> s'.popped[t] == s.popped[t] || s'.popped[t].Some?
    requires forall t :: 0 <= t < |s'.popped| && s.threads[i] == Popping(t) ==>
             s'.popped[t].Some? || s'.threads[i] == Popping(t)
    requires forall t :: |s.popped| <= t < |s'.popped| ==> s'.threads[i] == Popping(t)
    ensures PopsAccounted(s')
  {
    forall t | 0 <= t < |s'.popped| ensures PopAccounted(s', t) {
      if t < |s.popped| {
        assert PopAccounted(s, t);
        if s.popped[t].None? {
          var k :| 0 <= k < |s.threads| && s.threads[k].Popping? && s.threads[k].ticket == t;
          assert s.threads[k] == Popping(t);
          if s'.popped[t].None? { assert s'.threads[k] == Popping(t); }
        }
      } else {
        assert s'.threads[i] == Popping(t);
      }
    }
  }

  lemma AccountedStep<T>(c: Config, s: State<T>, i: nat, a: Action<T>)
    requires Inv(c, s) && PopsAccounted(s) && Enabled(c, s, i, a)
    ensures PopsAccounted(Step(c, s, i, a))
  {
    AccountedUpdate(s, Step(c, s, i, a), i);
  }

  lemma FifoStep<T>(c: Config, s: State<T>, i: nat, a: Action<T>)
    requires Inv(c, s) && NonOverlapping(c, s) && PopsAccounted(s) && Fifo(c, s) && Enabled(c, s, i, a)
    ensures Fifo(c, Step(c, s, i, a))
  {
    match a {
      case BeginTryPush(e) => FifoSetPC(c, s, i, PushLoaded(e, s.head));
      case BeginPush(e) => FifoTakePush(c, s, i, e);
      case BeginTryPop => FifoSetPC(c, s, i, PopLoaded(s.tail));
      case BeginPop => FifoTakePop(c, s, i);
      case Advance => FifoAdvance(c, s, i);
    }
  }

  lemma FifoAdvance<T>(c: Config, s: State<T>, i: nat)
    requires Inv(c, s) && NonOverlapping(c, s) && PopsAccounted(s) && Fifo(c, s) && Enabled(c, s, i, Advance)
    ensures Fifo(c, Step(c, s, i, Advance))
  {
    match s.threads[i] {
      case PushLoaded(e, h) =>
        FifoSetPC(c, s, i, if Diff32(Low32(h), Low32(s.tail)) >= Size(c) then Idle else PushChecked(e, h, s.tail));
      case PushChecked(e, h, _) =>
        FifoTakePush(c, s, i, e);
        FifoSetPC(c, s, i, PushLoaded(e, s.head));
      case Pushing(e, t) =>
        if s.slots[SlotOf(c, t)].None? { FifoStore(c, s, i, e, t); }
      case PopLoaded(t) =>
        FifoSetPC(c, s, i, if Diff32(Low32(s.head), Low32(t)) <= 0 then Idle else PopChecked(t, s.head));
      case PopChecked(t, _) =>
        FifoTakePop(c, s, i);
        FifoSetPC(c, s, i, PopLoaded(s.tail));
      case Popping(t) =>
        if s.slots[SlotOf(c, t)].Some? { FifoTake(c, s, i, t); }
    }
  }

  // ------------------------------------------------------------------ theorems over whole runs

  lemma {:induction false} FifoRun<T(!new)>(c: Config, mode: Mode, run: seq<State<T>>, n: nat)
    requires IsRun(c, mode, run) && n < |run| && forall k :: 0 <= k < |run| ==> NonOverlapping(c, run[k])
    ensures Fifo(c, run[n]) && PopsAccounted(run[n])
  {
    if n == 0 {
      var s := run[0];
      forall j | 0 <= j < |s.slots| ensures Explained(c, s, j) {}
    } else {
      FifoRun(c, mode, run, n - 1);
      SoundRun(c, mode, run, n - 1);
      var s := run[n - 1];
      assert Next(c, mode, s, run[n - 1 + 1]);
      var i: nat, a: Action<T> :| Allowed(mode, a) && Enabled(c, s, i, a) && run[n] == Step(c, s, i, a);
      FifoStep(c, s, i, a);
      AccountedStep(c, s, i, a);
    }
  }

  /** In any run without overlapping operations on a slot, the pop with ticket t returns the element
      pushed with ticket t. */
  lemma PopReturnsOwnTicket<T(!new)>(c: Config, mode: Mode, run: seq<State<T>>, n: nat, t: nat)
    requires IsRun(c, mode, run) && n < |run| && forall k :: 0 <= k < |run| ==> NonOverlapping(c, run[k])
    requires t < |run[n].popped| && run[n].popped[t].Some?
    ensures t < |run[n].pushed| && run[n].popped[t] == Some(run[n].pushed[t])
  {
    FifoRun(c, mode, run, n);
    assert Paired(run[n], t);
  }
}
