/** The task runtime driven by one worker: poll the waiting queue, run what is ready, put the rest back. */
module TaskWorker {
  import opened Options
  import opened TaskGraph

  datatype Task = Task(name: Label, deps: seq<Label>)

  ghost predicate Unique(tasks: seq<Task>) {
    forall i, j :: 0 <= i < j < |tasks| ==> tasks[i].name != tasks[j].name
  }

  function Labels(tasks: seq<Task>): set<Label> {
    set i | 0 <= i < |tasks| :: tasks[i].name
  }

  ghost predicate Ready(t: Task, done: set<Label>) {
    AllIn(t.deps, done)
  }

  class Runtime {
    var taskCount: nat
    var finished: set<Label>
    var queue: seq<Task>
    var terminated: bool

    constructor ()
      ensures taskCount == 0 && finished == {} && queue == [] && !terminated
    {
      taskCount, finished, queue, terminated := 0, {}, [], false;
    }

    method AddTask(t: Task)
      modifies `taskCount, `queue
      ensures taskCount == old(taskCount) + 1 && queue == old(queue) + [t]
    {
      taskCount := taskCount + 1;
      queue := queue + [t];
    }

    /** checkTaskReady: every dependency has finished. */
    method CheckTaskReady(t: Task) returns (ready: bool)
      ensures ready <==> Ready(t, finished)
    {
      for i := 0 to |t.deps|
        invariant AllIn(t.deps[..i], finished)
      {
        if t.deps[i] !in finished { return false; }
        assert t.deps[..i + 1] == t.deps[..i] + [t.deps[i]];
      }
      assert t.deps[..|t.deps|] == t.deps;
      ready := true;
    }

    /** checkWaitingTasks: terminate when no task is active; otherwise take the front task, return it if
        it is ready and put it at the back if not. */
    method CheckWaitingTasks() returns (task: Option<Task>)
      modifies `queue, `terminated
      ensures terminated == (old(terminated) || taskCount == 0)
      ensures taskCount == 0 || old(queue) == [] ==> task == None && queue == old(queue)
      ensures taskCount > 0 && old(queue) != [] ==>
                var front, rest := old(queue)[0], old(queue)[1..];
                if Ready(front, finished) then task == Some(front) && queue == rest
                else task == None && queue == rest + [front]
    {
      if taskCount == 0 {
        terminated := true;
        return None;
      }
      if queue == [] { return None; }
      var front := queue[0];
      queue := queue[1..];
      var ready := CheckTaskReady(front);
      if ready { return Some(front); }
      queue := queue + [front];
      task := None;
    }

    method OnTaskFinish(t: Task)
      requires taskCount > 0
      modifies `taskCount, `finished
      ensures taskCount == old(taskCount) - 1 && finished == old(finished) + {t.name}
    {
      taskCount := taskCount - 1;
      finished := finished + {t.name};
    }
  }

  // ------------------------------------------------------------------ one worker

  /** The graph holds exactly these tasks, which have unique labels. */
  ghost predicate Describes(g: Graph, tasks: seq<Task>) {
    && Unique(tasks) && g.Keys == Labels(tasks)
    && forall i :: 0 <= i < |tasks| ==> g[tasks[i].name] == tasks[i].deps
  }

  ghost predicate ReadyAt(ran: seq<Task>, k: nat) {
    k < |ran| && Ready(ran[k], Labels(ran[..k]))
  }

  /** Every task ran after everything it depends on. */
  ghost predicate Topological(ran: seq<Task>) {
    forall k :: 0 <= k < |ran| ==> ReadyAt(ran, k)
  }

  function Triangle(n: nat): nat {
    if n == 0 then 0 else n + Triangle(n - 1)
  }

  lemma {:induction false} TriangleFormula(n: nat)
    ensures Triangle(n) == n * (n + 1) / 2
  {
    if n > 0 { TriangleFormula(n - 1); }
  }

  lemma NamesIn(tasks: seq<Task>, some: seq<Task>)
    requires forall t :: t in some ==> t in tasks
    ensures Labels(some) <= Labels(tasks)
  {
    forall i | 0 <= i < |some| ensures some[i].name in Labels(tasks) {
      assert some[i] in tasks;
      var j :| 0 <= j < |tasks| && tasks[j] == some[i];
    }
  }

  /** The tasks that wait and those that ran are together all the tasks, each once. */
  ghost predicate Parted(tasks: seq<Task>, queue: seq<Task>, ran: seq<Task>) {
    multiset(queue) + multiset(ran) == multiset(tasks)
  }

  lemma PartedMember(tasks: seq<Task>, queue: seq<Task>, ran: seq<Task>, t: Task)
    requires Parted(tasks, queue, ran)
    ensures t in tasks <==> t in queue || t in ran
  {
    assert t in multiset(tasks) <==> t in multiset(queue) + multiset(ran);
  }

  lemma PartedNames(tasks: seq<Task>, queue: seq<Task>, ran: seq<Task>)
    requires Parted(tasks, queue, ran)
    ensures Labels(queue) <= Labels(tasks) <= Labels(queue) + Labels(ran)
  {
    forall t ensures t in tasks <==> t in queue || t in ran { PartedMember(tasks, queue, ran, t); }
    NamesIn(tasks, queue);
    NamesIn(queue + ran, tasks);
    forall l | l in Labels(queue + ran) ensures l in Labels(queue) + Labels(ran) {
      var i :| 0 <= i < |queue + ran| && (queue + ran)[i].name == l;
      if i < |queue| { assert queue[i].name == l; } else { assert ran[i - |queue|].name == l; }
    }
  }

  /** While tasks wait, one of them is ready. */
  lemma SomeReady(g: Graph, tasks: seq<Task>, queue: seq<Task>, ran: seq<Task>) returns (j: nat)
    requires Describes(g, tasks) && Closed(g) && !Cyclic(g) && queue != [] && Parted(tasks, queue, ran)
    ensures j < |queue| && Ready(queue[j], Labels(ran))
  {
    PartedNames(tasks, queue, ran);
    assert queue[0].name in Labels(queue);
    var t := ReadyExists(g, Labels(queue), Labels(ran));
    j :| 0 <= j < |queue| && queue[j].name == t;
    PartedMember(tasks, queue, ran, queue[j]);
    var i :| 0 <= i < |tasks| && tasks[i] == queue[j];
  }

  /** How many polls are needed at most until the queue is empty: task j of the queue is ready, so one of
      the first j + 1 polls runs a task, and then the shorter queue takes at most its triangle number. */
  ghost predicate Budget(queue: seq<Task>, done: set<Label>, budget: nat) {
    if queue == [] then budget == 0
    else exists j :: 0 <= j < |queue| && Ready(queue[j], done) && budget == Triangle(|queue| - 1) + j + 1
  }

  lemma NextBudget(g: Graph, tasks: seq<Task>, queue: seq<Task>, ran: seq<Task>) returns (budget: nat)
    requires Describes(g, tasks) && Closed(g) && !Cyclic(g) && Parted(tasks, queue, ran)
    ensures Budget(queue, Labels(ran), budget) && budget <= Triangle(|queue|)
  {
    budget := 0;
    if queue != [] {
      var j := SomeReady(g, tasks, queue, ran);
      budget := Triangle(|queue| - 1) + j + 1;
    }
  }

  lemma Rotated(queue: seq<Task>, done: set<Label>, budget: nat)
    requires queue != [] && Budget(queue, done, budget) && !Ready(queue[0], done)
    ensures budget > 0 && Budget(queue[1..] + [queue[0]], done, budget - 1)
  {
    var j :| 0 <= j < |queue| && Ready(queue[j], done) && budget == Triangle(|queue| - 1) + j + 1;
    assert (queue[1..] + [queue[0]])[j - 1] == queue[j];
  }

  lemma RanOneMore(ran: seq<Task>, t: Task)
    requires Topological(ran) && Ready(t, Labels(ran))
    ensures Topological(ran + [t]) && Labels(ran + [t]) == Labels(ran) + {t.name}
  {
    var now := ran + [t];
    forall k | 0 <= k < |now| ensures ReadyAt(now, k) {
      assert now[..k] == ran[..k];
      assert ran[..|ran|] == ran;
      assert k < |ran| ==> ReadyAt(ran, k);
    }
    forall l | l in Labels(ran) + {t.name} ensures l in Labels(now) {
      if l == t.name {
        assert now[|ran|].name == l;
      } else {
        var i :| 0 <= i < |ran| && ran[i].name == l;
        assert now[i].name == l;
      }
    }
  }

  /** The front task moves to what was run, or to the back. */
  lemma MoveFront(queue: seq<Task>, ran: seq<Task>, tasks: seq<Task>)
    requires queue != [] && Parted(tasks, queue, ran)
    ensures Parted(tasks, queue[1..], ran + [queue[0]]) && Parted(tasks, queue[1..] + [queue[0]], ran)
  {
    assert queue == [queue[0]] + queue[1..];
  }

  /** What holds between polls: `ran` is what was run so far. */
  ghost predicate Progress(tasks: seq<Task>, queue: seq<Task>, ran: seq<Task>, budget: nat) {
    Parted(tasks, queue, ran) && Topological(ran) && Budget(queue, Labels(ran), budget)
  }

  lemma BudgetAbove(queue: seq<Task>, done: set<Label>, budget: nat)
    requires queue != [] && Budget(queue, done, budget)
    ensures budget > Triangle(|queue| - 1)
  {}

  lemma StartProgress(g: Graph, tasks: seq<Task>) returns (budget: nat)
    requires Describes(g, tasks) && Closed(g) && !Cyclic(g)
    ensures Progress(tasks, tasks, [], budget) && budget <= Triangle(|tasks|) && Labels([]) == {}
  {
    budget := NextBudget(g, tasks, tasks, []);
  }

  lemma FrontRuns(g: Graph, tasks: seq<Task>, queue: seq<Task>, ran: seq<Task>, budget: nat) returns (budget': nat)
    requires Describes(g, tasks) && Closed(g) && !Cyclic(g) && Progress(tasks, queue, ran, budget)
    requires queue != [] && Ready(queue[0], Labels(ran))
    ensures Progress(tasks, queue[1..], ran + [queue[0]], budget') && budget' < budget
    ensures Labels(ran + [queue[0]]) == Labels(ran) + {queue[0].name}
  {
    MoveFront(queue, ran, tasks);
    RanOneMore(ran, queue[0]);
    BudgetAbove(queue, Labels(ran), budget);
    budget' := NextBudget(g, tasks, queue[1..], ran + [queue[0]]);
  }

  lemma FrontWaits(tasks: seq<Task>, queue: seq<Task>, ran: seq<Task>, budget: nat)
    requires Progress(tasks, queue, ran, budget) && queue != [] && !Ready(queue[0], Labels(ran))
    ensures budget > 0 && Progress(tasks, queue[1..] + [queue[0]], ran, budget - 1)
  {
    MoveFront(queue, ran, tasks);
    Rotated(queue, Labels(ran), budget);
  }

  ghost predicate Between(tasks: seq<Task>, rt: Runtime, ran: seq<Task>, budget: nat)
    reads rt
  {
    rt.taskCount == |rt.queue| && rt.finished == Labels(ran) && Progress(tasks, rt.queue, ran, budget)
  }

  /** One poll, and the run of the task it returns, if any. */
  method Poll(rt: Runtime, ghost tasks: seq<Task>, ran: seq<Task>, ghost g: Graph, ghost budget: nat)
    returns (ran': seq<Task>, ghost budget': nat)
    requires Describes(g, tasks) && Closed(g) && !Cyclic(g) && Between(tasks, rt, ran, budget) && !rt.terminated
    modifies rt
    ensures Between(tasks, rt, ran', budget') && (rt.terminated <==> old(rt.queue) == [])
    ensures if old(rt.queue) == [] then rt.queue == [] && budget' == 0 else budget' < budget
  {
    ghost var was := rt.queue;
    ran', budget' := ran, budget;
    if was != [] {
      if Ready(was[0], rt.finished) {
        budget' := FrontRuns(g, tasks, was, ran, budget);
      } else {
        FrontWaits(tasks, was, ran, budget);
        budget' := budget - 1;
      }
    }
    var task := rt.CheckWaitingTasks();
    if task.Some? {
      rt.OnTaskFinish(task.value);
      ran' := ran + [task.value];
    }
  }

  /** A new runtime with all tasks added. */
  method AddAll(tasks: seq<Task>) returns (rt: Runtime)
    ensures fresh(rt) && rt.taskCount == |tasks| && rt.queue == tasks && rt.finished == {} && !rt.terminated
  {
    rt := new Runtime();
    for i := 0 to |tasks|
      invariant fresh(rt) && rt.taskCount == i && rt.queue == tasks[..i] && rt.finished == {} && !rt.terminated
    {
      rt.AddTask(tasks[i]);
    }
  }

  /** The worker's loop. */
  method Work(rt: Runtime, ghost tasks: seq<Task>, ghost g: Graph, ghost budget: nat)
    returns (ran: seq<Task>, polls: nat)
    requires Describes(g, tasks) && Closed(g) && !Cyclic(g) && Between(tasks, rt, [], budget) && !rt.terminated
    modifies rt
    ensures Parted(tasks, [], ran) && Topological(ran) && polls <= budget + 1
  {
    ran, polls := [], 0;
    ghost var left := budget;
    while !rt.terminated
      invariant Between(tasks, rt, ran, left) && (rt.terminated ==> rt.queue == [])
      invariant polls + left + (if rt.terminated then 0 else 1) <= budget + 1
      decreases !rt.terminated, left
    {
      ran, left := Poll(rt, tasks, ran, g, left);
      polls := polls + 1;
    }
  }

  /** A worker that polls and runs what it gets: every task runs exactly once, after everything it
      depends on, and the worker terminates within n(n+1)/2 + 1 polls. */
  method RunAll(tasks: seq<Task>, ghost g: Graph) returns (ran: seq<Task>, polls: nat)
    requires Describes(g, tasks) && Closed(g) && !Cyclic(g)
    ensures multiset(ran) == multiset(tasks) && Topological(ran)
    ensures polls <= |tasks| * (|tasks| + 1) / 2 + 1
  {
    var rt := AddAll(tasks);
    ghost var budget := StartProgress(g, tasks);
    TriangleFormula(|tasks|);
    ran, polls := Work(rt, tasks, g, budget);
  }

  // ------------------------------------------------------------------ the condition is exact

  lemma NotDepending(g: Graph, t: Label, s: set<Label>, done: set<Label>)
    requires t in g && AllIn(g[t], done) && done !! s
    ensures !DependsOn(g, t, s)
  {
    forall d | d in g[t] ensures d !in s {
      var k :| 0 <= k < |g[t]| && g[t][k] == d;
    }
  }

  /** No task of a set without way out can be among the first k of a topological order. */
  lemma {:induction false} TrappedNeverRuns(ran: seq<Task>, g: Graph, s: set<Label>, k: nat)
    requires Topological(ran) && NoWayOut(g, s) && k <= |ran|
    requires forall t :: t in ran ==> t.name in g && g[t.name] == t.deps
    ensures Labels(ran[..k]) !! s
  {
    if k > 0 {
      TrappedNeverRuns(ran, g, s, k - 1);
      var t := ran[k - 1];
      assert t in ran && ran[..k] == ran[..k - 1] + [t];
      assert ReadyAt(ran, k - 1);
      NotDepending(g, t.name, s, Labels(ran[..k - 1]));
    }
  }

  lemma SameMembers(tasks: seq<Task>, ran: seq<Task>)
    requires multiset(ran) == multiset(tasks)
    ensures Labels(ran) == Labels(tasks) && forall t :: t in tasks <==> t in ran
  {
    forall t ensures t in tasks <==> t in ran { assert t in multiset(tasks) <==> t in multiset(ran); }
    NamesIn(ran, tasks);
    NamesIn(tasks, ran);
  }

  lemma CompletionNeedsClosed(tasks: seq<Task>, g: Graph, ran: seq<Task>)
    requires Describes(g, tasks) && multiset(ran) == multiset(tasks) && Topological(ran)
    ensures Closed(g)
  {
    SameMembers(tasks, ran);
    forall l, d | l in g && d in g[l] ensures d in g {
      var i :| 0 <= i < |tasks| && tasks[i].name == l;
      assert tasks[i] in ran;
      var k :| 0 <= k < |ran| && ran[k] == tasks[i];
      DependencyRan(ran, k, d);
    }
  }

  /** Only closed acyclic graphs can be run to the end, in whatever order. */
  lemma CompletionNeedsAcyclic(tasks: seq<Task>, g: Graph, ran: seq<Task>)
    requires Describes(g, tasks) && multiset(ran) == multiset(tasks) && Topological(ran)
    ensures Closed(g) && !Cyclic(g)
  {
    CompletionNeedsClosed(tasks, g, ran);
    SameMembers(tasks, ran);
    if Cyclic(g) {
      var s := CyclicIsTrapped(g);
      TrappedNeverRuns(ran, g, s, |ran|);
      assert ran[..|ran|] == ran;
      TrappedKnown(g, s);
    }
  }

  lemma TrappedKnown(g: Graph, s: set<Label>)
    requires NoWayOut(g, s)
    ensures s <= g.Keys
  {
    forall t | t in s ensures t in g { assert DependsOn(g, t, s); }
  }

  lemma DependencyRan(ran: seq<Task>, k: nat, d: Label)
    requires Topological(ran) && k < |ran| && d in ran[k].deps
    ensures d in Labels(ran)
  {
    assert ReadyAt(ran, k);
    var i :| 0 <= i < |ran[..k]| && ran[..k][i].name == d;
    assert ran[i].name == d;
  }
}
