/** Dependency graphs of tasks: acyclic means that no walk along dependencies returns to its start. */
module TaskGraph {

  type Label = nat

  /** Dependencies of every known task. */
  type Graph = map<Label, seq<Label>>

  ghost predicate Closed(g: Graph) {
    forall t, d :: t in g && d in g[t] ==> d in g
  }

  /** A walk along dependencies. */
  ghost predicate Walk(g: Graph, p: seq<Label>) {
    && (forall i :: 0 <= i < |p| ==> p[i] in g)
    && (forall i, j :: 0 <= i < |p| && 0 <= j < |p| && j == i + 1 ==> p[j] in g[p[i]])
  }

  ghost predicate Cyclic(g: Graph) {
    exists p: seq<Label> :: |p| >= 2 && Walk(g, p) && p[0] == p[|p| - 1]
  }

  ghost predicate DependsOn(g: Graph, t: Label, s: set<Label>) {
    t in g && exists d :: d in g[t] && d in s
  }

  /** Every member of s depends on a member of s. */
  ghost predicate NoWayOut(g: Graph, s: set<Label>) {
    forall t {:trigger DependsOn(g, t, s)} :: t in s ==> DependsOn(g, t, s)
  }

  /** Without a way out one can walk as far as one likes. */
  lemma {:induction false} LongWalk(g: Graph, s: set<Label>, n: nat) returns (p: seq<Label>)
    requires s != {} && NoWayOut(g, s)
    ensures |p| == n + 1 && Walk(g, p) && forall i :: 0 <= i < |p| ==> p[i] in s
  {
    if n == 0 {
      var t :| t in s;
      assert DependsOn(g, t, s);
      p := [t];
    } else {
      var q := LongWalk(g, s, n - 1);
      assert DependsOn(g, q[n - 1], s);
      var d :| d in g[q[n - 1]] && d in s;
      assert DependsOn(g, d, s);
      p := q + [d];
      assert p[n - 1] == q[n - 1];
    }
  }

  /** A sequence longer than the set it draws from repeats an element. */
  lemma {:induction false} Pigeonhole(p: seq<Label>, s: set<Label>) returns (i: nat, j: nat)
    requires |p| > |s| && forall k :: 0 <= k < |p| ==> p[k] in s
    ensures i < j < |p| && p[i] == p[j]
    decreases |p|
  {
    var last := |p| - 1;
    if k :| 0 <= k < last && p[k] == p[last] {
      i, j := k, last;
    } else {
      i, j := Pigeonhole(p[..last], s - {p[last]});
    }
  }

  /** No way out means a cycle. */
  lemma TrappedIsCyclic(g: Graph, s: set<Label>)
    requires s != {} && NoWayOut(g, s)
    ensures Cyclic(g)
  {
    var p := LongWalk(g, s, |s|);
    var i, j := Pigeonhole(p, s);
    var q := p[i..j + 1];
    assert Walk(g, q);
  }

  /** Conversely the tasks on a cycle have no way out. */
  lemma CyclicIsTrapped(g: Graph) returns (s: set<Label>)
    requires Cyclic(g)
    ensures s != {} && NoWayOut(g, s)
  {
    var p: seq<Label> :| |p| >= 2 && Walk(g, p) && p[0] == p[|p| - 1];
    s := set i | 0 <= i < |p| :: p[i];
    assert p[0] in s;
    forall t | t in s ensures DependsOn(g, t, s) {
      var i :| 0 <= i < |p| && p[i] == t;
      var j := if i < |p| - 1 then i + 1 else 1;
      assert p[j] in g[t] && p[j] in s;
    }
  }

  /** Dependencies on smaller labels only. */
  ghost predicate Downhill(g: Graph) {
    forall t, d :: t in g && d in g[t] ==> d < t
  }

  lemma {:induction false} WalkDescends(g: Graph, p: seq<Label>, i: nat)
    requires Downhill(g) && Walk(g, p) && 1 <= i < |p|
    ensures p[i] < p[0]
  {
    assert p[i] in g[p[i - 1]];
    if i > 1 { WalkDescends(g, p, i - 1); }
  }

  lemma DownhillIsAcyclic(g: Graph)
    requires Downhill(g)
    ensures !Cyclic(g)
  {
    forall p: seq<Label> | |p| >= 2 && Walk(g, p) ensures p[0] != p[|p| - 1] {
      WalkDescends(g, p, |p| - 1);
    }
  }

  predicate AllIn(ds: seq<Label>, done: set<Label>) {
    forall k :: 0 <= k < |ds| ==> ds[k] in done
  }

  /** In an acyclic closed graph some pending task has only finished dependencies. */
  lemma ReadyExists(g: Graph, pending: set<Label>, done: set<Label>) returns (t: Label)
    requires Closed(g) && !Cyclic(g) && pending != {} && pending <= g.Keys && g.Keys <= pending + done
    ensures t in pending && AllIn(g[t], done)
  {
    if x :| x in pending && AllIn(g[x], done) {
      t := x;
    } else {
      forall x | x in pending ensures DependsOn(g, x, pending) {
        var k :| 0 <= k < |g[x]| && g[x][k] !in done;
        assert g[x][k] in g[x] && g[x][k] in g;
      }
      TrappedIsCyclic(g, pending);
    }
  }
}
