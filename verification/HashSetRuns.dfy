/** Observational refinement over whole runs: whatever sequence of operations is applied to a new
    table, its answers are those of a mathematical set. */
module HashSetRuns {
  import opened Table
  import opened RawHashSet
  import opened Capacity

  datatype Op<K> =
    | OpInsert(key: K)
    | OpErase(key: K)
    | OpContains(key: K)
    | OpClear
    | OpReserve(n: nat)
    | OpRehash(n: nat)
    | OpSize

  /** The set after one operation. */
  function After<K>(s: set<K>, op: Op<K>): set<K> {
    match op
    case OpInsert(x) => s + {x}
    case OpErase(x) => s - {x}
    case OpClear => {}
    case _ => s
  }

  /** The answer of one operation: 1 for "inserted", "erased" or "found", or the number of elements. */
  function Answer<K>(s: set<K>, op: Op<K>): nat {
    match op
    case OpInsert(x) => if x in s then 0 else 1
    case OpErase(x) => if x in s then 1 else 0
    case OpContains(x) => if x in s then 1 else 0
    case OpSize => |s|
    case _ => 0
  }

  /** The set after the first n operations of a run. */
  function SetAfter<K>(ops: seq<Op<K>>, n: nat): set<K>
    requires n <= |ops|
  {
    if n == 0 then {} else After(SetAfter(ops, n - 1), ops[n - 1])
  }

  /** The operation leaves a table that can be used further: all but reserve(0) and rehash(0) at a size
      in the top eighth of its power of two. */
  ghost predicate Sizable<K>(w: nat, s: set<K>, op: Op<K>) {
    (op.OpReserve? || op.OpRehash?) && op.n == 0 ==> !Overfull(w, |s|)
  }

  /** reserve(n) or rehash(n): the elements stay, and the table stays valid exactly when n is positive or
      the size leaves the 7/8 slack, which the code could find out from its own sizing functions. */
  method ApplyResize<K(==, !new)>(table: RawHashSet<K>, n: nat, reserve: bool) returns (usable: bool)
    requires table.Valid()
    modifies table, table.ctrl, table.slots
    ensures table.Elements() == old(table.Elements())
    ensures usable <==> table.Valid()
    ensures usable <==> n > 0 || !Overfull(table.w, |old(table.Elements())|)
    ensures (table.ctrl == old(table.ctrl) || fresh(table.ctrl))
            && (table.slots == old(table.slots) || fresh(table.slots))
  {
    table.SizeIsExact();
    if n == 0 && table.size > 0 { RehashZeroFits(table.w, table.size); }
    usable := n > 0 || table.size <= CapacityToGrowth(table.w, NormalizeCapacity(table.size));
    if reserve { table.Reserve(n); } else { table.Rehash(n); }
  }

  /** One operation: its answer and its effect are those of the set, and the table stays valid exactly
      when the operation is sizable. */
  method Apply<K(==, !new)>(table: RawHashSet<K>, op: Op<K>) returns (answer: nat, usable: bool)
    requires table.Valid()
    modifies table, table.ctrl, table.slots
    ensures table.Elements() == After(old(table.Elements()), op)
    ensures answer == Answer(old(table.Elements()), op)
    ensures (usable <==> table.Valid()) && (usable <==> Sizable(table.w, old(table.Elements()), op))
    ensures (table.ctrl == old(table.ctrl) || fresh(table.ctrl))
            && (table.slots == old(table.slots) || fresh(table.slots))
  {
    answer, usable := 0, true;
    match op
    case OpInsert(x) =>
      var inserted := table.Insert(x);
      answer := if inserted then 1 else 0;
    case OpErase(x) =>
      answer := table.Erase(x);
    case OpContains(x) =>
      var found := table.Contains(x);
      answer := if found then 1 else 0;
    case OpClear =>
      table.Clear();
    case OpReserve(n) =>
      usable := ApplyResize(table, n, true);
    case OpRehash(n) =>
      usable := ApplyResize(table, n, false);
    case OpSize =>
      answer := table.Size();
  }

  /** The first n answers are those of the set built by the operations before them. */
  ghost predicate AnswersMatch<K>(ops: seq<Op<K>>, answers: seq<nat>, n: nat) {
    |answers| == n <= |ops| && forall i :: 0 <= i < n ==> answers[i] == Answer(SetAfter(ops, i), ops[i])
  }

  lemma MatchExtend<K>(ops: seq<Op<K>>, answers: seq<nat>, n: nat, answer: nat)
    requires AnswersMatch(ops, answers, n) && n < |ops| && answer == Answer(SetAfter(ops, n), ops[n])
    ensures AnswersMatch(ops, answers + [answer], n + 1)
  {}

  /** The first n operations are sizable where they are applied. */
  ghost predicate AllSizable<K>(w: nat, ops: seq<Op<K>>, n: nat)
    requires n <= |ops|
  {
    forall i :: 0 <= i < n ==> Sizable(w, SetAfter(ops, i), ops[i])
  }

  lemma SizableExtend<K>(w: nat, ops: seq<Op<K>>, n: nat)
    requires n < |ops| && AllSizable(w, ops, n)
    ensures AllSizable(w, ops, n + 1) <==> Sizable(w, SetAfter(ops, n), ops[n])
  {}

  /** For every group width, hash function and sequence of operations, each answer of the table is
      the answer of the set built by the operations before it. The run covers all operations unless a
      reserve(0) or rehash(0) meets a size in the top eighth of its power of two: that operation is still
      answered, and it is the first of its kind. */
  method Run<K(==, !new)>(w: nat, hash: K -> HashVal, ops: seq<Op<K>>) returns (answers: seq<nat>)
    requires w == 8 || w == 16
    ensures AnswersMatch(ops, answers, |answers|)
    ensures |answers| == 0 || AllSizable(w, ops, |answers| - 1)
    ensures |answers| < |ops| ==> |answers| > 0 && !AllSizable(w, ops, |answers|)
  {
    var table := new RawHashSet(w, hash);
    answers := [];
    for i := 0 to |ops|
      invariant fresh(table) && fresh(table.ctrl) && fresh(table.slots)
      invariant table.Valid() && table.w == w && table.Elements() == SetAfter(ops, i)
      invariant AnswersMatch(ops, answers, i)
      invariant AllSizable(w, ops, i)
    {
      var answer, usable := Apply(table, ops[i]);
      MatchExtend(ops, answers, i, answer);
      SizableExtend(w, ops, i);
      answers := answers + [answer];
      if !usable { return; }
    }
  }
}
