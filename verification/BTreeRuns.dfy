/** Whole runs of B-tree operations against an ordered list: the reference walks the list from its
    front and knows nothing of nodes, lower bounds or rebalancing. */
module BTreeRuns {
  import opened BTree
  import opened BTreeSearch
  import opened BTreeDelete

  datatype Op<K> = Insert(key: K) | Erase(key: K) | Contains(key: K)

  function ListInsert<K>(s: seq<K>, key: K, less: (K, K) -> bool): seq<K> {
    if s == [] then [key]
    else if less(s[0], key) then [s[0]] + ListInsert(s[1..], key, less)
    else if less(key, s[0]) then [key] + s
    else s
  }

  function ListErase<K>(s: seq<K>, key: K, less: (K, K) -> bool): seq<K> {
    if s == [] then []
    else if Equivalent(s[0], key, less) then s[1..]
    else [s[0]] + ListErase(s[1..], key, less)
  }

  predicate ListHas<K>(s: seq<K>, key: K, less: (K, K) -> bool) {
    s != [] && (Equivalent(s[0], key, less) || ListHas(s[1..], key, less))
  }

  lemma {:induction false} HasIsPresent<K>(s: seq<K>, key: K, less: (K, K) -> bool)
    ensures ListHas(s, key, less) <==> Present(s, key, less)
  {
    if s != [] {
      HasIsPresent(s[1..], key, less);
      if Present(s[1..], key, less) {
        var j :| 0 <= j < |s[1..]| && Equivalent(s[1..][j], key, less);
        assert Equivalent(s[j + 1], key, less);
      }
      if Present(s, key, less) && !Equivalent(s[0], key, less) {
        var j :| 0 <= j < |s| && Equivalent(s[j], key, less);
        assert Equivalent(s[1..][j - 1], key, less);
      }
    }
  }

  lemma TailBound<K>(s: seq<K>, key: K, r: nat, less: (K, K) -> bool)
    requires Sorted(s, less) && LowerBound(s, key, r, less) && r > 0
    ensures less(s[0], key) && Sorted(s[1..], less) && LowerBound(s[1..], key, r - 1, less)
  {}

  lemma TailSplice<K>(s: seq<K>, key: K, r: nat)
    requires 0 < r <= |s|
    ensures [s[0]] + (s[1..][..r - 1] + [key] + s[1..][r - 1..]) == s[..r] + [key] + s[r..]
    ensures s == [s[0]] + s[1..]
  {}

  /** Inserting from the front is splicing at the lower bound. */
  lemma {:induction false} InsertIsSplice<K(!new)>(s: seq<K>, key: K, r: nat, less: (K, K) -> bool)
    requires StrictWeak(less) && Sorted(s, less) && LowerBound(s, key, r, less)
    ensures ListInsert(s, key, less) == if r < |s| && !less(key, s[r]) then s else s[..r] + [key] + s[r..]
  {
    if r == 0 {
      if s != [] { assert s[..0] + [key] + s[0..] == [key] + s; } else { assert s[..0] + [key] + s[0..] == [key]; }
    } else {
      TailBound(s, key, r, less);
      InsertIsSplice(s[1..], key, r - 1, less);
      TailSplice(s, key, r);
    }
  }

  /** Erasing from the front is dropping the equivalent element at the lower bound. */
  lemma {:induction false} EraseIsDrop<K(!new)>(s: seq<K>, key: K, r: nat, less: (K, K) -> bool)
    requires StrictWeak(less) && Sorted(s, less) && LowerBound(s, key, r, less)
    requires r < |s| && Equivalent(s[r], key, less)
    ensures ListErase(s, key, less) == Without(s, r)
  {
    if r == 0 {
      assert Without(s, 0) == s[1..];
    } else {
      TailBound(s, key, r, less);
      EraseIsDrop(s[1..], key, r - 1, less);
      assert [s[0]] + Without(s[1..], r - 1) == Without(s, r);
    }
  }

  lemma {:induction false} EraseAbsent<K>(s: seq<K>, key: K, less: (K, K) -> bool)
    requires !ListHas(s, key, less)
    ensures ListErase(s, key, less) == s
  {
    if s != [] {
      EraseAbsent(s[1..], key, less);
      assert s == [s[0]] + s[1..];
    }
  }

  function Next<K>(s: seq<K>, op: Op<K>, less: (K, K) -> bool): seq<K> {
    match op
    case Insert(key) => ListInsert(s, key, less)
    case Erase(key) => ListErase(s, key, less)
    case Contains(_) => s
  }

  /** What the operation reports: whether it inserted, erased or found something. */
  function Answer<K>(s: seq<K>, op: Op<K>, less: (K, K) -> bool): bool {
    match op
    case Insert(key) => !ListHas(s, key, less)
    case Erase(key) => ListHas(s, key, less)
    case Contains(key) => ListHas(s, key, less)
  }

  /** The list after a run that starts from the empty container. */
  function ListAfter<K>(ops: seq<Op<K>>, less: (K, K) -> bool): seq<K> {
    if ops == [] then [] else Next(ListAfter(ops[..|ops| - 1], less), ops[|ops| - 1], less)
  }

  function Answers<K>(ops: seq<Op<K>>, less: (K, K) -> bool): (a: seq<bool>)
    ensures |a| == |ops|
  {
    if ops == [] then []
    else var before := ops[..|ops| - 1]; Answers(before, less) + [Answer(ListAfter(before, less), ops[|ops| - 1], less)]
  }

  /** One operation moves the tree as it moves the list. */
  method Apply<K(!new)>(t: BTree<K>, op: Op<K>) returns (answer: bool)
    requires t.Valid()
    modifies t
    ensures t.Valid() && t.Contents() == Next(old(t.Contents()), op, t.less)
    ensures answer == Answer(old(t.Contents()), op, t.less)
  {
    ghost var s := t.Contents();
    HasIsPresent(s, op.key, t.less);
    match op {
      case Insert(key) =>
        var it, inserted := t.InsertUnique(key);
        answer := inserted;
        ghost var r: nat :| LowerBound(s, key, r, t.less) && t.Contents() == if inserted then s[..r] + [key] + s[r..]
          else s;
        PresentAtBound(s, key, r, t.less);
        InsertIsSplice(s, key, r, t.less);
      case Erase(key) =>
        var n := t.EraseUnique(key);
        answer := n == 1;
        if n == 0 {
          EraseAbsent(s, key, t.less);
        } else {
          ghost var r: nat :| r < |s| && LowerBound(s, key, r, t.less) && Equivalent(s[r], key, t.less)
            && t.Contents() == Without(s, r);
          EraseIsDrop(s, key, r, t.less);
        }
      case Contains(key) =>
        var found, it := t.Find(key);
        answer := found;
    }
  }

  /** Every run from the empty tree answers as the ordered list does, and ends with the list's contents. */
  method Run<K(!new)>(ops: seq<Op<K>>, cap: nat, less: (K, K) -> bool, linear: bool)
    returns (answers: seq<bool>, size: nat)
    requires cap >= 3 && StrictWeak(less)
    ensures answers == Answers(ops, less) && size == |ListAfter(ops, less)|
  {
    var t := new BTree<K>(cap, less, linear);
    answers := [];
    assert ops[..0] == [];
    for i := 0 to |ops|
      invariant t.Valid() && fresh(t) && t.less == less
      invariant t.Contents() == ListAfter(ops[..i], less) && answers == Answers(ops[..i], less)
    {
      var a := Apply(t, ops[i]);
      answers := answers + [a];
      assert ops[..i + 1][..i] == ops[..i];
    }
    assert ops[..|ops|] == ops;
    size := t.size;
  }
}
