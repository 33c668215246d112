/** The shape of a B-tree: all leaves at one depth, every node non-empty and within capacity,
    with an allowance for the one node that an operation is working on. */
module BTreeShape {
  import opened BTreeNode
  import opened BTreeOps

  /** A subtree of height h whose nodes all hold between 1 and cap keys. */
  ghost predicate Good<K>(n: Node<K>, h: nat, cap: nat)
    decreases h
  {
    1 <= |n.keys| && Loose(n, h, cap)
  }

  /** The same, except that the root node of the subtree may be empty. */
  ghost predicate Loose<K>(n: Node<K>, h: nat, cap: nat)
    decreases h, 0
  {
    && |n.keys| <= cap
    && (n.Leaf? <==> h == 0)
    && (n.Internal? ==> Fits(n.keys, n.kids) && forall i :: 0 <= i < |n.kids| ==> h > 0 && Good(n.kids[i], h - 1, cap))
  }

  /** Everything in the tree is in order except possibly the subtree at a path. */
  ghost predicate Around<K>(n: Node<K>, h: nat, cap: nat, path: seq<nat>)
    decreases path
  {
    path == [] ||
    (&& n.Internal? && h > 0 && Fits(n.keys, n.kids) && 1 <= |n.keys| <= cap
     && path[0] < |n.kids|
     && Around(n.kids[path[0]], h - 1, cap, path[1..])
     && forall j :: 0 <= j < |n.kids| && j != path[0] ==> Good(n.kids[j], h - 1, cap))
  }

  lemma GoodNode<K>(n: Node<K>, h: nat, cap: nat)
    requires Good(n, h, cap)
    ensures 1 <= |n.keys| <= cap && WellFormed(n) && Loose(n, h, cap) && (n.Leaf? <==> h == 0)
  {}

  lemma {:induction false} AroundPath<K>(n: Node<K>, h: nat, cap: nat, path: seq<nat>)
    requires Around(n, h, cap, path)
    ensures ValidPath(n, path) && |path| <= h
    decreases path
  {
    if path != [] { AroundPath(n.kids[path[0]], h - 1, cap, path[1..]); }
  }

  /** A subtree of a good tree is good and so are its surroundings. */
  lemma {:induction false} GoodAround<K>(n: Node<K>, h: nat, cap: nat, path: seq<nat>)
    requires Good(n, h, cap) && ValidPath(n, path)
    ensures Around(n, h, cap, path) && |path| <= h && Good(NodeAt(n, path), h - |path|, cap)
    decreases path
  {
    if path != [] { GoodAround(n.kids[path[0]], h - 1, cap, path[1..]); }
  }

  /** A good subtree in good surroundings makes a good tree. */
  lemma {:induction false} AroundGood<K>(n: Node<K>, h: nat, cap: nat, path: seq<nat>)
    requires Around(n, h, cap, path) && ValidPath(n, path) && |path| <= h && Good(NodeAt(n, path), h - |path|, cap)
    ensures Good(n, h, cap)
    decreases path
  {
    if path != [] { AroundGood(n.kids[path[0]], h - 1, cap, path[1..]); }
  }

  /** Replacing the subtree keeps its surroundings. */
  lemma {:induction false} AroundReplace<K>(n: Node<K>, h: nat, cap: nat, path: seq<nat>, x: Node<K>)
    requires Around(n, h, cap, path) && ValidPath(n, path)
    ensures Around(ReplaceAt(n, path, x), h, cap, path)
    decreases path
  {
    if path != [] { AroundReplace(n.kids[path[0]], h - 1, cap, path[1..], x); }
  }

  /** Parent of height h with good children except child i. */
  ghost predicate GoodBut<K>(p: Node<K>, h: nat, cap: nat, i: nat) {
    && p.Internal? && h > 0 && Fits(p.keys, p.kids) && 1 <= |p.keys| <= cap && i < |p.kids|
    && forall j :: 0 <= j < |p.kids| && j != i ==> Good(p.kids[j], h - 1, cap)
  }

  /** The surroundings of child i are those of its parent together with its siblings. */
  lemma {:induction false} AroundSnoc<K>(n: Node<K>, h: nat, cap: nat, path: seq<nat>, i: nat)
    requires ValidPath(n, path) && |path| <= h
    ensures Around(n, h, cap, path + [i]) <==> Around(n, h, cap, path) && GoodBut(NodeAt(n, path), h - |path|, cap, i)
    decreases path
  {
    if path == [] {
      assert (path + [i])[1..] == [] && (path + [i])[0] == i;
    } else {
      var kid := n.kids[path[0]];
      assert (path + [i])[1..] == path[1..] + [i] && (path + [i])[0] == path[0];
      AroundSnoc(kid, h - 1, cap, path[1..], i);
    }
  }

  /** Children of a subtree in order are in order. */
  lemma KidGood<K>(p: Node<K>, h: nat, cap: nat, i: nat)
    requires Loose(p, h, cap) && p.Internal? && i < |p.kids|
    ensures h > 0 && Good(p.kids[i], h - 1, cap) && Loose(p.kids[i], h - 1, cap) && WellFormed(p.kids[i])
  {}

  /** All subtrees of one height have the same kind of root. */
  lemma SameHeightSameKind<K>(l: Node<K>, r: Node<K>, h: nat, cap: nat)
    requires Loose(l, h, cap) && Loose(r, h, cap)
    ensures SameKind(l, r)
  {}

  lemma LooseMerge<K>(l: Node<K>, d: K, r: Node<K>, h: nat, cap: nat)
    requires Loose(l, h, cap) && Loose(r, h, cap) && SameKind(l, r) && |l.keys| + 1 + |r.keys| <= cap
    ensures Good(Merge(l, d, r), h, cap)
  {
    var n := Merge(l, d, r);
    if l.Internal? {
      forall i | 0 <= i < |n.kids| ensures h > 0 && Good(n.kids[i], h - 1, cap) {
        assert n.kids[i] == if i < |l.kids| then l.kids[i] else r.kids[i - |l.kids|];
      }
    }
  }

  /** Merging without the bound on the number of keys. */
  lemma LooseCut<K>(l: Node<K>, d: K, r: Node<K>, h: nat, cap: nat, p: nat)
    requires Loose(l, h, cap) && Loose(r, h, cap) && SameKind(l, r)
    requires var n := Merge(l, d, r); p < |n.keys| && p <= cap && |n.keys| - p - 1 <= cap
    ensures var n := Merge(l, d, r); Loose(CutLeft(n, p), h, cap) && Loose(CutRight(n, p), h, cap)
  {
    var n := Merge(l, d, r);
    if l.Internal? {
      forall i | 0 <= i < |n.kids| ensures h > 0 && Good(n.kids[i], h - 1, cap) {
        assert n.kids[i] == if i < |l.kids| then l.kids[i] else r.kids[i - |l.kids|];
      }
      var a, b := CutLeft(n, p), CutRight(n, p);
      forall i | 0 <= i < |a.kids| ensures h > 0 && Good(a.kids[i], h - 1, cap) { assert a.kids[i] == n.kids[i]; }
      forall i | 0 <= i < |b.kids| ensures h > 0 && Good(b.kids[i], h - 1, cap) {
        assert b.kids[i] == n.kids[p + 1 + i];
      }
    }
  }

  lemma LooseSplit<K>(n: Node<K>, h: nat, cap: nat, p: nat)
    requires Loose(n, h, cap) && WellFormed(n) && p < |n.keys|
    ensures Loose(CutLeft(n, p), h, cap) && Loose(CutRight(n, p), h, cap)
  {
    if n.Internal? {
      var a, b := CutLeft(n, p), CutRight(n, p);
      forall i | 0 <= i < |a.kids| ensures h > 0 && Good(a.kids[i], h - 1, cap) { assert a.kids[i] == n.kids[i]; }
      forall i | 0 <= i < |b.kids| ensures h > 0 && Good(b.kids[i], h - 1, cap) {
        assert b.kids[i] == n.kids[p + 1 + i];
      }
    }
  }
}
