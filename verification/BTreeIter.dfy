/** Iterators: where a position stands in the in-order sequence, and the walks of ++, -- and
    internal_last through the tree. */
module BTreeIter {
  import opened BTreeNode
  import opened BTreeOps
  import opened BTreeShape
  import opened BTreePairs

  /** Number of keys before position pos of a node's own keys, within its subtree. In an internal node
      the child before the key comes first. */
  ghost function KeyOffset<K>(n: Node<K>, pos: nat): nat
    requires WellFormed(n) && pos <= |n.keys|
  {
    if n.Leaf? then pos else |Prefix(n.keys, n.kids, pos)| + |Inorder(n.kids[pos])|
  }

  /** Index in the in-order sequence of the key at a position; one past the subtree if the position is
      past the last key of its node. */
  ghost function Index<K>(c: Cursor<K>): nat
    requires ValidCursor(c)
  {
    |Left(c.root, c.path)| + KeyOffset(NodeAt(c.root, c.path), c.pos)
  }

  /** A position with a key. */
  ghost predicate OnKey<K>(c: Cursor<K>) {
    ValidCursor(c) && c.pos < |NodeAt(c.root, c.path).keys|
  }

  /** The iterator denotes key r of the sequence, or is end() when r is its length. */
  ghost predicate Denotes<K>(c: Cursor<K>, r: nat) {
    && ValidCursor(c) && Index(c) == r
    && (OnKey(c) || (NodeAt(c.root, c.path).Leaf? && r == |Inorder(c.root)|))
  }

  lemma KeyOffsetInside<K>(n: Node<K>, pos: nat)
    requires WellFormed(n) && pos <= |n.keys|
    ensures pos < |n.keys| ==> KeyOffset(n, pos) < |Inorder(n)| && Inorder(n)[KeyOffset(n, pos)] == n.keys[pos]
    ensures pos == |n.keys| ==> KeyOffset(n, pos) == |Inorder(n)|
  {
    if n.Internal? && pos < |n.keys| {
      WeaveAt(n.keys, n.kids, pos);
      var a, b, c := Prefix(n.keys, n.kids, pos), Inorder(n.kids[pos]), Suffix(n.keys, n.kids, pos);
      assert c[0] == n.keys[pos];
      assert (a + b + c)[|a| + |b|] == c[0];
    }
  }

  /** The key at a position is the key of the sequence at its index. */
  lemma IndexIsKey<K>(c: Cursor<K>)
    requires ValidCursor(c)
    ensures OnKey(c) ==> Index(c) < |Inorder(c.root)| && Inorder(c.root)[Index(c)] == NodeAt(c.root, c.path).keys[c.pos]
    ensures !OnKey(c) ==> Index(c) == |Left(c.root, c.path)| + |Inorder(NodeAt(c.root, c.path))| <= |Inorder(c.root)|
  {
    var n := NodeAt(c.root, c.path);
    Context(c.root, c.path);
    KeyOffsetInside(n, c.pos);
    if OnKey(c) { InMiddle(Left(c.root, c.path), Inorder(n), Right(c.root, c.path), KeyOffset(n, c.pos)); }
  }

  lemma InMiddle<K>(a: seq<K>, b: seq<K>, c: seq<K>, i: nat)
    requires i < |b|
    ensures (a + b + c)[|a| + i] == b[i]
  {}

  /** One step up: the position of a node in its parent is where the keys after the node start. */
  lemma StepUp<K>(c: Cursor<K>, up: Cursor<K>)
    requires ValidCursor(c) && !OnKey(c) && c.path != []
    requires up == Cursor(c.root, c.path[..|c.path| - 1], c.path[|c.path| - 1])
    ensures ValidCursor(up) && Index(up) == Index(c)
  {
    PathParent(c.root, c.path);
    assert c.path == up.path + [up.pos];
    LeftOfKid(c.root, up.path, up.pos);
    KeyOffsetInside(NodeAt(c.root, c.path), c.pos);
  }

  /** Walk up while the position is past the last key of its node. */
  method Climb<K>(c: Cursor<K>) returns (up: Cursor<K>)
    requires ValidCursor(c)
    ensures up.root == c.root && ValidCursor(up) && Index(up) == Index(c)
    ensures OnKey(up) || (up.path == [] && Index(c) == |Inorder(c.root)|)
  {
    up := c;
    while up.pos == |NodeAt(up.root, up.path).keys| && up.path != []
      invariant up.root == c.root && ValidCursor(up) && Index(up) == Index(c)
      decreases |up.path|
    {
      var next := Cursor(up.root, up.path[..|up.path| - 1], up.path[|up.path| - 1]);
      StepUp(up, next);
      up := next;
    }
    IndexIsKey(up);
  }

  /** One step down to child i. */
  lemma StepDown<K>(root: Node<K>, p: seq<nat>, i: nat, h: nat, cap: nat)
    requires ValidPath(root, p) && |p| <= h && Good(NodeAt(root, p), h - |p|, cap)
    requires NodeAt(root, p).Internal? && i <= |NodeAt(root, p).keys|
    ensures |p| < h && ValidPath(root, p + [i]) && Good(NodeAt(root, p + [i]), h - |p| - 1, cap)
    ensures i == 0 ==> |Left(root, p + [i])| == |Left(root, p)|
    ensures i == |NodeAt(root, p).keys| ==>
            |Left(root, p + [i])| + |Inorder(NodeAt(root, p + [i]))| == |Left(root, p)| + |Inorder(NodeAt(root, p))|
  {
    KidGood(NodeAt(root, p), h - |p|, cap, i);
    LeftOfKid(root, p, i);
  }

  /** On the way down: the node is in order, and its subtree starts at `lo` and ends before `hi`. */
  ghost predicate Spans<K>(c: Cursor<K>, h: nat, cap: nat, lo: nat, hi: nat) {
    match c
    case Cursor(root, p, _) =>
      && ValidPath(root, p) && |p| <= h && Good(NodeAt(root, p), h - |p|, cap)
      && |Left(root, p)| == lo && lo + |Inorder(NodeAt(root, p))| == hi
  }

  lemma SpansAt<K>(root: Node<K>, path: seq<nat>, h: nat, cap: nat, c: Cursor<K>)
    requires Good(root, h, cap) && ValidPath(root, path) && c == Cursor(root, path, 0)
    ensures Spans(c, h, cap, |Left(root, path)|, |Left(root, path)| + |Inorder(NodeAt(root, path))|)
  {
    GoodAround(root, h, cap, path);
  }

  /** The first child starts where its parent starts. */
  lemma SpansFirst<K>(c: Cursor<K>, h: nat, cap: nat, lo: nat, hi: nat, d: Cursor<K>) returns (hi': nat)
    requires Spans(c, h, cap, lo, hi) && NodeAt(c.root, c.path).Internal? && d == Cursor(c.root, c.path + [0], 0)
    ensures |c.path| < h && Spans(d, h, cap, lo, hi')
  {
    StepDown(c.root, c.path, 0, h, cap);
    hi' := lo + |Inorder(NodeAt(d.root, d.path))|;
  }

  /** The last child ends where its parent ends. */
  lemma SpansLast<K>(c: Cursor<K>, h: nat, cap: nat, lo: nat, hi: nat, d: Cursor<K>) returns (lo': nat)
    requires Spans(c, h, cap, lo, hi) && NodeAt(c.root, c.path).Internal?
    requires d == Cursor(c.root, c.path + [|NodeAt(c.root, c.path).keys|], 0)
    ensures |c.path| < h && Spans(d, h, cap, lo', hi)
  {
    StepDown(c.root, c.path, |NodeAt(c.root, c.path).keys|, h, cap);
    lo' := |Left(d.root, d.path)|;
  }

  /** At a leaf, the first position has the index where the leaf starts, the last one that before its end. */
  lemma SpansLeaf<K>(c: Cursor<K>, h: nat, cap: nat, lo: nat, hi: nat, last: nat)
    requires Spans(c, h, cap, lo, hi) && NodeAt(c.root, c.path).Leaf? && c.pos == 0
             && last == |NodeAt(c.root, c.path).keys| - 1
    ensures OnKey(c) && Index(c) == lo
    ensures var d := Cursor(c.root, c.path, last); OnKey(d) && Index(d) + 1 == hi
  {}

  /** First leaf of the subtree at a path: nothing comes between its left edge and the leaf. */
  method FirstLeaf<K>(root: Node<K>, path: seq<nat>, ghost h: nat, ghost cap: nat) returns (c: Cursor<K>)
    requires Good(root, h, cap) && ValidPath(root, path)
    ensures c.root == root && OnKey(c) && NodeAt(root, c.path).Leaf? && Index(c) == |Left(root, path)|
  {
    c := Cursor(root, path, 0);
    SpansAt(root, path, h, cap, c);
    ghost var lo: nat, hi: nat := |Left(root, path)|, |Left(root, path)| + |Inorder(NodeAt(root, path))|;
    while NodeAt(root, c.path).Internal?
      invariant c.root == root && c.pos == 0 && Spans(c, h, cap, lo, hi)
      decreases h - |c.path|
    {
      var d := Cursor(root, c.path + [0], 0);
      hi := SpansFirst(c, h, cap, lo, hi, d);
      c := d;
    }
    SpansLeaf(c, h, cap, lo, hi, |NodeAt(root, c.path).keys| - 1);
  }

  /** Last leaf of the subtree at a path; `below` says how to get there. */
  method LastLeaf<K>(root: Node<K>, path: seq<nat>, ghost h: nat, ghost cap: nat)
    returns (c: Cursor<K>, ghost below: seq<nat>)
    requires Good(root, h, cap) && ValidPath(root, path)
    ensures c.root == root && OnKey(c) && NodeAt(root, c.path).Leaf? && c.path == path + below
    ensures Index(c) + 1 == |Left(root, path)| + |Inorder(NodeAt(root, path))|
  {
    c, below := Cursor(root, path, 0), [];
    SpansAt(root, path, h, cap, c);
    ghost var lo: nat, hi: nat := |Left(root, path)|, |Left(root, path)| + |Inorder(NodeAt(root, path))|;
    while NodeAt(root, c.path).Internal?
      invariant c.root == root && c.pos == 0 && c.path == path + below && Spans(c, h, cap, lo, hi)
      decreases h - |c.path|
    {
      var i := |NodeAt(root, c.path).keys|;
      var d := Cursor(root, c.path + [i], 0);
      lo := SpansLast(c, h, cap, lo, hi, d);
      c, below := d, below + [i];
    }
    var last := |NodeAt(root, c.path).keys| - 1;
    SpansLeaf(c, h, cap, lo, hi, last);
    c := Cursor(root, c.path, last);
  }

  /** operator++: from a key of the sequence to the next one, or to end(). */
  method Increment<K>(c: Cursor<K>, ghost h: nat, ghost cap: nat) returns (next: Cursor<K>)
    requires Good(c.root, h, cap) && OnKey(c)
    ensures next.root == c.root && Denotes(next, Index(c) + 1)
  {
    var n := NodeAt(c.root, c.path);
    if n.Leaf? {
      var save := Cursor(c.root, c.path, c.pos + 1);
      if c.pos + 1 < |n.keys| { return save; }
      next := Climb(save);
      if next.pos == |NodeAt(next.root, next.path).keys| { next := save; }
    } else {
      LeftOfKid(c.root, c.path, c.pos + 1);
      PrefixStep(n.keys, n.kids, c.pos);
      next := FirstLeaf(c.root, c.path + [c.pos + 1], h, cap);
    }
  }

  /** operator-- on a key of an internal node: the largest key of the child before it. */
  method DecrementInternal<K>(c: Cursor<K>, ghost h: nat, ghost cap: nat)
    returns (prev: Cursor<K>, ghost below: seq<nat>)
    requires Good(c.root, h, cap) && OnKey(c) && NodeAt(c.root, c.path).Internal?
    ensures prev.root == c.root && OnKey(prev) && NodeAt(prev.root, prev.path).Leaf?
    ensures prev.path == c.path + [c.pos] + below && Index(prev) + 1 == Index(c)
  {
    LeftOfKid(c.root, c.path, c.pos);
    prev, below := LastLeaf(c.root, c.path + [c.pos], h, cap);
  }
}
