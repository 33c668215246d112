/** Ordered sequences and the searches of the B-tree: within a node, and down the tree. */
module BTreeSearch {
  import opened BTreeNode
  import opened BTreeOps
  import opened BTreeShape
  import opened BTreePairs
  import opened BTreeIter
  import opened BTreeDelete

  // ------------------------------------------------------------------ order

  /** What a comparator promises. */
  ghost predicate StrictWeak<K(!new)>(less: (K, K) -> bool) {
    && (forall x :: !less(x, x))
    && (forall x, y, z :: less(x, y) && less(y, z) ==> less(x, z))
    && (forall x, y, z :: less(x, y) ==> less(x, z) || less(z, y))
  }

  ghost predicate Sorted<K>(s: seq<K>, less: (K, K) -> bool) {
    forall i, j :: 0 <= i < j < |s| ==> less(s[i], s[j])
  }

  predicate Equivalent<K>(x: K, y: K, less: (K, K) -> bool) {
    !less(x, y) && !less(y, x)
  }

  ghost predicate Present<K>(s: seq<K>, key: K, less: (K, K) -> bool) {
    exists j :: 0 <= j < |s| && Equivalent(s[j], key, less)
  }

  /** r splits the sequence into what is less than the key and what is not. */
  ghost predicate LowerBound<K>(s: seq<K>, key: K, r: nat, less: (K, K) -> bool) {
    && r <= |s|
    && (forall j :: 0 <= j < r ==> less(s[j], key))
    && (forall j :: r <= j < |s| ==> !less(s[j], key))
  }

  /** The same, looking only at the two neighbours of r. */
  predicate Edge<K>(s: seq<K>, key: K, r: nat, less: (K, K) -> bool) {
    r <= |s| && (r == 0 || less(s[r - 1], key)) && (r == |s| || !less(s[r], key))
  }

  lemma EdgeIsBound<K(!new)>(s: seq<K>, key: K, r: nat, less: (K, K) -> bool)
    requires StrictWeak(less) && Sorted(s, less) && Edge(s, key, r, less)
    ensures LowerBound(s, key, r, less)
  {
    forall j | 0 <= j < r ensures less(s[j], key) {
      if j < r - 1 { assert less(s[j], s[r - 1]); }
    }
    forall j | r <= j < |s| ensures !less(s[j], key) {
      if r < j { assert less(s[r], s[j]); }
    }
  }

  /** A key is present exactly when the lower bound is not above it. */
  lemma PresentAtBound<K(!new)>(s: seq<K>, key: K, r: nat, less: (K, K) -> bool)
    requires StrictWeak(less) && Sorted(s, less) && LowerBound(s, key, r, less)
    ensures Present(s, key, less) <==> r < |s| && !less(key, s[r])
  {
    if r < |s| && !less(key, s[r]) { assert Equivalent(s[r], key, less); }
    forall j | 0 <= j < |s| && Equivalent(s[j], key, less) ensures r < |s| && !less(key, s[r]) {
      assert j == r;
    }
  }

  /** Splicing an absent key in at its lower bound keeps the order. */
  lemma InsertSortedAt<K(!new)>(s: seq<K>, key: K, r: nat, less: (K, K) -> bool)
    requires StrictWeak(less) && Sorted(s, less) && LowerBound(s, key, r, less) && (r < |s| ==> less(key, s[r]))
    ensures Sorted(s[..r] + [key] + s[r..], less)
  {
    var t := s[..r] + [key] + s[r..];
    forall i, j | 0 <= i < j < |t| ensures less(t[i], t[j]) {
      if i == r && r + 1 < j { assert less(s[r], s[j - 1]); }
    }
  }

  lemma WithoutSorted<K>(s: seq<K>, i: nat, less: (K, K) -> bool)
    requires Sorted(s, less) && i < |s|
    ensures Sorted(Without(s, i), less)
  {
    var t := Without(s, i);
    forall a, b | 0 <= a < b < |t| ensures less(t[a], t[b]) {
      assert t[a] == s[if a < i then a else a + 1] && t[b] == s[if b < i then b else b + 1];
    }
  }

  // ------------------------------------------------------------------ search within a node

  method LinearSearch<K(!new)>(keys: seq<K>, key: K, less: (K, K) -> bool) returns (s: nat)
    ensures Edge(keys, key, s, less)
    ensures StrictWeak(less) && Sorted(keys, less) ==> LowerBound(keys, key, s, less)
  {
    s := 0;
    while s < |keys|
      invariant s <= |keys| && (s == 0 || less(keys[s - 1], key))
    {
      if !less(keys[s], key) { break; }
      s := s + 1;
    }
    if StrictWeak(less) && Sorted(keys, less) { EdgeIsBound(keys, key, s, less); }
  }

  method BinarySearch<K(!new)>(keys: seq<K>, key: K, less: (K, K) -> bool) returns (s: nat)
    ensures Edge(keys, key, s, less)
    ensures StrictWeak(less) && Sorted(keys, less) ==> LowerBound(keys, key, s, less)
  {
    s := 0;
    var e := |keys|;
    while s != e
      invariant s <= e <= |keys|
      invariant (s == 0 || less(keys[s - 1], key)) && (e == |keys| || !less(keys[e], key))
    {
      var mid := (s + e) / 2;
      if less(keys[mid], key) { s := mid + 1; } else { e := mid; }
    }
    if StrictWeak(less) && Sorted(keys, less) { EdgeIsBound(keys, key, s, less); }
  }

  // ------------------------------------------------------------------ search down the tree

  /** The lower bound lies within the subtree at a path. */
  ghost predicate Window<K>(root: Node<K>, path: seq<nat>, key: K, less: (K, K) -> bool)
    requires ValidPath(root, path)
  {
    var s, lo := Inorder(root), |Left(root, path)|;
    var hi := lo + |Inorder(NodeAt(root, path))|;
    hi <= |s| && (lo == 0 || less(s[lo - 1], key)) && (hi == |s| || !less(s[hi], key))
  }

  /** The key before child i of a node is the last one before that child's subtree. */
  lemma KeyBefore<K>(root: Node<K>, path: seq<nat>, i: nat)
    requires ValidPath(root, path)
    requires var n := NodeAt(root, path); n.Internal? && Fits(n.keys, n.kids) && 0 < i < |n.kids|
    ensures ValidPath(root, path + [i]) && 0 < |Left(root, path + [i])| <= |Inorder(root)|
    ensures Inorder(root)[|Left(root, path + [i])| - 1] == NodeAt(root, path).keys[i - 1]
  {
    var n := NodeAt(root, path);
    IndexIsKey(Cursor(root, path, i - 1));
    PrefixStep(n.keys, n.kids, i - 1);
    LeftOfKid(root, path, i);
  }

  /** The key after child i of a node, if any, is the first one after that child's subtree. */
  lemma KeyAfter<K>(root: Node<K>, path: seq<nat>, i: nat)
    requires ValidPath(root, path)
    requires var n := NodeAt(root, path); n.Internal? && Fits(n.keys, n.kids) && i < |n.kids|
    ensures ValidPath(root, path + [i])
    ensures var n := NodeAt(root, path); var hi := |Left(root, path + [i])| + |Inorder(NodeAt(root, path + [i]))|;
            if i < |n.keys| then hi < |Inorder(root)| && Inorder(root)[hi] == n.keys[i]
            else hi == |Left(root, path)| + |Inorder(n)|
  {
    IndexIsKey(Cursor(root, path, i));
    LeftOfKid(root, path, i);
  }

  lemma WindowDown<K>(root: Node<K>, path: seq<nat>, i: nat, key: K, less: (K, K) -> bool)
    requires ValidPath(root, path) && Window(root, path, key, less)
    requires var n := NodeAt(root, path); n.Internal? && Fits(n.keys, n.kids) && Edge(n.keys, key, i, less)
    ensures ValidPath(root, path + [i]) && Window(root, path + [i], key, less)
  {
    KeyAfter(root, path, i);
    if i > 0 { KeyBefore(root, path, i); } else { LeftOfKid(root, path, 0); }
  }

  lemma WindowLeaf<K>(c: Cursor<K>, key: K, less: (K, K) -> bool)
    requires ValidCursor(c) && Window(c.root, c.path, key, less) && NodeAt(c.root, c.path).Leaf?
    requires Edge(NodeAt(c.root, c.path).keys, key, c.pos, less)
    ensures Edge(Inorder(c.root), key, Rank(c), less)
  {
    IndexIsKey(c);
    if c.pos > 0 { IndexIsKey(Cursor(c.root, c.path, c.pos - 1)); }
  }

  /** On the way down: the node at the path is in order, and the lower bound lies in its subtree. */
  ghost predicate Descends<K>(c: Cursor<K>, key: K, less: (K, K) -> bool, h: nat, cap: nat) {
    match c
    case Cursor(root, path, _) =>
      && ValidPath(root, path) && Window(root, path, key, less)
      && (root == Leaf([]) || (|path| <= h && Good(NodeAt(root, path), h - |path|, cap)))
  }

  lemma DescendsDown<K>(c: Cursor<K>, key: K, less: (K, K) -> bool, h: nat, cap: nat, d: Cursor<K>)
    requires Descends(c, key, less, h, cap) && NodeAt(c.root, c.path).Internal?
    requires Edge(NodeAt(c.root, c.path).keys, key, c.pos, less)
    requires d.root == c.root && d.path == c.path + [c.pos]
    ensures |c.path| < h && Descends(d, key, less, h, cap)
  {
    assert Loose(NodeAt(c.root, c.path), h - |c.path|, cap);
    StepDown(c.root, c.path, c.pos, h, cap);
    WindowDown(c.root, c.path, c.pos, key, less);
  }

  lemma DescendsEnd<K(!new)>(c: Cursor<K>, key: K, less: (K, K) -> bool, h: nat, cap: nat)
    requires StrictWeak(less) && Sorted(Inorder(c.root), less)
    requires Descends(c, key, less, h, cap) && NodeAt(c.root, c.path).Leaf?
    requires Edge(NodeAt(c.root, c.path).keys, key, c.pos, less)
    ensures ValidCursor(c) && LowerBound(Inorder(c.root), key, Rank(c), less)
  {
    WindowLeaf(c, key, less);
    EdgeIsBound(Inorder(c.root), key, Rank(c), less);
  }

  /** internal_locate: the leaf position where the key is or belongs. */
  method InternalLocate<K(!new)>(root: Node<K>, key: K, less: (K, K) -> bool, linear: bool, ghost h: nat,
                                 ghost cap: nat) returns (c: Cursor<K>)
    requires Tree(root, h, cap) && StrictWeak(less) && Sorted(Inorder(root), less)
    ensures c.root == root && ValidCursor(c) && NodeAt(root, c.path).Leaf?
    ensures LowerBound(Inorder(root), key, Rank(c), less)
  {
    c := Cursor(root, [], 0);
    while true
      invariant c.root == root && ValidPath(root, c.path) && Descends(c, key, less, h, cap)
      decreases h - |c.path|
    {
      var n := NodeAt(root, c.path);
      var pos;
      if linear { pos := LinearSearch(n.keys, key, less); } else { pos := BinarySearch(n.keys, key, less); }
      c := Cursor(root, c.path, pos);
      if n.Leaf? { break; }
      var down := Cursor(root, c.path + [pos], 0);
      DescendsDown(c, key, less, h, cap, down);
      c := down;
    }
    DescendsEnd(c, key, less, h, cap);
  }

  /** internal_last: from a position past the last key of its node to the key that follows, if any. */
  method InternalLast<K>(c: Cursor<K>) returns (found: bool, last: Cursor<K>)
    requires ValidCursor(c) && NodeAt(c.root, c.path).Leaf?
    ensures found <==> Rank(c) < |Inorder(c.root)|
    ensures found ==> last.root == c.root && OnKey(last) && Index(last) == Rank(c)
  {
    last := Climb(c);
    found := last.pos < |NodeAt(last.root, last.path).keys|;
    IndexIsKey(last);
  }

  /** internal_find: finds the key exactly when an equivalent one is present. */
  method InternalFind<K(!new)>(root: Node<K>, key: K, less: (K, K) -> bool, linear: bool, ghost h: nat, ghost cap: nat)
    returns (found: bool, it: Cursor<K>)
    requires Tree(root, h, cap) && StrictWeak(less) && Sorted(Inorder(root), less)
    ensures found <==> Present(Inorder(root), key, less)
    ensures found ==> it.root == root && OnKey(it) && LowerBound(Inorder(root), key, Index(it), less)
    ensures found ==> Index(it) < |Inorder(root)| && Equivalent(Inorder(root)[Index(it)], key, less)
  {
    var c := InternalLocate(root, key, less, linear, h, cap);
    PresentAtBound(Inorder(root), key, Rank(c), less);
    found, it := InternalLast(c);
    if found {
      IndexIsKey(it);
      found := !less(key, NodeAt(it.root, it.path).keys[it.pos]);
    }
  }
}
