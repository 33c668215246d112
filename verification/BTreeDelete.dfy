/** Deletion: removing the key from its leaf, and rebalance_after_delete climbing from that leaf. */
module BTreeDelete {
  import opened BTreeNode
  import opened BTreeShape
  import opened BTreePairs
  import opened BTreeErase
  import opened BTreeSpace
  import opened BTreeIter

  /** A tree: empty, or all in order. The empty tree's root is a leaf without keys. */
  ghost predicate Tree<K>(root: Node<K>, h: nat, cap: nat) {
    root == Leaf([]) || Good(root, h, cap)
  }

  ghost predicate LeafGap<K>(c: Cursor<K>, r: nat) {
    ValidCursor(c) && NodeAt(c.root, c.path).Leaf? && Rank(c) == r
  }

  // ------------------------------------------------------------------ positions below a gap

  /** A path through the gap of an internal node. */
  lemma BelowGap<K>(c: Cursor<K>, below: seq<nat>, deep: seq<nat>)
    requires ValidCursor(c) && NodeAt(c.root, c.path).Internal? && deep == c.path + [c.pos] + below
    requires ValidPath(NodeAt(c.root, c.path).kids[c.pos], below)
    ensures ValidPath(c.root, deep)
    ensures var kid := NodeAt(c.root, c.path).kids[c.pos];
            NodeAt(c.root, deep) == NodeAt(kid, below) && |Left(c.root, deep)| == Rank(c) + |Left(kid, below)|
  {
    LeftOfKid(c.root, c.path, c.pos);
    PathConcat(c.root, c.path + [c.pos], below);
    LeftConcat(c.root, c.path + [c.pos], below);
  }

  /** Conversely, a deep path gives a path below the gap. */
  lemma {:induction false} PathSplit<K>(n: Node<K>, path: seq<nat>, rest: seq<nat>)
    requires ValidPath(n, path + rest)
    ensures ValidPath(n, path) && ValidPath(NodeAt(n, path), rest)
    decreases path
  {
    if path == [] {
      assert path + rest == rest;
    } else {
      assert (path + rest)[1..] == path[1..] + rest && (path + rest)[0] == path[0];
      PathSplit(n.kids[path[0]], path[1..], rest);
    }
  }

  /** What lies below a gap stays below it when the gap moves. */
  lemma GapCarries<K>(was: Cursor<K>, now: Cursor<K>, below: seq<nat>, pos: nat, res: Cursor<K>, res': Cursor<K>,
                      r: nat)
    requires ValidCursor(was) && ValidCursor(now) && SameGap(was, now) && NodeAt(was.root, was.path).Internal?
    requires res == Cursor(was.root, was.path + [was.pos] + below, pos) && LeafGap(res, r)
    requires res' == Cursor(now.root, now.path + [now.pos] + below, pos)
    ensures LeafGap(res', r) && NodeAt(res'.root, res'.path) == NodeAt(res.root, res.path)
  {
    assert was.path + [was.pos] + below == was.path + ([was.pos] + below);
    PathSplit(was.root, was.path, [was.pos] + below);
    assert ([was.pos] + below)[1..] == below;
    BelowGap(was, below, res.path);
    BelowGap(now, below, res'.path);
  }

  // ------------------------------------------------------------------ rebalance_after_delete

  /** A leaf cursor whose leaf has keys. */
  ghost predicate Settled<K>(c: Cursor<K>, r: nat) {
    LeafGap(c, r) && 1 <= |NodeAt(c.root, c.path).keys|
  }

  /** State of the climb: everything is in order except that the node at iter may be short of keys; the
      result cursor, at rank r, is iter itself at first and lies below iter's gap later. */
  ghost predicate Climbing<K>(iter: Cursor<K>, res: Cursor<K>, h: nat, cap: nat, first: bool, below: seq<nat>, r: nat) {
    match iter
    case Cursor(root, path, pos) =>
      && ValidCursor(iter) && LooseAt(root, h, cap, path)
      && (if first then res == iter && LeafGap(res, r)
          else res == Cursor(root, path + [pos] + below, res.pos) && NodeAt(root, path).Internal? && Settled(res, r))
  }

  lemma ClimbUnderfull<K>(iter: Cursor<K>, h: nat, cap: nat, pp: seq<nat>, i: nat)
    requires cap >= 3 && ValidCursor(iter) && LooseAt(iter.root, h, cap, iter.path) && iter.path == pp + [i]
    requires |NodeAt(iter.root, iter.path).keys| < cap / 2
    ensures Underfull(iter.root, h, cap, pp, i, iter.pos)
  {
    PathParent(iter.root, iter.path);
    assert iter.path[..|iter.path| - 1] == pp;
    AroundSnoc(iter.root, h, cap, pp, i);
  }

  /** After a merge the climb goes on at the parent. */
  lemma ClimbOn<K>(was: Cursor<K>, h: nat, cap: nat, pp: seq<nat>, now: Cursor<K>, iter': Cursor<K>)
    requires Repaired(was, h, cap, pp, Repair(true, now))
    requires iter' == Cursor(now.root, pp, now.path[|pp|])
    ensures ValidCursor(iter') && LooseAt(iter'.root, h, cap, pp) && NodeAt(iter'.root, pp).Internal?
    ensures now.path == pp + [iter'.pos]
  {
    assert now.path == pp + [iter'.pos];
    PathParent(now.root, now.path);
    assert now.path[..|now.path| - 1] == pp;
  }

  lemma EnoughKeys<K>(c: Cursor<K>, h: nat, cap: nat)
    requires ValidCursor(c) && LooseAt(c.root, h, cap, c.path) && 1 <= |NodeAt(c.root, c.path).keys|
    ensures Good(c.root, h, cap)
  {
    AroundGood(c.root, h, cap, c.path);
  }

  /** try_shrink: a root without keys gives way to its only child. */
  function TryShrink<K>(root: Node<K>): Node<K>
    requires root.Internal? ==> root.kids != []
  {
    if |root.keys| > 0 || root.Leaf? then root else root.kids[0]
  }

  lemma ShrinkDown<K>(root: Node<K>, h: nat, cap: nat, res: Cursor<K>, below: seq<nat>, res': Cursor<K>, r: nat)
    requires Loose(root, h, cap) && |root.keys| == 0 && root.Internal?
    requires Settled(res, r) && res == Cursor(root, [0] + below, res.pos)
    requires res' == Cursor(root.kids[0], below, res.pos)
    ensures Good(root.kids[0], h - 1, cap) && Inorder(root.kids[0]) == Inorder(root) && Settled(res', r)
  {
    KidGood(root, h, cap, 0);
    assert ([0] + below)[1..] == below;
    assert Prefix(root.keys, root.kids, 0) == [];
    assert Inorder(root) == [] + Inorder(root.kids[0]);
    assert Left(root, res.path) == [] + Left(root.kids[0], below);
  }

  /** End of the climb at the root. */
  lemma ClimbEnd<K>(iter: Cursor<K>, res: Cursor<K>, h: nat, cap: nat, first: bool, below: seq<nat>, r: nat,
                    res': Cursor<K>)
    requires Climbing(iter, res, h, cap, first, below, r) && iter.path == []
    requires res' == Cursor(TryShrink(iter.root), if first || |iter.root.keys| > 0 then res.path else below, res.pos)
    ensures Tree(res'.root, if iter.root.Internal? && |iter.root.keys| == 0 then h - 1 else h, cap)
    ensures Inorder(res'.root) == Inorder(iter.root)
    ensures LeafGap(res', r) && (res'.root != Leaf([]) ==> Settled(res', r))
  {
    if |iter.root.keys| == 0 && !first {
      assert res.path == [0] + below;
      ShrinkDown(iter.root, h, cap, res, below, res', r);
    }
  }

  /** One pass of the loop: the result cursor follows the repaired node. */
  lemma ClimbStep<K>(iter: Cursor<K>, res: Cursor<K>, h: nat, cap: nat, first: bool, below: seq<nat>, r: nat,
                     pp: seq<nat>, fix: Repair<K>, res': Cursor<K>)
    requires Climbing(iter, res, h, cap, first, below, r)
    requires Repaired(iter, h, cap, pp, fix)
    requires res' == if first then fix.at else Cursor(fix.at.root, fix.at.path + [fix.at.pos] + below, res.pos)
    ensures Settled(res', r)
  {
    if !first { GapCarries(iter, fix.at, below, res.pos, res, res', r); }
  }

  /** Next state of the climb after a merge. */
  lemma ClimbMerged<K>(iter: Cursor<K>, res: Cursor<K>, h: nat, cap: nat, first: bool, below: seq<nat>, r: nat,
                       pp: seq<nat>, now: Cursor<K>, iter': Cursor<K>, res': Cursor<K>, below': seq<nat>)
    requires Climbing(iter, res, h, cap, first, below, r)
    requires Repaired(iter, h, cap, pp, Repair(true, now))
    requires res' == if first then now else Cursor(now.root, now.path + [now.pos] + below, res.pos)
    requires below' == if first then [] else [now.pos] + below
    requires iter' == Cursor(now.root, pp, now.path[|pp|])
    ensures Climbing(iter', res', h, cap, false, below', r) && Inorder(iter'.root) == Inorder(iter.root)
  {
    ClimbStep(iter, res, h, cap, first, below, r, pp, Repair(true, now), res');
    ClimbOn(iter, h, cap, pp, now, iter');
    assert res'.path == iter'.path + [iter'.pos] + below';
  }

  /** The leaf at the cursor is less than half full, and it and a sibling fit into one node. */
  ghost predicate Relieved<K>(at: Cursor<K>, cap: nat)
    requires ValidCursor(at)
  {
    && at.path != [] && |NodeAt(at.root, at.path).keys| < cap / 2
    && var pp, i := at.path[..|at.path| - 1], at.path[|at.path| - 1];
       ValidPath(at.root, pp) && var p := NodeAt(at.root, pp);
       p.Internal? && Fits(p.keys, p.kids) && i < |p.kids| && Mergeable(p, i, cap)
  }

  lemma NodesShrink<K>(root: Node<K>)
    requires root.Internal? ==> root.kids != []
    ensures Nodes(TryShrink(root)) <= Nodes(root)
  {
    if root.Internal? { AllAround(root.kids, 0); }
  }

  /** Repairs the tree from the leaf that lost a key up to the root. The gap that the key left is tracked
      through every merge and rebalance: the contents and the rank of the gap stay the same. */
  method RebalanceAfterDelete<K>(at: Cursor<K>, ghost h: nat, cap: nat) returns (res: Cursor<K>, ghost h': nat)
    requires cap >= 3 && ValidCursor(at) && LooseAt(at.root, h, cap, at.path) && NodeAt(at.root, at.path).Leaf?
    ensures h' <= h && Tree(res.root, h', cap) && Inorder(res.root) == Inorder(at.root)
    ensures LeafGap(res, Rank(at)) && (res.root != Leaf([]) ==> Settled(res, Rank(at)))
    ensures Nodes(res.root) <= Nodes(at.root) && (Relieved(at, cap) ==> Nodes(res.root) < Nodes(at.root))
    ensures at.path != [] && |NodeAt(at.root, at.path).keys| >= cap / 2 ==> res == at
  {
    var iter, first := at, true;
    var below: seq<nat> := [];
    res, h' := at, h;
    ghost var r := Rank(at);
    while true
      invariant Climbing(iter, res, h, cap, first, below, r)
      invariant Inorder(iter.root) == Inorder(at.root) && h' == h
      invariant first ==> iter == at && res == at
      invariant !first ==> Nodes(iter.root) < Nodes(at.root) && |NodeAt(at.root, at.path).keys| < cap / 2
      decreases |iter.path|
    {
      if iter.path == [] {
        var res' := Cursor(TryShrink(iter.root), if first || |iter.root.keys| > 0 then res.path else below, res.pos);
        ClimbEnd(iter, res, h, cap, first, below, r, res');
        NodesShrink(iter.root);
        res, h' := res', if iter.root.Internal? && |iter.root.keys| == 0 then h - 1 else h;
        return;
      }
      if |NodeAt(iter.root, iter.path).keys| >= cap / 2 {
        EnoughKeys(iter, h, cap);
        return;
      }
      var pp, i := iter.path[..|iter.path| - 1], iter.path[|iter.path| - 1];
      assert iter.path == pp + [i];
      ClimbUnderfull(iter, h, cap, pp, i);
      var fix := TryMergeOrRebalance(iter.root, h, pp, i, iter.pos, cap);
      RepairGivesBack(iter.root, h, pp, i, iter.pos, cap, fix);
      var now := fix.at;
      var deep := if first then now else Cursor(now.root, now.path + [now.pos] + below, res.pos);
      if !fix.merged {
        ClimbStep(iter, res, h, cap, first, below, r, pp, fix, deep);
        res := deep;
        return;
      }
      var up := Cursor(now.root, pp, now.path[|pp|]);
      var below' := if first then [] else [now.pos] + below;
      ClimbMerged(iter, res, h, cap, first, below, r, pp, now, up, deep, below');
      iter, res, first, below := up, deep, false, below';
    }
  }

  // ------------------------------------------------------------------ erase

  /** The sequence without element i. */
  function Without<K>(s: seq<K>, i: nat): (t: seq<K>)
    requires i < |s|
    ensures |t| == |s| - 1
  {
    s[..i] + s[i + 1..]
  }

  /** The key at a position of an internal node replaced. */
  function SetKey<K>(c: Cursor<K>, key: K): Node<K>
    requires ValidPath(c.root, c.path) && NodeAt(c.root, c.path).Internal? && c.pos < |NodeAt(c.root, c.path).keys|
  {
    var n := NodeAt(c.root, c.path);
    ReplaceAt(c.root, c.path, Internal(n.keys[c.pos := key], n.kids))
  }

  lemma SetKeyInNode<K>(n: Node<K>, pos: nat, key: K, n': Node<K>)
    requires n.Internal? && Fits(n.keys, n.kids) && pos < |n.keys| && n' == Internal(n.keys[pos := key], n.kids)
    ensures Prefix(n'.keys, n'.kids, pos) == Prefix(n.keys, n.kids, pos)
    ensures KeyOffset(n, pos) < |Inorder(n)| && Inorder(n') == Inorder(n)[KeyOffset(n, pos) := key]
  {
    WeaveAt(n.keys, n.kids, pos);
    WeaveAt(n'.keys, n'.kids, pos);
    assert n'.keys[..pos] == n.keys[..pos];
    PrefixLocal(n.keys, n.kids, n'.keys, n'.kids, pos);
    assert n'.keys[pos + 1..] == n.keys[pos + 1..];
    ReplaceHead(Prefix(n.keys, n.kids, pos) + Inorder(n.kids[pos]), n.keys[pos],
      Weave(n.keys[pos + 1..], n.kids[pos + 1..]), key);
  }

  lemma ReplaceHead<K>(a: seq<K>, x: K, b: seq<K>, y: K)
    ensures (a + ([x] + b))[|a| := y] == a + ([y] + b)
  {}

  /** Replacing a key replaces it in the sequence and moves nothing. */
  lemma SetKeyTree<K>(c: Cursor<K>, key: K, h: nat, cap: nat, root': Node<K>)
    requires Good(c.root, h, cap) && OnKey(c) && NodeAt(c.root, c.path).Internal? && root' == SetKey(c, key)
    ensures Good(root', h, cap) && Index(c) < |Inorder(c.root)| && Inorder(root') == Inorder(c.root)[Index(c) := key]
    ensures var now := Cursor(root', c.path, c.pos);
            && ValidCursor(now) && Rank(now) == Rank(c)
            && NodeAt(root', c.path).Internal? && NodeAt(root', c.path).kids == NodeAt(c.root, c.path).kids
  {
    var n := NodeAt(c.root, c.path);
    var n' := Internal(n.keys[c.pos := key], n.kids);
    SetKeyInNode(n, c.pos, key, n');
    ReplacePath(c.root, c.path, n');
    ReplaceContents(c.root, c.path, n');
    Context(c.root, c.path);
    UpdateInside(Left(c.root, c.path), Inorder(n), Right(c.root, c.path), KeyOffset(n, c.pos), key);
    GoodAround(c.root, h, cap, c.path);
    AroundReplace(c.root, h, cap, c.path, n');
    AroundGood(root', h, cap, c.path);
  }

  lemma UpdateInside<K>(a: seq<K>, b: seq<K>, c: seq<K>, i: nat, x: K)
    requires i < |b|
    ensures a + b[i := x] + c == (a + b + c)[|a| + i := x]
  {}

  /** The leaf below a replaced key is where it was. */
  lemma SetKeyBelow<K>(c: Cursor<K>, now: Cursor<K>, below: seq<nat>, d: Cursor<K>, d': Cursor<K>)
    requires ValidCursor(c) && ValidCursor(now) && Rank(now) == Rank(c)
    requires NodeAt(c.root, c.path).Internal? && NodeAt(now.root, now.path).Internal?
    requires NodeAt(now.root, now.path).kids == NodeAt(c.root, c.path).kids && now.pos == c.pos && now.path == c.path
    requires d == Cursor(c.root, c.path + [c.pos] + below, d.pos) && OnKey(d) && NodeAt(d.root, d.path).Leaf?
    requires d' == Cursor(now.root, d.path, d.pos)
    ensures OnKey(d') && NodeAt(d'.root, d'.path) == NodeAt(d.root, d.path) && Index(d') == Index(d)
  {
    assert c.path + [c.pos] + below == c.path + ([c.pos] + below);
    PathSplit(c.root, c.path, [c.pos] + below);
    assert ([c.pos] + below)[1..] == below;
    BelowGap(c, below, d.path);
    BelowGap(now, below, d.path);
  }

  /** remove_value on a leaf. */
  function RemoveValue<K>(d: Cursor<K>): Cursor<K>
    requires ValidPath(d.root, d.path) && NodeAt(d.root, d.path).Leaf? && d.pos < |NodeAt(d.root, d.path).keys|
  {
    Cursor(ReplaceAt(d.root, d.path, Leaf(Without(NodeAt(d.root, d.path).keys, d.pos))), d.path, d.pos)
  }

  /** Exactly the key at the position goes; the gap it leaves has its index as rank, and only its leaf
      may be short of keys. */
  lemma RemoveValueOk<K>(d: Cursor<K>, h: nat, cap: nat, e: Cursor<K>)
    requires Good(d.root, h, cap) && OnKey(d) && NodeAt(d.root, d.path).Leaf? && e == RemoveValue(d)
    ensures Index(d) < |Inorder(d.root)| && Inorder(e.root) == Without(Inorder(d.root), Index(d))
    ensures LeafGap(e, Index(d)) && LooseAt(e.root, h, cap, e.path)
  {
    var leaf := Leaf(Without(NodeAt(d.root, d.path).keys, d.pos));
    RemoveValueContents(d, leaf);
    ReplacePath(d.root, d.path, leaf);
    GoodAround(d.root, h, cap, d.path);
    AroundReplace(d.root, h, cap, d.path, leaf);
  }

  lemma RemoveValueContents<K>(d: Cursor<K>, leaf: Node<K>)
    requires OnKey(d) && NodeAt(d.root, d.path).Leaf? && leaf == Leaf(Without(NodeAt(d.root, d.path).keys, d.pos))
    ensures Index(d) < |Inorder(d.root)|
    ensures Inorder(ReplaceAt(d.root, d.path, leaf)) == Without(Inorder(d.root), Index(d))
  {
    ReplaceContents(d.root, d.path, leaf);
    Context(d.root, d.path);
    RemoveInside(Left(d.root, d.path), NodeAt(d.root, d.path).keys, Right(d.root, d.path), d.pos);
  }

  lemma RemoveInside<K>(a: seq<K>, b: seq<K>, c: seq<K>, i: nat)
    requires i < |b|
    ensures a + Without(b, i) + c == Without(a + b + c, |a| + i)
  {}

  /** Overwriting element i with its predecessor and dropping the predecessor drops element i. */
  lemma MoveUp<K>(s: seq<K>, i: nat)
    requires 1 <= i < |s|
    ensures Without(s[i := s[i - 1]], i - 1) == Without(s, i)
  {}

  /** A gap at the end of its leaf is advanced to the key that follows it. */
  method Settle<K>(c: Cursor<K>, ghost r: nat, ghost h: nat, ghost cap: nat) returns (res: Cursor<K>)
    requires Tree(c.root, h, cap) && LeafGap(c, r) && (c.root != Leaf([]) ==> Settled(c, r))
    ensures res.root == c.root && Denotes(res, r)
  {
    res := c;
    if |c.root.keys| > 0 && c.pos == |NodeAt(c.root, c.path).keys| {
      res := Increment(Cursor(c.root, c.path, c.pos - 1), h, cap);
    }
  }

  /** The tree with the key at c removed from a leaf: its own, or that of its predecessor, which has
      taken its place in the internal node. */
  method RemoveFromLeaf<K>(c: Cursor<K>, ghost h: nat, ghost cap: nat) returns (e: Cursor<K>)
    requires Good(c.root, h, cap) && OnKey(c)
    ensures Index(c) < |Inorder(c.root)| && Inorder(e.root) == Without(Inorder(c.root), Index(c))
    ensures ValidCursor(e) && LooseAt(e.root, h, cap, e.path) && NodeAt(e.root, e.path).Leaf?
    ensures Rank(e) == if NodeAt(c.root, c.path).Leaf? then Index(c) else Index(c) - 1
  {
    var n := NodeAt(c.root, c.path);
    var d := c;
    if n.Internal? {
      var prev, below := DecrementInternal(c, h, cap);
      IndexIsKey(prev);
      var key := NodeAt(prev.root, prev.path).keys[prev.pos];
      var root' := SetKey(c, key);
      SetKeyTree(c, key, h, cap, root');
      d := Cursor(root', prev.path, prev.pos);
      SetKeyBelow(c, Cursor(root', c.path, c.pos), below, prev, d);
      MoveUp(Inorder(c.root), Index(c));
    }
    e := RemoveValue(d);
    RemoveValueOk(d, h, cap, e);
  }

  /** erase: exactly the key at the iterator goes, the tree is in order again, and the returned iterator
      denotes the key that followed, or is end(). */
  method Erase<K>(c: Cursor<K>, ghost h: nat, cap: nat) returns (res: Cursor<K>, ghost h': nat)
    requires cap >= 3 && Good(c.root, h, cap) && OnKey(c)
    ensures Index(c) < |Inorder(c.root)| && Inorder(res.root) == Without(Inorder(c.root), Index(c))
    ensures h' <= h && Tree(res.root, h', cap) && Denotes(res, Index(c))
  {
    var internal := NodeAt(c.root, c.path).Internal?;
    var e := RemoveFromLeaf(c, h, cap);
    res, h' := RebalanceAfterDelete(e, h, cap);
    res := Settle(res, Rank(e), h', cap);
    if internal {
      EmptyTree(res.root, h', cap);
      res := Increment(res, h', cap);
    }
  }

  lemma EmptyTree<K>(root: Node<K>, h: nat, cap: nat)
    requires Tree(root, h, cap) && Inorder(root) != []
    ensures Good(root, h, cap)
  {}
}
