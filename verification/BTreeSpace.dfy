/** How many nodes a tree has: what the restructurings allocate and what they give back. */
module BTreeSpace {
  import opened BTreeNode
  import opened BTreeOps
  import opened BTreeShape
  import opened BTreePairs
  import opened BTreeInsert
  import opened BTreeErase

  // ------------------------------------------------------------------ counting nodes

  ghost function Nodes<K>(n: Node<K>): nat
    decreases n, 1
  {
    match n
    case Leaf(_) => 1
    case Internal(_, kids) => 1 + Forest(kids, |kids|)
  }

  /** Nodes of the first i subtrees. */
  ghost function Forest<K>(kids: seq<Node<K>>, i: nat): nat
    requires i <= |kids|
    decreases kids, 0, i
  {
    if i == 0 then 0 else Forest(kids, i - 1) + Nodes(kids[i - 1])
  }

  ghost function All<K>(kids: seq<Node<K>>): nat {
    Forest(kids, |kids|)
  }

  lemma {:induction false} ForestJoin<K>(a: seq<Node<K>>, b: seq<Node<K>>, i: nat)
    requires i <= |a| + |b|
    ensures Forest(a + b, i) == if i <= |a| then Forest(a, i) else All(a) + Forest(b, i - |a|)
  {
    if i > 0 {
      ForestJoin(a, b, i - 1);
      assert (a + b)[i - 1] == if i <= |a| then a[i - 1] else b[i - 1 - |a|];
    }
  }

  lemma AllJoin<K>(a: seq<Node<K>>, b: seq<Node<K>>)
    ensures All(a + b) == All(a) + All(b)
  {
    ForestJoin(a, b, |a| + |b|);
  }

  lemma AllAround<K>(kids: seq<Node<K>>, i: nat)
    requires i < |kids|
    ensures All(kids) == All(kids[..i]) + Nodes(kids[i]) + All(kids[i + 1..])
  {
    assert kids == kids[..i] + ([kids[i]] + kids[i + 1..]);
    AllJoin(kids[..i], [kids[i]] + kids[i + 1..]);
    AllJoin([kids[i]], kids[i + 1..]);
    assert All([kids[i]]) == Forest([kids[i]], 0) + Nodes(kids[i]);
  }

  lemma AllUpdate<K>(kids: seq<Node<K>>, i: nat, x: Node<K>)
    requires i < |kids|
    ensures All(kids[i := x]) + Nodes(kids[i]) == All(kids) + Nodes(x)
  {
    AllAround(kids, i);
    AllAround(kids[i := x], i);
    assert kids[i := x][..i] == kids[..i] && kids[i := x][i + 1..] == kids[i + 1..];
  }

  lemma {:induction false} NodesReplace<K>(root: Node<K>, path: seq<nat>, x: Node<K>)
    requires ValidPath(root, path)
    ensures Nodes(ReplaceAt(root, path, x)) + Nodes(NodeAt(root, path)) == Nodes(root) + Nodes(x)
    decreases path
  {
    if path != [] {
      var kid := root.kids[path[0]];
      NodesReplace(kid, path[1..], x);
      AllUpdate(root.kids, path[0], ReplaceAt(kid, path[1..], x));
    }
  }

  // ------------------------------------------------------------------ siblings and parents

  lemma NodesMerge<K>(l: Node<K>, d: K, r: Node<K>)
    requires SameKind(l, r)
    ensures Nodes(Merge(l, d, r)) + 1 == Nodes(l) + Nodes(r)
  {
    if l.Internal? { AllJoin(l.kids, r.kids); }
  }

  lemma NodesCut<K>(n: Node<K>, p: nat)
    requires WellFormed(n) && p < |n.keys|
    ensures Nodes(CutLeft(n, p)) + Nodes(CutRight(n, p)) == Nodes(n) + 1
  {
    if n.Internal? {
      AllJoin(n.kids[..p + 1], n.kids[p + 1..]);
      assert n.kids == n.kids[..p + 1] + n.kids[p + 1..];
    }
  }

  lemma NodesSplit<K>(n: Node<K>, pos: nat, cap: nat)
    requires WellFormed(n) && |n.keys| >= 2
    ensures var s := SplitNode(n, pos, cap); Nodes(s.left) + Nodes(s.right) == Nodes(n) + 1
  {
    NodesCut(n, |n.keys| - SplitCount(|n.keys|, pos, cap) - 1);
  }

  lemma NodesPutPair<K>(p: Node<K>, i: nat, s: Pair<K>)
    requires IsParent(p, i)
    ensures Nodes(PutPair(p, i, s)) + Nodes(p.kids[i]) + Nodes(p.kids[i + 1]) == Nodes(p) + Nodes(s.left)
            + Nodes(s.right)
  {
    AllUpdate(p.kids, i, s.left);
    AllUpdate(p.kids[i := s.left], i + 1, s.right);
  }

  lemma NodesPutSplit<K>(p: Node<K>, i: nat, s: Pair<K>)
    requires p.Internal? && Fits(p.keys, p.kids) && i < |p.kids|
    ensures Nodes(PutSplit(p, i, s)) + Nodes(p.kids[i]) == Nodes(p) + Nodes(s.left) + Nodes(s.right)
  {
    AllAround(p.kids, i);
    var two := [s.left, s.right];
    AllJoin(p.kids[..i] + two, p.kids[i + 1..]);
    AllJoin(p.kids[..i], two);
    AllAround(two, 0);
    assert two[1..] == [s.right] && All(two[1..]) == Forest(two[1..], 0) + Nodes(s.right);
  }

  lemma NodesPutMerged<K>(p: Node<K>, j: nat, n: Node<K>)
    requires IsParent(p, j)
    ensures Nodes(PutMerged(p, j, n)) + Nodes(p.kids[j]) + Nodes(p.kids[j + 1]) == Nodes(p) + Nodes(n)
  {
    AllAround(p.kids, j);
    AllAround(p.kids[j + 1..], 0);
    assert p.kids[j + 1..][1..] == p.kids[j + 2..] && p.kids[j + 1..][0] == p.kids[j + 1];
    AllJoin(p.kids[..j] + [n], p.kids[j + 2..]);
    AllJoin(p.kids[..j], [n]);
    assert All([n]) == Forest([n], 0) + Nodes(n);
  }

  lemma NodesRecut<K>(root: Node<K>, pp: seq<nat>, i: nat, c: nat)
    requires ValidPath(root, pp) && IsParent(NodeAt(root, pp), i)
    requires var p := NodeAt(root, pp);
             SameKind(p.kids[i], p.kids[i + 1]) && c < |Merge(p.kids[i], p.keys[i], p.kids[i + 1]).keys|
    ensures Nodes(Recut(root, pp, i, c)) == Nodes(root)
  {
    var p := NodeAt(root, pp);
    var n := Merge(p.kids[i], p.keys[i], p.kids[i + 1]);
    var s := Pair(CutLeft(n, c), n.keys[c], CutRight(n, c));
    NodesMerge(p.kids[i], p.keys[i], p.kids[i + 1]);
    NodesCut(n, c);
    NodesPutPair(p, i, s);
    NodesReplace(root, pp, PutPair(p, i, s));
  }

  // ------------------------------------------------------------------ insertion

  lemma NodesSplitKid<K>(root: Node<K>, pp: seq<nat>, i: nat, pos: nat, cap: nat)
    requires FullKid(root, pp, i, pos, cap) && cap >= 3
    ensures Nodes(SplitKid(root, pp, i, pos, cap).root) == Nodes(root) + 1
  {
    var p := NodeAt(root, pp);
    var s := SplitNode(p.kids[i], pos, cap);
    NodesSplit(p.kids[i], pos, cap);
    NodesPutSplit(p, i, s);
    NodesReplace(root, pp, PutSplit(p, i, s));
  }

  /** A sibling of child i can take a value: it has two free slots, or one that the new key does not need. */
  predicate SiblingHasRoom<K>(p: Node<K>, i: nat, pos: nat, cap: nat)
    requires p.Internal? && Fits(p.keys, p.kids) && i < |p.kids|
  {
    || (i > 0 && var l := |p.kids[i - 1].keys|; l + 2 <= cap || (l + 1 == cap && pos > 0))
    || (i < |p.keys| && var r := |p.kids[i + 1].keys|; r + 2 <= cap || (r + 1 == cap && pos < cap))
  }

  lemma RoomIsRoom<K>(p: Node<K>, i: nat, pos: nat, cap: nat)
    requires p.Internal? && Fits(p.keys, p.kids) && i < |p.kids| && |p.kids[i].keys| == cap >= 3 && pos <= cap
    ensures SiblingHasRoom(p, i, pos, cap) <==> LeftHasRoom(p, i, pos, cap) || RightHasRoom(p, i, pos, cap)
  {}

  /** How many nodes are allocated to make room at a path: none if a sibling has room, otherwise one for the
      split, after the parent was given room if it is full; a root is split below a new one. */
  ghost function Allocated<K>(root: Node<K>, path: seq<nat>, pos: nat, cap: nat): nat
    requires ValidPath(root, path)
    decreases |path|
  {
    if path == [] then 2
    else
      PathParent(root, path);
      var pp, i := path[..|path| - 1], path[|path| - 1];
      var p := NodeAt(root, pp);
      if SiblingHasRoom(p, i, pos, cap) then 0
      else if |p.keys| < cap then 1
      else 1 + Allocated(root, pp, i, cap)
  }

  lemma NodesMoveToLeft<K>(root: Node<K>, h: nat, pp: seq<nat>, i: nat, pos: nat, cap: nat)
    requires FullKid(root, pp, i, pos, cap) && LeftHasRoom(NodeAt(root, pp), i, pos, cap) && Good(root, h, cap)
             && cap >= 3
    ensures var p := NodeAt(root, pp); SameKind(p.kids[i - 1], p.kids[i])
    ensures Nodes(MoveToLeft(root, pp, i, pos, cap).root) == Nodes(root)
  {
    MoveToLeftOk(root, h, pp, i, pos, cap);
    var l := NodeAt(root, pp).kids[i - 1];
    var m := ToMoveLeft(|l.keys|, pos, cap);
    MoveToLeftRoot(root, pp, i, pos, cap, l, m, MoveToLeft(root, pp, i, pos, cap));
    NodesRecut(root, pp, i - 1, |l.keys| + m);
  }

  lemma NodesMoveToRight<K>(root: Node<K>, h: nat, pp: seq<nat>, i: nat, pos: nat, cap: nat)
    requires FullKid(root, pp, i, pos, cap) && RightHasRoom(NodeAt(root, pp), i, pos, cap) && Good(root, h, cap)
             && cap >= 3
    ensures var p := NodeAt(root, pp); SameKind(p.kids[i], p.kids[i + 1])
    ensures Nodes(MoveToRight(root, pp, i, pos, cap).root) == Nodes(root)
  {
    MoveToRightOk(root, h, pp, i, pos, cap);
    SiblingsKind(root, h, cap, pp, i);
    var r := NodeAt(root, pp).kids[i + 1];
    var cut := cap - ToMoveRight(|r.keys|, pos, cap);
    MoveToRightRoot(root, pp, i, pos, cap, r, cut);
    NodesRecut(root, pp, i, cut);
  }

  lemma NodesRootSplit<K>(root: Node<K>, h: nat, pos: nat, cap: nat)
    requires Good(root, h, cap) && cap >= 3 && |root.keys| == cap && pos <= cap && WellFormed(root)
    ensures Nodes(RebalanceOrSplit(root, h, [], pos, cap).root) == Nodes(root) + 2
  {
    RootSplitOk(root, h, pos, cap);
    var top: Node<K> := Internal([], [root]);
    NodesSplitKid(top, [], 0, pos, cap);
    assert Nodes(top) == 1 + (Forest([root], 0) + Nodes(root));
  }

  /** rebalance_or_split allocates a node only where neither sibling has room. */
  lemma {:induction false} RebalanceAllocates<K>(root: Node<K>, h: nat, path: seq<nat>, pos: nat, cap: nat)
    requires Good(root, h, cap) && cap >= 3 && ValidPath(root, path)
    requires |NodeAt(root, path).keys| == cap && pos <= cap
    ensures Nodes(RebalanceOrSplit(root, h, path, pos, cap).root) == Nodes(root) + Allocated(root, path, pos, cap)
    decreases |path|
  {
    GoodAround(root, h, cap, path);
    if path == [] {
      NodesRootSplit(root, h, pos, cap);
    } else {
      var pp, i := path[..|path| - 1], path[|path| - 1];
      assert path == pp + [i];
      PathParent(root, path);
      GoodAround(root, h, cap, pp);
      var p := NodeAt(root, pp);
      RoomIsRoom(p, i, pos, cap);
      if LeftHasRoom(p, i, pos, cap) {
        NodesMoveToLeft(root, h, pp, i, pos, cap);
      } else if RightHasRoom(p, i, pos, cap) {
        NodesMoveToRight(root, h, pp, i, pos, cap);
      } else if |p.keys| == cap {
        RebalanceAllocates(root, h, pp, i, cap);
        var up := RebalanceOrSplit(root, h, pp, i, cap);
        SplitBelow(root, h, pp, i, pos, cap, up);
        NodesSplitKid(up.root, up.path, up.pos, pos, cap);
      } else {
        NodesSplitKid(root, pp, i, pos, cap);
      }
    }
  }

  // ------------------------------------------------------------------ deletion

  /** Child i and one of its siblings fit into one node. */
  predicate Mergeable<K>(p: Node<K>, i: nat, cap: nat)
    requires p.Internal? && Fits(p.keys, p.kids) && i < |p.kids|
  {
    || (i > 0 && |p.kids[i - 1].keys| + 1 + |p.kids[i].keys| <= cap)
    || (i < |p.keys| && |p.kids[i].keys| + 1 + |p.kids[i + 1].keys| <= cap)
  }

  lemma NodesMerged<K>(root: Node<K>, pp: seq<nat>, j: nat)
    requires ValidPath(root, pp) && IsParent(NodeAt(root, pp), j)
    requires var p := NodeAt(root, pp); SameKind(p.kids[j], p.kids[j + 1])
    ensures Nodes(MergedAt(root, pp, j)) + 1 == Nodes(root)
  {
    var p := NodeAt(root, pp);
    var n := Merge(p.kids[j], p.keys[j], p.kids[j + 1]);
    NodesMerge(p.kids[j], p.keys[j], p.kids[j + 1]);
    NodesPutMerged(p, j, n);
    NodesReplace(root, pp, PutMerged(p, j, n));
  }

  lemma NodesTakeFromRight<K>(root: Node<K>, pp: seq<nat>, i: nat, pos: nat)
    requires ValidPath(root, pp) && IsParent(NodeAt(root, pp), i)
    requires var p := NodeAt(root, pp);
             SameKind(p.kids[i], p.kids[i + 1]) && |p.kids[i + 1].keys| >= |p.kids[i].keys| + 2
    requires pos <= |NodeAt(root, pp).kids[i].keys|
    ensures Nodes(TakeFromRight(root, pp, i, pos).root) == Nodes(root)
  {
    var p := NodeAt(root, pp);
    TakeFromRightIsRecut(root, pp, i, pos);
    NodesRecut(root, pp, i, |p.kids[i].keys| + Surplus(|p.kids[i + 1].keys|, |p.kids[i].keys|));
  }

  lemma NodesTakeFromLeft<K>(root: Node<K>, pp: seq<nat>, i: nat, pos: nat)
    requires i > 0 && ValidPath(root, pp) && IsParent(NodeAt(root, pp), i - 1)
    requires var p := NodeAt(root, pp);
             SameKind(p.kids[i - 1], p.kids[i]) && |p.kids[i - 1].keys| >= |p.kids[i].keys| + 2
    ensures Nodes(TakeFromLeft(root, pp, i, pos).root) == Nodes(root)
  {
    var p := NodeAt(root, pp);
    TakeFromLeftIsRecut(root, pp, i, pos);
    var count := |p.kids[i - 1].keys|;
    NodesRecut(root, pp, i - 1, count - Surplus(count, |p.kids[i].keys|));
  }

  lemma MergeGivesBack<K>(root: Node<K>, h: nat, pp: seq<nat>, i: nat, pos: nat, cap: nat, r: Repair<K>)
    requires Underfull(root, h, cap, pp, i, pos) && r == TryMergeOrRebalance(root, h, pp, i, pos, cap)
    requires Mergeable(NodeAt(root, pp), i, cap)
    ensures r.merged && Nodes(r.at.root) + 1 == Nodes(root)
  {
    UnderfullKind(root, h, cap, pp, i, pos);
    var p := NodeAt(root, pp);
    if i > 0 && 1 + |p.kids[i - 1].keys| + |p.kids[i].keys| <= cap {
      NodesMerged(root, pp, i - 1);
    } else {
      NodesMerged(root, pp, i);
    }
  }

  lemma TakingKeeps<K>(root: Node<K>, h: nat, pp: seq<nat>, i: nat, pos: nat, cap: nat, r: Repair<K>)
    requires Underfull(root, h, cap, pp, i, pos) && r == TryMergeOrRebalance(root, h, pp, i, pos, cap)
    requires !Mergeable(NodeAt(root, pp), i, cap)
    ensures !r.merged && Nodes(r.at.root) == Nodes(root)
  {
    UnderfullKind(root, h, cap, pp, i, pos);
    var p := NodeAt(root, pp);
    var n := p.kids[i];
    if i < |p.keys| && |p.kids[i + 1].keys| > cap / 2 && (|n.keys| == 0 || pos > 0) {
      NodesTakeFromRight(root, pp, i, pos);
    } else if i > 0 && |p.kids[i - 1].keys| > cap / 2 && (|n.keys| == 0 || pos < |n.keys|) {
      NodesTakeFromLeft(root, pp, i, pos);
    }
  }

  /** try_merge_or_rebalance merges whenever the node and a sibling fit into one, which gives a node back. */
  lemma RepairGivesBack<K>(root: Node<K>, h: nat, pp: seq<nat>, i: nat, pos: nat, cap: nat, r: Repair<K>)
    requires Underfull(root, h, cap, pp, i, pos) && r == TryMergeOrRebalance(root, h, pp, i, pos, cap)
    ensures r.merged <==> Mergeable(NodeAt(root, pp), i, cap)
    ensures Nodes(r.at.root) + (if r.merged then 1 else 0) == Nodes(root)
  {
    if Mergeable(NodeAt(root, pp), i, cap) {
      MergeGivesBack(root, h, pp, i, pos, cap, r);
    } else {
      TakingKeeps(root, h, pp, i, pos, cap, r);
    }
  }

  /** Child i is short of keys, cannot be merged, and a sibling has keys to give, unless the deletion was at the
      end of the child that faces away from that sibling. */
  predicate TakesFromSibling<K>(p: Node<K>, i: nat, pos: nat, cap: nat)
    requires p.Internal? && Fits(p.keys, p.kids) && i < |p.kids|
  {
    && !Mergeable(p, i, cap)
    && var n := |p.kids[i].keys|;
       || (i < |p.keys| && |p.kids[i + 1].keys| > cap / 2 && (n == 0 || pos > 0))
       || (i > 0 && |p.kids[i - 1].keys| > cap / 2 && (n == 0 || pos < n))
  }

  lemma TakeFromRightGains<K>(root: Node<K>, pp: seq<nat>, i: nat, pos: nat, now: Cursor<K>)
    requires ValidPath(root, pp) && IsParent(NodeAt(root, pp), i)
    requires var p := NodeAt(root, pp);
             SameKind(p.kids[i], p.kids[i + 1]) && |p.kids[i + 1].keys| >= |p.kids[i].keys| + 2
    requires pos <= |NodeAt(root, pp).kids[i].keys| && now == TakeFromRight(root, pp, i, pos)
    ensures ValidPath(now.root, now.path) && |NodeAt(now.root, now.path).keys| > |NodeAt(root, pp).kids[i].keys|
  {
    var p := NodeAt(root, pp);
    var cut := |p.kids[i].keys| + Surplus(|p.kids[i + 1].keys|, |p.kids[i].keys|);
    TakeFromRightIsRecut(root, pp, i, pos);
    RecutGap(root, pp, i, cut, pos);
  }

  lemma TakeFromLeftGains<K>(root: Node<K>, pp: seq<nat>, i: nat, pos: nat, now: Cursor<K>)
    requires i > 0 && ValidPath(root, pp) && IsParent(NodeAt(root, pp), i - 1)
    requires var p := NodeAt(root, pp);
             SameKind(p.kids[i - 1], p.kids[i]) && |p.kids[i - 1].keys| >= |p.kids[i].keys| + 2
    requires pos <= |NodeAt(root, pp).kids[i].keys| && now == TakeFromLeft(root, pp, i, pos)
    ensures ValidPath(now.root, now.path) && |NodeAt(now.root, now.path).keys| > |NodeAt(root, pp).kids[i].keys|
  {
    var p := NodeAt(root, pp);
    var count := |p.kids[i - 1].keys|;
    var cut := count - Surplus(count, |p.kids[i].keys|);
    TakeFromLeftIsRecut(root, pp, i, pos);
    RecutGap(root, pp, i - 1, cut, count + 1 + pos);
  }

  /** Without a merge the node gains keys whenever a sibling has some to give, and otherwise nothing changes. */
  lemma RepairTakes<K>(root: Node<K>, h: nat, pp: seq<nat>, i: nat, pos: nat, cap: nat, r: Repair<K>)
    requires Underfull(root, h, cap, pp, i, pos) && r == TryMergeOrRebalance(root, h, pp, i, pos, cap)
    ensures var p := NodeAt(root, pp);
            && (TakesFromSibling(p, i, pos, cap) ==>
                  ValidPath(r.at.root, r.at.path) && |NodeAt(r.at.root, r.at.path).keys| > |p.kids[i].keys|)
            && (!Mergeable(p, i, cap) && !TakesFromSibling(p, i, pos, cap) ==> r.at == Cursor(root, pp + [i], pos))
  {
    UnderfullKind(root, h, cap, pp, i, pos);
    var p := NodeAt(root, pp);
    var n := p.kids[i];
    if !Mergeable(p, i, cap) {
      if i < |p.keys| && |p.kids[i + 1].keys| > cap / 2 && (|n.keys| == 0 || pos > 0) {
        TakeFromRightGains(root, pp, i, pos, r.at);
      } else if i > 0 && |p.kids[i - 1].keys| > cap / 2 && (|n.keys| == 0 || pos < |n.keys|) {
        TakeFromLeftGains(root, pp, i, pos, r.at);
      }
    }
  }

  /** split is biased by the position of the new key: at either end the other node takes everything, otherwise
      the two nodes differ by at most one key. */
  lemma SplitBias<K>(n: Node<K>, pos: nat, cap: nat)
    requires WellFormed(n) && |n.keys| >= 2
    ensures var s := SplitNode(n, pos, cap);
            && |s.left.keys| + 1 + |s.right.keys| == |n.keys|
            && (pos == 0 ==> |s.left.keys| == 0)
            && (pos == cap > 0 ==> |s.right.keys| == 0)
            && (0 < pos != cap ==> 0 <= |s.right.keys| - |s.left.keys| <= 1)
  {}
}
