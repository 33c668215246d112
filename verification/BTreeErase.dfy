/** try_merge_or_rebalance, try_shrink and rebalance_after_delete: repairing the tree above a leaf that
    lost a key, without moving the gap the key left. */
module BTreeErase {
  import opened BTreeNode
  import opened BTreeOps
  import opened BTreeShape
  import opened BTreePairs

  // ------------------------------------------------------------------ merge_nodes

  /** Siblings j and j + 1 below pp merged into child j. */
  function MergedAt<K>(root: Node<K>, pp: seq<nat>, j: nat): Node<K>
    requires ValidPath(root, pp) && IsParent(NodeAt(root, pp), j)
    requires var p := NodeAt(root, pp); SameKind(p.kids[j], p.kids[j + 1])
  {
    var p := NodeAt(root, pp);
    ReplaceAt(root, pp, PutMerged(p, j, Merge(p.kids[j], p.keys[j], p.kids[j + 1])))
  }

  lemma MergedStructure<K>(root: Node<K>, pp: seq<nat>, j: nat, root': Node<K>)
    requires ValidPath(root, pp) && IsParent(NodeAt(root, pp), j)
    requires var p := NodeAt(root, pp); SameKind(p.kids[j], p.kids[j + 1])
    requires root' == MergedAt(root, pp, j)
    ensures ValidPath(root', pp) && Left(root', pp) == Left(root, pp) && Inorder(root') == Inorder(root)
    ensures var p, q := NodeAt(root, pp), NodeAt(root', pp);
            && q == PutMerged(p, j, Merge(p.kids[j], p.keys[j], p.kids[j + 1]))
            && Fits(q.keys, q.kids) && q.kids[j] == Merge(p.kids[j], p.keys[j], p.kids[j + 1])
            && Prefix(q.keys, q.kids, j) == Prefix(p.keys, p.kids, j)
  {
    var p := NodeAt(root, pp);
    var n := Merge(p.kids[j], p.keys[j], p.kids[j + 1]);
    MergeContents(p.kids[j], p.keys[j], p.kids[j + 1]);
    PutMergedContents(p, j, n);
    PairContext(p.keys, p.kids, j);
    ReplacePath(root, pp, PutMerged(p, j, n));
    ReplaceContents(root, pp, PutMerged(p, j, n));
    Context(root, pp);
  }

  /** Merging keeps every gap of the two siblings. */
  lemma MergedGap<K>(root: Node<K>, pp: seq<nat>, j: nat, q: nat, was: Cursor<K>, now: Cursor<K>)
    requires ValidPath(root, pp) && IsParent(NodeAt(root, pp), j)
    requires var p := NodeAt(root, pp); SameKind(p.kids[j], p.kids[j + 1])
    requires var p := NodeAt(root, pp); q <= |p.kids[j].keys| + 1 + |p.kids[j + 1].keys|
    requires was == PairCursor(root, pp, j, |NodeAt(root, pp).kids[j].keys|, q)
    requires now == Cursor(MergedAt(root, pp, j), pp + [j], q)
    ensures ValidCursor(was) && ValidCursor(now) && SameGap(was, now)
  {
    PairRank(root, pp, j, q);
    MergedStructure(root, pp, j, now.root);
    KidRank(now.root, pp, j, q);
  }

  /** Parent of height h whose children j and j + 1 may be empty. */
  ghost predicate GoodButPair<K>(p: Node<K>, h: nat, cap: nat, j: nat) {
    && h > 0 && IsParent(p, j) && |p.keys| <= cap
    && Loose(p.kids[j], h - 1, cap) && Loose(p.kids[j + 1], h - 1, cap) && SameKind(p.kids[j], p.kids[j + 1])
    && forall k :: 0 <= k < |p.kids| && k != j && k != j + 1 ==> Good(p.kids[k], h - 1, cap)
  }

  lemma MergedParent<K>(p: Node<K>, h: nat, cap: nat, j: nat)
    requires GoodButPair(p, h, cap, j) && |p.kids[j].keys| + 1 + |p.kids[j + 1].keys| <= cap
    ensures Loose(PutMerged(p, j, Merge(p.kids[j], p.keys[j], p.kids[j + 1])), h, cap)
  {
    var n := Merge(p.kids[j], p.keys[j], p.kids[j + 1]);
    var q := PutMerged(p, j, n);
    LooseMerge(p.kids[j], p.keys[j], p.kids[j + 1], h - 1, cap);
    forall k | 0 <= k < |q.kids| ensures h > 0 && Good(q.kids[k], h - 1, cap) {
      assert q.kids[k] == if k < j then p.kids[k] else if k == j then n else p.kids[k + 1];
    }
  }

  /** The subtree at a path may have an empty root node; everything else is in order. */
  ghost predicate LooseAt<K>(root: Node<K>, h: nat, cap: nat, path: seq<nat>) {
    && ValidPath(root, path) && |path| <= h && Around(root, h, cap, path)
    && Loose(NodeAt(root, path), h - |path|, cap)
  }

  /** After a merge only the parent may be short of keys. */
  lemma MergedShape<K>(root: Node<K>, h: nat, cap: nat, pp: seq<nat>, j: nat, root': Node<K>)
    requires ValidPath(root, pp) && |pp| < h && Around(root, h, cap, pp)
             && GoodButPair(NodeAt(root, pp), h - |pp|, cap, j)
    requires var p := NodeAt(root, pp); |p.kids[j].keys| + 1 + |p.kids[j + 1].keys| <= cap
    requires root' == MergedAt(root, pp, j)
    ensures LooseAt(root', h, cap, pp)
  {
    var p := NodeAt(root, pp);
    MergedParent(p, h - |pp|, cap, j);
    MergedStructure(root, pp, j, root');
    AroundReplace(root, h, cap, pp, PutMerged(p, j, Merge(p.kids[j], p.keys[j], p.kids[j + 1])));
  }

  // ------------------------------------------------------------------ try_merge_or_rebalance

  /** Child i below pp lost keys and now has fewer than cap / 2, possibly none. */
  ghost predicate Underfull<K>(root: Node<K>, h: nat, cap: nat, pp: seq<nat>, i: nat, pos: nat) {
    && cap >= 3 && ValidPath(root, pp) && |pp| < h && Around(root, h, cap, pp)
    && GoodBut(NodeAt(root, pp), h - |pp|, cap, i)
    && var n := NodeAt(root, pp).kids[i];
       Loose(n, h - |pp| - 1, cap) && |n.keys| < cap / 2 && pos <= |n.keys|
  }

  /** Result: whether nodes were merged, and the cursor. */
  datatype Repair<K> = Repair(merged: bool, at: Cursor<K>)

  /** What try_merge_or_rebalance achieves: the cursor denotes the same gap in a node of the same
      level that is not empty. Unless nodes were merged the whole tree is in order again; otherwise
      only the parent may be short of keys. */
  ghost predicate Repaired<K>(was: Cursor<K>, h: nat, cap: nat, pp: seq<nat>, r: Repair<K>) {
    match r
    case Repair(merged, now) =>
      && ValidCursor(was) && ValidCursor(now) && SameGap(was, now)
      && |now.path| == |pp| + 1 && now.path[..|pp|] == pp
      && 1 <= |NodeAt(now.root, now.path).keys|
      && (if merged then LooseAt(now.root, h, cap, pp) else Good(now.root, h, cap))
  }

  lemma UnderfullPair<K>(root: Node<K>, h: nat, cap: nat, pp: seq<nat>, i: nat, pos: nat, j: nat)
    requires Underfull(root, h, cap, pp, i, pos) && (j == i || j + 1 == i) && j < |NodeAt(root, pp).keys|
    ensures GoodButPair(NodeAt(root, pp), h - |pp|, cap, j)
    ensures var k := if j == i then i + 1 else j; 1 <= |NodeAt(root, pp).kids[k].keys| <= cap
  {
    var p := NodeAt(root, pp);
    SameHeightSameKind(p.kids[j], p.kids[j + 1], h - |pp| - 1, cap);
  }

  /** Merging siblings j and j + 1, one of which is the child at the cursor. */
  lemma MergeRepairs<K>(root: Node<K>, h: nat, cap: nat, pp: seq<nat>, i: nat, pos: nat, j: nat, now: Cursor<K>)
    requires Underfull(root, h, cap, pp, i, pos) && (j == i || j + 1 == i) && j < |NodeAt(root, pp).keys|
    requires var p := NodeAt(root, pp);
             SameKind(p.kids[j], p.kids[j + 1]) && |p.kids[j].keys| + 1 + |p.kids[j + 1].keys| <= cap
    requires now == Cursor(MergedAt(root, pp, j), pp + [j], if j == i then pos
             else |NodeAt(root, pp).kids[j].keys| + 1 + pos)
    ensures Repaired(Cursor(root, pp + [i], pos), h, cap, pp, Repair(true, now))
  {
    UnderfullPair(root, h, cap, pp, i, pos, j);
    MergedGap(root, pp, j, now.pos, Cursor(root, pp + [i], pos), now);
    MergedShape(root, h, cap, pp, j, now.root);
    MergedStructure(root, pp, j, now.root);
    KidRank(now.root, pp, j, now.pos);
  }

  /** Cutting siblings j and j + 1 anew, one of which is the child at the cursor. */
  lemma RecutRepairs<K>(root: Node<K>, h: nat, cap: nat, pp: seq<nat>, i: nat, pos: nat, j: nat, cut: nat,
                        now: Cursor<K>)
    requires Underfull(root, h, cap, pp, i, pos) && (j == i || j + 1 == i) && j < |NodeAt(root, pp).keys|
    requires var p := NodeAt(root, pp); var total := |p.kids[j].keys| + 1 + |p.kids[j + 1].keys|;
             SameKind(p.kids[j], p.kids[j + 1]) && 1 <= cut <= cap && cut + 1 < total <= cap + cut + 1
    requires var q := if j == i then pos else |NodeAt(root, pp).kids[j].keys| + 1 + pos;
             now == PairCursor(Recut(root, pp, j, cut), pp, j, cut, q)
    ensures Repaired(Cursor(root, pp + [i], pos), h, cap, pp, Repair(false, now))
  {
    UnderfullPair(root, h, cap, pp, i, pos, j);
    RecutGap(root, pp, j, cut, if j == i then pos else |NodeAt(root, pp).kids[j].keys| + 1 + pos);
    RecutShape(root, h, cap, pp, j, cut);
  }

  /** How many values a sibling gives: so many that the two then differ by at most one. */
  function Surplus(give: nat, have: nat): (m: nat)
    requires give >= have + 2
    ensures 1 <= m < give && 0 <= (give - m) - (have + m) <= 1
  {
    var half := (give - have) / 2;
    if half < give - 1 then half else give - 1
  }

  function TakeFromRight<K>(root: Node<K>, pp: seq<nat>, i: nat, pos: nat): Cursor<K>
    requires ValidPath(root, pp) && IsParent(NodeAt(root, pp), i)
    requires var p := NodeAt(root, pp);
             SameKind(p.kids[i], p.kids[i + 1]) && |p.kids[i + 1].keys| >= |p.kids[i].keys| + 2
  {
    var p := NodeAt(root, pp);
    var m := Surplus(|p.kids[i + 1].keys|, |p.kids[i].keys|);
    Cursor(ReplaceAt(root, pp, PutPair(p, i, RebalanceRightToLeft(Pair(p.kids[i], p.keys[i], p.kids[i + 1]), m))),
      pp + [i], pos)
  }

  function TakeFromLeft<K>(root: Node<K>, pp: seq<nat>, i: nat, pos: nat): Cursor<K>
    requires i > 0 && ValidPath(root, pp) && IsParent(NodeAt(root, pp), i - 1)
    requires var p := NodeAt(root, pp);
             SameKind(p.kids[i - 1], p.kids[i]) && |p.kids[i - 1].keys| >= |p.kids[i].keys| + 2
  {
    var p := NodeAt(root, pp);
    var m := Surplus(|p.kids[i - 1].keys|, |p.kids[i].keys|);
    Cursor(ReplaceAt(root, pp,
      PutPair(p, i - 1, RebalanceLeftToRight(Pair(p.kids[i - 1], p.keys[i - 1], p.kids[i]), m))), pp + [i], pos + m)
  }

  lemma TakeFromRightIsRecut<K>(root: Node<K>, pp: seq<nat>, i: nat, pos: nat)
    requires ValidPath(root, pp) && IsParent(NodeAt(root, pp), i)
    requires var p := NodeAt(root, pp);
             SameKind(p.kids[i], p.kids[i + 1]) && |p.kids[i + 1].keys| >= |p.kids[i].keys| + 2
    requires pos <= |NodeAt(root, pp).kids[i].keys|
    ensures var p := NodeAt(root, pp); var cut := |p.kids[i].keys| + Surplus(|p.kids[i + 1].keys|, |p.kids[i].keys|);
            TakeFromRight(root, pp, i, pos) == PairCursor(Recut(root, pp, i, cut), pp, i, cut, pos)
  {
    var p := NodeAt(root, pp);
    RightToLeftIsCut(Pair(p.kids[i], p.keys[i], p.kids[i + 1]), Surplus(|p.kids[i + 1].keys|, |p.kids[i].keys|));
  }

  lemma TakeFromLeftIsRecut<K>(root: Node<K>, pp: seq<nat>, i: nat, pos: nat)
    requires i > 0 && ValidPath(root, pp) && IsParent(NodeAt(root, pp), i - 1)
    requires var p := NodeAt(root, pp);
             SameKind(p.kids[i - 1], p.kids[i]) && |p.kids[i - 1].keys| >= |p.kids[i].keys| + 2
    ensures var p := NodeAt(root, pp); var count := |p.kids[i - 1].keys|;
            var cut := count - Surplus(count, |p.kids[i].keys|);
            TakeFromLeft(root, pp, i, pos) == PairCursor(Recut(root, pp, i - 1, cut), pp, i - 1, cut, count + 1 + pos)
  {
    var p := NodeAt(root, pp);
    LeftToRightIsCut(Pair(p.kids[i - 1], p.keys[i - 1], p.kids[i]), Surplus(|p.kids[i - 1].keys|, |p.kids[i].keys|));
  }

  lemma TakeFromRightOk<K>(root: Node<K>, h: nat, cap: nat, pp: seq<nat>, i: nat, pos: nat, now: Cursor<K>)
    requires Underfull(root, h, cap, pp, i, pos) && i < |NodeAt(root, pp).keys|
    requires var p := NodeAt(root, pp);
             SameKind(p.kids[i], p.kids[i + 1]) && |p.kids[i + 1].keys| >= |p.kids[i].keys| + 2
    requires now == TakeFromRight(root, pp, i, pos)
    ensures Repaired(Cursor(root, pp + [i], pos), h, cap, pp, Repair(false, now))
  {
    var p := NodeAt(root, pp);
    var have, give := |p.kids[i].keys|, |p.kids[i + 1].keys|;
    UnderfullPair(root, h, cap, pp, i, pos, i);
    TakeFromRightIsRecut(root, pp, i, pos);
    RecutRepairs(root, h, cap, pp, i, pos, i, have + Surplus(give, have), now);
  }

  lemma TakeFromLeftOk<K>(root: Node<K>, h: nat, cap: nat, pp: seq<nat>, i: nat, pos: nat, now: Cursor<K>)
    requires Underfull(root, h, cap, pp, i, pos) && i > 0
    requires var p := NodeAt(root, pp);
             SameKind(p.kids[i - 1], p.kids[i]) && |p.kids[i - 1].keys| >= |p.kids[i].keys| + 2
    requires now == TakeFromLeft(root, pp, i, pos)
    ensures Repaired(Cursor(root, pp + [i], pos), h, cap, pp, Repair(false, now))
  {
    var p := NodeAt(root, pp);
    var have, give := |p.kids[i].keys|, |p.kids[i - 1].keys|;
    UnderfullPair(root, h, cap, pp, i, pos, i - 1);
    TakeFromLeftIsRecut(root, pp, i, pos);
    RecutRepairs(root, h, cap, pp, i, pos, i - 1, give - Surplus(give, have), now);
  }

  /** Nothing to do: the node keeps at least one key. */
  lemma LeaveAsIs<K>(root: Node<K>, h: nat, cap: nat, pp: seq<nat>, i: nat, pos: nat)
    requires Underfull(root, h, cap, pp, i, pos) && 1 <= |NodeAt(root, pp).kids[i].keys|
    ensures Repaired(Cursor(root, pp + [i], pos), h, cap, pp, Repair(false, Cursor(root, pp + [i], pos)))
  {
    KidRank(root, pp, i, pos);
    AroundSnoc(root, h, cap, pp, i);
    AroundGood(root, h, cap, pp + [i]);
  }

  lemma UnderfullKind<K>(root: Node<K>, h: nat, cap: nat, pp: seq<nat>, i: nat, pos: nat)
    requires Underfull(root, h, cap, pp, i, pos)
    ensures var p := NodeAt(root, pp);
            && (i > 0 ==> SameKind(p.kids[i - 1], p.kids[i]) && 1 <= |p.kids[i - 1].keys| <= cap)
            && (i < |p.keys| ==> SameKind(p.kids[i], p.kids[i + 1]) && 1 <= |p.kids[i + 1].keys| <= cap)
  {
    if i > 0 { UnderfullPair(root, h, cap, pp, i, pos, i - 1); }
    if i < |NodeAt(root, pp).keys| { UnderfullPair(root, h, cap, pp, i, pos, i); }
  }

  /** Merge with the left or the right sibling if everything fits one node; otherwise take keys from a
      sibling that has more than cap / 2, unless the deletion was at the end that faces away from it. */
  function TryMergeOrRebalance<K>(root: Node<K>, ghost h: nat, pp: seq<nat>, i: nat, pos: nat, cap: nat): (r: Repair<K>)
    requires Underfull(root, h, cap, pp, i, pos)
    ensures Repaired(Cursor(root, pp + [i], pos), h, cap, pp, r)
  {
    UnderfullKind(root, h, cap, pp, i, pos);
    var p := NodeAt(root, pp);
    var n := p.kids[i];
    if i > 0 && 1 + |p.kids[i - 1].keys| + |n.keys| <= cap then
      var c := Cursor(MergedAt(root, pp, i - 1), pp + [i - 1], |p.kids[i - 1].keys| + 1 + pos);
      MergeRepairs(root, h, cap, pp, i, pos, i - 1, c);
      Repair(true, c)
    else if i < |p.keys| && 1 + |n.keys| + |p.kids[i + 1].keys| <= cap then
      var c := Cursor(MergedAt(root, pp, i), pp + [i], pos);
      MergeRepairs(root, h, cap, pp, i, pos, i, c);
      Repair(true, c)
    else if i < |p.keys| && |p.kids[i + 1].keys| > cap / 2 && (|n.keys| == 0 || pos > 0) then
      var c := TakeFromRight(root, pp, i, pos);
      TakeFromRightOk(root, h, cap, pp, i, pos, c);
      Repair(false, c)
    else if i > 0 && |p.kids[i - 1].keys| > cap / 2 && (|n.keys| == 0 || pos < |n.keys|) then
      var c := TakeFromLeft(root, pp, i, pos);
      TakeFromLeftOk(root, h, cap, pp, i, pos, c);
      Repair(false, c)
    else
      LeaveAsIs(root, h, cap, pp, i, pos);
      Repair(false, Cursor(root, pp + [i], pos))
  }
}
