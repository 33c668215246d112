/** rebalance_or_split and insertion: making room for one more key without moving its gap. */
module BTreeInsert {
  import opened BTreeNode
  import opened BTreeOps
  import opened BTreeShape
  import opened BTreePairs

  // ------------------------------------------------------------------ rebalance_or_split

  /** How many values go to the left sibling: half of its free slots, all of them if the insertion is at the
      end of the node. */
  function ToMoveLeft(leftCount: nat, pos: nat, cap: nat): (m: nat)
    requires leftCount < cap
    ensures 1 <= m <= cap - leftCount
    ensures pos >= cap ==> leftCount + m == cap
    ensures pos < cap && leftCount + 2 <= cap ==> 0 <= cap - leftCount - 2 * m <= 1
  {
    var m := if pos < cap then (cap - leftCount) / 2 else cap - leftCount;
    if m < 1 then 1 else m
  }

  /** How many values go to the right sibling: half of its free slots, all of them if the insertion is at the
      front of the node. */
  function ToMoveRight(rightCount: nat, pos: nat, cap: nat): (m: nat)
    requires rightCount < cap
    ensures 1 <= m <= cap - rightCount
    ensures pos == 0 ==> rightCount + m == cap
    ensures pos > 0 && rightCount + 2 <= cap ==> 0 <= cap - rightCount - 2 * m <= 1
  {
    var m := if pos > 0 then (cap - rightCount) / 2 else cap - rightCount;
    if m < 1 then 1 else m
  }

  /** The left sibling can take enough: the new key will not land in a node that became full. */
  predicate LeftHasRoom<K>(p: Node<K>, i: nat, pos: nat, cap: nat)
    requires p.Internal? && i < |p.kids|
  {
    && i > 0 && |p.kids[i - 1].keys| < cap
    && var m := ToMoveLeft(|p.kids[i - 1].keys|, pos, cap);
       pos - m >= 0 || |p.kids[i - 1].keys| + m < cap
  }

  predicate RightHasRoom<K>(p: Node<K>, i: nat, pos: nat, cap: nat)
    requires p.Internal? && Fits(p.keys, p.kids) && i < |p.kids|
  {
    && i < |p.keys| && |p.kids[i + 1].keys| < cap
    && var m := ToMoveRight(|p.kids[i + 1].keys|, pos, cap);
       pos <= |p.kids[i].keys| - m || |p.kids[i + 1].keys| + m < cap
  }

  /** The node at pp + [i] is full and position pos in it is wanted. */
  ghost predicate FullKid<K>(root: Node<K>, pp: seq<nat>, i: nat, pos: nat, cap: nat) {
    && ValidPath(root, pp)
    && var p := NodeAt(root, pp);
       p.Internal? && Fits(p.keys, p.kids) && i < |p.kids| && |p.kids[i].keys| == cap && pos <= cap
         && WellFormed(p.kids[i])
  }

  function MoveToLeft<K>(root: Node<K>, pp: seq<nat>, i: nat, pos: nat, cap: nat): Cursor<K>
    requires FullKid(root, pp, i, pos, cap) && LeftHasRoom(NodeAt(root, pp), i, pos, cap)
    requires var p := NodeAt(root, pp); SameKind(p.kids[i - 1], p.kids[i])
  {
    var p := NodeAt(root, pp);
    var m := ToMoveLeft(|p.kids[i - 1].keys|, pos, cap);
    var s := RebalanceRightToLeft(Pair(p.kids[i - 1], p.keys[i - 1], p.kids[i]), m);
    var root' := ReplaceAt(root, pp, PutPair(p, i - 1, s));
    if pos - m < 0 then Cursor(root', pp + [i - 1], pos - m + |s.left.keys| + 1) else Cursor(root', pp + [i], pos - m)
  }

  function MoveToRight<K>(root: Node<K>, pp: seq<nat>, i: nat, pos: nat, cap: nat): Cursor<K>
    requires FullKid(root, pp, i, pos, cap) && RightHasRoom(NodeAt(root, pp), i, pos, cap)
    requires var p := NodeAt(root, pp); SameKind(p.kids[i], p.kids[i + 1])
  {
    var p := NodeAt(root, pp);
    var m := ToMoveRight(|p.kids[i + 1].keys|, pos, cap);
    var s := RebalanceLeftToRight(Pair(p.kids[i], p.keys[i], p.kids[i + 1]), m);
    var root' := ReplaceAt(root, pp, PutPair(p, i, s));
    if pos > |s.left.keys| then Cursor(root', pp + [i + 1], pos - |s.left.keys| - 1) else Cursor(root', pp + [i], pos)
  }

  function SplitKid<K>(root: Node<K>, pp: seq<nat>, i: nat, pos: nat, cap: nat): Cursor<K>
    requires FullKid(root, pp, i, pos, cap) && cap >= 3
  {
    var p := NodeAt(root, pp);
    var s := SplitNode(p.kids[i], pos, cap);
    var root' := ReplaceAt(root, pp, PutSplit(p, i, s));
    if pos > |s.left.keys| then Cursor(root', pp + [i + 1], pos - |s.left.keys| - 1) else Cursor(root', pp + [i], pos)
  }

  /** The tree after moving values to the left sibling is the parent with the pair cut elsewhere. */
  lemma MoveToLeftRoot<K>(root: Node<K>, pp: seq<nat>, i: nat, pos: nat, cap: nat, l: Node<K>, m: nat, now: Cursor<K>)
    requires FullKid(root, pp, i, pos, cap) && LeftHasRoom(NodeAt(root, pp), i, pos, cap)
    requires l == NodeAt(root, pp).kids[i - 1] && SameKind(l, NodeAt(root, pp).kids[i])
    requires m == ToMoveLeft(|l.keys|, pos, cap) && now == MoveToLeft(root, pp, i, pos, cap)
    ensures m <= cap && now.root == Recut(root, pp, i - 1, |l.keys| + m)
    ensures now.path == pp + [if pos < m then i - 1 else i]
    ensures now.pos == if pos < m then pos + |l.keys| + 1 else pos - m
  {
    var p := NodeAt(root, pp);
    RightToLeftIsCut(Pair(l, p.keys[i - 1], p.kids[i]), m);
  }

  lemma MoveToLeftIsRecut<K>(root: Node<K>, pp: seq<nat>, i: nat, pos: nat, cap: nat, l: Node<K>, m: nat,
                             now: Cursor<K>)
    requires FullKid(root, pp, i, pos, cap) && LeftHasRoom(NodeAt(root, pp), i, pos, cap)
    requires l == NodeAt(root, pp).kids[i - 1] && SameKind(l, NodeAt(root, pp).kids[i])
    requires m == ToMoveLeft(|l.keys|, pos, cap) && now == MoveToLeft(root, pp, i, pos, cap)
    ensures var cut, q := |l.keys| + m, |l.keys| + 1 + pos;
            && cut < |l.keys| + 1 + cap
            && now == PairCursor(Recut(root, pp, i - 1, cut), pp, i - 1, cut, q)
            && Cursor(root, pp + [i], pos) == PairCursor(root, pp, i - 1, |l.keys|, q)
  {
    MoveToLeftRoot(root, pp, i, pos, cap, l, m, now);
  }

  /** The new sizes are within capacity and the gap falls into a node with room. */
  lemma MoveToLeftFits(count: nat, pos: nat, cap: nat)
    requires 1 <= count < cap && pos <= cap
             && (pos - ToMoveLeft(count, pos, cap) >= 0 || count + ToMoveLeft(count, pos, cap) < cap)
    ensures var cut, q, total := count + ToMoveLeft(count, pos, cap), count + 1 + pos, count + 1 + cap;
            1 <= cut <= cap && cut + 1 < total <= cap + cut + 1 && q <= total
              && (if q <= cut then cut < cap else total - cut - 1 < cap)
  {}

  lemma MoveToLeftRoomy<K>(root: Node<K>, h: nat, pp: seq<nat>, i: nat, pos: nat, cap: nat, l: Node<K>, cut: nat,
                           was: Cursor<K>, now: Cursor<K>)
    requires FullKid(root, pp, i, pos, cap) && LeftHasRoom(NodeAt(root, pp), i, pos, cap) && Good(root, h, cap)
    requires l == NodeAt(root, pp).kids[i - 1] && SameKind(l, NodeAt(root, pp).kids[i]) && |l.keys| >= 1
    requires cut == |l.keys| + ToMoveLeft(|l.keys|, pos, cap) < |l.keys| + 1 + cap
    requires was == PairCursor(root, pp, i - 1, |l.keys|, |l.keys| + 1 + pos)
    requires now == PairCursor(Recut(root, pp, i - 1, cut), pp, i - 1, cut, |l.keys| + 1 + pos)
    ensures MadeRoom(was, h, now, cap)
  {
    MoveToLeftFits(|l.keys|, pos, cap);
    RecutRoomy(root, h, cap, pp, i - 1, cut, |l.keys| + 1 + pos, was, now);
  }

  lemma MoveToLeftOk<K>(root: Node<K>, h: nat, pp: seq<nat>, i: nat, pos: nat, cap: nat)
    requires FullKid(root, pp, i, pos, cap) && LeftHasRoom(NodeAt(root, pp), i, pos, cap)
    requires Good(root, h, cap) && cap >= 3
    ensures var p := NodeAt(root, pp); SameKind(p.kids[i - 1], p.kids[i])
    ensures MadeRoom(Cursor(root, pp + [i], pos), h, MoveToLeft(root, pp, i, pos, cap), cap)
  {
    SiblingsKind(root, h, cap, pp, i - 1);
    var l, now := NodeAt(root, pp).kids[i - 1], MoveToLeft(root, pp, i, pos, cap);
    var m := ToMoveLeft(|l.keys|, pos, cap);
    MoveToLeftIsRecut(root, pp, i, pos, cap, l, m, now);
    MoveToLeftRoomy(root, h, pp, i, pos, cap, l, |l.keys| + m, Cursor(root, pp + [i], pos), now);
  }

  /** The tree after moving values to the right sibling is the parent with the pair cut elsewhere. */
  lemma MoveToRightRoot<K>(root: Node<K>, pp: seq<nat>, i: nat, pos: nat, cap: nat, r: Node<K>, cut: int)
    requires FullKid(root, pp, i, pos, cap) && RightHasRoom(NodeAt(root, pp), i, pos, cap)
    requires var p := NodeAt(root, pp); SameKind(p.kids[i], p.kids[i + 1])
    requires r == NodeAt(root, pp).kids[i + 1] && |r.keys| >= 1 && cut == cap - ToMoveRight(|r.keys|, pos, cap)
    ensures 0 <= cut && MoveToRight(root, pp, i, pos, cap).root == Recut(root, pp, i, cut)
  {
    var p := NodeAt(root, pp);
    LeftToRightIsCut(Pair(p.kids[i], p.keys[i], r), ToMoveRight(|r.keys|, pos, cap));
  }

  lemma MoveToRightIsRecut<K>(root: Node<K>, pp: seq<nat>, i: nat, pos: nat, cap: nat)
    requires FullKid(root, pp, i, pos, cap) && RightHasRoom(NodeAt(root, pp), i, pos, cap)
    requires var p := NodeAt(root, pp); SameKind(p.kids[i], p.kids[i + 1]) && |p.kids[i + 1].keys| >= 1
    ensures var cut := cap - ToMoveRight(|NodeAt(root, pp).kids[i + 1].keys|, pos, cap);
            && 0 <= cut
            && MoveToRight(root, pp, i, pos, cap) == PairCursor(Recut(root, pp, i, cut), pp, i, cut, pos)
            && Cursor(root, pp + [i], pos) == PairCursor(root, pp, i, cap, pos)
  {
    var r := NodeAt(root, pp).kids[i + 1];
    MoveToRightRoot(root, pp, i, pos, cap, r, cap - ToMoveRight(|r.keys|, pos, cap));
  }

  lemma MoveToRightOk<K>(root: Node<K>, h: nat, pp: seq<nat>, i: nat, pos: nat, cap: nat)
    requires FullKid(root, pp, i, pos, cap) && RightHasRoom(NodeAt(root, pp), i, pos, cap)
    requires Good(root, h, cap) && cap >= 3
    ensures var p := NodeAt(root, pp); SameKind(p.kids[i], p.kids[i + 1])
    ensures MadeRoom(Cursor(root, pp + [i], pos), h, MoveToRight(root, pp, i, pos, cap), cap)
  {
    SiblingsKind(root, h, cap, pp, i);
    MoveToRightIsRecut(root, pp, i, pos, cap);
    RecutRoomy(root, h, cap, pp, i, cap - ToMoveRight(|NodeAt(root, pp).kids[i + 1].keys|, pos, cap), pos,
               Cursor(root, pp + [i], pos), MoveToRight(root, pp, i, pos, cap));
  }

  /** The tree after a split: contents, and where the two halves are. */
  lemma SplitKidTree<K>(root: Node<K>, pp: seq<nat>, i: nat, pos: nat, cap: nat)
    requires FullKid(root, pp, i, pos, cap) && cap >= 3
    ensures var p := NodeAt(root, pp); var s := SplitNode(p.kids[i], pos, cap);
            var q := PutSplit(p, i, s); var c := SplitKid(root, pp, i, pos, cap);
            && ValidPath(c.root, pp) && NodeAt(c.root, pp) == q && Left(c.root, pp) == Left(root, pp)
            && Fits(q.keys, q.kids) && q.kids[i] == s.left && q.kids[i + 1] == s.right
            && Inorder(c.root) == Inorder(root)
  {
    var p := NodeAt(root, pp);
    var s := SplitNode(p.kids[i], pos, cap);
    var q := PutSplit(p, i, s);
    PutSplitContents(p, i, s);
    ReplacePath(root, pp, q);
    ReplaceContents(root, pp, q);
    Context(root, pp);
    SplitContents(p.kids[i], pos, cap);
    WeaveAt(p.keys, p.kids, i);
  }

  /** Gaps of a child n = kids[i] after its parent got the two parts of n, cut at key p, as children
      i and i + 1. */
  lemma SplitGapAt<K>(root: Node<K>, root': Node<K>, pp: seq<nat>, i: nat, p: nat, pos: nat)
    requires ValidPath(root, pp) && ValidPath(root', pp) && Left(root', pp) == Left(root, pp)
             && Inorder(root') == Inorder(root)
    requires var a := NodeAt(root, pp);
             a.Internal? && Fits(a.keys, a.kids) && i < |a.kids| && WellFormed(a.kids[i]) && p < |a.kids[i].keys|
               && pos <= |a.kids[i].keys|
    requires var a, b := NodeAt(root, pp), NodeAt(root', pp);
             && b.Internal? && Fits(b.keys, b.kids) && i + 1 < |b.kids|
             && b.kids[i] == CutLeft(a.kids[i], p) && b.kids[i + 1] == CutRight(a.kids[i], p)
             && |Prefix(b.keys, b.kids, i)| == |Prefix(a.keys, a.kids, i)|
             && |Prefix(b.keys, b.kids, i + 1)| == |Prefix(a.keys, a.kids, i)| + |Inorder(b.kids[i])| + 1
    ensures var was, now := Cursor(root, pp + [i], pos), PairCursor(root', pp, i, p, pos);
            ValidCursor(was) && ValidCursor(now) && SameGap(was, now)
  {
    KidRank(root, pp, i, pos);
    CutGap(NodeAt(root, pp).kids[i], p, pos);
    if pos <= p { KidRank(root', pp, i, pos); } else { KidRank(root', pp, i + 1, pos - p - 1); }
  }

  /** Splitting keeps the gap. */
  lemma SplitKidGap<K>(root: Node<K>, pp: seq<nat>, i: nat, pos: nat, cap: nat)
    requires FullKid(root, pp, i, pos, cap) && cap >= 3
    ensures ValidCursor(Cursor(root, pp + [i], pos))
    ensures var c := SplitKid(root, pp, i, pos, cap); ValidCursor(c) && SameGap(Cursor(root, pp + [i], pos), c)
  {
    var p := NodeAt(root, pp);
    var s := SplitNode(p.kids[i], pos, cap);
    SplitKidTree(root, pp, i, pos, cap);
    PutSplitContents(p, i, s);
    SplitGapAt(root, SplitKid(root, pp, i, pos, cap).root, pp, i, |s.left.keys|, pos);
  }

  /** Splitting child i of a parent keeps the other children in order. */
  lemma PutSplitShape<K>(p: Node<K>, h: nat, i: nat, pos: nat, cap: nat)
    requires h > 0 && Loose(p, h, cap) && p.Internal? && i < |p.kids| && |p.keys| < cap && cap >= 3
    requires |p.kids[i].keys| == cap && pos <= cap && WellFormed(p.kids[i])
    ensures var s := SplitNode(p.kids[i], pos, cap);
            var k := if pos > |s.left.keys| then i + 1 else i;
            var q := PutSplit(p, i, s);
            && GoodBut(q, h, cap, k) && q.kids[k] == (if pos > |s.left.keys| then s.right else s.left)
            && Loose(q.kids[k], h - 1, cap) && |q.kids[k].keys| < cap
  {
    var n := p.kids[i];
    var s := SplitNode(n, pos, cap);
    var q := PutSplit(p, i, s);
    var k := if pos > |s.left.keys| then i + 1 else i;
    KidGood(p, h, cap, i);
    LooseSplit(n, h - 1, cap, |s.left.keys|);
    forall j | 0 <= j < |q.kids| && j != k ensures Good(q.kids[j], h - 1, cap) {
      assert q.kids[j] == if j < i then p.kids[j] else if j == i then s.left else if j == i + 1 then s.right
             else p.kids[j - 1];
    }
  }

  lemma SplitKidOk<K>(root: Node<K>, h: nat, pp: seq<nat>, i: nat, pos: nat, cap: nat)
    requires FullKid(root, pp, i, pos, cap) && cap >= 3 && |pp| < h && Around(root, h, cap, pp)
    requires Loose(NodeAt(root, pp), h - |pp|, cap) && |NodeAt(root, pp).keys| < cap
    ensures MadeRoom(Cursor(root, pp + [i], pos), h, SplitKid(root, pp, i, pos, cap), cap)
  {
    SplitKidGap(root, pp, i, pos, cap);
    SplitKidRoomy(root, h, pp, i, pos, cap);
    assert MadeRoomAt(Cursor(root, pp + [i], pos), h, SplitKid(root, pp, i, pos, cap), h, cap);
  }

  lemma SplitKidRoomy<K>(root: Node<K>, h: nat, pp: seq<nat>, i: nat, pos: nat, cap: nat)
    requires FullKid(root, pp, i, pos, cap) && cap >= 3 && |pp| < h && Around(root, h, cap, pp)
    requires Loose(NodeAt(root, pp), h - |pp|, cap) && |NodeAt(root, pp).keys| < cap
    ensures Roomy(SplitKid(root, pp, i, pos, cap), h, cap)
  {
    var p := NodeAt(root, pp);
    var s := SplitNode(p.kids[i], pos, cap);
    PutSplitShape(p, h - |pp|, i, pos, cap);
    if pos > |s.left.keys| {
      RoomyPut(root, h, cap, pp, PutSplit(p, i, s), i + 1, pos - |s.left.keys| - 1);
    } else {
      RoomyPut(root, h, cap, pp, PutSplit(p, i, s), i, pos);
    }
  }

  /** Make room in a full node: move values to a sibling, or split, first making room in the parent
      if that is full too. A full root becomes the child of a new root. */
  function RebalanceOrSplit<K>(root: Node<K>, ghost h: nat, path: seq<nat>, pos: nat, cap: nat): (c: Cursor<K>)
    requires Good(root, h, cap) && cap >= 3 && ValidPath(root, path)
    requires |NodeAt(root, path).keys| == cap && pos <= cap
    ensures MadeRoom(Cursor(root, path, pos), h, c, cap)
    decreases |path|
  {
    GoodAround(root, h, cap, path);
    if path == [] then
      RootSplitOk(root, h, pos, cap);
      SplitKid(Internal([], [root]), [], 0, pos, cap)
    else
      var pp, i := path[..|path| - 1], path[|path| - 1];
      assert path == pp + [i];
      PathParent(root, path);
      GoodAround(root, h, cap, pp);
      var p := NodeAt(root, pp);
      if LeftHasRoom(p, i, pos, cap) then
        MoveToLeftOk(root, h, pp, i, pos, cap);
        MoveToLeft(root, pp, i, pos, cap)
      else if RightHasRoom(p, i, pos, cap) then
        MoveToRightOk(root, h, pp, i, pos, cap);
        MoveToRight(root, pp, i, pos, cap)
      else if |p.keys| == cap then
        var up := RebalanceOrSplit(root, h, pp, i, cap);
        SplitBelow(root, h, pp, i, pos, cap, up);
        SplitKid(up.root, up.path, up.pos, pos, cap)
      else
        SplitKidOk(root, h, pp, i, pos, cap);
        SplitKid(root, pp, i, pos, cap)
  }

  lemma RootSplitOk<K>(root: Node<K>, h: nat, pos: nat, cap: nat)
    requires Good(root, h, cap) && cap >= 3 && |root.keys| == cap && pos <= cap && WellFormed(root)
    ensures var top := Internal([], [root]);
            && FullKid(top, [], 0, pos, cap)
            && MadeRoom(Cursor(root, [], pos), h, SplitKid(top, [], 0, pos, cap), cap)
  {
    var top: Node<K> := Internal([], [root]);
    assert Loose(top, h + 1, cap);
    SplitKidRoomy(top, h + 1, [], 0, pos, cap);
    SplitKidGap(top, [], 0, pos, cap);
    KidRank(top, [], 0, pos);
    assert Prefix(top.keys, top.kids, 0) == [];
    assert Inorder(top) == [] + Inorder(root);
    assert MadeRoomAt(Cursor(root, [], pos), h, SplitKid(top, [], 0, pos, cap), h + 1, cap);
  }

  /** After room was made in the parent, the full child is in the gap the parent's cursor denotes. */
  lemma SplitBelow<K>(root: Node<K>, h: nat, pp: seq<nat>, i: nat, pos: nat, cap: nat, up: Cursor<K>)
    requires FullKid(root, pp, i, pos, cap) && cap >= 3 && |pp| < h
    requires MadeRoom(Cursor(root, pp, i), h, up, cap)
    ensures FullKid(up.root, up.path, up.pos, pos, cap)
    ensures MadeRoom(Cursor(root, pp + [i], pos), h, SplitKid(up.root, up.path, up.pos, pos, cap), cap)
  {
    var h' :| (h' == h || h' == h + 1) && MadeRoomAt(Cursor(root, pp, i), h, up, h', cap);
    KidRank(root, pp, i, pos);
    KidRank(up.root, up.path, up.pos, pos);
    SplitKidGap(up.root, up.path, up.pos, pos, cap);
    SplitKidRoomy(up.root, h', up.path, up.pos, pos, cap);
    assert MadeRoomAt(Cursor(root, pp + [i], pos), h, SplitKid(up.root, up.path, up.pos, pos, cap), h', cap);
  }

  // ------------------------------------------------------------------ emplace_value

  /** The new key goes into the leaf at the cursor. */
  function EmplaceAt<K>(c: Cursor<K>, key: K): Node<K>
    requires ValidCursor(c) && NodeAt(c.root, c.path).Leaf?
  {
    var keys := NodeAt(c.root, c.path).keys;
    ReplaceAt(c.root, c.path, Leaf(keys[..c.pos] + [key] + keys[c.pos..]))
  }

  /** Emplacing inserts the key at the rank of the cursor, and the cursor then denotes the key. */
  lemma EmplaceOk<K>(c: Cursor<K>, key: K, h: nat, cap: nat)
    requires Roomy(c, h, cap) && NodeAt(c.root, c.path).Leaf?
    ensures Good(EmplaceAt(c, key), h, cap)
    ensures Rank(c) <= |Inorder(c.root)|
    ensures Inorder(EmplaceAt(c, key)) == Inorder(c.root)[..Rank(c)] + [key] + Inorder(c.root)[Rank(c)..]
    ensures ValidPath(EmplaceAt(c, key), c.path) && NodeAt(EmplaceAt(c, key), c.path).Leaf?
    ensures Left(EmplaceAt(c, key), c.path) == Left(c.root, c.path)
  {
    var keys := NodeAt(c.root, c.path).keys;
    var leaf := Leaf(keys[..c.pos] + [key] + keys[c.pos..]);
    ReplacePath(c.root, c.path, leaf);
    ReplaceContents(c.root, c.path, leaf);
    Context(c.root, c.path);
    InsertInside(Left(c.root, c.path), keys, Right(c.root, c.path), c.pos, key);
    AroundReplace(c.root, h, cap, c.path, leaf);
    AroundGood(EmplaceAt(c, key), h, cap, c.path);
  }

  lemma InsertInside<K>(a: seq<K>, b: seq<K>, c: seq<K>, i: nat, x: K)
    requires i <= |b|
    ensures a + (b[..i] + [x] + b[i..]) + c == (a + b + c)[..|a| + i] + [x] + (a + b + c)[|a| + i..]
  {}
}
