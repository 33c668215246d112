/** Rebalancing two siblings inside a tree: shape, contents and the place of every gap. */
module BTreePairs {
  import opened BTreeNode
  import opened BTreeOps
  import opened BTreeShape

  /** A tree and a position in it: node (by path) and insert position within the node. */
  datatype Cursor<K> = Cursor(root: Node<K>, path: seq<nat>, pos: nat)

  ghost predicate ValidCursor<K>(c: Cursor<K>) {
    && ValidPath(c.root, c.path)
    && WellFormed(NodeAt(c.root, c.path))
    && c.pos <= |NodeAt(c.root, c.path).keys|
  }

  /** Number of keys of the tree before the gap that the cursor denotes. */
  ghost function Rank<K>(c: Cursor<K>): nat
    requires ValidCursor(c)
  {
    |Left(c.root, c.path)| + GapRank(NodeAt(c.root, c.path), c.pos)
  }

  /** Two cursors denote the same gap: same contents, same rank, same level, and for internal nodes
      the same child in that gap. */
  ghost predicate SameGap<K>(c: Cursor<K>, d: Cursor<K>)
    requires ValidCursor(c) && ValidCursor(d)
  {
    var m, n := NodeAt(c.root, c.path), NodeAt(d.root, d.path);
    && Inorder(c.root) == Inorder(d.root)
    && Rank(c) == Rank(d)
    && (m.Internal? <==> n.Internal?)
    && (m.Internal? ==> m.kids[c.pos] == n.kids[d.pos])
  }

  /** Gap q of the merged siblings i and i + 1, when the left one has `count` keys. */
  function PairCursor<K>(root: Node<K>, pp: seq<nat>, i: nat, count: nat, q: nat): Cursor<K> {
    if q <= count then Cursor(root, pp + [i], q) else Cursor(root, pp + [i + 1], q - count - 1)
  }

  /** What a gap q of the merged siblings i and i + 1 is: cursor c into the node `at`. */
  ghost predicate PairGap<K>(root: Node<K>, pp: seq<nat>, i: nat, q: nat, c: Cursor<K>, at: Node<K>)
    requires ValidPath(root, pp) && IsParent(NodeAt(root, pp), i)
    requires var p := NodeAt(root, pp); SameKind(p.kids[i], p.kids[i + 1])
    requires var p := NodeAt(root, pp); q <= |p.kids[i].keys| + 1 + |p.kids[i + 1].keys|
  {
    var p := NodeAt(root, pp);
    var n := Merge(p.kids[i], p.keys[i], p.kids[i + 1]);
    && ValidCursor(c) && NodeAt(c.root, c.path) == at
    && Rank(c) == |Left(root, pp)| + |Prefix(p.keys, p.kids, i)| + GapRank(n, q)
    && (n.Internal? ==> at.Internal? && at.kids[c.pos] == n.kids[q])
  }

  lemma PairRankLeft<K>(root: Node<K>, pp: seq<nat>, i: nat, q: nat)
    requires ValidPath(root, pp) && IsParent(NodeAt(root, pp), i)
    requires var p := NodeAt(root, pp); SameKind(p.kids[i], p.kids[i + 1])
    requires q <= |NodeAt(root, pp).kids[i].keys|
    ensures PairGap(root, pp, i, q, Cursor(root, pp + [i], q), NodeAt(root, pp).kids[i])
  {
    var p := NodeAt(root, pp);
    KidRank(root, pp, i, q);
    MergeGapLeft(p.kids[i], p.keys[i], p.kids[i + 1], q);
  }

  /** Rank of a gap of the right sibling, counted from the start of the left one. */
  lemma RightRank<K>(root: Node<K>, pp: seq<nat>, i: nat, q: nat)
    requires ValidPath(root, pp) && IsParent(NodeAt(root, pp), i)
    requires var r := NodeAt(root, pp).kids[i + 1]; WellFormed(r) && q <= |r.keys|
    ensures var p := NodeAt(root, pp); var c := Cursor(root, pp + [i + 1], q);
            && ValidCursor(c) && NodeAt(root, c.path) == p.kids[i + 1]
            && Rank(c) == |Left(root, pp)| + |Prefix(p.keys, p.kids, i)| + |Inorder(p.kids[i])| + 1
               + GapRank(p.kids[i + 1], q)
  {
    KidRank(root, pp, i + 1, q);
    PrefixStep(NodeAt(root, pp).keys, NodeAt(root, pp).kids, i);
  }

  lemma PairRankRight<K>(root: Node<K>, pp: seq<nat>, i: nat, q: nat)
    requires ValidPath(root, pp) && IsParent(NodeAt(root, pp), i)
    requires var p := NodeAt(root, pp); SameKind(p.kids[i], p.kids[i + 1])
    requires q <= |NodeAt(root, pp).kids[i + 1].keys|
    ensures PairGap(root, pp, i, |NodeAt(root, pp).kids[i].keys| + 1 + q, Cursor(root, pp + [i + 1], q),
            NodeAt(root, pp).kids[i + 1])
  {
    var p := NodeAt(root, pp);
    RightRank(root, pp, i, q);
    MergeGapRight(p.kids[i], p.keys[i], p.kids[i + 1], q);
  }

  /** Rank of a gap of one of two siblings, in terms of their merged node. */
  lemma PairRank<K>(root: Node<K>, pp: seq<nat>, i: nat, q: nat)
    requires ValidPath(root, pp) && IsParent(NodeAt(root, pp), i)
    requires var p := NodeAt(root, pp); SameKind(p.kids[i], p.kids[i + 1])
    requires var p := NodeAt(root, pp); q <= |p.kids[i].keys| + 1 + |p.kids[i + 1].keys|
    ensures var p := NodeAt(root, pp); var l, r := p.kids[i], p.kids[i + 1];
            PairGap(root, pp, i, q, PairCursor(root, pp, i, |l.keys|, q), if q <= |l.keys| then l else r)
  {
    var l := NodeAt(root, pp).kids[i];
    if q <= |l.keys| { PairRankLeft(root, pp, i, q); } else { PairRankRight(root, pp, i, q - |l.keys| - 1); }
  }

  /** Rank of a gap of child i. */
  lemma KidRank<K>(root: Node<K>, pp: seq<nat>, i: nat, q: nat)
    requires ValidPath(root, pp)
    requires var p := NodeAt(root, pp);
             p.Internal? && Fits(p.keys, p.kids) && i < |p.kids| && WellFormed(p.kids[i]) && q <= |p.kids[i].keys|
    ensures var p := NodeAt(root, pp); var c := Cursor(root, pp + [i], q);
            && ValidCursor(c) && NodeAt(root, c.path) == p.kids[i]
            && Rank(c) == |Left(root, pp)| + |Prefix(p.keys, p.kids, i)| + GapRank(p.kids[i], q)
  {
    LeftOfKid(root, pp, i);
  }

  /** The tree with siblings i and i + 1 below pp cut anew at key c of their merged node. */
  function Recut<K>(root: Node<K>, pp: seq<nat>, i: nat, c: nat): Node<K>
    requires ValidPath(root, pp) && IsParent(NodeAt(root, pp), i)
    requires var p := NodeAt(root, pp);
             SameKind(p.kids[i], p.kids[i + 1]) && c < |Merge(p.kids[i], p.keys[i], p.kids[i + 1]).keys|
  {
    var p := NodeAt(root, pp);
    var n := Merge(p.kids[i], p.keys[i], p.kids[i + 1]);
    ReplaceAt(root, pp, PutPair(p, i, Pair(CutLeft(n, c), n.keys[c], CutRight(n, c))))
  }

  lemma RecutStructure<K>(root: Node<K>, pp: seq<nat>, i: nat, c: nat)
    requires ValidPath(root, pp) && IsParent(NodeAt(root, pp), i)
    requires var p := NodeAt(root, pp);
             SameKind(p.kids[i], p.kids[i + 1]) && c < |Merge(p.kids[i], p.keys[i], p.kids[i + 1]).keys|
    ensures var root' := Recut(root, pp, i, c); var p := NodeAt(root, pp);
            var n := Merge(p.kids[i], p.keys[i], p.kids[i + 1]);
            && ValidPath(root', pp) && IsParent(NodeAt(root', pp), i)
            && NodeAt(root', pp) == PutPair(p, i, Pair(CutLeft(n, c), n.keys[c], CutRight(n, c)))
            && Left(root', pp) == Left(root, pp)
            && Prefix(NodeAt(root', pp).keys, NodeAt(root', pp).kids, i) == Prefix(p.keys, p.kids, i)
            && Inorder(root') == Inorder(root)
  {
    var p := NodeAt(root, pp);
    var l, d, r := p.kids[i], p.keys[i], p.kids[i + 1];
    var n := Merge(l, d, r);
    var s := Pair(CutLeft(n, c), n.keys[c], CutRight(n, c));
    var q := PutPair(p, i, s);
    MergeContents(l, d, r);
    CutContents(n, c);
    PairContext(p.keys, p.kids, i);
    PutPairContents(p, i, s);
    ReplacePath(root, pp, q);
    ReplaceContents(root, pp, q);
    Context(root, pp);
  }

  /** Every gap of the two siblings keeps its rank and its child; it is found left of the new
      delimiter or right of it. */
  lemma RecutGap<K>(root: Node<K>, pp: seq<nat>, i: nat, c: nat, q: nat)
    requires ValidPath(root, pp) && IsParent(NodeAt(root, pp), i)
    requires var p := NodeAt(root, pp); SameKind(p.kids[i], p.kids[i + 1])
    requires var p := NodeAt(root, pp); var n := Merge(p.kids[i], p.keys[i], p.kids[i + 1]);
             c < |n.keys| && q <= |n.keys|
    ensures var l := NodeAt(root, pp).kids[i];
            var was := PairCursor(root, pp, i, |l.keys|, q);
            var root' := Recut(root, pp, i, c);
            var now := PairCursor(root', pp, i, c, q);
            && ValidCursor(was) && ValidCursor(now) && SameGap(was, now)
            && |NodeAt(root', now.path).keys| == (if q <= c then c
               else |l.keys| + |NodeAt(root, pp).kids[i + 1].keys| - c)
  {
    var p := NodeAt(root, pp);
    var n := Merge(p.kids[i], p.keys[i], p.kids[i + 1]);
    var root' := Recut(root, pp, i, c);
    RecutStructure(root, pp, i, c);
    PairRank(root, pp, i, q);
    MergeCut(n, c);
    PairRank(root', pp, i, q);
  }

  /** Cutting anew keeps the shape when both new siblings are non-empty and within capacity. */
  lemma RecutShape<K>(root: Node<K>, h: nat, cap: nat, pp: seq<nat>, i: nat, c: nat)
    requires ValidPath(root, pp) && |pp| < h && IsParent(NodeAt(root, pp), i)
    requires Around(root, h, cap, pp)
    requires var p := NodeAt(root, pp); |p.keys| <= cap && SameKind(p.kids[i], p.kids[i + 1])
    requires var p := NodeAt(root, pp); var hh := h - |pp| - 1;
             && Loose(p.kids[i], hh, cap) && Loose(p.kids[i + 1], hh, cap)
             && forall j :: 0 <= j < |p.kids| && j != i && j != i + 1 ==> Good(p.kids[j], hh, cap)
    requires var p := NodeAt(root, pp); var n := Merge(p.kids[i], p.keys[i], p.kids[i + 1]);
             1 <= c <= cap && c + 1 < |n.keys| <= cap + c + 1
    ensures Good(Recut(root, pp, i, c), h, cap)
  {
    var p := NodeAt(root, pp);
    var hh := h - |pp| - 1;
    var n := Merge(p.kids[i], p.keys[i], p.kids[i + 1]);
    LooseCut(p.kids[i], p.keys[i], p.kids[i + 1], hh, cap, c);
    var q := PutPair(p, i, Pair(CutLeft(n, c), n.keys[c], CutRight(n, c)));
    RecutStructure(root, pp, i, c);
    forall j | 0 <= j < |q.kids| ensures hh + 1 > 0 && Good(q.kids[j], hh, cap) {}
    assert Good(q, hh + 1, cap);
    AroundReplace(root, h, cap, pp, q);
    AroundGood(Recut(root, pp, i, c), h, cap, pp);
  }

  /** A tree of height h that is in order except that the cursor's node may be empty, and that node
      has room for one more key. */
  ghost predicate Roomy<K>(c: Cursor<K>, h: nat, cap: nat) {
    match c
    case Cursor(root, path, _) =>
      && ValidCursor(c) && |path| <= h && Around(root, h, cap, path)
      && Loose(NodeAt(root, path), h - |path|, cap)
      && |NodeAt(root, path).keys| < cap
  }

  /** The cursor now denotes the same gap, in a node of the same level that has room; the tree may
      have grown by one level. */
  ghost predicate MadeRoom<K>(was: Cursor<K>, h: nat, now: Cursor<K>, cap: nat) {
    exists h' :: (h' == h || h' == h + 1) && MadeRoomAt(was, h, now, h', cap)
  }

  ghost predicate MadeRoomAt<K>(was: Cursor<K>, h: nat, now: Cursor<K>, h': nat, cap: nat) {
    && ValidCursor(was) && ValidCursor(now) && SameGap(was, now)
    && Roomy(now, h', cap) && h' - |now.path| == h - |was.path|
  }

  /** A child with room below a parent that is otherwise in order. */
  lemma RoomyKid<K>(root: Node<K>, h: nat, cap: nat, pp: seq<nat>, k: nat, pos: nat)
    requires ValidPath(root, pp) && |pp| < h && Around(root, h, cap, pp) && GoodBut(NodeAt(root, pp), h - |pp|, cap, k)
    requires var kid := NodeAt(root, pp).kids[k];
             Loose(kid, h - |pp| - 1, cap) && |kid.keys| < cap && WellFormed(kid) && pos <= |kid.keys|
    ensures Roomy(Cursor(root, pp + [k], pos), h, cap)
  {
    KidRank(root, pp, k, pos);
    AroundSnoc(root, h, cap, pp, k);
  }

  /** The same for a parent that was just replaced. */
  lemma RoomyPut<K>(root: Node<K>, h: nat, cap: nat, pp: seq<nat>, q: Node<K>, k: nat, pos: nat)
    requires ValidPath(root, pp) && |pp| < h && Around(root, h, cap, pp) && GoodBut(q, h - |pp|, cap, k)
    requires Loose(q.kids[k], h - |pp| - 1, cap) && |q.kids[k].keys| < cap && WellFormed(q.kids[k])
             && pos <= |q.kids[k].keys|
    ensures Roomy(Cursor(ReplaceAt(root, pp, q), pp + [k], pos), h, cap)
  {
    ReplacePath(root, pp, q);
    AroundReplace(root, h, cap, pp, q);
    RoomyKid(ReplaceAt(root, pp, q), h, cap, pp, k, pos);
  }

  lemma GoodIsRoomy<K>(c: Cursor<K>, h: nat, cap: nat)
    requires Good(c.root, h, cap) && ValidCursor(c) && |NodeAt(c.root, c.path).keys| < cap
    ensures Roomy(c, h, cap)
  {
    GoodAround(c.root, h, cap, c.path);
  }

  /** Siblings i and i + 1 below pp exist in a good tree. */
  ghost predicate GoodPair<K>(root: Node<K>, h: nat, cap: nat, pp: seq<nat>, i: nat) {
    && Good(root, h, cap) && ValidPath(root, pp) && IsParent(NodeAt(root, pp), i)
  }

  lemma GoodPairFacts<K>(root: Node<K>, h: nat, cap: nat, pp: seq<nat>, i: nat)
    requires GoodPair(root, h, cap, pp, i)
    ensures var p := NodeAt(root, pp); var l, r := p.kids[i], p.kids[i + 1];
            && |pp| < h && Around(root, h, cap, pp) && 1 <= |p.keys| <= cap && SameKind(l, r)
            && 1 <= |l.keys| <= cap && 1 <= |r.keys| <= cap && WellFormed(l) && WellFormed(r)
            && Loose(l, h - |pp| - 1, cap) && Loose(r, h - |pp| - 1, cap)
            && (forall j :: 0 <= j < |p.kids| ==> Good(p.kids[j], h - |pp| - 1, cap))
  {
    GoodAround(root, h, cap, pp);
    var p := NodeAt(root, pp);
    KidGood(p, h - |pp|, cap, i);
    KidGood(p, h - |pp|, cap, i + 1);
    SameHeightSameKind(p.kids[i], p.kids[i + 1], h - |pp| - 1, cap);
  }

  lemma SiblingsKind<K>(root: Node<K>, h: nat, cap: nat, pp: seq<nat>, i: nat)
    requires GoodPair(root, h, cap, pp, i)
    ensures var l, r := NodeAt(root, pp).kids[i], NodeAt(root, pp).kids[i + 1];
            SameKind(l, r) && 1 <= |l.keys| <= cap && 1 <= |r.keys| <= cap
  {
    GoodPairFacts(root, h, cap, pp, i);
  }

  /** Cutting two siblings anew so that gap q falls into a node with room. */
  lemma RecutRoomy<K>(root: Node<K>, h: nat, cap: nat, pp: seq<nat>, i: nat, c: nat, q: nat, was: Cursor<K>,
                      now: Cursor<K>)
    requires GoodPair(root, h, cap, pp, i)
    requires var p := NodeAt(root, pp); var total := |p.kids[i].keys| + 1 + |p.kids[i + 1].keys|;
             && SameKind(p.kids[i], p.kids[i + 1])
             && 1 <= c <= cap && c + 1 < total <= cap + c + 1 && q <= total
             && (if q <= c then c < cap else total - c - 1 < cap)
    requires was == PairCursor(root, pp, i, |NodeAt(root, pp).kids[i].keys|, q)
    requires now == PairCursor(Recut(root, pp, i, c), pp, i, c, q)
    ensures MadeRoom(was, h, now, cap)
  {
    GoodPairFacts(root, h, cap, pp, i);
    RecutGap(root, pp, i, c, q);
    RecutShape(root, h, cap, pp, i, c);
    GoodIsRoomy(now, h, cap);
    assert MadeRoomAt(was, h, now, h, cap);
  }
}
