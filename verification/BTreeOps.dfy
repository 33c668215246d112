/** Restructuring of B-tree nodes: split, merge, the two rebalances, and their effect on contents and
    on positions. `cap` is kNodeValues, the largest number of keys of a node. */
module BTreeOps {
  import opened BTreeNode

  predicate SameKind<K>(l: Node<K>, r: Node<K>) {
    if l.Leaf? then r.Leaf? else r.Internal? && Fits(l.keys, l.kids) && Fits(r.keys, r.kids)
  }

  predicate WellFormed<K>(n: Node<K>) {
    n.Internal? ==> Fits(n.keys, n.kids)
  }

  // ------------------------------------------------------------------ cutting and merging

  /** Two siblings and their delimiter as one node. */
  function Merge<K>(l: Node<K>, d: K, r: Node<K>): (n: Node<K>)
    requires SameKind(l, r)
    ensures WellFormed(n) && |n.keys| == |l.keys| + 1 + |r.keys| && n.Leaf? == l.Leaf?
  {
    if l.Leaf? then Leaf(l.keys + [d] + r.keys) else Internal(l.keys + [d] + r.keys, l.kids + r.kids)
  }

  /** The part of a node before key p. */
  function CutLeft<K>(n: Node<K>, p: nat): (l: Node<K>)
    requires WellFormed(n) && p < |n.keys|
    ensures WellFormed(l) && |l.keys| == p && l.Leaf? == n.Leaf?
  {
    if n.Leaf? then Leaf(n.keys[..p]) else Internal(n.keys[..p], n.kids[..p + 1])
  }

  /** The part of a node after key p. */
  function CutRight<K>(n: Node<K>, p: nat): (r: Node<K>)
    requires WellFormed(n) && p < |n.keys|
    ensures WellFormed(r) && |r.keys| == |n.keys| - p - 1 && r.Leaf? == n.Leaf?
  {
    if n.Leaf? then Leaf(n.keys[p + 1..]) else Internal(n.keys[p + 1..], n.kids[p + 1..])
  }

  lemma MergeContents<K>(l: Node<K>, d: K, r: Node<K>)
    requires SameKind(l, r)
    ensures Inorder(Merge(l, d, r)) == Inorder(l) + [d] + Inorder(r)
  {
    if l.Internal? { WeaveConcat(l.keys, l.kids, d, r.keys, r.kids); }
  }

  /** Cutting and merging are inverse. */
  lemma MergeCut<K>(n: Node<K>, p: nat)
    requires WellFormed(n) && p < |n.keys|
    ensures Merge(CutLeft(n, p), n.keys[p], CutRight(n, p)) == n
  {
    assert n.keys[..p] + [n.keys[p]] + n.keys[p + 1..] == n.keys;
    if n.Internal? { assert n.kids[..p + 1] + n.kids[p + 1..] == n.kids; }
  }

  lemma CutContents<K>(n: Node<K>, p: nat)
    requires WellFormed(n) && p < |n.keys|
    ensures Inorder(CutLeft(n, p)) + [n.keys[p]] + Inorder(CutRight(n, p)) == Inorder(n)
  {
    MergeCut(n, p);
    MergeContents(CutLeft(n, p), n.keys[p], CutRight(n, p));
  }

  /** Number of keys of a subtree before gap q of its root node (before child q if it is internal). */
  ghost function GapRank<K>(n: Node<K>, q: nat): nat
    requires WellFormed(n) && q <= |n.keys|
  {
    if n.Leaf? then q else |Prefix(n.keys, n.kids, q)|
  }

  /** Where gap q of a node goes when the node is cut at key p. */
  lemma CutGap<K>(n: Node<K>, p: nat, q: nat)
    requires WellFormed(n) && p < |n.keys| && q <= |n.keys|
    ensures q <= p ==> GapRank(CutLeft(n, p), q) == GapRank(n, q)
    ensures q > p ==> |Inorder(CutLeft(n, p))| + 1 + GapRank(CutRight(n, p), q - p - 1) == GapRank(n, q)
    ensures n.Internal? ==> n.kids[q] == if q <= p then CutLeft(n, p).kids[q] else CutRight(n, p).kids[q - p - 1]
  {
    if n.Internal? {
      var l, r := CutLeft(n, p), CutRight(n, p);
      if q <= p {
        assert l.keys[..q] == n.keys[..q] && l.kids[..q] == n.kids[..q];
        PrefixLocal(n.keys, n.kids, l.keys, l.kids, q);
      } else {
        MergeCut(n, p);
        PrefixConcat(l.keys, l.kids, n.keys[p], r.keys, r.kids, q - p - 1);
      }
    }
  }

  /** Where the gaps of the left sibling are in the merged node. */
  lemma MergeGapLeft<K>(l: Node<K>, d: K, r: Node<K>, q: nat)
    requires SameKind(l, r) && q <= |l.keys|
    ensures GapRank(Merge(l, d, r), q) == GapRank(l, q)
    ensures l.Internal? ==> Merge(l, d, r).kids[q] == l.kids[q]
  {
    if l.Internal? {
      var n := Merge(l, d, r);
      assert l.keys[..q] == n.keys[..q] && l.kids[..q] == n.kids[..q];
      PrefixLocal(n.keys, n.kids, l.keys, l.kids, q);
    }
  }

  /** Where the gaps of the right sibling are in the merged node. */
  lemma MergeGapRight<K>(l: Node<K>, d: K, r: Node<K>, q: nat)
    requires SameKind(l, r) && q <= |r.keys|
    ensures GapRank(Merge(l, d, r), |l.keys| + 1 + q) == |Inorder(l)| + 1 + GapRank(r, q)
    ensures l.Internal? ==> Merge(l, d, r).kids[|l.keys| + 1 + q] == r.kids[q]
  {
    if l.Internal? { PrefixConcat(l.keys, l.kids, d, r.keys, r.kids, q); }
  }

  // ------------------------------------------------------------------ the node operations of the source

  /** Two siblings with the delimiting value of the parent between them. */
  datatype Pair<K> = Pair(left: Node<K>, delim: K, right: Node<K>)

  /** The delimiter and the first toMove - 1 values of the right node move to the left node; value
      toMove - 1 becomes the delimiter. */
  function RebalanceRightToLeft<K>(s: Pair<K>, toMove: nat): Pair<K>
    requires SameKind(s.left, s.right) && 1 <= toMove <= |s.right.keys|
  {
    var l, r := s.left, s.right;
    var lk := l.keys + [s.delim] + r.keys[..toMove - 1];
    if l.Leaf? then Pair(Leaf(lk), r.keys[toMove - 1], Leaf(r.keys[toMove..]))
    else Pair(Internal(lk, l.kids + r.kids[..toMove]), r.keys[toMove - 1], Internal(r.keys[toMove..], r.kids[toMove..]))
  }

  /** The last toMove - 1 values of the left node and the delimiter move to the right node; the value
      before them becomes the delimiter. */
  function RebalanceLeftToRight<K>(s: Pair<K>, toMove: nat): Pair<K>
    requires SameKind(s.left, s.right) && 1 <= toMove <= |s.left.keys|
  {
    var l, r := s.left, s.right;
    var c := |l.keys| - toMove;
    var rk := l.keys[c + 1..] + [s.delim] + r.keys;
    if l.Leaf? then Pair(Leaf(l.keys[..c]), l.keys[c], Leaf(rk))
    else Pair(Internal(l.keys[..c], l.kids[..c + 1]), l.keys[c], Internal(rk, l.kids[c + 1..] + r.kids))
  }

  /** Number of values that split moves to the new right sibling: biased by the insert position. */
  function SplitCount(count: nat, pos: nat, cap: nat): nat
    requires count >= 1
  {
    if pos == 0 then count - 1 else if pos == cap then 0 else count / 2
  }

  /** split: the last value that stays left becomes the delimiter. */
  function SplitNode<K>(n: Node<K>, pos: nat, cap: nat): Pair<K>
    requires WellFormed(n) && |n.keys| >= 2
  {
    var kept := |n.keys| - SplitCount(|n.keys|, pos, cap) - 1;
    if n.Leaf? then Pair(Leaf(n.keys[..kept]), n.keys[kept], Leaf(n.keys[kept + 1..]))
    else Pair(Internal(n.keys[..kept], n.kids[..kept + 1]), n.keys[kept],
      Internal(n.keys[kept + 1..], n.kids[kept + 1..]))
  }

  /** Both rebalances are a merge followed by a cut, so they keep left ++ delimiter ++ right. */
  lemma RightToLeftIsCut<K>(s: Pair<K>, m: nat)
    requires SameKind(s.left, s.right) && 1 <= m <= |s.right.keys|
    ensures var n := Merge(s.left, s.delim, s.right); var p := |s.left.keys| + m;
            p < |n.keys| && RebalanceRightToLeft(s, m) == Pair(CutLeft(n, p), n.keys[p], CutRight(n, p))
  {
    var l, r := s.left, s.right;
    var n, p := Merge(l, s.delim, r), |l.keys| + m;
    assert n.keys[..p] == l.keys + [s.delim] + r.keys[..m - 1];
    assert n.keys[p + 1..] == r.keys[m..];
    if l.Internal? {
      assert n.kids[..p + 1] == l.kids + r.kids[..m];
      assert n.kids[p + 1..] == r.kids[m..];
    }
  }

  lemma LeftToRightIsCut<K>(s: Pair<K>, m: nat)
    requires SameKind(s.left, s.right) && 1 <= m <= |s.left.keys|
    ensures var n := Merge(s.left, s.delim, s.right); var p := |s.left.keys| - m;
            p < |n.keys| && RebalanceLeftToRight(s, m) == Pair(CutLeft(n, p), n.keys[p], CutRight(n, p))
  {
    var l, r := s.left, s.right;
    var n, p := Merge(l, s.delim, r), |l.keys| - m;
    assert n.keys[..p] == l.keys[..p];
    assert n.keys[p + 1..] == l.keys[p + 1..] + [s.delim] + r.keys;
    if l.Internal? {
      assert n.kids[..p + 1] == l.kids[..p + 1];
      assert n.kids[p + 1..] == l.kids[p + 1..] + r.kids;
    }
  }

  ghost function PairContents<K>(s: Pair<K>): seq<K> {
    Inorder(s.left) + [s.delim] + Inorder(s.right)
  }

  /** Cutting the merged siblings anew keeps left ++ delimiter ++ right. */
  lemma RecutContents<K>(s: Pair<K>, p: nat, t: Pair<K>)
    requires SameKind(s.left, s.right) && p <= |s.left.keys| + |s.right.keys|
    requires var n := Merge(s.left, s.delim, s.right); t == Pair(CutLeft(n, p), n.keys[p], CutRight(n, p))
    ensures PairContents(t) == PairContents(s)
  {
    MergeContents(s.left, s.delim, s.right);
    CutContents(Merge(s.left, s.delim, s.right), p);
  }

  /** Rebalancing keeps the in-order sequence left ++ delimiter ++ right. */
  lemma RightToLeftContents<K>(s: Pair<K>, m: nat)
    requires SameKind(s.left, s.right) && 1 <= m <= |s.right.keys|
    ensures PairContents(RebalanceRightToLeft(s, m)) == PairContents(s)
  {
    RightToLeftIsCut(s, m);
    RecutContents(s, |s.left.keys| + m, RebalanceRightToLeft(s, m));
  }

  lemma LeftToRightContents<K>(s: Pair<K>, m: nat)
    requires SameKind(s.left, s.right) && 1 <= m <= |s.left.keys|
    ensures PairContents(RebalanceLeftToRight(s, m)) == PairContents(s)
  {
    LeftToRightIsCut(s, m);
    RecutContents(s, |s.left.keys| - m, RebalanceLeftToRight(s, m));
  }

  /** split keeps the in-order sequence. */
  lemma SplitContents<K>(n: Node<K>, pos: nat, cap: nat)
    requires WellFormed(n) && |n.keys| >= 2
    ensures PairContents(SplitNode(n, pos, cap)) == Inorder(n)
  {
    CutContents(n, |n.keys| - SplitCount(|n.keys|, pos, cap) - 1);
  }

  // ------------------------------------------------------------------ the parent's view

  ghost predicate IsParent<K>(p: Node<K>, i: nat) {
    p.Internal? && Fits(p.keys, p.kids) && i < |p.keys|
  }

  /** Siblings i and i + 1 replaced. */
  function PutPair<K>(p: Node<K>, i: nat, s: Pair<K>): Node<K>
    requires IsParent(p, i)
  {
    Internal(p.keys[i := s.delim], p.kids[i := s.left][i + 1 := s.right])
  }

  /** Child i replaced by two children and a new delimiter. */
  function PutSplit<K>(p: Node<K>, i: nat, s: Pair<K>): Node<K>
    requires p.Internal? && Fits(p.keys, p.kids) && i < |p.kids|
  {
    Internal(p.keys[..i] + [s.delim] + p.keys[i..], p.kids[..i] + [s.left, s.right] + p.kids[i + 1..])
  }

  /** Siblings i and i + 1 and their delimiter replaced by one child. */
  function PutMerged<K>(p: Node<K>, i: nat, n: Node<K>): Node<K>
    requires IsParent(p, i)
  {
    Internal(p.keys[..i] + p.keys[i + 1..], p.kids[..i] + [n] + p.kids[i + 2..])
  }

  lemma PrefixStep<K>(keys: seq<K>, kids: seq<Node<K>>, i: nat)
    requires i < |keys| && i < |kids|
    ensures |Prefix(keys, kids, i + 1)| == |Prefix(keys, kids, i)| + |Inorder(kids[i])| + 1
  {}

  /** Siblings i and i + 1 in their context. */
  lemma PairContext<K>(keys: seq<K>, kids: seq<Node<K>>, i: nat)
    requires Fits(keys, kids) && i < |keys|
    ensures Weave(keys, kids) ==
            Prefix(keys, kids, i) + PairContents(Pair(kids[i], keys[i], kids[i + 1])) + Suffix(keys, kids, i + 1)
    ensures |Prefix(keys, kids, i + 1)| == |Prefix(keys, kids, i)| + |Inorder(kids[i])| + 1
  {
    WeaveAt(keys, kids, i + 1);
    Assoc(Prefix(keys, kids, i), Inorder(kids[i]), [keys[i]], Inorder(kids[i + 1]));
  }

  lemma PutPairContents<K>(p: Node<K>, i: nat, s: Pair<K>)
    requires IsParent(p, i)
    ensures var q := PutPair(p, i, s);
            && Fits(q.keys, q.kids)
            && Prefix(q.keys, q.kids, i) == Prefix(p.keys, p.kids, i)
            && |Prefix(q.keys, q.kids, i + 1)| == |Prefix(p.keys, p.kids, i)| + |Inorder(s.left)| + 1
            && Inorder(q) == Prefix(p.keys, p.kids, i) + PairContents(s) + Suffix(p.keys, p.kids, i + 1)
  {
    var q := PutPair(p, i, s);
    PairContext(q.keys, q.kids, i);
    assert q.keys[..i] == p.keys[..i] && q.kids[..i] == p.kids[..i];
    PrefixLocal(q.keys, q.kids, p.keys, p.kids, i);
    if i + 1 < |p.keys| { assert q.keys[i + 2..] == p.keys[i + 2..] && q.kids[i + 2..] == p.kids[i + 2..]; }
  }

  lemma PutSplitContents<K>(p: Node<K>, i: nat, s: Pair<K>)
    requires p.Internal? && Fits(p.keys, p.kids) && i < |p.kids|
    ensures var q := PutSplit(p, i, s);
            && Fits(q.keys, q.kids) && q.kids[i] == s.left && q.kids[i + 1] == s.right
            && Prefix(q.keys, q.kids, i) == Prefix(p.keys, p.kids, i)
            && |Prefix(q.keys, q.kids, i + 1)| == |Prefix(p.keys, p.kids, i)| + |Inorder(s.left)| + 1
            && Inorder(q) == Prefix(p.keys, p.kids, i) + PairContents(s) + Suffix(p.keys, p.kids, i)
  {
    var q := PutSplit(p, i, s);
    assert q.keys[i] == s.delim && q.kids[i] == s.left && q.kids[i + 1] == s.right;
    PairContext(q.keys, q.kids, i);
    assert q.keys[..i] == p.keys[..i] && q.kids[..i] == p.kids[..i];
    PrefixLocal(q.keys, q.kids, p.keys, p.kids, i);
    if i < |p.keys| { PutSplitSuffix(p, i, s, q); }
  }

  lemma PutSplitSuffix<K>(p: Node<K>, i: nat, s: Pair<K>, q: Node<K>)
    requires p.Internal? && Fits(p.keys, p.kids) && i < |p.keys| && q == PutSplit(p, i, s)
    ensures q.keys[i + 1] == p.keys[i]
    ensures q.keys[i + 2..] == p.keys[i + 1..] && q.kids[i + 2..] == p.kids[i + 1..]
  {}

  lemma PutMergedContents<K>(p: Node<K>, i: nat, n: Node<K>)
    requires IsParent(p, i)
    ensures var q := PutMerged(p, i, n);
            && Fits(q.keys, q.kids) && q.kids[i] == n
            && Prefix(q.keys, q.kids, i) == Prefix(p.keys, p.kids, i)
            && Inorder(q) == Prefix(p.keys, p.kids, i) + Inorder(n) + Suffix(p.keys, p.kids, i + 1)
  {
    var q := PutMerged(p, i, n);
    assert q.kids[i] == n;
    WeaveAt(q.keys, q.kids, i);
    assert q.keys[..i] == p.keys[..i] && q.kids[..i] == p.kids[..i];
    PrefixLocal(q.keys, q.kids, p.keys, p.kids, i);
    if i + 1 < |p.keys| {
      assert q.keys[i] == p.keys[i + 1];
      assert q.keys[i + 1..] == p.keys[i + 2..] && q.kids[i + 1..] == p.kids[i + 2..];
    }
  }
}
