/** The node operations in place, on slot and child arrays, proved to compute the node functions that the
    tree proofs use. Slots at and beyond `count` are uninitialised memory: nothing is said about them. */
module BTreeSlots {
  import opened BTreeNode
  import opened BTreeOps

  // ------------------------------------------------------------------ moving slots

  /** What moving n elements from src[from..] to dst[to..] leaves in dst. */
  ghost predicate Moved<T>(now: seq<T>, dst: seq<T>, to: nat, src: seq<T>, from: nat, n: nat) {
    && |now| == |dst| && to + n <= |dst| && from + n <= |src|
    && (forall k :: to <= k < to + n ==> now[k] == src[from + k - to])
    && (forall k :: 0 <= k < |dst| && !(to <= k < to + n) ==> now[k] == dst[k])
  }

  /** Ascending move; within one array the target must not run into what is still to be read. */
  method MoveUp<T>(src: array<T>, from: nat, n: nat, dst: array<T>, to: nat)
    requires from + n <= src.Length && to + n <= dst.Length
    requires src != dst || to <= from || from + n <= to
    modifies dst
    ensures Moved(dst[..], old(dst[..]), to, old(src[..]), from, n)
  {
    for i := 0 to n
      invariant forall k :: to <= k < to + i ==> dst[k] == old(src[from + k - to])
      invariant forall k :: 0 <= k < dst.Length && !(to <= k < to + i) ==> dst[k] == old(dst[k])
    {
      dst[to + i] := src[from + i];
    }
  }

  /** Descending move to the right within one array. */
  method MoveDown<T>(a: array<T>, from: nat, n: nat, to: nat)
    requires from <= to && to + n <= a.Length
    modifies a
    ensures Moved(a[..], old(a[..]), to, old(a[..]), from, n)
  {
    for i := n downto 0
      invariant forall k :: to + i <= k < to + n ==> a[k] == old(a[from + k - to])
      invariant forall k :: 0 <= k < a.Length && !(to + i <= k < to + n) ==> a[k] == old(a[k])
    {
      a[to + i] := a[from + i];
    }
  }

  // ------------------------------------------------------------------ insertion and removal

  /** emplace_value on the slots: the values from i on shift right by one. */
  method EmplaceSlots<T>(a: array<T>, count: nat, i: nat, v: T)
    requires i <= count < a.Length
    modifies a
    ensures a[..count + 1] == old(a[..count])[..i] + [v] + old(a[..count])[i..]
    ensures forall k :: count < k < a.Length ==> a[k] == old(a[k])
  {
    ghost var was := a[..];
    if i < count { MoveDown(a, i, count - i, i + 1); }
    ghost var shifted := a[..];
    a[i] := v;
    Emplaced(was, shifted, a[..], count, i, v);
  }

  lemma Emplaced<T>(was: seq<T>, shifted: seq<T>, now: seq<T>, count: nat, i: nat, v: T)
    requires i <= count < |was| && (if i < count then Moved(shifted, was, i + 1, was, i, count - i) else shifted == was)
    requires now == shifted[i := v]
    ensures now[..count + 1] == was[..count][..i] + [v] + was[..count][i..]
    ensures forall k :: count < k < |now| ==> now[k] == was[k]
  {}

  /** remove_values_ignore_children with one value: the values after i shift left by one. */
  method RemoveSlots<T>(a: array<T>, count: nat, i: nat)
    requires i < count <= a.Length
    modifies a
    ensures a[..count - 1] == old(a[..count])[..i] + old(a[..count])[i + 1..]
  {
    MoveUp(a, i + 1, count - i - 1, a, i);
  }

  // ------------------------------------------------------------------ rebalancing

  /** rebalance_right_to_left on the slots. */
  method RightToLeftSlots<T>(left: array<T>, lc: nat, parent: array<T>, p: nat, right: array<T>, rc: nat, m: nat)
    requires left != right && left != parent && right != parent
    requires 1 <= m <= rc <= right.Length && lc + m <= left.Length && p < parent.Length
    modifies left, right, parent
    ensures left[..lc + m] == old(left[..lc]) + [old(parent[p])] + old(right[..rc])[..m - 1]
    ensures parent[..] == old(parent[..])[p := old(right[..rc])[m - 1]]
    ensures right[..rc - m] == old(right[..rc])[m..]
  {
    left[lc] := parent[p];
    MoveUp(right, 0, m - 1, left, lc + 1);
    parent[p] := right[m - 1];
    MoveUp(right, m, rc - m, right, 0);
  }

  /** rebalance_right_to_left on the children. */
  method RightToLeftKids<T>(left: array<T>, lc: nat, right: array<T>, rc: nat, m: nat)
    requires left != right && 1 <= m <= rc < right.Length && lc + m < left.Length
    modifies left, right
    ensures left[..lc + m + 1] == old(left[..lc + 1]) + old(right[..rc + 1])[..m]
    ensures right[..rc - m + 1] == old(right[..rc + 1])[m..]
  {
    MoveUp(right, 0, m, left, lc + 1);
    MoveUp(right, m, rc - m + 1, right, 0);
  }

  /** First branch: the right node has at least m values, which shift up in two overlapping pieces. */
  lemma WideShift<T>(was: seq<T>, r1: seq<T>, r2: seq<T>, r3: seq<T>, now: seq<T>, src: seq<T>, lc: nat, d: T, rc: nat,
                     m: nat)
    requires 1 <= m <= rc && rc + m <= |was| && m <= lc <= |src|
    requires Moved(r1, was, rc, was, rc - m, m) && Moved(r2, r1, m, r1, 0, rc - m)
    requires r3 == r2[m - 1 := d] && Moved(now, r3, 0, src, lc - (m - 1), m - 1)
    ensures now[..rc + m] == src[..lc][lc - m + 1..] + [d] + was[..rc]
  {}

  /** Second branch: the right node has fewer than m values. */
  lemma NarrowShift<T>(was: seq<T>, r1: seq<T>, r2: seq<T>, r3: seq<T>, now: seq<T>, src: seq<T>, lc: nat, d: T,
                       rc: nat, m: nat)
    requires rc < m && rc + m <= |was| && m <= lc <= |src|
    requires Moved(r1, was, m, was, 0, rc) && r2 == r1[m - 1 := d]
    requires Moved(r3, r2, rc, src, lc - (m - rc - 1), m - rc - 1) && Moved(now, r3, 0, src, lc - (m - 1), rc)
    ensures now[..rc + m] == src[..lc][lc - m + 1..] + [d] + was[..rc]
  {}

  /** The right node of rebalance_left_to_right, both branches: its values shift up by m, then the
      delimiter and the last m - 1 values of the left node go in front of them. */
  method ShiftIntoRight<T>(left: array<T>, lc: nat, d: T, right: array<T>, rc: nat, m: nat)
    requires left != right && 1 <= m <= lc <= left.Length && rc + m <= right.Length
    modifies right
    ensures right[..rc + m] == left[..lc][lc - m + 1..] + [d] + old(right[..rc])
  {
    ghost var was := right[..];
    if rc >= m {
      MoveUp(right, rc - m, m, right, rc);
      ghost var r1 := right[..];
      MoveDown(right, 0, rc - m, m);
      ghost var r2 := right[..];
      right[m - 1] := d;
      ghost var r3 := right[..];
      MoveUp(left, lc - (m - 1), m - 1, right, 0);
      WideShift(was, r1, r2, r3, right[..], left[..], lc, d, rc, m);
    } else {
      MoveUp(right, 0, rc, right, m);
      ghost var r1 := right[..];
      right[m - 1] := d;
      ghost var r2 := right[..];
      var rest := m - rc - 1;
      MoveUp(left, lc - rest, rest, right, rc);
      ghost var r3 := right[..];
      MoveUp(left, lc - (m - 1), rc, right, 0);
      NarrowShift(was, r1, r2, r3, right[..], left[..], lc, d, rc, m);
    }
    assert left[..][..lc] == left[..lc] && was[..rc] == old(right[..rc]);
  }

  /** rebalance_left_to_right on the slots. */
  method LeftToRightSlots<T>(left: array<T>, lc: nat, parent: array<T>, p: nat, right: array<T>, rc: nat, m: nat,
                             ghost lk: seq<T>, ghost rk: seq<T>)
    requires left != right && left != parent && right != parent
    requires 1 <= m <= lc <= left.Length && rc + m <= right.Length && p < parent.Length
    requires lk == left[..lc] && rk == right[..rc]
    modifies right, parent
    ensures left[..lc - m] == lk[..lc - m]
    ensures parent[..] == old(parent[..])[p := lk[lc - m]]
    ensures right[..rc + m] == lk[lc - m + 1..] + [old(parent[p])] + rk
  {
    ShiftIntoRight(left, lc, parent[p], right, rc, m);
    parent[p] := left[lc - m];
  }

  /** n elements shifted up by m, and m elements of src from `from` on in front of them. */
  ghost predicate Filled<T>(now: seq<T>, was: seq<T>, src: seq<T>, from: nat, m: nat, n: nat) {
    && m + n <= |now| == |was| && from + m <= |src|
    && (forall k :: 0 <= k < m ==> now[k] == src[from + k])
    && (forall k :: m <= k < m + n ==> now[k] == was[k - m])
  }

  method ShiftKids<T>(left: array<T>, from: nat, right: array<T>, m: nat, n: nat)
    requires left != right && from + m <= left.Length && n + m <= right.Length
    modifies right
    ensures Filled(right[..], old(right[..]), left[..], from, m, n)
  {
    MoveDown(right, 0, n, m);
    MoveUp(left, from, m, right, 0);
  }

  /** rebalance_left_to_right on the children. */
  method LeftToRightKids<T>(left: array<T>, lc: nat, right: array<T>, rc: nat, m: nat, ghost lk: seq<T>,
                            ghost rk: seq<T>)
    requires left != right && 1 <= m <= lc < left.Length && rc + m < right.Length
    requires lk == left[..lc + 1] && rk == right[..rc + 1]
    modifies right
    ensures left[..lc - m + 1] == lk[..lc - m + 1]
    ensures right[..rc + m + 1] == lk[lc - m + 1..] + rk
  {
    ShiftKids(left, lc - m + 1, right, m, rc + 1);
  }

  // ------------------------------------------------------------------ nodes

  function NodeOf<K>(leaf: bool, keys: seq<K>, kids: seq<Node<K>>): Node<K> {
    if leaf then Leaf(keys) else Internal(keys, kids)
  }

  /** btree_node: a fixed number of slots, one more child than slots, and a count. */
  class SlotNode<K> {
    const slots: array<K>
    const kids: array<Node<K>>
    const leaf: bool
    var count: nat

    constructor (slotArray: array<K>, kidArray: array<Node<K>>, isLeaf: bool)
      requires kidArray.Length == slotArray.Length + 1 && slotArray as object != kidArray as object
      ensures slots == slotArray && kids == kidArray && leaf == isLeaf && count == 0 && Valid()
    {
      slots, kids, leaf, count := slotArray, kidArray, isLeaf, 0;
    }

    ghost predicate Valid()
      reads this
    {
      count <= slots.Length && kids.Length == slots.Length + 1 && slots as object != kids as object
    }

    /** The node as a value: a child pointer stands for the subtree it leads to. */
    function Value(): Node<K>
      requires Valid()
      reads this, slots, kids
    {
      NodeOf(leaf, slots[..count], kids[..count + 1])
    }
  }

  ghost predicate Apart<K>(l: SlotNode<K>, r: SlotNode<K>) {
    && l != r && l.slots != r.slots && l.kids != r.kids
    && l.slots as object != r.kids as object && l.kids as object != r.slots as object
  }

  /** Two siblings, their parent and the position of the left one. */
  ghost predicate Siblings<K>(l: SlotNode<K>, parent: SlotNode<K>, p: nat, r: SlotNode<K>)
    reads l, r, parent
  {
    && l.Valid() && r.Valid() && parent.Valid() && !parent.leaf && l.leaf == r.leaf && p < parent.count
    && Apart(l, r) && Apart(l, parent) && Apart(r, parent)
  }

  ghost function PairOf<K>(l: SlotNode<K>, parent: SlotNode<K>, p: nat, r: SlotNode<K>): Pair<K>
    requires Siblings(l, parent, p, r)
    reads l, r, parent, l.slots, l.kids, r.slots, r.kids, parent.slots
  {
    Pair(l.Value(), parent.slots[p], r.Value())
  }

  /** rebalance_right_to_left computes RebalanceRightToLeft. */
  method RightToLeft<K>(l: SlotNode<K>, parent: SlotNode<K>, p: nat, r: SlotNode<K>, m: nat)
    requires Siblings(l, parent, p, r) && 1 <= m <= r.count && l.count + m <= l.slots.Length
    modifies l`count, l.slots, l.kids, r`count, r.slots, r.kids, parent.slots
    ensures Siblings(l, parent, p, r) && l.count == old(l.count) + m && r.count == old(r.count) - m
    ensures PairOf(l, parent, p, r) == RebalanceRightToLeft(old(PairOf(l, parent, p, r)), m)
    ensures parent.slots[..] == old(parent.slots[..])[p := parent.slots[p]]
  {
    RightToLeftSlots(l.slots, l.count, parent.slots, p, r.slots, r.count, m);
    if !l.leaf { RightToLeftKids(l.kids, l.count, r.kids, r.count, m); }
    l.count, r.count := l.count + m, r.count - m;
  }

  /** rebalance_left_to_right computes RebalanceLeftToRight. */
  method LeftToRight<K>(l: SlotNode<K>, parent: SlotNode<K>, p: nat, r: SlotNode<K>, m: nat)
    requires Siblings(l, parent, p, r) && 1 <= m <= l.count && r.count + m <= r.slots.Length
    modifies l`count, r`count, r.slots, r.kids, parent.slots
    ensures Siblings(l, parent, p, r) && l.count == old(l.count) - m && r.count == old(r.count) + m
    ensures PairOf(l, parent, p, r) == RebalanceLeftToRight(old(PairOf(l, parent, p, r)), m)
    ensures parent.slots[..] == old(parent.slots[..])[p := parent.slots[p]]
  {
    ghost var lk, lkids, rk, rkids := l.slots[..l.count], l.kids[..l.count + 1], r.slots[..r.count],
      r.kids[..r.count + 1];
    LeftToRightSlots(l.slots, l.count, parent.slots, p, r.slots, r.count, m, lk, rk);
    if !l.leaf { LeftToRightKids(l.kids, l.count, r.kids, r.count, m, lkids, rkids); }
    l.count, r.count := l.count - m, r.count + m;
  }

  // ------------------------------------------------------------------ split

  /** Key kept - 1 of n is left over as the delimiter; what follows it goes to dest. */
  method SplitArrays<K>(n: SlotNode<K>, dest: SlotNode<K>, kept: nat)
    requires n.Valid() && dest.Valid() && Apart(n, dest) && n.leaf == dest.leaf && dest.count == 0
    requires kept < n.count <= dest.slots.Length
    modifies n`count, dest`count, dest.slots, dest.kids
    ensures n.Valid() && dest.Valid() && n.count == kept
    ensures n.Value() == CutLeft(old(n.Value()), kept) && dest.Value() == CutRight(old(n.Value()), kept)
  {
    var moved := n.count - kept - 1;
    MoveUp(n.slots, kept + 1, moved, dest.slots, 0);
    if !n.leaf { MoveUp(n.kids, kept + 1, moved + 1, dest.kids, 0); }
    n.count, dest.count := kept, moved;
  }

  /** The parent's side of a split: the delimiter is emplaced and the new child follows the old one. */
  method PutSplitSlots<K>(parent: SlotNode<K>, p: nat, s: Pair<K>)
    requires parent.Valid() && !parent.leaf && p <= parent.count < parent.slots.Length
    modifies parent`count, parent.slots, parent.kids
    ensures parent.Valid() && parent.count == old(parent.count) + 1
    ensures parent.Value() == PutSplit(old(parent.Value()), p, s)
  {
    ghost var keys, kids := parent.slots[..parent.count], parent.kids[..parent.count + 1];
    EmplaceSlots(parent.slots, parent.count, p, s.delim);
    EmplaceSlots(parent.kids, parent.count + 1, p + 1, s.right);
    parent.kids[p] := s.left;
    parent.count := parent.count + 1;
    assert parent.kids[..parent.count + 1] == kids[..p] + [s.left, s.right] + kids[p + 1..];
  }

  /** split: the new sibling and the delimiter are what SplitNode says. */
  method Split<K>(n: SlotNode<K>, parent: SlotNode<K>, p: nat, dest: SlotNode<K>, pos: nat)
    requires n.Valid() && dest.Valid() && parent.Valid() && Apart(n, dest) && Apart(n, parent) && Apart(dest, parent)
    requires n.leaf == dest.leaf && !parent.leaf && dest.count == 0 && p <= parent.count < parent.slots.Length
    requires 2 <= n.count == n.slots.Length == dest.slots.Length
    modifies n`count, dest`count, dest.slots, dest.kids, parent`count, parent.slots, parent.kids
    ensures n.Valid() && dest.Valid() && parent.Valid()
    ensures var s := SplitNode(old(n.Value()), pos, old(n.count));
            n.Value() == s.left && dest.Value() == s.right && parent.Value() == PutSplit(old(parent.Value()), p, s)
  {
    var kept := n.count - SplitCount(n.count, pos, n.count) - 1;
    SplitArrays(n, dest, kept);
    PutSplitSlots(parent, p, Pair(n.Value(), n.slots[kept], dest.Value()));
  }

  // ------------------------------------------------------------------ merge

  /** The left node takes the delimiter and everything of the right one. */
  method MergeArrays<K>(l: SlotNode<K>, d: K, r: SlotNode<K>)
    requires l.Valid() && r.Valid() && Apart(l, r) && l.leaf == r.leaf && l.count + 1 + r.count <= l.slots.Length
    modifies l`count, l.slots, l.kids, r`count
    ensures l.Valid() && r.Valid() && r.count == 0 && l.Value() == Merge(old(l.Value()), d, old(r.Value()))
  {
    l.slots[l.count] := d;
    MoveUp(r.slots, 0, r.count, l.slots, l.count + 1);
    if !l.leaf { MoveUp(r.kids, 0, r.count + 1, l.kids, l.count + 1); }
    l.count, r.count := l.count + 1 + r.count, 0;
  }

  /** The parent's side of a merge: delimiter p and child p + 1 go. */
  method PutMergedSlots<K>(parent: SlotNode<K>, p: nat, n: Node<K>)
    requires parent.Valid() && !parent.leaf && p < parent.count
    modifies parent`count, parent.slots, parent.kids
    ensures parent.Valid() && parent.count == old(parent.count) - 1
    ensures parent.Value() == PutMerged(old(parent.Value()), p, n)
  {
    ghost var keys, kids := parent.slots[..parent.count], parent.kids[..parent.count + 1];
    RemoveSlots(parent.kids, parent.count + 1, p + 1);
    RemoveSlots(parent.slots, parent.count, p);
    parent.kids[p] := n;
    parent.count := parent.count - 1;
    assert parent.kids[..parent.count + 1] == kids[..p] + [n] + kids[p + 2..];
  }

  method MergeNodes<K>(l: SlotNode<K>, parent: SlotNode<K>, p: nat, r: SlotNode<K>)
    requires Siblings(l, parent, p, r) && l.count + 1 + r.count <= l.slots.Length
    modifies l`count, l.slots, l.kids, r`count, parent`count, parent.slots, parent.kids
    ensures l.Valid() && r.Valid() && parent.Valid() && r.count == 0
    ensures l.Value() == Merge(old(l.Value()), old(parent.slots[p]), old(r.Value()))
    ensures parent.Value() == PutMerged(old(parent.Value()), p, l.Value())
  {
    MergeArrays(l, parent.slots[p], r);
    PutMergedSlots(parent, p, l.Value());
  }
}
