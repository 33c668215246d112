/** The B-tree container: unique keys, insertion, lookup and erasure. */
module BTree {
  import opened BTreeNode
  import opened BTreeShape
  import opened BTreePairs
  import opened BTreeInsert
  import opened BTreeIter
  import opened BTreeDelete
  import opened BTreeSearch

  /** Emplacing into a leaf position that has room: contents, shape and the position of the new key. */
  lemma Emplaced<K>(c: Cursor<K>, key: K, h: nat, cap: nat, it: Cursor<K>)
    requires Roomy(c, h, cap) && NodeAt(c.root, c.path).Leaf? && it == Cursor(EmplaceAt(c, key), c.path, c.pos)
    ensures Good(it.root, h, cap) && Rank(c) <= |Inorder(c.root)|
    ensures Inorder(it.root) == Inorder(c.root)[..Rank(c)] + [key] + Inorder(c.root)[Rank(c)..]
    ensures OnKey(it) && Index(it) == Rank(c) && NodeAt(it.root, it.path).keys[it.pos] == key
  {
    EmplaceOk(c, key, h, cap);
    ReplacePath(c.root, c.path,
      Leaf(NodeAt(c.root, c.path).keys[..c.pos] + [key] + NodeAt(c.root, c.path).keys[c.pos..]));
  }

  /** A leaf position in a tree whose leaf is not full has room. */
  lemma LeafHasRoom<K>(c: Cursor<K>, h: nat, cap: nat) returns (h': nat)
    requires Tree(c.root, h, cap) && ValidCursor(c) && NodeAt(c.root, c.path).Leaf?
             && |NodeAt(c.root, c.path).keys| < cap
    ensures Roomy(c, h', cap)
  {
    if c.root == Leaf([]) {
      h' := 0;
    } else {
      h' := h;
      GoodIsRoomy(c, h, cap);
    }
  }

  lemma NodeWithinCap<K>(root: Node<K>, path: seq<nat>, h: nat, cap: nat)
    requires Tree(root, h, cap) && ValidPath(root, path)
    ensures |NodeAt(root, path).keys| <= cap
  {
    if root != Leaf([]) { GoodAround(root, h, cap, path); }
  }

  /** Only the empty tree has no keys. */
  lemma NoKeys<K>(root: Node<K>, h: nat, cap: nat)
    requires Tree(root, h, cap)
    ensures Inorder(root) == [] <==> root == Leaf([])
  {
    if root != Leaf([]) {
      GoodNode(root, h, cap);
      KeyOffsetInside(root, 0);
    }
  }

  /** Erasing never makes the tree higher, so a root leaf stays one and does not outgrow its capacity. */
  lemma ErasedRoot<K>(root: Node<K>, h: nat, root': Node<K>, h': nat, cap: nat)
    requires Good(root, h, cap) && Tree(root', h', cap) && h' <= h && |Inorder(root')| < |Inorder(root)|
    ensures |root'.keys| <= cap
    ensures root.Leaf? ==> root'.Leaf? && |root'.keys| < |root.keys|
  {
    GoodNode(root, h, cap);
    if root' != Leaf([]) { GoodNode(root', h', cap); }
  }

  class BTree<K(!new)> {
    const cap: nat
    const less: (K, K) -> bool
    const linear: bool
    var root: Node<K>
    var rootMax: nat
    var size: nat

    ghost function Contents(): seq<K>
      reads this
    {
      Inorder(root)
    }

    ghost predicate Shaped()
      reads this
    {
      exists h: nat :: Tree(root, h, cap)
    }

    /** Keys strictly in order, leaves at one depth, nodes within bounds, size exact, and the root within
        its own capacity: a root leaf starts with room for one key and grows up to a full node. */
    ghost predicate Valid()
      reads this
    {
      && cap >= 3 && StrictWeak(less) && Shaped()
      && Sorted(Contents(), less) && size == |Contents()|
      && |root.keys| <= rootMax <= cap && (root.Internal? ==> rootMax == cap)
    }

    constructor (nodeValues: nat, comp: (K, K) -> bool, linearSearch: bool)
      requires nodeValues >= 3 && StrictWeak(comp)
      ensures Valid() && Contents() == [] && cap == nodeValues && less == comp
    {
      cap, less, linear := nodeValues, comp, linearSearch;
      root, rootMax, size := Leaf([]), 0, 0;
      new;
      assert Tree(root, 0, cap);
    }

    /** max_count of the node at a path. */
    function MaxCount(path: seq<nat>): nat
      reads this
    {
      if path == [] then rootMax else cap
    }

    /** The root is within its own capacity. */
    predicate RootFits()
      reads this
    {
      |root.keys| <= rootMax <= cap && (root.Internal? ==> rootMax == cap)
    }

    /** Makes room for one more key at a leaf position; the position still denotes the same gap. */
    method MakeRoom(c: Cursor<K>, ghost h: nat) returns (at: Cursor<K>, ghost h': nat)
      requires cap >= 3 && Tree(root, h, cap) && RootFits() && rootMax >= 1
      requires c.root == root && ValidCursor(c) && NodeAt(c.root, c.path).Leaf?
      modifies `rootMax
      ensures Roomy(at, h', cap) && NodeAt(at.root, at.path).Leaf? && SameGap(c, at)
      ensures rootMax == if c.path == [] && |root.keys| == old(rootMax) < cap
                         then (if 2 * old(rootMax) < cap then 2 * old(rootMax) else cap) else old(rootMax)
      ensures rootMax <= cap && (rootMax == cap || (at == c && c.path == [] && |root.keys| < rootMax))
    {
      at := c;
      if |NodeAt(c.root, c.path).keys| == MaxCount(c.path) {
        if MaxCount(c.path) < cap {
          rootMax := if 2 * rootMax < cap then 2 * rootMax else cap;
          h' := LeafHasRoom(c, h, cap);
        } else {
          assert root != Leaf([]);
          at := RebalanceOrSplit(root, h, c.path, c.pos, cap);
          h' :| (h' == h || h' == h + 1) && MadeRoomAt(c, h, at, h', cap);
        }
      } else {
        NodeWithinCap(root, c.path, h, cap);
        h' := LeafHasRoom(c, h, cap);
      }
    }

    /** The leaf position that internal_emplace inserts at: the position itself, or, in front of a key of an
        internal node, after the key's predecessor. */
    method LeafPosition(c: Cursor<K>, ghost h: nat) returns (at: Cursor<K>)
      requires Tree(root, h, cap) && c.root == root && ValidCursor(c) && (NodeAt(c.root, c.path).Leaf? || OnKey(c))
      ensures at.root == root && ValidCursor(at) && NodeAt(at.root, at.path).Leaf? && Rank(at) == Index(c)
    {
      at := c;
      if NodeAt(c.root, c.path).Internal? {
        var prev, below := DecrementInternal(c, h, cap);
        at := Cursor(prev.root, prev.path, prev.pos + 1);
      }
    }

    /** Emplaces at a leaf position, after making room if the leaf is full. */
    method EmplaceInLeaf(c: Cursor<K>, key: K, ghost h: nat) returns (it: Cursor<K>)
      requires cap >= 3 && Tree(root, h, cap) && RootFits() && rootMax >= 1
      requires c.root == root && ValidCursor(c) && NodeAt(c.root, c.path).Leaf?
      modifies this
      ensures Shaped() && RootFits() && size == old(size) + 1
      ensures |old(root).keys| < old(rootMax) ==> rootMax == old(rootMax)
      ensures it.root == root && OnKey(it) && NodeAt(it.root, it.path).keys[it.pos] == key
      ensures Rank(c) <= |old(Contents())| && Index(it) == Rank(c)
      ensures Contents() == old(Contents())[..Rank(c)] + [key] + old(Contents())[Rank(c)..]
    {
      var at, h' := MakeRoom(c, h);
      it := Cursor(EmplaceAt(at, key), at.path, at.pos);
      Emplaced(at, key, h', cap, it);
      root, size := it.root, size + 1;
      assert Tree(root, h', cap);
    }

    /** internal_emplace: the key goes in front of what the position denotes. */
    method InternalEmplace(c: Cursor<K>, key: K, ghost h: nat, ghost r: nat) returns (it: Cursor<K>)
      requires cap >= 3 && Tree(root, h, cap) && RootFits() && rootMax >= 1
      requires c.root == root && ValidCursor(c) && (NodeAt(c.root, c.path).Leaf? || OnKey(c)) && r == Index(c)
      modifies this
      ensures Shaped() && RootFits() && size == old(size) + 1
      ensures |old(root).keys| < old(rootMax) ==> rootMax == old(rootMax)
      ensures it.root == root && OnKey(it) && NodeAt(it.root, it.path).keys[it.pos] == key
      ensures r <= |old(Contents())| && Index(it) == r
      ensures Contents() == old(Contents())[..r] + [key] + old(Contents())[r..]
    {
      var leaf := LeafPosition(c, h);
      it := EmplaceInLeaf(leaf, key, h);
    }

    /** insert_unique: the key goes in exactly when no equivalent key is present, at its place in the
        order; the iterator denotes the new key or the equivalent one. */
    method InsertUnique(key: K) returns (it: Cursor<K>, inserted: bool)
      requires Valid()
      modifies this
      ensures Valid()
      ensures inserted <==> !Present(old(Contents()), key, less)
      ensures it.root == root && OnKey(it) && LowerBound(old(Contents()), key, Index(it), less)
      ensures Contents() == if inserted then old(Contents())[..Index(it)] + [key] + old(Contents())[Index(it)..]
              else old(Contents())
      ensures Index(it) < |Contents()| && if inserted then Contents()[Index(it)] == key
              else Equivalent(Contents()[Index(it)], key, less)
      ensures old(size) == 0 ==> rootMax == 1
    {
      ghost var h: nat :| Tree(root, h, cap);
      if size == 0 { rootMax := 1; }
      NoKeys(root, h, cap);
      var c := InternalLocate(root, key, less, linear, h, cap);
      PresentAtBound(Contents(), key, Rank(c), less);
      var found, last := InternalLast(c);
      if found {
        IndexIsKey(last);
        if !less(key, NodeAt(last.root, last.path).keys[last.pos]) {
          return last, false;
        }
      }
      InsertSortedAt(Contents(), key, Rank(c), less);
      it := InternalEmplace(c, key, h, Rank(c));
      inserted := true;
    }

    /** erase: exactly the key at the iterator goes; the result denotes its successor or is end(). */
    method EraseAt(it: Cursor<K>) returns (next: Cursor<K>)
      requires Valid() && it.root == root && OnKey(it)
      modifies this
      ensures Valid() && Index(it) < |old(Contents())| && Contents() == Without(old(Contents()), Index(it))
      ensures next.root == root && Denotes(next, Index(it))
    {
      ghost var h: nat :| Tree(root, h, cap);
      IndexIsKey(it);
      EmptyTree(root, h, cap);
      ghost var h';
      next, h' := Erase(it, h, cap);
      WithoutSorted(Contents(), Index(it), less);
      ErasedRoot(root, h, next.root, h', cap);
      root, size := next.root, size - 1;
      assert Tree(root, h', cap);
    }

    /** erase_unique: removes the equivalent key if there is one. */
    method EraseUnique(key: K) returns (erased: nat)
      requires Valid()
      modifies this
      ensures Valid()
      ensures erased == if Present(old(Contents()), key, less) then 1 else 0
      ensures if erased == 0 then Contents() == old(Contents())
              else exists r: nat :: r < |old(Contents())| && LowerBound(old(Contents()), key, r, less)
                                 && Equivalent(old(Contents())[r], key, less)
                                 && Contents() == Without(old(Contents()), r)
    {
      ghost var h: nat :| Tree(root, h, cap);
      var found, it := InternalFind(root, key, less, linear, h, cap);
      if !found { return 0; }
      ghost var r := Index(it);
      var next := EraseAt(it);
      erased := 1;
    }

    method Find(key: K) returns (found: bool, it: Cursor<K>)
      requires Valid()
      ensures found <==> Present(Contents(), key, less)
      ensures found ==>
        && it.root == root && OnKey(it) && Index(it) < |Contents()| && Equivalent(Contents()[Index(it)], key, less)
    {
      ghost var h: nat :| Tree(root, h, cap);
      found, it := InternalFind(root, key, less, linear, h, cap);
    }
  }
}
