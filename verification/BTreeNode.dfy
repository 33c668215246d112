/** B-tree nodes as values: in-order contents, paths, and replacement of a subtree.
    A node pointer of the source is a path of child indices from the root; `parent()` and
    `position()` are the path without its last index and that index. */
module BTreeNode {

  datatype Node<K> = Leaf(keys: seq<K>) | Internal(keys: seq<K>, kids: seq<Node<K>>)

  predicate Fits<K>(keys: seq<K>, kids: seq<Node<K>>) {
    |kids| == |keys| + 1
  }

  // ------------------------------------------------------------------ in-order contents

  /** All keys of a subtree in order. */
  ghost function Inorder<K>(n: Node<K>): seq<K>
    decreases n, 1
  {
    match n
    case Leaf(keys) => keys
    case Internal(keys, kids) => if Fits(keys, kids) then Weave(keys, kids) else []
  }

  /** kids[0], keys[0], kids[1], ..., keys[i - 1]. */
  ghost function Prefix<K>(keys: seq<K>, kids: seq<Node<K>>, i: nat): seq<K>
    requires i <= |keys| && i <= |kids|
    decreases kids, 0, i
  {
    if i == 0 then [] else Prefix(keys, kids, i - 1) + Inorder(kids[i - 1]) + [keys[i - 1]]
  }

  ghost function Weave<K>(keys: seq<K>, kids: seq<Node<K>>): seq<K>
    requires Fits(keys, kids)
    decreases kids, 1
  {
    Prefix(keys, kids, |keys|) + Inorder(kids[|keys|])
  }

  /** A prefix only depends on the keys and children before it. */
  lemma {:induction false} PrefixLocal<K>(k1: seq<K>, c1: seq<Node<K>>, k2: seq<K>, c2: seq<Node<K>>, i: nat)
    requires i <= |k1| && i <= |c1| && i <= |k2| && i <= |c2|
    requires k1[..i] == k2[..i] && c1[..i] == c2[..i]
    ensures Prefix(k1, c1, i) == Prefix(k2, c2, i)
  {
    if i > 0 {
      assert k1[..i - 1] == k1[..i][..i - 1] == k2[..i][..i - 1] == k2[..i - 1];
      assert c1[..i - 1] == c1[..i][..i - 1] == c2[..i][..i - 1] == c2[..i - 1];
      PrefixLocal(k1, c1, k2, c2, i - 1);
      assert k1[i - 1] == k1[..i][i - 1] == k2[..i][i - 1] == k2[i - 1];
      assert c1[i - 1] == c1[..i][i - 1] == c2[..i][i - 1] == c2[i - 1];
    }
  }

  /** Prefixes of a concatenation around a delimiter. */
  lemma {:induction false} PrefixConcat<K>(k1: seq<K>, c1: seq<Node<K>>, d: K, k2: seq<K>, c2: seq<Node<K>>, j: nat)
    requires Fits(k1, c1) && j <= |k2| && j <= |c2|
    ensures Prefix(k1 + [d] + k2, c1 + c2, |k1| + 1 + j) == Weave(k1, c1) + [d] + Prefix(k2, c2, j)
  {
    var ks, cs := k1 + [d] + k2, c1 + c2;
    if j == 0 {
      PrefixLocal(ks, cs, k1, c1, |k1|);
      assert cs[|k1|] == c1[|k1|] && ks[|k1|] == d;
      assert Weave(k1, c1) + [d] + [] == Weave(k1, c1) + [d];
    } else {
      PrefixConcat(k1, c1, d, k2, c2, j - 1);
      var i := |k1| + 1 + j;
      assert cs[i - 1] == c2[j - 1] && ks[i - 1] == k2[j - 1];
      Assoc(Weave(k1, c1) + [d], Prefix(k2, c2, j - 1), Inorder(c2[j - 1]), [k2[j - 1]]);
    }
  }

  /** Joining two internal nodes around a delimiter joins their contents around it. */
  lemma WeaveConcat<K>(k1: seq<K>, c1: seq<Node<K>>, d: K, k2: seq<K>, c2: seq<Node<K>>)
    requires Fits(k1, c1) && Fits(k2, c2)
    ensures Fits(k1 + [d] + k2, c1 + c2)
    ensures Weave(k1 + [d] + k2, c1 + c2) == Weave(k1, c1) + [d] + Weave(k2, c2)
  {
    PrefixConcat(k1, c1, d, k2, c2, |k2|);
    assert (c1 + c2)[|k1| + 1 + |k2|] == c2[|k2|];
  }

  /** Cutting a node at key p: what is left of it, the key, and what is right of it. */
  lemma WeaveCut<K>(keys: seq<K>, kids: seq<Node<K>>, p: nat)
    requires Fits(keys, kids) && p < |keys|
    ensures Fits(keys[..p], kids[..p + 1]) && Fits(keys[p + 1..], kids[p + 1..])
    ensures Weave(keys, kids) == Weave(keys[..p], kids[..p + 1]) + [keys[p]] + Weave(keys[p + 1..], kids[p + 1..])
  {
    assert keys == keys[..p] + [keys[p]] + keys[p + 1..];
    assert kids == kids[..p + 1] + kids[p + 1..];
    WeaveConcat(keys[..p], kids[..p + 1], keys[p], keys[p + 1..], kids[p + 1..]);
  }

  /** What follows child i. */
  ghost function Suffix<K>(keys: seq<K>, kids: seq<Node<K>>, i: nat): seq<K>
    requires Fits(keys, kids) && i < |kids|
  {
    if i == |keys| then [] else [keys[i]] + Weave(keys[i + 1..], kids[i + 1..])
  }

  /** Child i in its context. */
  lemma WeaveAt<K>(keys: seq<K>, kids: seq<Node<K>>, i: nat)
    requires Fits(keys, kids) && i < |kids|
    ensures Weave(keys, kids) == Prefix(keys, kids, i) + Inorder(kids[i]) + Suffix(keys, kids, i)
  {
    if i < |keys| {
      WeaveCut(keys, kids, i);
      var k, c := keys[..i], kids[..i + 1];
      assert k[..i] == keys[..i] && c[..i] == kids[..i] && c[i] == kids[i];
      PrefixLocal(keys, kids, k, c, i);
      Assoc(Prefix(keys, kids, i), Inorder(kids[i]), [keys[i]], Weave(keys[i + 1..], kids[i + 1..]));
    }
  }

  lemma Assoc<K>(a: seq<K>, b: seq<K>, c: seq<K>, d: seq<K>)
    ensures a + b + c + d == a + b + (c + d) == a + (b + c + d)
  {}

  /** Replacing child i replaces its contents and nothing else. */
  lemma WeaveReplace<K>(keys: seq<K>, kids: seq<Node<K>>, i: nat, n: Node<K>)
    requires Fits(keys, kids) && i < |kids|
    ensures Prefix(keys, kids[i := n], i) == Prefix(keys, kids, i)
    ensures Suffix(keys, kids[i := n], i) == Suffix(keys, kids, i)
    ensures Weave(keys, kids[i := n]) == Prefix(keys, kids, i) + Inorder(n) + Suffix(keys, kids, i)
  {
    var kids' := kids[i := n];
    WeaveAt(keys, kids', i);
    PrefixLocal(keys, kids', keys, kids, i);
    if i < |keys| { assert kids'[i + 1..] == kids[i + 1..]; }
  }

  // ------------------------------------------------------------------ paths

  ghost predicate ValidPath<K>(n: Node<K>, path: seq<nat>)
    decreases path
  {
    path == [] || (n.Internal? && Fits(n.keys, n.kids) && path[0] < |n.kids| && ValidPath(n.kids[path[0]], path[1..]))
  }

  function NodeAt<K>(n: Node<K>, path: seq<nat>): Node<K>
    requires ValidPath(n, path)
    decreases path
  {
    if path == [] then n else NodeAt(n.kids[path[0]], path[1..])
  }

  function ReplaceAt<K>(n: Node<K>, path: seq<nat>, x: Node<K>): Node<K>
    requires ValidPath(n, path)
    decreases path
  {
    if path == [] then x
    else Internal(n.keys, n.kids[path[0] := ReplaceAt(n.kids[path[0]], path[1..], x)])
  }

  /** What precedes the subtree at a path. */
  ghost function Left<K>(n: Node<K>, path: seq<nat>): seq<K>
    requires ValidPath(n, path)
    decreases path
  {
    if path == [] then [] else Prefix(n.keys, n.kids, path[0]) + Left(n.kids[path[0]], path[1..])
  }

  /** What follows the subtree at a path. */
  ghost function Right<K>(n: Node<K>, path: seq<nat>): seq<K>
    requires ValidPath(n, path)
    decreases path
  {
    if path == [] then [] else Right(n.kids[path[0]], path[1..]) + Suffix(n.keys, n.kids, path[0])
  }

  /** The subtree at a path in its context. */
  lemma {:induction false} Context<K>(n: Node<K>, path: seq<nat>)
    requires ValidPath(n, path)
    ensures Inorder(n) == Left(n, path) + Inorder(NodeAt(n, path)) + Right(n, path)
    decreases path
  {
    if path == [] {
      assert Inorder(n) == [] + Inorder(n) + [];
    } else {
      var i, rest := path[0], path[1..];
      var kid := n.kids[i];
      Context(kid, rest);
      WeaveAt(n.keys, n.kids, i);
      Nest(Prefix(n.keys, n.kids, i), Left(kid, rest), Inorder(NodeAt(kid, rest)), Right(kid, rest),
        Suffix(n.keys, n.kids, i));
    }
  }

  lemma Nest<K>(a: seq<K>, b: seq<K>, c: seq<K>, d: seq<K>, e: seq<K>)
    ensures a + (b + c + d) + e == (a + b) + c + (d + e)
  {}

  /** Replacing a subtree keeps its context; paths into the new subtree continue from there. */
  lemma {:induction false} ReplacePath<K>(n: Node<K>, path: seq<nat>, x: Node<K>)
    requires ValidPath(n, path)
    ensures ValidPath(ReplaceAt(n, path, x), path) && NodeAt(ReplaceAt(n, path, x), path) == x
    ensures Left(ReplaceAt(n, path, x), path) == Left(n, path)
    ensures Right(ReplaceAt(n, path, x), path) == Right(n, path)
    decreases path
  {
    if path != [] {
      var i := path[0];
      ReplacePath(n.kids[i], path[1..], x);
      WeaveReplace(n.keys, n.kids, i, ReplaceAt(n.kids[i], path[1..], x));
    }
  }

  /** Replacing a subtree replaces its slice of the contents. */
  lemma ReplaceContents<K>(n: Node<K>, path: seq<nat>, x: Node<K>)
    requires ValidPath(n, path)
    ensures Inorder(ReplaceAt(n, path, x)) == Left(n, path) + Inorder(x) + Right(n, path)
  {
    ReplacePath(n, path, x);
    Context(ReplaceAt(n, path, x), path);
  }

  /** A path into a subtree. */
  lemma {:induction false} PathConcat<K>(n: Node<K>, path: seq<nat>, rest: seq<nat>)
    requires ValidPath(n, path) && ValidPath(NodeAt(n, path), rest)
    ensures ValidPath(n, path + rest) && NodeAt(n, path + rest) == NodeAt(NodeAt(n, path), rest)
    decreases path
  {
    if path == [] {
      assert path + rest == rest;
    } else {
      PathConcat(n.kids[path[0]], path[1..], rest);
      assert (path + rest)[1..] == path[1..] + rest;
    }
  }

  lemma {:induction false} LeftConcat<K>(n: Node<K>, path: seq<nat>, rest: seq<nat>)
    requires ValidPath(n, path) && ValidPath(NodeAt(n, path), rest) && ValidPath(n, path + rest)
    ensures Left(n, path + rest) == Left(n, path) + Left(NodeAt(n, path), rest)
    decreases path
  {
    if path == [] {
      assert path + rest == rest;
      assert [] + Left(n, rest) == Left(n, rest);
    } else {
      var kid, tail := n.kids[path[0]], path[1..];
      assert (path + rest)[1..] == tail + rest;
      LeftConcat(kid, tail, rest);
      Assoc(Prefix(n.keys, n.kids, path[0]), Left(kid, tail), Left(NodeAt(n, path), rest), []);
      assert Left(n, path + rest) == Prefix(n.keys, n.kids, path[0]) + (Left(kid, tail) + Left(NodeAt(n, path), rest));
    }
  }

  /** A path with its last index split off: parent() and position(). */
  lemma {:induction false} PathParent<K>(n: Node<K>, path: seq<nat>)
    requires ValidPath(n, path) && path != []
    ensures ValidPath(n, path[..|path| - 1])
    ensures var p := NodeAt(n, path[..|path| - 1]); var i := path[|path| - 1];
            p.Internal? && Fits(p.keys, p.kids) && i < |p.kids| && NodeAt(n, path) == p.kids[i]
    decreases path
  {
    if |path| > 1 {
      PathParent(n.kids[path[0]], path[1..]);
      assert path[..|path| - 1][1..] == path[1..][..|path| - 2];
    }
  }

  /** Left context of a child. */
  lemma LeftOfKid<K>(n: Node<K>, path: seq<nat>, i: nat)
    requires ValidPath(n, path)
    requires var p := NodeAt(n, path); p.Internal? && Fits(p.keys, p.kids) && i < |p.kids|
    ensures ValidPath(n, path + [i]) && NodeAt(n, path + [i]) == NodeAt(n, path).kids[i]
    ensures Left(n, path + [i]) == Left(n, path) + Prefix(NodeAt(n, path).keys, NodeAt(n, path).kids, i)
  {
    SinglePath(NodeAt(n, path), i);
    PathConcat(n, path, [i]);
    LeftConcat(n, path, [i]);
  }

  lemma SinglePath<K>(p: Node<K>, i: nat)
    requires p.Internal? && Fits(p.keys, p.kids) && i < |p.kids|
    ensures ValidPath(p, [i]) && NodeAt(p, [i]) == p.kids[i] && Left(p, [i]) == Prefix(p.keys, p.kids, i)
  {
    var path: seq<nat> := [i];
    assert path[1..] == [] && path[0] == i;
    assert Left(p, path) == Prefix(p.keys, p.kids, i) + [];
  }
}
