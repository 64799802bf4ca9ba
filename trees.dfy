/** Ordered trees with a payload per node: the shape shared by BuildingJoint, Joint and Bone.

    A pointer to a node is modelled by its path: the child indices followed from the root. */
module Trees {

  datatype Tree<D> = Node(data: D, children: seq<Tree<D>>)

  type Path = seq<nat>

  /** Number of nodes in a tree. */
  function Size<D>(t: Tree<D>): nat
    decreases t
  {
    1 + SizeOfAll(t.children)
  }

  /** Number of nodes in a forest. */
  function SizeOfAll<D>(ts: seq<Tree<D>>): nat
    decreases ts
  {
    if ts == [] then 0 else SizeOfAll(ts[..|ts| - 1]) + Size(ts[|ts| - 1])
  }

  /** The payloads in pre-order: the node first, then each child's subtree in child order. */
  function PreOrder<D>(t: Tree<D>): seq<D>
    decreases t
  {
    [t.data] + PreOrderAll(t.children)
  }

  function PreOrderAll<D>(ts: seq<Tree<D>>): seq<D>
    decreases ts
  {
    if ts == [] then [] else PreOrderAll(ts[..|ts| - 1]) + PreOrder(ts[|ts| - 1])
  }

  lemma {:induction false} PreOrderSize<D>(t: Tree<D>)
    ensures |PreOrder(t)| == Size(t)
    decreases t
  {
    PreOrderAllSize(t.children);
  }

  lemma {:induction false} PreOrderAllSize<D>(ts: seq<Tree<D>>)
    ensures |PreOrderAll(ts)| == SizeOfAll(ts)
    decreases ts
  {
    if ts != [] {
      PreOrderAllSize(ts[..|ts| - 1]);
      PreOrderSize(ts[|ts| - 1]);
    }
  }

  lemma {:induction false} SizeOfAllAppend<D>(a: seq<Tree<D>>, b: seq<Tree<D>>)
    ensures SizeOfAll(a + b) == SizeOfAll(a) + SizeOfAll(b)
    decreases |b|
  {
    if b == [] {
      assert a + b == a;
    } else {
      assert (a + b)[..|a + b| - 1] == a + b[..|b| - 1];
      SizeOfAllAppend(a, b[..|b| - 1]);
    }
  }

  /** A path names a node of the tree. */
  predicate ValidPath<D>(t: Tree<D>, p: Path)
    decreases |p|
  {
    p == [] || (p[0] < |t.children| && ValidPath(t.children[p[0]], p[1..]))
  }

  /** The node a path leads to. */
  function NodeAt<D>(t: Tree<D>, p: Path): Tree<D>
    requires ValidPath(t, p)
    decreases |p|
  {
    if p == [] then t else NodeAt(t.children[p[0]], p[1..])
  }

  /** The tree with the node at `p` replaced by `n`. */
  function ReplaceAt<D>(t: Tree<D>, p: Path, n: Tree<D>): Tree<D>
    requires ValidPath(t, p)
    decreases |p|
  {
    if p == [] then n
    else t.(children := t.children[p[0] := ReplaceAt(t.children[p[0]], p[1..], n)])
  }

  /** The sequence without its element at `i`; later elements move down by one. */
  function RemoveAt<T>(s: seq<T>, i: nat): (r: seq<T>)
    requires i < |s|
    ensures |r| == |s| - 1
    ensures forall k :: 0 <= k < i ==> r[k] == s[k]
    ensures forall k :: i <= k < |r| ==> r[k] == s[k + 1]
  {
    s[..i] + s[i + 1..]
  }

  /** Replacing a node leaves the path valid and puts the new node there. */
  lemma {:induction false} ReplaceAtNodeAt<D>(t: Tree<D>, p: Path, n: Tree<D>)
    requires ValidPath(t, p)
    ensures ValidPath(ReplaceAt(t, p, n), p) && NodeAt(ReplaceAt(t, p, n), p) == n
    decreases |p|
  {
    if p != [] {
      ReplaceAtNodeAt(t.children[p[0]], p[1..], n);
    }
  }

  lemma {:induction false} SizeOfAllUpdate<D>(ts: seq<Tree<D>>, i: nat, c: Tree<D>)
    requires i < |ts|
    ensures SizeOfAll(ts[i := c]) + Size(ts[i]) == SizeOfAll(ts) + Size(c)
  {
    var us := ts[i := c];
    assert ts == ts[..i] + [ts[i]] + ts[i + 1..];
    assert us == ts[..i] + [c] + ts[i + 1..];
    SizeOfAllAppend(ts[..i] + [ts[i]], ts[i + 1..]);
    SizeOfAllAppend(ts[..i], [ts[i]]);
    SizeOfAllAppend(ts[..i] + [c], ts[i + 1..]);
    SizeOfAllAppend(ts[..i], [c]);
    assert SizeOfAll([ts[i]]) == Size(ts[i]) by { assert [ts[i]][..0] == []; }
    assert SizeOfAll([c]) == Size(c) by { assert [c][..0] == []; }
  }

  /** Replacing a subtree changes the node count by the difference of the two subtrees' sizes. */
  lemma {:induction false} SizeReplaceAt<D>(t: Tree<D>, p: Path, n: Tree<D>)
    requires ValidPath(t, p)
    ensures Size(ReplaceAt(t, p, n)) + Size(NodeAt(t, p)) == Size(t) + Size(n)
    decreases |p|
  {
    if p != [] {
      var i := p[0];
      SizeReplaceAt(t.children[i], p[1..], n);
      SizeOfAllUpdate(t.children, i, ReplaceAt(t.children[i], p[1..], n));
    }
  }

  /** Removing one child removes exactly that child's subtree from the node count. */
  lemma {:induction false} SizeOfAllRemoveAt<D>(ts: seq<Tree<D>>, i: nat)
    requires i < |ts|
    ensures SizeOfAll(RemoveAt(ts, i)) + Size(ts[i]) == SizeOfAll(ts)
  {
    assert ts == ts[..i] + [ts[i]] + ts[i + 1..];
    assert RemoveAt(ts, i) == ts[..i] + ts[i + 1..];
    SizeOfAllAppend(ts[..i] + [ts[i]], ts[i + 1..]);
    SizeOfAllAppend(ts[..i], [ts[i]]);
    SizeOfAllAppend(ts[..i], ts[i + 1..]);
    assert SizeOfAll([ts[i]]) == Size(ts[i]) by { assert [ts[i]][..0] == []; }
  }

  /** Two trees have the same shape: the same number of children everywhere. */
  predicate SameShape<A, B>(a: Tree<A>, b: Tree<B>)
    decreases a
  {
    |a.children| == |b.children| &&
    forall i :: 0 <= i < |a.children| ==> SameShape(a.children[i], b.children[i])
  }

  lemma {:induction false} SameShapeSymmetric<A, B>(a: Tree<A>, b: Tree<B>)
    requires SameShape(a, b)
    ensures SameShape(b, a)
    decreases a
  {
    forall i | 0 <= i < |b.children| ensures SameShape(b.children[i], a.children[i]) {
      SameShapeSymmetric(a.children[i], b.children[i]);
    }
  }

  lemma {:induction false} SameShapeTransitive<A, B, C>(a: Tree<A>, b: Tree<B>, c: Tree<C>)
    requires SameShape(a, b) && SameShape(b, c)
    ensures SameShape(a, c)
    decreases a
  {
    forall i | 0 <= i < |a.children| ensures SameShape(a.children[i], c.children[i]) {
      SameShapeTransitive(a.children[i], b.children[i], c.children[i]);
    }
  }

  /** Same-shaped trees have the same paths. */
  lemma {:induction false} SameShapePaths<A, B>(a: Tree<A>, b: Tree<B>, p: Path)
    requires SameShape(a, b)
    ensures ValidPath(a, p) <==> ValidPath(b, p)
    decreases |p|
  {
    if p != [] && p[0] < |a.children| {
      SameShapePaths(a.children[p[0]], b.children[p[0]], p[1..]);
    }
  }

  /** Rewriting the payload of one node keeps the shape. */
  lemma {:induction false} ReplaceDataKeepsShape<D>(t: Tree<D>, p: Path, d: D)
    requires ValidPath(t, p)
    ensures SameShape(t, ReplaceAt(t, p, NodeAt(t, p).(data := d)))
    decreases |p|
  {
    if p == [] {
      SameShapeRefl(t.children);
    } else {
      ReplaceDataKeepsShape(t.children[p[0]], p[1..], d);
      var r := ReplaceAt(t, p, NodeAt(t, p).(data := d));
      forall i | 0 <= i < |t.children| ensures SameShape(t.children[i], r.children[i]) {
        if i != p[0] {
          SameShapeRefl(t.children[i].children);
        }
      }
    }
  }

  lemma {:induction false} SameShapeRefl<D>(ts: seq<Tree<D>>)
    ensures forall i :: 0 <= i < |ts| ==> SameShape(ts[i], ts[i])
    decreases ts
  {
    forall i | 0 <= i < |ts| ensures SameShape(ts[i], ts[i]) {
      SameShapeRefl(ts[i].children);
    }
  }
}
