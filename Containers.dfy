/** A persistent binary tree: the container every type expression is built from.
    A `Leaf` holds a value, a `Node` owns exactly two subtrees. Nothing is ever
    updated in place; every operation builds a new tree. */
module Containers {
  import opened Results

  datatype Tree<T> = Leaf(v: T) | Node(left: Tree<T>, right: Tree<T>)

  /** `tree(x1, ..., xn)`: the right-associated tree of its arguments; a single
      argument is returned as it is, without a wrapping node. */
  function Build<T>(xs: seq<Tree<T>>): Tree<T>
    requires |xs| >= 1
    decreases |xs|
  {
    if |xs| == 1 then xs[0] else Node(xs[0], Build(xs[1..]))
  }

  /** The values at the leaves, left to right. */
  function Leaves<T>(t: Tree<T>): (r: seq<T>)
    ensures |r| >= 1
  {
    match t
    case Leaf(x) => [x]
    case Node(l, r) => Leaves(l) + Leaves(r)
  }

  /** The right spine of a tree: the left children met while walking down the
      right edge, followed by the final right subtree, which is a leaf. */
  function Spine<T>(t: Tree<T>): (r: seq<Tree<T>>)
    ensures |r| >= 1 && r[|r| - 1].Leaf?
  {
    match t
    case Leaf(_) => [t]
    case Node(l, r) => [l] + Spine(r)
  }

  /** Both trees have a Node where the other has a Node and a Leaf where the
      other has a Leaf, at every position. */
  predicate SameShape<T, U>(a: Tree<T>, b: Tree<U>) {
    match (a, b)
    case (Leaf(_), Leaf(_)) => true
    case (Node(al, ar), Node(bl, br)) => SameShape(al, bl) && SameShape(ar, br)
    case _ => false
  }

  lemma {:induction false} SameShapeSymmetric<T, U>(a: Tree<T>, b: Tree<U>)
    requires SameShape(a, b)
    ensures SameShape(b, a)
  {
    match (a, b)
    case (Leaf(_), Leaf(_)) =>
    case (Node(al, ar), Node(bl, br)) => SameShapeSymmetric(al, bl); SameShapeSymmetric(ar, br);
  }

  lemma {:induction false} SameShapeTransitive<T, U, V>(a: Tree<T>, b: Tree<U>, c: Tree<V>)
    requires SameShape(a, b) && SameShape(b, c)
    ensures SameShape(a, c)
  {
    match (a, b, c)
    case (Leaf(_), Leaf(_), Leaf(_)) =>
    case (Node(al, ar), Node(bl, br), Node(cl, cr)) =>
      SameShapeTransitive(al, bl, cl);
      SameShapeTransitive(ar, br, cr);
  }

  function MapSeq<T, U>(f: T -> U, s: seq<T>): (r: seq<U>)
    ensures |r| == |s| && forall i :: 0 <= i < |s| ==> r[i] == f(s[i])
  {
    seq(|s|, i requires 0 <= i < |s| => f(s[i]))
  }

  /** The same tree with `f` applied at every leaf. */
  function Fmap<T, U>(f: T -> U, t: Tree<T>): (r: Tree<U>)
    ensures SameShape(t, r)
    ensures Leaves(r) == MapSeq(f, Leaves(t))
  {
    match t
    case Leaf(x) => Leaf(f(x))
    case Node(l, r) =>
      var fl, fr := Fmap(f, l), Fmap(f, r);
      assert MapSeq(f, Leaves(l) + Leaves(r)) == MapSeq(f, Leaves(l)) + MapSeq(f, Leaves(r));
      Node(fl, fr)
  }

  /** Bottom-up fold: a leaf is its own value (`f` is not consulted), a node
      combines the folds of its two children. */
  function Reduce<T>(f: (T, T) -> T, t: Tree<T>): T {
    match t
    case Leaf(x) => x
    case Node(l, r) => f(Reduce(f, l), Reduce(f, r))
  }

  /** Pairs two trees leaf by leaf; fails with ZipShapeMismatch as soon as a
      Leaf faces a Node, at any depth. */
  function Zip<T, U>(l: Tree<T>, r: Tree<U>): (z: Result<Tree<(T, U)>>)
    ensures z.Ok? <==> SameShape(l, r)
    ensures z.Err? ==> z.error == ZipShapeMismatch
    ensures z.Ok? ==> SameShape(l, z.value) && SameShape(z.value, r)
    ensures z.Ok? ==>
      && |Leaves(z.value)| == |Leaves(l)| == |Leaves(r)|
      && forall i :: 0 <= i < |Leaves(z.value)| ==> Leaves(z.value)[i] == (Leaves(l)[i], Leaves(r)[i])
  {
    match (l, r)
    case (Node(ll, lr), Node(rl, rr)) =>
      var zl :- Zip(ll, rl);
      var zr :- Zip(lr, rr);
      assert forall i :: 0 <= i < |Leaves(zl)| ==> Leaves(Node(zl, zr))[i] == Leaves(zl)[i];
      assert forall i :: |Leaves(zl)| <= i < |Leaves(zl)| + |Leaves(zr)| ==>
        Leaves(Node(zl, zr))[i] == Leaves(zr)[i - |Leaves(zl)|];
      Ok(Node(zl, zr))
    case (Leaf(x), Leaf(y)) => Ok(Leaf((x, y)))
    case _ => Err(ZipShapeMismatch)
  }

  // ---------------------------------------------------------------------------
  // Properties of `tree`

  /** Building from the right spine gives back the tree. */
  lemma {:induction false} BuildSpine<T>(t: Tree<T>)
    ensures Build(Spine(t)) == t
  {
    match t
    case Leaf(_) =>
    case Node(l, r) =>
      BuildSpine(r);
      assert Spine(t)[1..] == Spine(r);
  }

  /** Conversely, the right spine of a built tree is the argument list, provided
      the last argument is a leaf (a node there would be unfolded further). */
  lemma {:induction false} SpineBuild<T>(xs: seq<Tree<T>>)
    requires |xs| >= 1 && xs[|xs| - 1].Leaf?
    ensures Spine(Build(xs)) == xs
  {
    if |xs| > 1 {
      SpineBuild(xs[1..]);
      assert xs == [xs[0]] + xs[1..];
    }
  }

  /** The concatenated leaves of a list of trees. */
  function LeavesOfAll<T>(xs: seq<Tree<T>>): seq<T> {
    if |xs| == 0 then [] else Leaves(xs[0]) + LeavesOfAll(xs[1..])
  }

  /** `tree` keeps every leaf of its arguments, in their order. */
  lemma {:induction false} BuildLeaves<T>(xs: seq<Tree<T>>)
    requires |xs| >= 1
    ensures Leaves(Build(xs)) == LeavesOfAll(xs)
  {
    if |xs| == 1 {
      assert LeavesOfAll(xs[1..]) == [];
    } else {
      BuildLeaves(xs[1..]);
    }
  }

  /** Built from leaves only, `tree(x1, ..., xn)` has exactly the n leaves
      x1, ..., xn in that order. */
  lemma {:induction false} BuildOfLeaves<T>(xs: seq<Tree<T>>)
    requires |xs| >= 1
    requires forall i :: 0 <= i < |xs| ==> xs[i].Leaf?
    ensures |Leaves(Build(xs))| == |xs|
    ensures forall i :: 0 <= i < |xs| ==> Leaves(Build(xs))[i] == xs[i].v
  {
    BuildLeaves(xs);
    LeavesOfLeaves(xs);
  }

  lemma {:induction false} LeavesOfLeaves<T>(xs: seq<Tree<T>>)
    requires forall i :: 0 <= i < |xs| ==> xs[i].Leaf?
    ensures |LeavesOfAll(xs)| == |xs|
    ensures forall i :: 0 <= i < |xs| ==> LeavesOfAll(xs)[i] == xs[i].v
  {
    if |xs| > 0 {
      LeavesOfLeaves(xs[1..]);
    }
  }

  /** A single argument is returned as it is, whatever it is. */
  lemma BuildSingle<T>(t: Tree<T>)
    ensures Build([t]) == t
  {
  }

  lemma BuildExample()
    ensures Build([Leaf(1), Leaf(2), Leaf(3)]) == Node(Leaf(1), Node(Leaf(2), Leaf(3)))
    ensures Build([Leaf(7)]) == Leaf(7)
  {
  }

  // ---------------------------------------------------------------------------
  // Functor laws of `fmap`

  lemma {:induction false} FmapIdentity<T>(t: Tree<T>)
    ensures Fmap(x => x, t) == t
  {
    match t
    case Leaf(_) =>
    case Node(l, r) => FmapIdentity(l); FmapIdentity(r);
  }

  lemma {:induction false} FmapCompose<T, U, V>(f: T -> U, g: U -> V, t: Tree<T>)
    ensures Fmap(x => g(f(x)), t) == Fmap(g, Fmap(f, t))
  {
    match t
    case Leaf(_) =>
    case Node(l, r) => FmapCompose(f, g, l); FmapCompose(f, g, r);
  }

  lemma FmapExample()
    ensures Fmap(x => x + 1, Build([Leaf(1), Leaf(2), Leaf(3)])) == Build([Leaf(2), Leaf(3), Leaf(4)])
  {
  }

  // ---------------------------------------------------------------------------
  // `reduce`

  /** A leaf reduces to its own value whatever the combining function. */
  lemma ReduceLeaf<T>(f: (T, T) -> T, g: (T, T) -> T, x: T)
    ensures Reduce(f, Leaf(x)) == Reduce(g, Leaf(x)) == x
  {
  }

  function Sum(s: seq<int>): int {
    if |s| == 0 then 0 else s[0] + Sum(s[1..])
  }

  lemma {:induction false} SumAppend(a: seq<int>, b: seq<int>)
    ensures Sum(a + b) == Sum(a) + Sum(b)
  {
    if |a| == 0 {
      assert a + b == b;
    } else {
      SumAppend(a[1..], b);
      assert (a + b)[1..] == a[1..] + b;
    }
  }

  /** Reducing with addition sums the leaves, whatever the tree's shape. */
  lemma {:induction false} ReduceAddIsSum(t: Tree<int>)
    ensures Reduce((x, y) => x + y, t) == Sum(Leaves(t))
  {
    match t
    case Leaf(_) =>
    case Node(l, r) =>
      ReduceAddIsSum(l);
      ReduceAddIsSum(r);
      SumAppend(Leaves(l), Leaves(r));
  }

  lemma ReduceExample()
    ensures Reduce((x, y) => x + y, Build([Leaf(1), Leaf(2), Leaf(3)])) == 6
  {
  }

  // ---------------------------------------------------------------------------
  // `zip`

  /** Projecting the first components of a zip gives back the left tree. */
  lemma {:induction false} ZipFirst<T, U>(l: Tree<T>, r: Tree<U>)
    requires SameShape(l, r)
    ensures Fmap((p: (T, U)) => p.0, Zip(l, r).value) == l
  {
    match (l, r)
    case (Leaf(_), Leaf(_)) =>
    case (Node(ll, lr), Node(rl, rr)) => ZipFirst(ll, rl); ZipFirst(lr, rr);
  }

  /** Projecting the second components of a zip gives back the right tree. */
  lemma {:induction false} ZipSecond<T, U>(l: Tree<T>, r: Tree<U>)
    requires SameShape(l, r)
    ensures Fmap((p: (T, U)) => p.1, Zip(l, r).value) == r
  {
    match (l, r)
    case (Leaf(_), Leaf(_)) =>
    case (Node(ll, lr), Node(rl, rr)) => ZipSecond(ll, rl); ZipSecond(lr, rr);
  }

  /** Zipping a tree with itself pairs every leaf with itself. */
  lemma {:induction false} ZipSelf<T>(t: Tree<T>)
    ensures Zip(t, t) == Ok(Fmap(x => (x, x), t))
  {
    match t
    case Leaf(_) =>
    case Node(l, r) => ZipSelf(l); ZipSelf(r);
  }

  lemma ZipExample()
    ensures Zip(Build([Leaf(1), Leaf(2), Leaf(3)]), Build([Leaf("a"), Leaf("b"), Leaf("c")]))
         == Ok(Build([Leaf((1, "a")), Leaf((2, "b")), Leaf((3, "c"))]))
    ensures Zip(Leaf(1), Node(Leaf(2), Leaf(3))) == Err(ZipShapeMismatch)
  {
  }
}
