/**
 * The vertices of the AVL tree (element type `int`) and the three properties
 * the container keeps about them: binary-search order, correct stored heights
 * and the AVL balance bound.
 *
 * The source links vertices through raw pointers, but no vertex is ever
 * reachable from two places, and every structural change touches only links
 * and fields inside the subtree hanging from one child slot. A subtree is
 * therefore modelled as a value.
 */
module AvlTree {

  /** A vertex with its payload, its stored height and the two children it owns;
      `Nil` is an absent child. A stored height is never negative: a vertex is
      created with height 0 and every later update stores 1 + the larger child
      height, which is at least 0. */
  datatype Tree = Nil | Node(data: int, height: nat, left: Tree, right: Tree)

  /** A freshly created vertex: height 0, no children. */
  function Leaf(x: int): (t: Tree)
    ensures Inorder(t) == [x] && Height(t) == 0
    ensures Avl(t) && Ordered(t)
  {
    Node(x, 0, Nil, Nil)
  }

  /** The larger of two heights. */
  function Max(a: int, b: int): (m: int)
    ensures m >= a && m >= b
    ensures m == a || m == b
  {
    if a > b then a else b
  }

  /** The height stored in a vertex, -1 for an absent one. */
  function Height(t: Tree): (h: int)
    ensures h >= -1
    ensures h == -1 <==> t.Nil?
  {
    if t.Nil? then -1 else t.height
  }

  /** The height of a subtree computed from its shape alone: the number of
      edges on its longest downward path, -1 when empty. */
  function Depth(t: Tree): int {
    match t
    case Nil => -1
    case Node(_, _, l, r) => 1 + Max(Depth(l), Depth(r))
  }

  /** Every vertex stores 1 + the larger height of its children. */
  ghost predicate HeightsOk(t: Tree) {
    match t
    case Nil => true
    case Node(_, h, l, r) => h == 1 + Max(Height(l), Height(r)) && HeightsOk(l) && HeightsOk(r)
  }

  /** At every vertex the children's heights differ by at most one. */
  ghost predicate HeightBalanced(t: Tree) {
    match t
    case Nil => true
    case Node(_, _, l, r) =>
      -1 <= Height(l) - Height(r) <= 1 && HeightBalanced(l) && HeightBalanced(r)
  }

  /** Correct heights and the AVL bound together. */
  ghost predicate Avl(t: Tree) {
    HeightsOk(t) && HeightBalanced(t)
  }

  /** The payloads in left-vertex-right order. */
  function Inorder(t: Tree): seq<int> {
    match t
    case Nil => []
    case Node(d, _, l, r) => Inorder(l) + [d] + Inorder(r)
  }

  ghost predicate Sorted(s: seq<int>) {
    forall i, j :: 0 <= i < j < |s| ==> s[i] <= s[j]
  }

  /** Binary-search order, vertex by vertex: nothing in the left subtree is
      larger than the vertex, nothing in the right subtree is smaller. The
      bounds are not strict, since equal values may be stored and rotations
      can move an equal value to either side. */
  ghost predicate Ordered(t: Tree) {
    match t
    case Nil => true
    case Node(d, _, l, r) =>
      && Ordered(l)
      && Ordered(r)
      && (forall x :: x in Inorder(l) ==> x <= d)
      && (forall x :: x in Inorder(r) ==> d <= x)
  }

  /** Where all heights are correct, the stored height of the root is the
      height of the subtree's shape. */
  lemma {:induction false} StoredHeightIsDepth(t: Tree)
    ensures HeightsOk(t) ==> Height(t) == Depth(t)
  {
    match t
    case Nil =>
    case Node(_, _, l, r) =>
      StoredHeightIsDepth(l);
      StoredHeightIsDepth(r);
  }

  /** The parts of a sorted sequence split around one element are sorted,
      and the element lies between them. */
  lemma SortedSplitParts(a: seq<int>, d: int, b: seq<int>)
    requires Sorted(a + [d] + b)
    ensures Sorted(a) && Sorted(b)
    ensures forall x :: x in a ==> x <= d
    ensures forall x :: x in b ==> d <= x
  {
    var s := a + [d] + b;
    assert forall i :: 0 <= i < |a| ==> s[i] == a[i];
    assert forall i :: 0 <= i < |b| ==> s[|a| + 1 + i] == b[i];
    forall i, j | 0 <= i < j < |b| ensures b[i] <= b[j] {
      assert s[|a| + 1 + i] <= s[|a| + 1 + j];
    }
    forall x | x in a ensures x <= d {
      var i :| 0 <= i < |a| && a[i] == x;
      assert s[i] <= s[|a|];
    }
    forall x | x in b ensures d <= x {
      var i :| 0 <= i < |b| && b[i] == x;
      assert s[|a|] <= s[|a| + 1 + i];
    }
  }

  /** Two sorted sequences joined by an element lying between them form a
      sorted sequence. */
  lemma SortedJoin(a: seq<int>, d: int, b: seq<int>)
    requires Sorted(a) && Sorted(b)
    requires forall x :: x in a ==> x <= d
    requires forall x :: x in b ==> d <= x
    ensures Sorted(a + [d] + b)
  {
    var s := a + [d] + b;
    forall i, j | 0 <= i < j < |s| ensures s[i] <= s[j] {
      if j < |a| {
        assert s[i] == a[i] && s[j] == a[j];
      } else if i < |a| {
        assert s[i] == a[i] && a[i] in a;
        if j > |a| {
          assert s[j] == b[j - |a| - 1] && b[j - |a| - 1] in b;
        }
      } else if i == |a| {
        assert s[j] == b[j - |a| - 1] && b[j - |a| - 1] in b;
      } else {
        assert s[i] == b[i - |a| - 1] && s[j] == b[j - |a| - 1];
      }
    }
  }

  /** Binary-search order holds exactly when the in-order sequence is
      non-decreasing. */
  lemma {:induction false} OrderedIffSorted(t: Tree)
    ensures Ordered(t) <==> Sorted(Inorder(t))
  {
    match t
    case Nil =>
    case Node(d, _, l, r) =>
      OrderedIffSorted(l);
      OrderedIffSorted(r);
      if Sorted(Inorder(t)) {
        SortedSplitParts(Inorder(l), d, Inorder(r));
      }
      if Ordered(t) {
        SortedJoin(Inorder(l), d, Inorder(r));
      }
  }

  /** Dropping the first element of a sorted sequence leaves a sorted one. */
  lemma SortedTail(s: seq<int>)
    requires Sorted(s) && s != []
    ensures Sorted(s[1..])
  {
    forall i, j | 0 <= i < j < |s| - 1 ensures s[1..][i] <= s[1..][j] {
      assert s[1..][i] == s[i + 1] && s[1..][j] == s[j + 1];
    }
  }

  /** The first element of a sorted sequence is at most any of its elements. */
  lemma SortedHeadBelow(s: seq<int>, y: int)
    requires Sorted(s) && y in s
    ensures s[0] <= y
  {
    var i :| 0 <= i < |s| && s[i] == y;
  }

  /** A non-empty sequence holds its first element and the rest. */
  lemma HeadAndTail(xs: seq<int>)
    requires xs != []
    ensures xs == [xs[0]] + xs[1..]
    ensures multiset(xs) == multiset{xs[0]} + multiset(xs[1..])
  {
    assert xs == [xs[0]] + xs[1..];
  }

  /** Two sequences with the same multiset and the same first element have
      tails with the same multiset. */
  lemma SameHeadSameTails(s: seq<int>, u: seq<int>)
    requires s != [] && u != [] && s[0] == u[0]
    requires multiset(s) == multiset(u)
    ensures s == [s[0]] + s[1..] && u == [u[0]] + u[1..]
    ensures multiset(s[1..]) == multiset(u[1..])
  {
    HeadAndTail(s);
    HeadAndTail(u);
    assert multiset(s[1..]) == multiset(s) - multiset{s[0]};
  }

  /** A sorted sequence is determined by its multiset: two sorted sequences
      holding the same values, with the same multiplicities, are equal. */
  lemma {:induction false} SortedUnique(s: seq<int>, u: seq<int>)
    requires Sorted(s) && Sorted(u)
    requires multiset(s) == multiset(u)
    ensures s == u
    decreases |s|
  {
    assert |s| == |multiset(s)| == |multiset(u)| == |u|;
    if s != [] {
      assert s[0] in multiset(u) && u[0] in multiset(s);
      SortedHeadBelow(u, s[0]);
      SortedHeadBelow(s, u[0]);
      assert s[0] == u[0];
      SameHeadSameTails(s, u);
      SortedTail(s);
      SortedTail(u);
      SortedUnique(s[1..], u[1..]);
    }
  }

  /** Two ordered trees storing the same multiset of values have the same
      in-order sequence, however differently they are shaped. */
  lemma OrderedSameContentsSameInorder(t: Tree, u: Tree)
    requires Ordered(t) && Ordered(u)
    requires multiset(Inorder(t)) == multiset(Inorder(u))
    ensures Inorder(t) == Inorder(u)
  {
    OrderedIffSorted(t);
    OrderedIffSorted(u);
    SortedUnique(Inorder(t), Inorder(u));
  }

  function Pow2(n: nat): nat {
    if n == 0 then 1 else 2 * Pow2(n - 1)
  }

  lemma {:induction false} Pow2Monotone(a: nat, b: nat)
    requires a <= b
    ensures Pow2(a) <= Pow2(b)
  {
    if a < b {
      Pow2Monotone(a, b - 1);
    }
  }

  /** An AVL tree of height h holds at least 2^((h + 1) / 2) - 1 values, so
      its height grows only logarithmically with its size and the recursive
      operations descend only that deep. */
  lemma {:induction false} AvlSizeBound(t: Tree)
    requires Avl(t)
    ensures Pow2((Height(t) + 1) / 2) <= |Inorder(t)| + 1
  {
    match t
    case Nil =>
    case Node(_, h, l, r) =>
      AvlSizeBound(l);
      AvlSizeBound(r);
      if h >= 1 {
        var k := (h - 1) / 2;
        assert (Height(l) + 1) / 2 >= k && (Height(r) + 1) / 2 >= k;
        Pow2Monotone(k, (Height(l) + 1) / 2);
        Pow2Monotone(k, (Height(r) + 1) / 2);
        assert (h + 1) / 2 == k + 1;
        assert Pow2(k + 1) == 2 * Pow2(k);
        assert |Inorder(t)| == |Inorder(l)| + |Inorder(r)| + 1;
      }
  }
}
