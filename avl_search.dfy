/**
 * The read-only descents of the AVL tree: the recursive `find` and the
 * leftmost/rightmost walks behind `getMin` and `getMax`.
 */
module AvlSearch {
  import opened AvlTree

  /** find: descend by comparison until a vertex holding `target` or an absent
      child is reached; `Nil` stands for the null result. */
  function FindAt(t: Tree, target: int): (r: Tree)
    ensures r.Node? ==> r.data == target && target in Inorder(t)
  {
    match t
    case Nil => Nil
    case Node(d, _, l, rt) =>
      if target == d then t
      else if target < d then FindAt(l, target)
      else FindAt(rt, target)
  }

  /** In a tree in binary-search order the descent misses a value only when it
      is not stored anywhere. */
  lemma {:induction false} FindCompleteOnOrdered(t: Tree, target: int)
    requires Ordered(t)
    ensures FindAt(t, target).Node? <==> target in Inorder(t)
  {
    match t
    case Nil =>
    case Node(d, _, l, rt) =>
      if target < d {
        FindCompleteOnOrdered(l, target);
        assert target !in Inorder(rt);
      } else if target > d {
        FindCompleteOnOrdered(rt, target);
        assert target !in Inorder(l);
      }
  }

  /** The leftmost vertex: it has no left child and holds the first value in
      in-order sequence. */
  function Leftmost(t: Tree): (v: Tree)
    ensures v.Nil? <==> t.Nil?
    ensures v.Node? ==> v.left.Nil? && v.data == Inorder(t)[0]
  {
    match t
    case Nil => Nil
    case Node(_, _, l, _) => if l.Nil? then t else Leftmost(l)
  }

  /** The rightmost vertex: it has no right child and holds the last value in
      in-order sequence. */
  function Rightmost(t: Tree): (v: Tree)
    ensures v.Nil? <==> t.Nil?
    ensures v.Node? ==> v.right.Nil? && v.data == Inorder(t)[|Inorder(t)| - 1]
  {
    match t
    case Nil => Nil
    case Node(_, _, _, r) => if r.Nil? then t else Rightmost(r)
  }

  /** getMin(const Vertex*): walk left while a left child exists; null for an
      empty subtree. */
  method GetMinVertex(t: Tree) returns (v: Tree)
    ensures v == Leftmost(t)
  {
    if t.Nil? {
      return t;
    }
    v := t;
    while v.left.Node?
      invariant v.Node? && Leftmost(v) == Leftmost(t)
      decreases v
    {
      v := v.left;
    }
  }

  /** getMax(const Vertex*): walk right while a right child exists; null for an
      empty subtree. */
  method GetMaxVertex(t: Tree) returns (v: Tree)
    ensures v == Rightmost(t)
  {
    if t.Nil? {
      return t;
    }
    v := t;
    while v.right.Node?
      invariant v.Node? && Rightmost(v) == Rightmost(t)
      decreases v
    {
      v := v.right;
    }
  }

  /** In binary-search order the leftmost vertex holds the smallest value. */
  lemma LeftmostIsSmallest(t: Tree)
    requires Ordered(t) && t.Node?
    ensures forall x :: x in Inorder(t) ==> Leftmost(t).data <= x
  {
    OrderedIffSorted(t);
    var s := Inorder(t);
    forall x | x in s ensures s[0] <= x {
      var i :| 0 <= i < |s| && s[i] == x;
    }
  }

  /** In binary-search order the rightmost vertex holds the largest value. */
  lemma RightmostIsLargest(t: Tree)
    requires Ordered(t) && t.Node?
    ensures forall x :: x in Inorder(t) ==> x <= Rightmost(t).data
  {
    OrderedIffSorted(t);
    var s := Inorder(t);
    forall x | x in s ensures x <= s[|s| - 1] {
      var i :| 0 <= i < |s| && s[i] == x;
    }
  }
}
