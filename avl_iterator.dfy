/**
 * The in-order iterator of the AVL tree: a cursor on a subtree still to be
 * visited and a stack of vertices whose left part is being visited.
 */
module AvlIterator {
  import opened AvlTree

  /** The values a stack of pending vertices still contributes, top first:
      each vertex itself, then everything in its right subtree. The top of the
      stack is the last element of the sequence. */
  function Pending(stack: seq<Tree>): seq<int> {
    if |stack| == 0 then []
    else
      var top := stack[|stack| - 1];
      (if top.Node? then [top.data] + Inorder(top.right) else []) + Pending(stack[..|stack| - 1])
  }

  class Iterator {
    /** The stack `parents`; its top is the last element. */
    var parents: seq<Tree>
    var current: Tree

    /** Only vertices are ever pushed. */
    ghost predicate Valid()
      reads this
    {
      forall i :: 0 <= i < |parents| ==> parents[i].Node?
    }

    /** The values still to be produced, in order. */
    ghost function Remaining(): seq<int>
      reads this
    {
      Inorder(current) + Pending(parents)
    }

    /** Iterator(begin) and, with `Nil`, Iterator(): the cursor starts at
        `begin` with an empty stack. */
    constructor (begin: Tree)
      ensures current == begin && parents == []
      ensures Valid() && Remaining() == Inorder(begin)
    {
      current := begin;
      parents := [];
    }

    /** hasNext: a cursor on a vertex or a non-empty stack. Exactly then
        something is left to produce. */
    predicate HasNext()
      reads this
      ensures Valid() ==> (HasNext() <==> Remaining() != [])
    {
      current.Node? || |parents| > 0
    }

    /** next: push the cursor and go left until the cursor is absent, pop the
        top vertex, move the cursor to its right child and produce its value.
        The value produced is the first of those remaining. The source pops
        an empty stack when nothing is left, so `HasNext()` is required. */
    method Next() returns (v: int)
      requires Valid() && HasNext()
      modifies this
      ensures Valid()
      ensures old(Remaining()) == [v] + Remaining()
    {
      while current.Node?
        invariant Valid()
        invariant current.Node? || |parents| > 0
        invariant Remaining() == old(Remaining())
        decreases current
      {
        var c := current;
        assert Pending(parents + [c]) == [c.data] + Inorder(c.right) + Pending(parents);
        parents := parents + [c];
        current := c.left;
      }
      var top := parents[|parents| - 1];
      parents := parents[..|parents| - 1];
      current := top.right;
      v := top.data;
    }

    /** operator=: only the cursor is copied; this iterator keeps its own
        stack (self-assignment changes nothing). */
    method Assign(src: Iterator)
      modifies this
      ensures current == old(src.current) && parents == old(parents)
    {
      if src != this {
        current := src.current;
      }
    }
  }

  /** The enumeration loop of the copy constructor: starting from a fresh
      iterator on `t`, call `Next` while `HasNext` holds. It produces exactly
      the in-order sequence of `t`. */
  method Enumerate(t: Tree) returns (out: seq<int>)
    ensures out == Inorder(t)
  {
    var it := new Iterator(t);
    out := [];
    while it.HasNext()
      invariant it.Valid()
      invariant out + it.Remaining() == Inorder(t)
      decreases |it.Remaining()|
    {
      var v := it.Next();
      out := out + [v];
    }
  }
}
