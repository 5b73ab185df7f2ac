/**
 * Worked runs of the AVL tree, stated for arbitrary values in a given order:
 * the small rotation examples, a removal of a vertex with two children, the
 * inputs that expose the double-rotation dispatch of `balance` as written,
 * and the counter that `clear` leaves behind.
 */
module AvlScenarios {
  import opened AvlTree
  import opened AvlBalance
  import opened AvlSearch
  import opened AvlUpdate
  import opened AvlContainer

  /** The balanced tree of height one on three values. */
  function Triple(a: int, b: int, c: int): (t: Tree)
    ensures Inorder(t) == [a, b, c]
    ensures Avl(t)
    ensures a <= b <= c ==> Ordered(t)
  {
    Node(b, 1, Leaf(a), Leaf(c))
  }

  lemma InsertIntoEmpty(x: int)
    ensures InsertAt(x, Nil) == Leaf(x)
  {
  }

  /** A second value goes below the first, to the right only when larger. */
  lemma InsertIntoLeaf(x: int, y: int)
    ensures y > x ==> InsertAt(y, Leaf(x)) == Node(x, 1, Nil, Leaf(y))
    ensures y <= x ==> InsertAt(y, Leaf(x)) == Node(x, 1, Leaf(y), Nil)
  {
    InsertIntoEmpty(y);
  }

  /** Three increasing values inserted in increasing order: the root becomes
      right-heavy with a right-leaning child, and one left rotation gives the
      balanced tree. */
  lemma AscendingInsertRotatesLeft(a: int, b: int, c: int)
    requires a < b < c
    ensures InsertAt(c, InsertAt(b, InsertAt(a, Nil))) == Triple(a, b, c)
  {
    InsertIntoEmpty(a);
    InsertIntoLeaf(a, b);
    InsertIntoLeaf(b, c);
    var p := Node(a, 2, Nil, Node(b, 1, Nil, Leaf(c)));
    assert UpdateHeight(Node(a, 1, Nil, Node(b, 1, Nil, Leaf(c)))) == p;
    assert Weight(p) == RightHeavy && Lean(p.right) == RightHeavy;
    assert RotateLeft(p) == UpdateHeight(Node(b, 1, UpdateHeight(Node(a, 2, Nil, Nil)), Leaf(c)));
  }

  /** Three increasing values inserted in decreasing order: one right
      rotation gives the same balanced tree. */
  lemma DescendingInsertRotatesRight(a: int, b: int, c: int)
    requires a < b < c
    ensures InsertAt(a, InsertAt(b, InsertAt(c, Nil))) == Triple(a, b, c)
  {
    InsertIntoEmpty(c);
    InsertIntoLeaf(c, b);
    InsertIntoLeaf(b, a);
    var p := Node(c, 2, Node(b, 1, Leaf(a), Nil), Nil);
    assert UpdateHeight(Node(c, 1, Node(b, 1, Leaf(a), Nil), Nil)) == p;
    assert Weight(p) == LeftHeavy && Lean(p.left) == LeftHeavy;
    assert RotateRight(p) == UpdateHeight(Node(b, 1, Leaf(a), UpdateHeight(Node(c, 2, Nil, Nil))));
  }

  /** The full tree of height two on seven values. */
  function Perfect(a: int, b: int, c: int, d: int, e: int, f: int, g: int): (t: Tree)
    ensures Inorder(t) == [a, b, c, d, e, f, g]
    ensures Avl(t)
  {
    var t := Node(d, 2, Node(b, 1, Leaf(a), Leaf(c)), Node(f, 1, Leaf(e), Leaf(g)));
    assert Avl(t.left) && Avl(t.right);
    t
  }

  /** Seven increasing values a < ... < g inserted as d, b, f, a, c, e, g:
      the first three insertions give the balanced tree on d, b, f. */
  lemma InsertMiddlesFirst(b: int, d: int, f: int)
    requires b < d < f
    ensures InsertAt(f, InsertAt(b, InsertAt(d, Nil))) == Node(d, 1, Leaf(b), Leaf(f))
  {
    InsertIntoEmpty(d);
    InsertIntoLeaf(d, b);
    InsertIntoEmpty(f);
    assert UpdateHeight(Node(d, 1, Leaf(b), Leaf(f))) == Node(d, 1, Leaf(b), Leaf(f));
  }

  /** The fourth insertion of that order: the smallest value. */
  lemma InsertFourth(a: int, b: int, d: int, f: int)
    requires a < b < d < f
    ensures InsertAt(a, Node(d, 1, Leaf(b), Leaf(f))) == Node(d, 2, Node(b, 1, Leaf(a), Nil), Leaf(f))
  {
    InsertIntoLeaf(b, a);
    var t4 := Node(d, 2, Node(b, 1, Leaf(a), Nil), Leaf(f));
    assert UpdateHeight(Node(d, 1, Node(b, 1, Leaf(a), Nil), Leaf(f))) == t4;
  }

  /** The fifth insertion: the value between the left middle and the root. */
  lemma InsertFifth(a: int, b: int, c: int, d: int, f: int)
    requires a < b < c < d < f
    ensures InsertAt(c, Node(d, 2, Node(b, 1, Leaf(a), Nil), Leaf(f))) ==
      Node(d, 2, Node(b, 1, Leaf(a), Leaf(c)), Leaf(f))
  {
    InsertIntoEmpty(c);
    var l := Node(b, 1, Leaf(a), Leaf(c));
    assert InsertAt(c, Node(b, 1, Leaf(a), Nil)) == l by {
      assert UpdateHeight(l) == l;
    }
    var t5 := Node(d, 2, l, Leaf(f));
    assert UpdateHeight(t5) == t5;
  }

  /** The sixth insertion: the value between the root and the right middle. */
  lemma InsertSixth(a: int, b: int, c: int, d: int, e: int, f: int)
    requires a < b < c < d < e < f
    ensures InsertAt(e, Node(d, 2, Node(b, 1, Leaf(a), Leaf(c)), Leaf(f))) ==
      Node(d, 2, Node(b, 1, Leaf(a), Leaf(c)), Node(f, 1, Leaf(e), Nil))
  {
    InsertIntoLeaf(f, e);
    var t6 := Node(d, 2, Node(b, 1, Leaf(a), Leaf(c)), Node(f, 1, Leaf(e), Nil));
    assert UpdateHeight(t6) == t6;
  }

  /** The last insertion: the largest value completes the full tree. */
  lemma InsertSeventh(a: int, b: int, c: int, d: int, e: int, f: int, g: int)
    requires a < b < c < d < e < f < g
    ensures InsertAt(g, Node(d, 2, Node(b, 1, Leaf(a), Leaf(c)), Node(f, 1, Leaf(e), Nil))) ==
      Perfect(a, b, c, d, e, f, g)
  {
    InsertIntoEmpty(g);
    var r := Node(f, 1, Leaf(e), Leaf(g));
    assert InsertAt(g, Node(f, 1, Leaf(e), Nil)) == r by {
      assert UpdateHeight(r) == r;
    }
    var t := Perfect(a, b, c, d, e, f, g);
    assert UpdateHeight(t) == t;
  }

  /** Inserting 5, 3, 8, 2, 4, 7, 9, or any seven increasing values in that
      pattern, builds the full tree without a rotation. */
  lemma InsertSevenBuildsPerfect(a: int, b: int, c: int, d: int, e: int, f: int, g: int)
    requires a < b < c < d < e < f < g
    ensures InsertAt(g, InsertAt(e, InsertAt(c, InsertAt(a, InsertAt(f, InsertAt(b, InsertAt(d, Nil))))))) ==
      Perfect(a, b, c, d, e, f, g)
  {
    InsertMiddlesFirst(b, d, f);
    InsertFourth(a, b, d, f);
    InsertFifth(a, b, c, d, f);
    InsertSixth(a, b, c, d, e, f);
    InsertSeventh(a, b, c, d, e, f, g);
  }

  /** Removing the root of the full tree, a vertex with two children: the
      largest value on the left (`takeLeft`) or the smallest on the right takes
      its place, no rotation is needed, and the other six values remain in
      order. */
  lemma RemoveFullRoot(a: int, b: int, c: int, d: int, e: int, f: int, g: int, takeLeft: bool)
    ensures RemoveAt(d, Perfect(a, b, c, d, e, f, g), takeLeft) ==
      if takeLeft then Node(c, 2, Node(b, 1, Leaf(a), Nil), Node(f, 1, Leaf(e), Leaf(g)))
      else Node(e, 2, Node(b, 1, Leaf(a), Leaf(c)), Node(f, 1, Nil, Leaf(g)))
    ensures Inorder(RemoveAt(d, Perfect(a, b, c, d, e, f, g), takeLeft)) == [a, b, c, e, f, g]
    ensures Avl(RemoveAt(d, Perfect(a, b, c, d, e, f, g), takeLeft))
  {
    var t := Perfect(a, b, c, d, e, f, g);
    if takeLeft {
      var l := Node(b, 1, Leaf(a), Nil);
      assert RemoveMax(t.left) == l by {
        assert UpdateHeight(l) == l;
      }
      var r := Node(c, 2, l, t.right);
      assert SpliceOut(t, takeLeft) == r;
      assert UpdateHeight(r) == r;
      assert Avl(r) by {
        assert Avl(l);
      }
    } else {
      var rt := Node(f, 1, Nil, Leaf(g));
      assert RemoveMin(t.right) == rt by {
        assert UpdateHeight(rt) == rt;
      }
      var r := Node(e, 2, t.left, rt);
      assert SpliceOut(t, takeLeft) == r;
      assert UpdateHeight(r) == r;
      assert Avl(r) by {
        assert Avl(rt);
      }
    }
  }

  /** The subtree that `balance` receives at the root when the smallest of
      three values arrives second and the middle one last (insert c, a, b):
      a left-heavy vertex whose left child leans right. */
  function LeftRightCase(a: int, b: int, c: int): (t: Tree)
    ensures t.Node? && t.left.Node? && HeightsOk(t) && Avl(t.left) && Avl(t.right)
    ensures Height(t.left) - Height(t.right) == 2
    ensures Height(t.left.left) < Height(t.left.right)
  {
    var t := Node(c, 2, Node(a, 1, Nil, Leaf(b)), Nil);
    assert HeightsOk(t.left);
    t
  }

  /** The mirror image (insert a, c, b): a right-heavy vertex whose right
      child leans left. */
  function RightLeftCase(a: int, b: int, c: int): (t: Tree)
    ensures t.Node? && t.right.Node? && HeightsOk(t) && Avl(t.left) && Avl(t.right)
    ensures Height(t.left) - Height(t.right) == -2
    ensures Height(t.right.right) < Height(t.right.left)
  {
    var t := Node(a, 2, Nil, Node(c, 1, Leaf(b), Nil));
    assert HeightsOk(t.right);
    t
  }

  /** Inserting c, a, b (with a < b < c) does hand LeftRightCase to `balance`
      at the root, and inserting a, c, b hands it RightLeftCase. */
  lemma DoubleRotationCasesAreReached(a: int, b: int, c: int)
    requires a < b < c
    ensures InsertAt(a, InsertAt(c, Nil)) == Node(c, 1, Leaf(a), Nil)
    ensures InsertAt(b, Node(c, 1, Leaf(a), Nil)) == Balance(LeftRightCase(a, b, c))
    ensures InsertAt(c, InsertAt(a, Nil)) == Node(a, 1, Nil, Leaf(c))
    ensures InsertAt(b, Node(a, 1, Nil, Leaf(c))) == Balance(RightLeftCase(a, b, c))
  {
    InsertIntoEmpty(c);
    InsertIntoLeaf(c, a);
    InsertIntoLeaf(a, b);
    assert UpdateHeight(Node(c, 1, Node(a, 1, Nil, Leaf(b)), Nil)) == LeftRightCase(a, b, c);
    InsertIntoEmpty(a);
    InsertIntoLeaf(a, c);
    InsertIntoLeaf(c, b);
    assert UpdateHeight(Node(a, 1, Nil, Node(c, 1, Leaf(b), Nil))) == RightLeftCase(a, b, c);
  }

  /** balance as written reads the left child of the LR case as balanced
      (its height difference is only one) and applies a single right
      rotation; the result is out of balance at its root. */
  lemma BalanceAsWrittenMissesLeftRight(a: int, b: int, c: int)
    ensures BalanceAsWritten(LeftRightCase(a, b, c)) == Node(a, 2, Nil, Node(c, 1, Leaf(b), Nil))
    ensures !HeightBalanced(BalanceAsWritten(LeftRightCase(a, b, c)))
  {
    var p := LeftRightCase(a, b, c);
    assert Weight(p) == LeftHeavy && Weight(p.left) == Balanced;
    assert RotateRight(p) == UpdateHeight(Node(a, 1, Nil, UpdateHeight(Node(c, 2, Leaf(b), Nil))));
  }

  /** The mirror image: a single left rotation of the RL case, out of balance
      at its root. */
  lemma BalanceAsWrittenMissesRightLeft(a: int, b: int, c: int)
    ensures BalanceAsWritten(RightLeftCase(a, b, c)) == Node(c, 2, Node(a, 1, Nil, Leaf(b)), Nil)
    ensures !HeightBalanced(BalanceAsWritten(RightLeftCase(a, b, c)))
  {
    var p := RightLeftCase(a, b, c);
    assert Weight(p) == RightHeavy && Weight(p.right) == Balanced;
    assert RotateLeft(p) == UpdateHeight(Node(c, 1, UpdateHeight(Node(a, 2, Nil, Leaf(b))), Nil));
  }

  /** Insertion as written, end to end: inserting c, a, b (with a < b < c)
      into an empty tree leaves a root whose right side is two levels higher
      than its empty left side, so the AVL bound is broken. */
  lemma InsertAsWrittenBreaksBalance(a: int, b: int, c: int)
    requires a < b < c
    ensures InsertAtAsWritten(b, InsertAtAsWritten(a, InsertAtAsWritten(c, Nil))) ==
      Node(a, 2, Nil, Node(c, 1, Leaf(b), Nil))
    ensures !HeightBalanced(InsertAtAsWritten(b, InsertAtAsWritten(a, InsertAtAsWritten(c, Nil))))
  {
    assert InsertAtAsWritten(c, Nil) == Leaf(c);
    assert InsertAtAsWritten(a, Leaf(c)) == Node(c, 1, Leaf(a), Nil) by {
      assert InsertAtAsWritten(a, Nil) == Leaf(a);
    }
    assert InsertAtAsWritten(b, Leaf(a)) == Node(a, 1, Nil, Leaf(b)) by {
      assert InsertAtAsWritten(b, Nil) == Leaf(b);
    }
    assert UpdateHeight(Node(c, 1, Node(a, 1, Nil, Leaf(b)), Nil)) == LeftRightCase(a, b, c);
    BalanceAsWrittenMissesLeftRight(a, b, c);
  }

  /** The double-rotation branch of balance as written is reached only once a
      lower single rotation has already broken the AVL bound: inserting b
      into the AVL tree d(c(a, -), e) (with a < b < c < d < e) single-rotates
      the LR case at c into a(-, c(b, -)), which is right-heavy by two; back at
      d, getWeight then reports the left child as right-heavy, and the double
      rotation repairs the tree. */
  lemma InsertAsWrittenReachesDoubleRotation(a: int, b: int, c: int, d: int, e: int)
    requires a < b < c < d < e
    ensures Avl(Node(d, 2, Node(c, 1, Leaf(a), Nil), Leaf(e)))
    ensures InsertAtAsWritten(b, Node(d, 2, Node(c, 1, Leaf(a), Nil), Leaf(e))) ==
      BalanceAsWritten(Node(d, 3, Node(a, 2, Nil, Node(c, 1, Leaf(b), Nil)), Leaf(e)))
    ensures Weight(Node(d, 3, Node(a, 2, Nil, Node(c, 1, Leaf(b), Nil)), Leaf(e))) == LeftHeavy
    ensures Weight(Node(a, 2, Nil, Node(c, 1, Leaf(b), Nil))) == RightHeavy
    ensures InsertAtAsWritten(b, Node(d, 2, Node(c, 1, Leaf(a), Nil), Leaf(e))) ==
      Node(c, 2, Node(a, 1, Nil, Leaf(b)), Node(d, 1, Nil, Leaf(e)))
  {
    var t := Node(d, 2, Node(c, 1, Leaf(a), Nil), Leaf(e));
    assert HeightsOk(t.left);
    assert InsertAtAsWritten(b, Leaf(a)) == Node(a, 1, Nil, Leaf(b)) by {
      assert InsertAtAsWritten(b, Nil) == Leaf(b);
    }
    assert UpdateHeight(Node(c, 1, Node(a, 1, Nil, Leaf(b)), Nil)) == LeftRightCase(a, b, c);
    BalanceAsWrittenMissesLeftRight(a, b, c);
    var l' := Node(a, 2, Nil, Node(c, 1, Leaf(b), Nil));
    assert InsertAtAsWritten(b, t.left) == l';
    var p := Node(d, 3, l', Leaf(e));
    assert InsertAtAsWritten(b, t) == BalanceAsWritten(UpdateHeight(Node(d, 2, l', Leaf(e))));
    assert UpdateHeight(Node(d, 2, l', Leaf(e))) == p;
    var q := RotateLeft(l');
    assert q == UpdateHeight(Node(c, 1, UpdateHeight(Node(a, 2, Nil, Leaf(b))), Nil));
    assert q == Node(c, 2, Node(a, 1, Nil, Leaf(b)), Nil);
    assert RotateRight(p.(left := q)) == UpdateHeight(Node(c, 2, Node(a, 1, Nil, Leaf(b)), UpdateHeight(Node(d, 3, Nil, Leaf(e)))));
  }

  /** The corrected balance performs the double rotations on both cases and
      yields the balanced tree on the three values. */
  lemma BalanceFixesDoubleRotationCases(a: int, b: int, c: int)
    ensures Balance(LeftRightCase(a, b, c)) == Triple(a, b, c)
    ensures Balance(RightLeftCase(a, b, c)) == Triple(a, b, c)
  {
    var p := LeftRightCase(a, b, c);
    assert Weight(p) == LeftHeavy && Lean(p.left) == RightHeavy;
    var q := RotateLeft(p.left);
    assert q == UpdateHeight(Node(b, 0, UpdateHeight(Node(a, 1, Nil, Nil)), Nil));
    assert RotateRight(p.(left := q)) == UpdateHeight(Node(b, 1, Leaf(a), UpdateHeight(Node(c, 2, Nil, Nil))));
    var p' := RightLeftCase(a, b, c);
    assert Weight(p') == RightHeavy && Lean(p'.right) == LeftHeavy;
    var q' := RotateRight(p'.right);
    assert q' == UpdateHeight(Node(b, 0, Nil, UpdateHeight(Node(c, 1, Nil, Nil))));
    assert RotateLeft(p'.(right := q')) == UpdateHeight(Node(b, 1, UpdateHeight(Node(a, 2, Nil, Nil)), Leaf(c)));
  }

  /** An empty container reports that it is empty and that its height is -1. */
  method EmptyContainer() returns (empty: bool, height: int)
    ensures empty && height == -1
  {
    var avl := new AVL();
    empty := avl.IsEmpty();
    height := avl.GetHeight();
  }

  /** After a value is inserted into a valid container, find reports it as
      present and the cached vertex holds it, while a value that was stored
      neither before nor now is reported absent. */
  method FindAfterInsert(avl: AVL, x: int, other: int) returns (found: bool, data: int, foundOther: bool)
    requires avl.Valid()
    requires other != x && other !in Inorder(avl.root)
    modifies avl
    ensures found && data == x && !foundOther
  {
    avl.Insert(x);
    StoredAfterInsert(Inorder(old(avl.root)), Inorder(avl.root), x, other);
    found := avl.Find(x);
    data := avl.GetFoundData();
    foundOther := avl.Find(other);
  }

  /** After adding x to the stored values, x is stored and a value other than
      x is stored only if it was before. */
  lemma StoredAfterInsert(before: seq<int>, after: seq<int>, x: int, other: int)
    requires multiset(after) == multiset(before) + multiset{x}
    requires other != x && other !in before
    ensures x in after && other !in after
  {
    assert x in multiset(after);
    assert multiset(before)[other] == 0;
    assert multiset(after)[other] == 0;
  }

  /** clear as written: after one insertion and a clear, the container reports
      itself empty while its size is still one. */
  method SizeAfterClear(x: int) returns (size: int, empty: bool)
    ensures empty && size == 1
  {
    var avl := new AVL();
    avl.Insert(x);
    avl.Clear();
    size := avl.Size();
    empty := avl.IsEmpty();
  }

  /** With the counter reset, the same run reports size zero. */
  method SizeAfterClearAndResetCount(x: int) returns (size: int, empty: bool)
    ensures empty && size == 0
  {
    var avl := new AVL();
    avl.Insert(x);
    avl.ClearAndResetCount();
    size := avl.Size();
    empty := avl.IsEmpty();
  }
}
