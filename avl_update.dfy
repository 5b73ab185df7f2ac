/**
 * The recursive mutators of the AVL tree: insert and remove. Each returns
 * the subtree that ends up in the slot it was called on; on the way back up
 * every vertex on the search path gets its height updated and is rebalanced.
 */
module AvlUpdate {
  import opened AvlTree
  import opened AvlBalance
  import opened AvlSearch

  /** insert(entry, current): at an absent child a new vertex is created;
      otherwise a value larger than the vertex's goes right and any other
      value, an equal one included, goes left. The vertex's height is then
      updated and the vertex rebalanced. */
  function InsertAt(x: int, t: Tree): (r: Tree)
    ensures r.Node?
    ensures HeightsOk(t) ==> HeightsOk(r)
  {
    match t
    case Nil => Balance(UpdateHeight(Leaf(x)))
    case Node(d, h, l, rt) =>
      if x > d then Balance(UpdateHeight(Node(d, h, l, InsertAt(x, rt))))
      else Balance(UpdateHeight(Node(d, h, InsertAt(x, l), rt)))
  }

  /** Insertion adds exactly one occurrence of the value and keeps every value
      that was stored. */
  lemma {:induction false} InsertAtContents(x: int, t: Tree)
    ensures multiset(Inorder(InsertAt(x, t))) == multiset(Inorder(t)) + multiset{x}
  {
    match t
    case Nil =>
      assert InsertAt(x, t) == Leaf(x);
    case Node(d, h, l, rt) =>
      if x > d {
        var r' := InsertAt(x, rt);
        InsertAtContents(x, rt);
        assert InsertAt(x, t) == Balance(UpdateHeight(Node(d, h, l, r')));
        AddToRightPart(Inorder(l), d, Inorder(rt), Inorder(r'), Inorder(t), Inorder(InsertAt(x, t)), x);
      } else {
        var l' := InsertAt(x, l);
        InsertAtContents(x, l);
        assert InsertAt(x, t) == Balance(UpdateHeight(Node(d, h, l', rt)));
        AddToLeftPart(Inorder(l), d, Inorder(rt), Inorder(l'), Inorder(t), Inorder(InsertAt(x, t)), x);
      }
  }

  /** insert as the source writes it: the same descent, with `balance`
      classifying the heavy vertex's child by getWeight (BalanceAsWritten).
      It keeps heights correct, but not the AVL bound (see
      AvlScenarios.InsertAsWrittenBreaksBalance). */
  function InsertAtAsWritten(x: int, t: Tree): (r: Tree)
    ensures r.Node?
    ensures HeightsOk(t) ==> HeightsOk(r)
  {
    match t
    case Nil => BalanceAsWritten(UpdateHeight(Leaf(x)))
    case Node(d, h, l, rt) =>
      if x > d then BalanceAsWritten(UpdateHeight(Node(d, h, l, InsertAtAsWritten(x, rt))))
      else BalanceAsWritten(UpdateHeight(Node(d, h, InsertAtAsWritten(x, l), rt)))
  }

  /** Adding x to the right part of a sequence adds it to the whole. */
  lemma AddToRightPart(lo: seq<int>, d: int, r: seq<int>, r': seq<int>, whole: seq<int>, whole': seq<int>, x: int)
    requires whole == lo + [d] + r && whole' == lo + [d] + r'
    requires multiset(r') == multiset(r) + multiset{x}
    ensures multiset(whole') == multiset(whole) + multiset{x}
  {
  }

  /** Adding x to the left part of a sequence adds it to the whole. */
  lemma AddToLeftPart(lo: seq<int>, d: int, r: seq<int>, lo': seq<int>, whole: seq<int>, whole': seq<int>, x: int)
    requires whole == lo + [d] + r && whole' == lo' + [d] + r
    requires multiset(lo') == multiset(lo) + multiset{x}
    ensures multiset(whole') == multiset(whole) + multiset{x}
  {
  }

  /** Inserting into an AVL tree gives an AVL tree whose height is the old one
      or one more. */
  lemma {:induction false} InsertKeepsAvl(x: int, t: Tree)
    requires Avl(t)
    ensures Avl(InsertAt(x, t))
    ensures Height(t) <= Height(InsertAt(x, t)) <= Height(t) + 1
  {
    match t
    case Nil =>
    case Node(d, h, l, rt) =>
      var t' := if x > d then Node(d, h, l, InsertAt(x, rt)) else Node(d, h, InsertAt(x, l), rt);
      if x > d {
        InsertKeepsAvl(x, rt);
      } else {
        InsertKeepsAvl(x, l);
      }
      BalanceRestoresAvl(UpdateHeight(t'));
  }

  /** A value that is in a multiset difference was in the first operand. */
  lemma InDifference(y: int, s: seq<int>, u: seq<int>, m: multiset<int>)
    requires multiset(s) == multiset(u) - m
    requires y in s
    ensures y in u
  {
    assert y in multiset(s);
  }

  /** A value in a sequence grown by one element was there before or is that
      element. */
  lemma InUnion(y: int, s: seq<int>, u: seq<int>, x: int)
    requires multiset(s) == multiset(u) + multiset{x}
    requires y in s
    ensures y in u || y == x
  {
    assert y in multiset(s);
  }

  /** Updating the height of a vertex and rebalancing it keep binary-search
      order, since neither changes the in-order sequence. */
  lemma RebalanceKeepsOrder(t: Tree)
    requires Ordered(t)
    ensures Ordered(Balance(UpdateHeight(t)))
  {
    var u := UpdateHeight(t);
    assert Ordered(u) by {
      OrderedIffSorted(t);
      OrderedIffSorted(u);
    }
    OrderedIffSorted(u);
    OrderedIffSorted(Balance(u));
  }

  /** Inserting keeps binary-search order. */
  lemma {:induction false} InsertKeepsOrder(x: int, t: Tree)
    requires Ordered(t)
    ensures Ordered(InsertAt(x, t))
  {
    match t
    case Nil =>
    case Node(d, h, l, rt) =>
      if x > d {
        var r' := InsertAt(x, rt);
        InsertKeepsOrder(x, rt);
        InsertAtContents(x, rt);
        forall y | y in Inorder(r') ensures d <= y {
          InUnion(y, Inorder(r'), Inorder(rt), x);
        }
        RebalanceKeepsOrder(Node(d, h, l, r'));
        assert InsertAt(x, t) == Balance(UpdateHeight(Node(d, h, l, r')));
      } else {
        var l' := InsertAt(x, l);
        InsertKeepsOrder(x, l);
        InsertAtContents(x, l);
        forall y | y in Inorder(l') ensures y <= d {
          InUnion(y, Inorder(l'), Inorder(l), x);
        }
        RebalanceKeepsOrder(Node(d, h, l', rt));
        assert InsertAt(x, t) == Balance(UpdateHeight(Node(d, h, l', rt)));
      }
  }

  /** Splice out the rightmost vertex (its left child takes its place) and
      update and rebalance every vertex on the way back up: exactly the last
      value of the in-order sequence goes. */
  function RemoveMax(t: Tree): (r: Tree)
    requires t.Node?
    ensures Inorder(r) == Inorder(t)[..|Inorder(t)| - 1]
    ensures HeightsOk(t) ==> HeightsOk(r)
  {
    if t.right.Nil? then t.left
    else
      var t' := Node(t.data, t.height, t.left, RemoveMax(t.right));
      assert Inorder(t') == Inorder(t)[..|Inorder(t)| - 1];
      Balance(UpdateHeight(t'))
  }

  /** Splice out the leftmost vertex (its right child takes its place) and
      update and rebalance every vertex on the way back up: exactly the first
      value of the in-order sequence goes. */
  function RemoveMin(t: Tree): (r: Tree)
    requires t.Node?
    ensures Inorder(r) == Inorder(t)[1..]
    ensures HeightsOk(t) ==> HeightsOk(r)
  {
    if t.left.Nil? then t.right
    else
      var t' := Node(t.data, t.height, RemoveMin(t.left), t.right);
      assert Inorder(t') == Inorder(t)[1..];
      Balance(UpdateHeight(t'))
  }

  /** Removing the rightmost vertex of an AVL tree gives an AVL tree whose
      height is the old one or one less. */
  lemma {:induction false} RemoveMaxKeepsAvl(t: Tree)
    requires t.Node? && Avl(t)
    ensures Avl(RemoveMax(t))
    ensures Height(t) - 1 <= Height(RemoveMax(t)) <= Height(t)
  {
    if t.right.Node? {
      RemoveMaxKeepsAvl(t.right);
      BalanceRestoresAvl(UpdateHeight(Node(t.data, t.height, t.left, RemoveMax(t.right))));
    }
  }

  /** Removing the leftmost vertex of an AVL tree gives an AVL tree whose
      height is the old one or one less. */
  lemma {:induction false} RemoveMinKeepsAvl(t: Tree)
    requires t.Node? && Avl(t)
    ensures Avl(RemoveMin(t))
    ensures Height(t) - 1 <= Height(RemoveMin(t)) <= Height(t)
  {
    if t.left.Node? {
      RemoveMinKeepsAvl(t.left);
      BalanceRestoresAvl(UpdateHeight(Node(t.data, t.height, RemoveMin(t.left), t.right)));
    }
  }

  /** The vertex that replaces a matched vertex with two children: the
      matched value is overwritten with the largest value of the left subtree
      (`takeLeft`) or the smallest of the right subtree, and the vertex that
      held it is spliced out of that subtree. */
  function ReplaceFullVertex(t: Tree, takeLeft: bool): (r: Tree)
    requires t.Node? && t.left.Node? && t.right.Node?
    ensures Inorder(r) == Inorder(t.left) + Inorder(t.right)
    ensures HeightsOk(t.left) && HeightsOk(t.right) ==> HeightsOk(r.left) && HeightsOk(r.right)
  {
    if takeLeft then
      var m := Rightmost(t.left).data;
      assert Inorder(t.left) == Inorder(t.left)[..|Inorder(t.left)| - 1] + [m];
      Node(m, t.height, RemoveMax(t.left), t.right)
    else
      var m := Leftmost(t.right).data;
      assert Inorder(t.right) == [m] + Inorder(t.right)[1..];
      Node(m, t.height, t.left, RemoveMin(t.right))
  }

  /** What takes the place of the vertex that matched: with two children the
      vertex is kept with a replacement value (ReplaceFullVertex), with one child
      that child, and for a leaf nothing. */
  function SpliceOut(t: Tree, takeLeft: bool): (r: Tree)
    requires t.Node?
    ensures Inorder(r) == Inorder(t.left) + Inorder(t.right)
    ensures HeightsOk(t) ==> HeightsOk(Balance(UpdateHeight(r)))
  {
    if t.left.Node? && t.right.Node? then ReplaceFullVertex(t, takeLeft)
    else if t.left.Node? then t.left
    else if t.right.Node? then t.right
    else Nil
  }

  /** Splicing a vertex out of an AVL tree and rebalancing the replacement
      gives an AVL tree whose height is the old one or one less. */
  lemma SpliceOutKeepsAvl(t: Tree, takeLeft: bool)
    requires t.Node? && Avl(t)
    ensures Avl(Balance(UpdateHeight(SpliceOut(t, takeLeft))))
    ensures Height(t) - 1 <= Height(Balance(UpdateHeight(SpliceOut(t, takeLeft)))) <= Height(t)
  {
    var l, rt := t.left, t.right;
    if l.Node? && rt.Node? {
      if takeLeft {
        RemoveMaxKeepsAvl(l);
      } else {
        RemoveMinKeepsAvl(rt);
      }
      BalanceRestoresAvl(UpdateHeight(ReplaceFullVertex(t, takeLeft)));
    } else if l.Node? {
      BalanceRestoresAvl(l);
    } else if rt.Node? {
      BalanceRestoresAvl(rt);
    }
  }

  /** remove(target, current): descend as find does (a larger target goes
      right, any other unequal one left) and splice out the matching vertex
      (SpliceOut). Every vertex on the way back up has its height updated and
      is rebalanced. `takeLeft` is the side the source picks at random for a
      vertex with two children. */
  function RemoveAt(x: int, t: Tree, takeLeft: bool): (r: Tree)
    ensures HeightsOk(t) ==> HeightsOk(r)
  {
    match t
    case Nil => Balance(UpdateHeight(Nil))
    case Node(d, h, l, rt) =>
      if x == d then Balance(UpdateHeight(SpliceOut(t, takeLeft)))
      else if x > d then Balance(UpdateHeight(Node(d, h, l, RemoveAt(x, rt, takeLeft))))
      else Balance(UpdateHeight(Node(d, h, RemoveAt(x, l, takeLeft), rt)))
  }

  /** Removal takes out exactly one occurrence of the target when the find
      descent reaches it, and otherwise leaves the stored values as they were. */
  lemma {:induction false} RemoveAtContents(x: int, t: Tree, takeLeft: bool)
    ensures multiset(Inorder(RemoveAt(x, t, takeLeft))) ==
      multiset(Inorder(t)) - (if FindAt(t, x).Node? then multiset{x} else multiset{})
  {
    match t
    case Nil =>
    case Node(d, h, l, rt) =>
      if x == d {
        RemoveAtMatchContents(x, t, takeLeft);
      } else if x > d {
        RemoveAtContents(x, rt, takeLeft);
        RemoveAtRightInorder(x, t, takeLeft);
        assert FindAt(t, x) == FindAt(rt, x);
        RemoveRightPart(Inorder(l), d, Inorder(rt), Inorder(RemoveAt(x, rt, takeLeft)),
          Inorder(t), Inorder(RemoveAt(x, t, takeLeft)), x, FindAt(rt, x).Node?);
      } else {
        RemoveAtContents(x, l, takeLeft);
        RemoveAtLeftInorder(x, t, takeLeft);
        assert FindAt(t, x) == FindAt(l, x);
        RemoveLeftPart(Inorder(l), d, Inorder(rt), Inorder(RemoveAt(x, l, takeLeft)),
          Inorder(t), Inorder(RemoveAt(x, t, takeLeft)), x, FindAt(l, x).Node?);
      }
  }

  lemma RemoveAtMatchContents(x: int, t: Tree, takeLeft: bool)
    requires t.Node? && x == t.data
    ensures multiset(Inorder(RemoveAt(x, t, takeLeft))) == multiset(Inorder(t)) - multiset{x}
    ensures FindAt(t, x).Node?
  {
    var r := RemoveAt(x, t, takeLeft);
    assert Inorder(r) == Inorder(t.left) + Inorder(t.right);
    assert multiset(Inorder(t)) == multiset(Inorder(t.left)) + multiset{x} + multiset(Inorder(t.right));
  }

  /** Below the root the removal rebuilds the vertex around the new right
      subtree; updating and rebalancing do not change the in-order sequence. */
  lemma RemoveAtRightInorder(x: int, t: Tree, takeLeft: bool)
    requires t.Node? && x > t.data
    ensures Inorder(RemoveAt(x, t, takeLeft)) ==
      Inorder(t.left) + [t.data] + Inorder(RemoveAt(x, t.right, takeLeft))
  {
    var t' := Node(t.data, t.height, t.left, RemoveAt(x, t.right, takeLeft));
    assert RemoveAt(x, t, takeLeft) == Balance(UpdateHeight(t'));
  }

  lemma RemoveAtLeftInorder(x: int, t: Tree, takeLeft: bool)
    requires t.Node? && x < t.data
    ensures Inorder(RemoveAt(x, t, takeLeft)) ==
      Inorder(RemoveAt(x, t.left, takeLeft)) + [t.data] + Inorder(t.right)
  {
    var t' := Node(t.data, t.height, RemoveAt(x, t.left, takeLeft), t.right);
    assert RemoveAt(x, t, takeLeft) == Balance(UpdateHeight(t'));
  }

  /** Taking one occurrence of x (when `found`) out of the right part of a
      sequence takes it out of the whole. */
  lemma RemoveRightPart(lo: seq<int>, d: int, r: seq<int>, r': seq<int>, whole: seq<int>, whole': seq<int>,
                        x: int, found: bool)
    requires whole == lo + [d] + r && whole' == lo + [d] + r'
    requires found ==> x in r
    requires multiset(r') == multiset(r) - (if found then multiset{x} else multiset{})
    ensures multiset(whole') == multiset(whole) - (if found then multiset{x} else multiset{})
  {
    if found {
      assert x in multiset(r);
    }
  }

  /** Taking one occurrence of x (when `found`) out of the left part of a
      sequence takes it out of the whole. */
  lemma RemoveLeftPart(lo: seq<int>, d: int, r: seq<int>, lo': seq<int>, whole: seq<int>, whole': seq<int>,
                       x: int, found: bool)
    requires whole == lo + [d] + r && whole' == lo' + [d] + r
    requires found ==> x in lo
    requires multiset(lo') == multiset(lo) - (if found then multiset{x} else multiset{})
    ensures multiset(whole') == multiset(whole) - (if found then multiset{x} else multiset{})
  {
    if found {
      assert x in multiset(lo);
    }
  }

  /** Removing from an AVL tree gives an AVL tree whose height is the old one
      or one less; when the target is not found nothing changes at all. */
  lemma {:induction false} RemoveKeepsAvl(x: int, t: Tree, takeLeft: bool)
    requires Avl(t)
    ensures Avl(RemoveAt(x, t, takeLeft))
    ensures Height(t) - 1 <= Height(RemoveAt(x, t, takeLeft)) <= Height(t)
    ensures FindAt(t, x).Nil? ==> RemoveAt(x, t, takeLeft) == t
  {
    match t
    case Nil =>
    case Node(d, h, l, rt) =>
      if x == d {
        SpliceOutKeepsAvl(t, takeLeft);
      } else if x > d {
        RemoveKeepsAvl(x, rt, takeLeft);
        BalanceRestoresAvl(UpdateHeight(Node(d, h, l, RemoveAt(x, rt, takeLeft))));
      } else {
        RemoveKeepsAvl(x, l, takeLeft);
        BalanceRestoresAvl(UpdateHeight(Node(d, h, RemoveAt(x, l, takeLeft), rt)));
      }
  }

  /** Dropping the middle element of a sorted sequence leaves it sorted. */
  lemma SortedDropMiddle(a: seq<int>, d: int, b: seq<int>)
    requires Sorted(a + [d] + b)
    ensures Sorted(a + b)
  {
    SortedSplitParts(a, d, b);
    var s := a + b;
    forall i, j | 0 <= i < j < |s| ensures s[i] <= s[j] {
      if j < |a| {
        assert s[i] == a[i] && s[j] == a[j];
      } else if i < |a| {
        assert s[i] == a[i] && a[i] in a && s[j] == b[j - |a|] && b[j - |a|] in b;
      } else {
        assert s[i] == b[i - |a|] && s[j] == b[j - |a|];
      }
    }
  }

  /** Removing keeps binary-search order. */
  lemma {:induction false} RemoveKeepsOrder(x: int, t: Tree, takeLeft: bool)
    requires Ordered(t)
    ensures Ordered(RemoveAt(x, t, takeLeft))
  {
    match t
    case Nil =>
    case Node(d, h, l, rt) =>
      if x == d {
        RemoveMatchKeepsOrder(t, takeLeft);
      } else if x > d {
        RemoveKeepsOrder(x, rt, takeLeft);
        RemoveRightKeepsOrder(x, t, takeLeft);
      } else {
        RemoveKeepsOrder(x, l, takeLeft);
        RemoveLeftKeepsOrder(x, t, takeLeft);
      }
  }

  /** Splicing out the matched vertex keeps the order. */
  lemma RemoveMatchKeepsOrder(t: Tree, takeLeft: bool)
    requires t.Node? && Ordered(t)
    ensures Ordered(RemoveAt(t.data, t, takeLeft))
  {
    var t' := SpliceOut(t, takeLeft);
    OrderedIffSorted(t);
    SortedDropMiddle(Inorder(t.left), t.data, Inorder(t.right));
    OrderedIffSorted(t');
    RebalanceKeepsOrder(t');
  }

  /** Replacing the right subtree of an ordered vertex by an ordered tree
      holding some of its values keeps the order. */
  lemma ShrinkRightKeepsOrder(t: Tree, r: Tree, m: multiset<int>)
    requires t.Node? && Ordered(t) && Ordered(r)
    requires multiset(Inorder(r)) == multiset(Inorder(t.right)) - m
    ensures Ordered(Node(t.data, t.height, t.left, r))
  {
    forall y | y in Inorder(r) ensures t.data <= y {
      InDifference(y, Inorder(r), Inorder(t.right), m);
    }
  }

  /** Replacing the left subtree of an ordered vertex by an ordered tree
      holding some of its values keeps the order. */
  lemma ShrinkLeftKeepsOrder(t: Tree, l: Tree, m: multiset<int>)
    requires t.Node? && Ordered(t) && Ordered(l)
    requires multiset(Inorder(l)) == multiset(Inorder(t.left)) - m
    ensures Ordered(Node(t.data, t.height, l, t.right))
  {
    forall y | y in Inorder(l) ensures y <= t.data {
      InDifference(y, Inorder(l), Inorder(t.left), m);
    }
  }

  /** Removing below the root on the right keeps the order, given that it
      keeps the order of the right subtree. */
  lemma RemoveRightKeepsOrder(x: int, t: Tree, takeLeft: bool)
    requires t.Node? && x > t.data && Ordered(t)
    requires Ordered(RemoveAt(x, t.right, takeLeft))
    ensures Ordered(RemoveAt(x, t, takeLeft))
  {
    var r := RemoveAt(x, t.right, takeLeft);
    var t' := Node(t.data, t.height, t.left, r);
    RemoveAtContents(x, t.right, takeLeft);
    ShrinkRightKeepsOrder(t, r, if FindAt(t.right, x).Node? then multiset{x} else multiset{});
    RemoveAtRightInorder(x, t, takeLeft);
    OrderedIffSorted(t');
    OrderedIffSorted(RemoveAt(x, t, takeLeft));
  }

  /** Removing below the root on the left keeps the order, given that it keeps
      the order of the left subtree. */
  lemma RemoveLeftKeepsOrder(x: int, t: Tree, takeLeft: bool)
    requires t.Node? && x < t.data && Ordered(t)
    requires Ordered(RemoveAt(x, t.left, takeLeft))
    ensures Ordered(RemoveAt(x, t, takeLeft))
  {
    var l := RemoveAt(x, t.left, takeLeft);
    var t' := Node(t.data, t.height, l, t.right);
    RemoveAtContents(x, t.left, takeLeft);
    ShrinkLeftKeepsOrder(t, l, if FindAt(t.left, x).Node? then multiset{x} else multiset{});
    RemoveAtLeftInorder(x, t, takeLeft);
    OrderedIffSorted(t');
    OrderedIffSorted(RemoveAt(x, t, takeLeft));
  }

  /** Everything the container needs about one insertion: the search order and
      the AVL bound survive, and exactly one more value is stored. */
  lemma InsertPreservesInvariants(x: int, t: Tree)
    ensures Ordered(t) && Avl(t) ==> Ordered(InsertAt(x, t)) && Avl(InsertAt(x, t))
    ensures multiset(Inorder(InsertAt(x, t))) == multiset(Inorder(t)) + multiset{x}
    ensures |Inorder(InsertAt(x, t))| == |Inorder(t)| + 1
  {
    InsertAtContents(x, t);
    if Ordered(t) && Avl(t) {
      InsertKeepsAvl(x, t);
      InsertKeepsOrder(x, t);
    }
    var r := InsertAt(x, t);
    assert |multiset(Inorder(r))| == |multiset(Inorder(t))| + 1;
  }

  /** The values inserted one after another, in the order given. */
  function InsertAll(xs: seq<int>, t: Tree): Tree
    decreases |xs|
  {
    if xs == [] then t else InsertAll(xs[1..], InsertAt(xs[0], t))
  }

  /** A run of insertions stores exactly the inserted values on top of the
      old ones. */
  lemma {:induction false} InsertAllContents(xs: seq<int>, t: Tree)
    ensures multiset(Inorder(InsertAll(xs, t))) == multiset(Inorder(t)) + multiset(xs)
    decreases |xs|
  {
    if xs != [] {
      var t' := InsertAt(xs[0], t);
      assert InsertAll(xs, t) == InsertAll(xs[1..], t');
      InsertAtContents(xs[0], t);
      InsertAllContents(xs[1..], t');
      HeadAndTail(xs);
    }
  }

  /** A run of insertions keeps order and the AVL bound. */
  lemma {:induction false} InsertAllKeepsInvariants(xs: seq<int>, t: Tree)
    requires Ordered(t) && Avl(t)
    ensures Ordered(InsertAll(xs, t)) && Avl(InsertAll(xs, t))
    decreases |xs|
  {
    if xs != [] {
      var t' := InsertAt(xs[0], t);
      assert InsertAll(xs, t) == InsertAll(xs[1..], t');
      InsertKeepsOrder(xs[0], t);
      InsertKeepsAvl(xs[0], t);
      InsertAllKeepsInvariants(xs[1..], t');
    }
  }

  /** Inserting the same multiset of values in any order into an empty tree
      gives the same in-order sequence, which is sorted; only the shape may
      differ. */
  lemma InsertOrderIrrelevant(xs: seq<int>, ys: seq<int>)
    requires multiset(xs) == multiset(ys)
    ensures Inorder(InsertAll(xs, Nil)) == Inorder(InsertAll(ys, Nil))
    ensures Sorted(Inorder(InsertAll(xs, Nil)))
  {
    InsertAllContents(xs, Nil);
    InsertAllContents(ys, Nil);
    InsertAllKeepsInvariants(xs, Nil);
    InsertAllKeepsInvariants(ys, Nil);
    OrderedSameContentsSameInorder(InsertAll(xs, Nil), InsertAll(ys, Nil));
    OrderedIffSorted(InsertAll(xs, Nil));
  }

  /** Everything the container needs about one removal: the search order and
      the AVL bound survive, on such a tree the descent finds the target exactly
      when it is stored (and nothing changes otherwise), and exactly one value
      fewer is stored when it is found. */
  lemma RemovePreservesInvariants(x: int, t: Tree, takeLeft: bool)
    ensures Ordered(t) && Avl(t) ==>
      Ordered(RemoveAt(x, t, takeLeft)) && Avl(RemoveAt(x, t, takeLeft)) &&
      (FindAt(t, x).Node? <==> x in Inorder(t)) &&
      (x !in Inorder(t) ==> RemoveAt(x, t, takeLeft) == t)
    ensures multiset(Inorder(RemoveAt(x, t, takeLeft))) ==
      multiset(Inorder(t)) - (if FindAt(t, x).Node? then multiset{x} else multiset{})
    ensures |Inorder(RemoveAt(x, t, takeLeft))| == |Inorder(t)| - (if FindAt(t, x).Node? then 1 else 0)
  {
    if Ordered(t) && Avl(t) {
      RemoveKeepsAvl(x, t, takeLeft);
      RemoveKeepsOrder(x, t, takeLeft);
      FindCompleteOnOrdered(t, x);
    }
    var r := RemoveAt(x, t, takeLeft);
    RemoveAtContents(x, t, takeLeft);
    if FindAt(t, x).Node? {
      assert x in multiset(Inorder(t));
      assert |multiset(Inorder(r))| == |multiset(Inorder(t))| - 1;
    } else {
      assert |multiset(Inorder(r))| == |multiset(Inorder(t))|;
    }
  }
}
