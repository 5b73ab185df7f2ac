/**
 * Height bookkeeping, heavy-side classification, the two rotations and the
 * four-case rebalancing step of the AVL tree.
 *
 * Each of these changes, in the source, only the subtree hanging from one
 * child slot (`Vertex*&`); here each returns the subtree that ends up in
 * that slot.
 */
module AvlBalance {
  import opened AvlTree

  /** The classification getWeight returns. */
  datatype WeightStatus = Balanced | LeftHeavy | RightHeavy | Error

  /** getWeight: Error for an absent vertex, otherwise heavy on the side whose
      height exceeds the other's by more than one. */
  function Weight(t: Tree): (w: WeightStatus)
    ensures w == Error <==> t.Nil?
    ensures w == LeftHeavy <==> t.Node? && Height(t.left) - Height(t.right) > 1
    ensures w == RightHeavy <==> t.Node? && Height(t.left) - Height(t.right) < -1
  {
    if t.Nil? then Error
    else
      var diff := Height(t.left) - Height(t.right);
      if diff > 1 then LeftHeavy
      else if diff < -1 then RightHeavy
      else Balanced
  }

  /** No vertex of the subtree is classified as heavy. */
  ghost predicate NoHeavyVertex(t: Tree) {
    match t
    case Nil => true
    case Node(_, _, l, r) => Weight(t) == Balanced && NoHeavyVertex(l) && NoHeavyVertex(r)
  }

  /** The AVL bound holds exactly where getWeight reports no heavy vertex. */
  lemma {:induction false} HeightBalancedIffNoHeavyVertex(t: Tree)
    ensures HeightBalanced(t) <==> NoHeavyVertex(t)
  {
    match t
    case Nil =>
    case Node(_, _, l, r) =>
      HeightBalancedIffNoHeavyVertex(l);
      HeightBalancedIffNoHeavyVertex(r);
  }

  /** updateHeight: the vertex stores 1 + the larger height of its children. */
  function UpdateHeight(t: Tree): (r: Tree)
    ensures Inorder(r) == Inorder(t)
    ensures t.Nil? ==> r.Nil?
    ensures t.Node? ==> r.Node? && r.data == t.data && r.left == t.left && r.right == t.right
    ensures t.Node? ==> Height(r) == 1 + Max(Height(t.left), Height(t.right))
    ensures t.Node? && HeightsOk(t.left) && HeightsOk(t.right) ==> HeightsOk(r)
    ensures HeightsOk(t) ==> r == t
  {
    match t
    case Nil => Nil
    case Node(d, _, l, rt) => Node(d, 1 + Max(Height(l), Height(rt)), l, rt)
  }

  /** leftRotation: the right child becomes the root of the subtree, the old
      root its left child, and the right child's former left subtree the old
      root's right subtree. The source dereferences the right child without a
      check, so it must be present. */
  function RotateLeft(t: Tree): (r: Tree)
    requires t.Node? ==> t.right.Node?
    ensures Inorder(r) == Inorder(t)
    ensures t.Nil? ==> r.Nil?
    ensures t.Node? ==> r.Node? && r.left.Node?
    ensures t.Node? && HeightsOk(t.left) && HeightsOk(t.right.left) && HeightsOk(t.right.right) ==> HeightsOk(r)
    ensures HeightsOk(t) ==> HeightsOk(r)
  {
    match t
    case Nil => Nil
    case Node(d, h, a, rt) =>
      assert HeightsOk(rt) ==> HeightsOk(rt.left) && HeightsOk(rt.right);
      UpdateHeight(Node(rt.data, rt.height, UpdateHeight(Node(d, h, a, rt.left)), rt.right))
  }

  /** rightRotation: the mirror image of RotateLeft; the left child must be
      present. */
  function RotateRight(t: Tree): (r: Tree)
    requires t.Node? ==> t.left.Node?
    ensures Inorder(r) == Inorder(t)
    ensures t.Nil? ==> r.Nil?
    ensures t.Node? ==> r.Node? && r.right.Node?
    ensures t.Node? && HeightsOk(t.left.left) && HeightsOk(t.left.right) && HeightsOk(t.right) ==> HeightsOk(r)
    ensures HeightsOk(t) ==> HeightsOk(r)
  {
    match t
    case Nil => Nil
    case Node(d, h, lt, c) =>
      assert HeightsOk(lt) ==> HeightsOk(lt.left) && HeightsOk(lt.right);
      UpdateHeight(Node(lt.data, lt.height, lt.left, UpdateHeight(Node(d, h, lt.right, c))))
  }

  /** The side a child leans to, by the sign of its height difference. */
  function Lean(t: Tree): (w: WeightStatus)
    ensures w == Error <==> t.Nil?
    ensures w == LeftHeavy <==> t.Node? && Height(t.left) > Height(t.right)
    ensures w == RightHeavy <==> t.Node? && Height(t.left) < Height(t.right)
  {
    if t.Nil? then Error
    else if Height(t.left) > Height(t.right) then LeftHeavy
    else if Height(t.left) < Height(t.right) then RightHeavy
    else Balanced
  }

  /** balance, as the source dispatches it: a heavy vertex whose heavy child
      is itself heavy the other way (by getWeight) gets a double rotation,
      otherwise a single one. Because getWeight reports a side only for a
      difference above one, an AVL child is always reported as balanced, and
      the double rotations are never chosen where they are needed. */
  function BalanceAsWritten(t: Tree): (r: Tree)
    ensures Inorder(r) == Inorder(t)
    ensures r.Node? <==> t.Node?
    ensures HeightsOk(t) ==> HeightsOk(r)
  {
    if t.Nil? then t
    else
      var w := Weight(t);
      if w == LeftHeavy then
        var c := Weight(t.left);
        if c == LeftHeavy || c == Balanced then RotateRight(t)
        else RotateRight(t.(left := RotateLeft(t.left)))
      else if w == RightHeavy then
        var c := Weight(t.right);
        if c == RightHeavy || c == Balanced then RotateLeft(t)
        else RotateLeft(t.(right := RotateRight(t.right)))
      else t
  }

  /** balance with the child classified by the sign of its height difference:
      a left-heavy vertex whose left child leans right (the LR case) gets a left
      rotation of the child and then a right rotation; otherwise (LL) a single
      right rotation; symmetrically for a right-heavy vertex (RL, RR). */
  function Balance(t: Tree): (r: Tree)
    ensures Inorder(r) == Inorder(t)
    ensures r.Node? <==> t.Node?
    ensures HeightsOk(t) ==> HeightsOk(r)
  {
    if t.Nil? then t
    else
      var w := Weight(t);
      if w == LeftHeavy then
        var c := Lean(t.left);
        if c == LeftHeavy || c == Balanced then RotateRight(t)
        else RotateRight(t.(left := RotateLeft(t.left)))
      else if w == RightHeavy then
        var c := Lean(t.right);
        if c == RightHeavy || c == Balanced then RotateLeft(t)
        else RotateLeft(t.(right := RotateRight(t.right)))
      else t
  }

  /** The LL case: a single right rotation balances a vertex whose left child
      is two levels higher than its right child and does not lean right. */
  lemma RotateRightFixesLeftLeft(t: Tree)
    requires t.Node? && HeightsOk(t) && Avl(t.left) && Avl(t.right)
    requires Height(t.left) - Height(t.right) == 2
    requires Height(t.left.left) >= Height(t.left.right)
    ensures Balance(t) == RotateRight(t)
    ensures Avl(RotateRight(t))
    ensures Height(t) - 1 <= Height(RotateRight(t)) <= Height(t)
  {
    var l := t.left;
    var inner := UpdateHeight(Node(t.data, t.height, l.right, t.right));
    assert RotateRight(t) == UpdateHeight(Node(l.data, l.height, l.left, inner));
  }

  /** The LR case: rotating the left child left and then the vertex right
      balances a vertex whose left child is two levels higher and leans right. */
  lemma DoubleRotationFixesLeftRight(t: Tree)
    requires t.Node? && HeightsOk(t) && Avl(t.left) && Avl(t.right)
    requires Height(t.left) - Height(t.right) == 2
    requires Height(t.left.left) < Height(t.left.right)
    ensures Balance(t) == RotateRight(t.(left := RotateLeft(t.left)))
    ensures Avl(RotateRight(t.(left := RotateLeft(t.left))))
    ensures Height(RotateRight(t.(left := RotateLeft(t.left)))) == Height(t) - 1
  {
    var l := t.left;
    var lr := l.right;
    var k := Height(t.right);
    assert Height(l.left) == k && Height(lr) == k + 1;
    assert HeightBalanced(lr) && HeightsOk(lr);
    var a := UpdateHeight(Node(l.data, l.height, l.left, lr.left));
    var b := UpdateHeight(Node(t.data, t.height, lr.right, t.right));
    assert Avl(a) && Height(a) == k + 1;
    assert Avl(b) && Height(b) == k + 1;
    var rl := RotateLeft(l);
    assert rl.left == a && rl.data == lr.data && rl.right == lr.right;
    var r := RotateRight(t.(left := rl));
    assert r == UpdateHeight(Node(lr.data, rl.height, a, b));
  }

  /** The RR case, mirror of the LL case. */
  lemma RotateLeftFixesRightRight(t: Tree)
    requires t.Node? && HeightsOk(t) && Avl(t.left) && Avl(t.right)
    requires Height(t.left) - Height(t.right) == -2
    requires Height(t.right.right) >= Height(t.right.left)
    ensures Balance(t) == RotateLeft(t)
    ensures Avl(RotateLeft(t))
    ensures Height(t) - 1 <= Height(RotateLeft(t)) <= Height(t)
  {
    var r := t.right;
    var inner := UpdateHeight(Node(t.data, t.height, t.left, r.left));
    assert RotateLeft(t) == UpdateHeight(Node(r.data, r.height, inner, r.right));
  }

  /** The RL case, mirror of the LR case. */
  lemma DoubleRotationFixesRightLeft(t: Tree)
    requires t.Node? && HeightsOk(t) && Avl(t.left) && Avl(t.right)
    requires Height(t.left) - Height(t.right) == -2
    requires Height(t.right.right) < Height(t.right.left)
    ensures Balance(t) == RotateLeft(t.(right := RotateRight(t.right)))
    ensures Avl(RotateLeft(t.(right := RotateRight(t.right))))
    ensures Height(RotateLeft(t.(right := RotateRight(t.right)))) == Height(t) - 1
  {
    var r := t.right;
    var rl := r.left;
    var k := Height(t.left);
    assert Height(r.right) == k && Height(rl) == k + 1;
    assert HeightBalanced(rl) && HeightsOk(rl);
    var a := UpdateHeight(Node(t.data, t.height, t.left, rl.left));
    var b := UpdateHeight(Node(r.data, r.height, rl.right, r.right));
    assert Avl(a) && Height(a) == k + 1;
    assert Avl(b) && Height(b) == k + 1;
    var rr := RotateRight(r);
    assert rr.right == b && rr.data == rl.data && rr.left == rl.left;
    var n := RotateLeft(t.(right := rr));
    assert n == UpdateHeight(Node(rl.data, rr.height, a, b));
  }

  /** After one insertion or removal below it, a vertex with correct height and
      AVL children differs in child heights by at most two. Balance then leaves
      an AVL subtree whose height is the old one or one less, and changes
      nothing at all where the difference was already at most one. */
  lemma BalanceRestoresAvl(t: Tree)
    requires t.Node? && HeightsOk(t) && Avl(t.left) && Avl(t.right)
    requires -2 <= Height(t.left) - Height(t.right) <= 2
    ensures Avl(Balance(t))
    ensures Height(t) - 1 <= Height(Balance(t)) <= Height(t)
    ensures -1 <= Height(t.left) - Height(t.right) <= 1 ==> Balance(t) == t
  {
    var l, r := t.left, t.right;
    if Height(l) - Height(r) == 2 {
      if Height(l.left) >= Height(l.right) {
        RotateRightFixesLeftLeft(t);
      } else {
        DoubleRotationFixesLeftRight(t);
      }
    } else if Height(l) - Height(r) == -2 {
      if Height(r.right) >= Height(r.left) {
        RotateLeftFixesRightRight(t);
      } else {
        DoubleRotationFixesRightLeft(t);
      }
    }
  }
}
