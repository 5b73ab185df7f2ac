/**
 * The AVL<T> container itself: the root slot, the element counter and the
 * vertex cached by the last `find`, with the public operations over them.
 */
module AvlContainer {
  import opened AvlTree
  import opened AvlSearch
  import opened AvlUpdate
  import opened AvlIterator

  /** Moving one value from the values still to come to the stored ones keeps
      their union. */
  lemma MoveOne(stored: multiset<int>, stored': multiset<int>, rest: multiset<int>, later: multiset<int>, v: int)
    requires stored' == stored + multiset{v}
    requires rest == multiset{v} + later
    ensures stored' + later == stored + rest
  {
  }

  class AVL {
    var root: Tree
    /** The vertex the last `find` returned (`Nil` for null). */
    var finder: Tree
    var numberOfElements: int

    /** What every operation keeps about the vertices: binary-search order,
        correct stored heights and the AVL bound. */
    ghost predicate Valid()
      reads this
    {
      Ordered(root) && Avl(root)
    }

    /** The counter equals the number of stored values. `clear` breaks this
        (see Clear), so it is kept apart from Valid. */
    ghost predicate CountAccurate()
      reads this
    {
      numberOfElements == |Inorder(root)|
    }

    /** AVL(): an empty tree, no cached vertex, a count of zero. */
    constructor ()
      ensures Valid() && CountAccurate()
      ensures root == Nil && finder == Nil && numberOfElements == 0
    {
      root := Nil;
      finder := Nil;
      numberOfElements := 0;
    }

    /** AVL(const AVL& src): enumerate `src` in order with an iterator and
        insert each value. The source leaves the counter uninitialised; here
        it starts at zero, so the copy counts exactly the values copied. */
    constructor Copy(src: AVL)
      ensures Valid() && CountAccurate()
      ensures multiset(Inorder(root)) == multiset(Inorder(src.root))
      ensures finder == Nil
    {
      root := Nil;
      finder := Nil;
      numberOfElements := 0;
      new;
      InsertEach(src.root);
    }

    /** The loop of the copy constructor: an iterator starting at `s` with an
        empty stack produces the values of `s` in order, and each one is
        inserted. Every value of `s` is added, and the invariants survive. */
    method InsertEach(s: Tree)
      modifies this`root, this`numberOfElements
      ensures multiset(Inorder(root)) == old(multiset(Inorder(root))) + multiset(Inorder(s))
      ensures old(Valid()) ==> Valid()
      ensures old(CountAccurate()) ==> CountAccurate()
    {
      var it := new Iterator(s);
      ghost var start := multiset(Inorder(root));
      while it.HasNext()
        invariant it.Valid()
        invariant multiset(Inorder(root)) + multiset(it.Remaining()) == start + multiset(Inorder(s))
        invariant old(Valid()) ==> Valid()
        invariant old(CountAccurate()) ==> CountAccurate()
        decreases |it.Remaining()|
      {
        InsertNext(it);
      }
    }

    /** One round of the copy loop: take the next value from the iterator and
        insert it. Together the stored values and those still to come stay
        the same, and fewer values remain to come. */
    method InsertNext(it: Iterator)
      requires it.Valid() && it.HasNext()
      modifies this`root, this`numberOfElements, it
      ensures it.Valid()
      ensures multiset(Inorder(root)) + multiset(it.Remaining()) ==
        old(multiset(Inorder(root)) + multiset(it.Remaining()))
      ensures |it.Remaining()| < old(|it.Remaining()|)
      ensures old(Valid()) ==> Valid()
      ensures old(CountAccurate()) ==> CountAccurate()
    {
      ghost var stored := multiset(Inorder(root));
      ghost var rest := multiset(it.Remaining());
      var v := it.Next();
      ghost var later := multiset(it.Remaining());
      Insert(v);
      MoveOne(stored, multiset(Inorder(root)), rest, later, v);
    }

    /** insert(entry): the value goes in (duplicates included) and the
        counter goes up by exactly one. */
    method Insert(entry: int)
      modifies this`root, this`numberOfElements
      ensures root == InsertAt(entry, old(root))
      ensures multiset(Inorder(root)) == multiset(old(Inorder(root))) + multiset{entry}
      ensures numberOfElements == old(numberOfElements) + 1
      ensures old(Valid()) ==> Valid()
      ensures old(CountAccurate()) ==> CountAccurate()
    {
      var r := InsertAt(entry, root);
      InsertPreservesInvariants(entry, root);
      root := r;
      numberOfElements := numberOfElements + 1;
    }

    /** remove(target): one occurrence of the target goes and the counter
        drops by one when the descent finds it; otherwise nothing changes.
        `takeLeft` is the random side choice for a vertex with two children. */
    method Remove(target: int, takeLeft: bool)
      modifies this`root, this`numberOfElements
      ensures root == RemoveAt(target, old(root), takeLeft)
      ensures multiset(Inorder(root)) ==
        multiset(old(Inorder(root))) - (if FindAt(old(root), target).Node? then multiset{target} else multiset{})
      ensures numberOfElements ==
        old(numberOfElements) - (if FindAt(old(root), target).Node? then 1 else 0)
      ensures old(Valid()) ==> Valid()
      ensures old(Valid()) && target !in old(Inorder(root)) ==> root == old(root)
      ensures old(CountAccurate()) ==> CountAccurate()
    {
      RemovePreservesInvariants(target, root, takeLeft);
      if FindAt(root, target).Node? {
        numberOfElements := numberOfElements - 1;
      }
      root := RemoveAt(target, root, takeLeft);
    }

    /** find(target): cache the vertex the descent returns and report whether
        it is present; on an ordered tree exactly when the target is stored. */
    method Find(target: int) returns (found: bool)
      modifies this`finder
      ensures finder == FindAt(root, target)
      ensures found <==> finder.Node?
      ensures found ==> finder.data == target
      ensures Valid() ==> (found <==> target in Inorder(root))
    {
      if Valid() {
        FindCompleteOnOrdered(root, target);
      }
      finder := FindAt(root, target);
      found := finder.Node?;
    }

    /** get(target): an iterator whose cursor is the vertex the descent
        returns; it enumerates that vertex's subtree only. */
    method Get(target: int) returns (it: Iterator)
      ensures fresh(it) && it.Valid()
      ensures it.current == FindAt(root, target) && it.parents == []
      ensures it.Remaining() == Inorder(FindAt(root, target))
    {
      it := new Iterator(FindAt(root, target));
    }

    /** getFoundData: the value of the cached vertex; reading it is
        undefined unless a vertex is cached. */
    function GetFoundData(): (d: int)
      reads this
      requires finder.Node?
      ensures d == finder.data
    {
      finder.data
    }

    /** getMin: the smallest stored value; undefined on an empty tree. */
    method GetMin() returns (m: int)
      requires root.Node?
      ensures m == Inorder(root)[0]
      ensures Valid() ==> forall x :: x in Inorder(root) ==> m <= x
    {
      var v := GetMinVertex(root);
      m := v.data;
      if Valid() {
        LeftmostIsSmallest(root);
      }
    }

    /** getMax: the largest stored value; undefined on an empty tree. */
    method GetMax() returns (m: int)
      requires root.Node?
      ensures m == Inorder(root)[|Inorder(root)| - 1]
      ensures Valid() ==> forall x :: x in Inorder(root) ==> x <= m
    {
      var v := GetMaxVertex(root);
      m := v.data;
      if Valid() {
        RightmostIsLargest(root);
      }
    }

    /** getRootValue: the value at the root; undefined on an empty tree. */
    function GetRootValue(): (v: int)
      reads this
      requires root.Node?
      ensures v in Inorder(root)
    {
      root.data
    }

    /** getHeight: the root's stored height, -1 for an empty tree; on a valid
        tree the height of its shape. */
    function GetHeight(): (h: int)
      reads this
      ensures h == -1 <==> root.Nil?
      ensures Valid() ==> h == Depth(root)
    {
      StoredHeightIsDepth(root);
      Height(root)
    }

    /** size: the counter, which is the number of stored values as long as
        `clear` has not been called. */
    function Size(): (n: int)
      reads this
      ensures CountAccurate() ==> n == |Inorder(root)|
    {
      numberOfElements
    }

    /** isEmpty: the root is absent, that is, no value is stored. */
    function IsEmpty(): (b: bool)
      reads this
      ensures b <==> Inorder(root) == []
    {
      root.Nil?
    }

    /** clear(): all vertices go, but the counter is left as it was. */
    method Clear()
      modifies this`root
      ensures root == Nil && Valid()
      ensures numberOfElements == old(numberOfElements)
    {
      root := Nil;
    }

    /** clear() with the counter reset as well, as an empty tree requires. */
    method ClearAndResetCount()
      modifies this`root, this`numberOfElements
      ensures root == Nil && Valid() && CountAccurate()
      ensures numberOfElements == 0
    {
      root := Nil;
      numberOfElements := 0;
    }

    /** begin(): an iterator with the cursor at the root and an empty stack. */
    method Begin() returns (it: Iterator)
      ensures fresh(it) && it.Valid()
      ensures it.current == root && it.parents == []
      ensures it.Remaining() == Inorder(root)
    {
      it := new Iterator(root);
    }

    /** end(): an iterator with an absent cursor and an empty stack. */
    method End() returns (it: Iterator)
      ensures fresh(it) && it.Valid()
      ensures it.current == Nil && it.parents == []
      ensures !it.HasNext()
    {
      it := new Iterator(Nil);
    }
  }
}
