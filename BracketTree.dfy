/** The binary search tree of the Radamsa tree mutator base.  Node
    pointers are modelled as an algebraic datatype: `Null` is the null
    pointer.  Values are `size_t`, 64 bits wide by assumption. */
module BracketTree {

  const SIZE_MAX: nat := 0xFFFF_FFFF_FFFF_FFFF

  type SizeT = v: nat | v <= SIZE_MAX

  datatype Node = Null | Node(value: SizeT, left: Node, right: Node)

  // ---------------------------------------------------------------------------
  // The search-tree view: size, contents, in-order traversal, ordering

  /** Tree::getSize. */
  function Size(n: Node): nat
  {
    match n
    case Null => 0
    case Node(_, l, r) => 1 + Size(l) + Size(r)
  }

  function Values(n: Node): multiset<SizeT>
  {
    match n
    case Null => multiset{}
    case Node(v, l, r) => Values(l) + multiset{v} + Values(r)
  }

  lemma {:induction false} SizeCountsValues(n: Node)
    ensures |Values(n)| == Size(n)
    decreases n
  {
    match n
    case Null =>
    case Node(_, l, r) => SizeCountsValues(l); SizeCountsValues(r);
  }

  /** Every value in `n` is below `b`. */
  predicate Below(n: Node, b: int)
  {
    match n
    case Null => true
    case Node(v, l, r) => v < b && Below(l, b) && Below(r, b)
  }

  /** Every value in `n` is at least `b`. */
  predicate AtLeast(n: Node, b: int)
  {
    match n
    case Null => true
    case Node(v, l, r) => b <= v && AtLeast(l, b) && AtLeast(r, b)
  }

  lemma {:induction false} BoundsOfMembers(n: Node, b: int, x: SizeT)
    requires x in Values(n)
    ensures Below(n, b) ==> x < b
    ensures AtLeast(n, b) ==> b <= x
    decreases n
  {
    match n
    case Node(v, l, r) =>
      if x in Values(l) { BoundsOfMembers(l, b, x); }
      if x in Values(r) { BoundsOfMembers(r, b, x); }
  }

  /** The search-tree ordering of the source, duplicates going right:
      every value on the left is smaller than the node's, every value on the
      right is at least the node's. */
  predicate Ordered(n: Node)
  {
    match n
    case Null => true
    case Node(v, l, r) => Ordered(l) && Ordered(r) && Below(l, v) && AtLeast(r, v)
  }

  function InOrder(n: Node): (s: seq<SizeT>)
    ensures |s| == Size(n)
  {
    match n
    case Null => []
    case Node(v, l, r) => InOrder(l) + [v] + InOrder(r)
  }

  /** The subtrees of `n` in in-order (left, self, right) order. */
  function InOrderNodes(n: Node): (s: seq<Node>)
    ensures |s| == Size(n)
  {
    match n
    case Null => []
    case Node(_, l, r) => InOrderNodes(l) + [n] + InOrderNodes(r)
  }

  lemma {:induction false} InOrderNodesValues(n: Node)
    ensures forall k :: 0 <= k < Size(n) ==> InOrderNodes(n)[k].Node? && InOrderNodes(n)[k].value == InOrder(n)[k]
    decreases n
  {
    match n
    case Null =>
    case Node(_, l, r) => InOrderNodesValues(l); InOrderNodesValues(r);
  }

  predicate Sorted(s: seq<SizeT>)
  {
    forall i, j :: 0 <= i < j < |s| ==> s[i] <= s[j]
  }

  lemma SortedAround(a: seq<SizeT>, v: SizeT, b: seq<SizeT>)
    requires Sorted(a) && Sorted(b)
    requires forall i :: 0 <= i < |a| ==> a[i] < v
    requires forall i :: 0 <= i < |b| ==> v <= b[i]
    ensures Sorted(a + [v] + b)
  {
    var s := a + [v] + b;
    forall i, j | 0 <= i < j < |s| ensures s[i] <= s[j] {
      if j < |a| {
        assert s[i] == a[i] && s[j] == a[j];
      } else if i < |a| {
        assert s[i] == a[i];
        assert j == |a| || s[j] == b[j - |a| - 1];
      } else if i == |a| {
        assert s[j] == b[j - |a| - 1];
      } else {
        assert s[i] == b[i - |a| - 1] && s[j] == b[j - |a| - 1];
      }
    }
  }

  /** The in-order sequence of an ordered tree is sorted and lists its values. */
  lemma {:induction false} OrderedInOrder(n: Node)
    requires Ordered(n)
    ensures Sorted(InOrder(n)) && multiset(InOrder(n)) == Values(n)
    decreases n
  {
    match n
    case Null =>
    case Node(v, l, r) =>
      OrderedInOrder(l);
      OrderedInOrder(r);
      var a, b := InOrder(l), InOrder(r);
      forall i | 0 <= i < |a| ensures a[i] < v {
        assert a[i] in multiset(a);
        BoundsOfMembers(l, v, a[i]);
      }
      forall i | 0 <= i < |b| ensures v <= b[i] {
        assert b[i] in multiset(b);
        BoundsOfMembers(r, v, b[i]);
      }
      SortedAround(a, v, b);
  }

  lemma SortedHeadIsLeast(s: seq<SizeT>, x: SizeT)
    requires Sorted(s) && x in multiset(s)
    ensures s[0] <= x
  {
    assert x in s;
  }

  lemma MultisetTail(s: seq<SizeT>)
    requires s != []
    ensures multiset(s[1..]) == multiset(s) - multiset{s[0]}
  {
    assert s == [s[0]] + s[1..];
  }

  /** Two sorted sequences with the same elements are equal. */
  lemma {:induction false} SortedUnique(a: seq<SizeT>, b: seq<SizeT>)
    requires Sorted(a) && Sorted(b) && multiset(a) == multiset(b)
    ensures a == b
    decreases |a|
  {
    if a == [] {
      assert |multiset(b)| == 0;
    } else {
      assert |b| == |multiset(b)| == |multiset(a)| == |a|;
      assert a[0] in multiset(a) && b[0] in multiset(b);
      SortedHeadIsLeast(a, b[0]);
      SortedHeadIsLeast(b, a[0]);
      assert a[0] == b[0];
      MultisetTail(a);
      MultisetTail(b);
      SortedUnique(a[1..], b[1..]);
    }
  }

  /** The leftmost value of a non-empty subtree. */
  function LeftmostValue(n: Node): SizeT
    requires n.Node?
  {
    if n.left == Null then n.value else LeftmostValue(n.left)
  }

  /** The leftmost value is one of the values, and in an ordered tree it is
      the least value. */
  lemma {:induction false} LeftmostIsLeast(n: Node)
    requires n.Node?
    ensures LeftmostValue(n) in Values(n)
    ensures Ordered(n) ==> AtLeast(n, LeftmostValue(n))
    decreases n
  {
    if n.left != Null {
      LeftmostIsLeast(n.left);
      if Ordered(n) {
        AtLeastWeaken(n.right, n.value, LeftmostValue(n));
      }
    }
  }

  lemma {:induction false} LeftmostBounds(n: Node, b: int)
    requires n.Node?
    ensures Below(n, b) ==> LeftmostValue(n) < b
    ensures AtLeast(n, b) ==> b <= LeftmostValue(n)
    decreases n
  {
    if n.left != Null {
      LeftmostBounds(n.left, b);
    }
  }

  lemma {:induction false} AtLeastWeaken(n: Node, b: int, b': int)
    requires AtLeast(n, b) && b' <= b
    ensures AtLeast(n, b')
    decreases n
  {
    match n
    case Null =>
    case Node(_, l, r) => AtLeastWeaken(l, b, b'); AtLeastWeaken(r, b, b');
  }

  // ---------------------------------------------------------------------------
  // Tree::insertNode, Tree::deleteNodeByValue, Tree::findByIndex

  /** Tree::insertNode: a new leaf where the search for `value` ends,
      duplicates going right. */
  method InsertNode(n: Node, value: SizeT) returns (r: Node)
    ensures r.Node?
    ensures Size(r) == Size(n) + 1
    ensures Values(r) == Values(n) + multiset{value}
    ensures forall b :: Below(n, b) && value < b ==> Below(r, b)
    ensures forall b :: AtLeast(n, b) && b <= value ==> AtLeast(r, b)
    ensures Ordered(n) ==> Ordered(r)
    decreases n
  {
    if n == Null {
      return Node(value, Null, Null);
    }
    if value < n.value {
      var l := InsertNode(n.left, value);
      r := Node(n.value, l, n.right);
    } else {
      var rt := InsertNode(n.right, value);
      r := Node(n.value, n.left, rt);
    }
  }

  /** What Tree::deleteNodeByValue makes of a subtree: the first node on the
      search path holding `x` is removed; one with two children takes the
      leftmost value of its right subtree, which is then deleted there. */
  function Deleted(n: Node, x: SizeT): Node
    decreases n
  {
    match n
    case Null => Null
    case Node(v, l, r) =>
      if v > x then Node(v, Deleted(l, x), r)
      else if v < x then Node(v, l, Deleted(r, x))
      else if l == Null then r
      else if r == Null then l
      else Node(LeftmostValue(r), l, Deleted(r, LeftmostValue(r)))
  }

  /** Deleting never brings in a value outside the bounds of the subtree. */
  lemma {:induction false} DeletedBounds(n: Node, x: SizeT, b: int)
    ensures Below(n, b) ==> Below(Deleted(n, x), b)
    ensures AtLeast(n, b) ==> AtLeast(Deleted(n, x), b)
    decreases n
  {
    match n
    case Null =>
    case Node(v, l, r) =>
      if v > x {
        DeletedBounds(l, x, b);
      } else if v < x {
        DeletedBounds(r, x, b);
      } else if l != Null && r != Null {
        LeftmostIsLeast(r);
        DeletedBounds(r, LeftmostValue(r), b);
        LeftmostBounds(r, b);
      }
  }

  /** Deleting keeps a tree ordered. */
  lemma {:induction false} DeletedOrdered(n: Node, x: SizeT)
    requires Ordered(n)
    ensures Ordered(Deleted(n, x))
    decreases n
  {
    match n
    case Null =>
    case Node(v, l, r) =>
      if v > x {
        DeletedOrdered(l, x);
        DeletedBounds(l, x, v);
      } else if v < x {
        DeletedOrdered(r, x);
        DeletedBounds(r, x, v);
      } else if l != Null && r != Null {
        var m := LeftmostValue(r);
        LeftmostIsLeast(r);
        DeletedOrdered(r, m);
        DeletedBounds(r, m, m);
        LeftmostBounds(r, v);
        BelowWeaken(l, v, m);
      }
  }

  lemma RemoveFromFirst(a: multiset<SizeT>, v: SizeT, b: multiset<SizeT>, x: SizeT)
    requires x in a
    ensures (a - multiset{x}) + multiset{v} + b == (a + multiset{v} + b) - multiset{x}
  {
  }

  lemma RemoveFromLast(a: multiset<SizeT>, v: SizeT, b: multiset<SizeT>, x: SizeT)
    requires x in b
    ensures a + multiset{v} + (b - multiset{x}) == (a + multiset{v} + b) - multiset{x}
  {
  }

  lemma ReplaceRoot(a: multiset<SizeT>, m: SizeT, b: multiset<SizeT>, v: SizeT)
    requires m in b
    ensures a + multiset{m} + (b - multiset{m}) == (a + multiset{v} + b) - multiset{v}
  {
    assert multiset{m} + (b - multiset{m}) == b;
  }

  /** In an ordered tree, deleting a present value takes out exactly one
      occurrence of it. */
  lemma {:induction false} DeletedValues(n: Node, x: SizeT)
    requires Ordered(n) && x in Values(n)
    ensures Values(Deleted(n, x)) == Values(n) - multiset{x}
    decreases n, 1
  {
    var v, l, r := n.value, n.left, n.right;
    if v > x {
      DeletedValuesLeft(n, x);
    } else if v < x {
      DeletedValuesRight(n, x);
    } else if l != Null && r != Null {
      DeletedValuesSuccessor(n, x);
    }
  }

  lemma {:induction false} DeletedValuesSuccessor(n: Node, x: SizeT)
    requires Ordered(n) && n.Node? && n.value == x && n.left != Null && n.right != Null
    ensures Values(Deleted(n, x)) == Values(n) - multiset{x}
    decreases n, 0
  {
    var r := n.right;
    var m := LeftmostValue(r);
    LeftmostIsLeast(r);
    DeletedValues(r, m);
    assert Deleted(n, x) == Node(m, n.left, Deleted(r, m));
    ReplaceRoot(Values(n.left), m, Values(r), x);
  }

  lemma {:induction false} DeletedValuesLeft(n: Node, x: SizeT)
    requires Ordered(n) && x in Values(n) && n.value > x
    ensures Values(Deleted(n, x)) == Values(n) - multiset{x}
    decreases n, 0
  {
    var v, l, r := n.value, n.left, n.right;
    if x in Values(r) {
      BoundsOfMembers(r, v, x);
    }
    assert x in Values(l);
    DeletedValues(l, x);
    RemoveFromFirst(Values(l), v, Values(r), x);
  }

  lemma {:induction false} DeletedValuesRight(n: Node, x: SizeT)
    requires Ordered(n) && x in Values(n) && n.value < x
    ensures Values(Deleted(n, x)) == Values(n) - multiset{x}
    decreases n, 0
  {
    var v, l, r := n.value, n.left, n.right;
    if x in Values(l) {
      BoundsOfMembers(l, v, x);
    }
    assert x in Values(r);
    DeletedValues(r, x);
    RemoveFromLast(Values(l), v, Values(r), x);
  }

  /** In an ordered tree, deleting an absent value changes nothing. */
  lemma {:induction false} DeletedAbsent(n: Node, x: SizeT)
    requires Ordered(n) && x !in Values(n)
    ensures Deleted(n, x) == n
    decreases n
  {
    match n
    case Null =>
    case Node(v, l, r) =>
      if v > x {
        DeletedAbsent(l, x);
      } else if v < x {
        DeletedAbsent(r, x);
      }
  }

  /** Tree::deleteNodeByValue, with the source's walk down the left spine of
      the right subtree to find the in-order successor. */
  method DeleteNodeByValue(n: Node, valueToFind: SizeT) returns (r: Node)
    ensures r == Deleted(n, valueToFind)
    decreases n
  {
    if n == Null {
      return Null;
    }
    if n.value > valueToFind {
      var l := DeleteNodeByValue(n.left, valueToFind);
      r := Node(n.value, l, n.right);
    } else if n.value < valueToFind {
      var rt := DeleteNodeByValue(n.right, valueToFind);
      r := Node(n.value, n.left, rt);
    } else if n.left == Null {
      r := n.right;
    } else if n.right == Null {
      r := n.left;
    } else {
      var successor := n.right;
      while successor.left != Null
        invariant successor.Node?
        invariant LeftmostValue(successor) == LeftmostValue(n.right)
        decreases successor
      {
        successor := successor.left;
      }
      var rt := DeleteNodeByValue(n.right, successor.value);
      r := Node(successor.value, n.left, rt);
    }
  }

  /** The size drops by one exactly when a present value is deleted. */
  lemma DeletedSize(n: Node, x: SizeT)
    requires Ordered(n)
    ensures Size(Deleted(n, x)) == if x in Values(n) then Size(n) - 1 else Size(n)
  {
    if x in Values(n) {
      DeletedValues(n, x);
    } else {
      DeletedAbsent(n, x);
    }
    SizeCountsValues(n);
    SizeCountsValues(Deleted(n, x));
  }

  lemma {:induction false} BelowWeaken(n: Node, b: int, b': int)
    requires Below(n, b) && b <= b'
    ensures Below(n, b')
    decreases n
  {
    match n
    case Null =>
    case Node(_, l, r) => BelowWeaken(l, b, b'); BelowWeaken(r, b, b');
  }

  /** Tree::findByIndex with its by-reference counter: the node at position
      `indexToFind` of the in-order traversal and the counter left at 0, or
      the null pointer and the counter lowered by the size of the subtree. */
  method FindByIndex(n: Node, indexToFind: nat) returns (found: Node, remaining: nat)
    ensures indexToFind < Size(n) ==> found == InOrderNodes(n)[indexToFind] && remaining == 0
    ensures indexToFind < Size(n) ==> found.Node? && found.value == InOrder(n)[indexToFind]
    ensures indexToFind >= Size(n) ==> found == Null && remaining == indexToFind - Size(n)
    decreases n
  {
    InOrderNodesValues(n);
    if n == Null {
      return Null, indexToFind;
    }
    var leftResult, k := FindByIndex(n.left, indexToFind);
    if leftResult != Null {
      return leftResult, k;
    }
    if k == 0 {
      return n, k;
    }
    k := k - 1;
    found, remaining := FindByIndex(n.right, k);
  }

  /** A sequence with its element at `k` removed. */
  function Without(s: seq<SizeT>, k: nat): seq<SizeT>
    requires k < |s|
  {
    s[..k] + s[k + 1..]
  }

  /** Removing one element from a sorted sequence keeps it sorted and takes
      exactly that element out of its multiset. */
  lemma WithoutSorted(s: seq<SizeT>, k: nat)
    requires k < |s| && Sorted(s)
    ensures Sorted(Without(s, k))
    ensures multiset(Without(s, k)) == multiset(s) - multiset{s[k]}
  {
    var w := Without(s, k);
    forall i, j | 0 <= i < j < |w| ensures w[i] <= w[j] {
      var i' := if i < k then i else i + 1;
      var j' := if j < k then j else j + 1;
      assert w[i] == s[i'] && w[j] == s[j'];
    }
    assert s == s[..k] + [s[k]] + s[k + 1..];
  }

  /** Deleting, from an ordered tree, the value at position `k` of its
      in-order sequence takes out exactly that position. */
  lemma DeletedInOrder(t: Node, k: nat)
    requires Ordered(t) && k < Size(t)
    ensures InOrder(Deleted(t, InOrder(t)[k])) == Without(InOrder(t), k)
  {
    var s := InOrder(t);
    var x := s[k];
    OrderedInOrder(t);
    assert x in multiset(s);
    DeletedOrdered(t, x);
    DeletedValues(t, x);
    OrderedInOrder(Deleted(t, x));
    WithoutSorted(s, k);
    SortedUnique(InOrder(Deleted(t, x)), Without(s, k));
  }

  /** The owner of the root: Tree::root and Tree::deleteNodeByIndex. */
  class Tree {
    var root: Node

    /** Tree(): the empty tree. */
    constructor Empty()
      ensures root == Null
    {
      root := Null;
    }

    constructor FromRoot(n: Node)
      ensures root == n
    {
      root := n;
    }

    /** Tree::deleteNodeByIndex: deletes, by value, the node at position
        `indexToFind` of the in-order traversal; on an ordered tree this takes
        exactly that position out of the in-order sequence. */
    method DeleteNodeByIndex(indexToFind: nat) returns (newRoot: Node)
      modifies this
      ensures newRoot == root
      ensures indexToFind >= Size(old(root)) ==> root == old(root)
      ensures indexToFind < Size(old(root)) ==>
                root == Deleted(old(root), InOrder(old(root))[indexToFind])
      ensures Ordered(old(root)) ==> Ordered(root)
      ensures Ordered(old(root)) && indexToFind < Size(old(root)) ==>
                InOrder(root) == Without(InOrder(old(root)), indexToFind)
    {
      var nodeToDelete, _ := FindByIndex(root, indexToFind);
      if nodeToDelete != Null {
        var before := root;
        root := DeleteNodeByValue(root, nodeToDelete.value);
        if Ordered(before) {
          InOrderNodesValues(before);
          DeletedOrdered(before, nodeToDelete.value);
          DeletedInOrder(before, indexToFind);
        }
      }
      newRoot := root;
    }
  }

}
