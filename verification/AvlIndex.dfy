/** The AVL tree as its users see it: a sorted sequence that is changed by insertion and removal,
    searched by key and walked by parent links. */
module AvlIndex {
  import opened AvlShape
  import opened AvlTree

  // ---- a tree around one of its subtrees ----

  /** What surrounds a subtree: the node above it, the side it hangs on, its sibling, and so on up. */
  datatype Ctx = Top | Above(n: Node, side: Side, sib: Tree, up: Ctx)

  ghost function Plug(c: Ctx, t: Tree): Tree {
    match c
    case Top => t
    case Above(n, side, sib, up) => Plug(up, Joined(n, side, t, sib))
  }

  function Joined(n: Node, side: Side, t: Tree, sib: Tree): Tree {
    if side == L then Fork(n, t, sib) else Fork(n, sib, t)
  }

  function Before(c: Ctx): seq<Node> {
    if c.Top? then [] else if c.side == L then Before(c.up) else Before(c.up) + InOrder(c.sib) + [c.n]
  }

  function After(c: Ctx): seq<Node> {
    if c.Top? then [] else if c.side == L then [c.n] + InOrder(c.sib) + After(c.up) else After(c.up)
  }

  lemma {:induction false} PlugInOrder(c: Ctx, t: Tree)
    ensures InOrder(Plug(c, t)) == Before(c) + InOrder(t) + After(c)
  {
    if c.Above? {
      hide InOrder;
      var u := Joined(c.n, c.side, t, c.sib);
      PlugInOrder(c.up, u);
      InOrderFork(u);
      Concat5(Before(c.up), InOrder(u.l), c.n, InOrder(u.r), After(c.up));
    } else {
      assert Before(c) + InOrder(t) + After(c) == InOrder(t);
    }
  }

  lemma Concat5(a: seq<Node>, l: seq<Node>, n: Node, r: seq<Node>, z: seq<Node>)
    ensures a + (l + [n] + r) + z == a + l + ([n] + r + z)
    ensures a + (l + [n] + r) + z == (a + l + [n]) + r + z
  {
  }

  lemma {:induction false} PlugDistinct(c: Ctx, t: Tree)
    requires Distinct(Plug(c, t))
    ensures Distinct(t)
  {
    if c.Above? { PlugDistinct(c.up, Joined(c.n, c.side, t, c.sib)); }
  }

  ghost function CtxNodes(c: Ctx): set<Node> {
    if c.Top? then {} else {c.n} + Nodes(c.sib) + CtxNodes(c.up)
  }

  ghost function Parent(c: Ctx): Node? { if c.Top? then null else c.n }

  /** The links around the subtree at `m`. */
  ghost predicate LinkedCtx(c: Ctx, m: Node?)
    reads CtxNodes(c)
  {
    c.Above? ==>
      && Link(c.n, c.side) == m && Linked(Link(c.n, Other(c.side)), c.sib, c.n)
      && c.n.parent == Parent(c.up) && LinkedCtx(c.up, c.n)
  }

  /** The subtree whose top is the i-th node in order. */
  lemma {:induction false} Focus(up: Ctx, t: Tree, i: nat) returns (c: Ctx, u: Tree)
    requires i < |InOrder(t)| && Linked(Root(t), t, Parent(up)) && LinkedCtx(up, Root(t))
    ensures Plug(c, u) == Plug(up, t) && u.Fork? && u.n == InOrder(t)[i]
    ensures |Before(c)| + |InOrder(u.l)| == |Before(up)| + i
    ensures Linked(u.n, u, Parent(c)) && LinkedCtx(c, u.n)
    decreases t
  {
    hide H, Nodes;
    InOrderFork(t);
    LinkedRoot(t.n.left, t.l, t.n);
    LinkedRoot(t.n.right, t.r, t.n);
    var k := |InOrder(t.l)|;
    if i < k {
      c, u := Focus(Above(t.n, L, t.r, up), t.l, i);
    } else if i == k {
      c, u := up, t;
    } else {
      c, u := Focus(Above(t.n, R, t.l, up), t.r, i - k - 1);
    }
  }

  // ---- positions in the sorted sequence ----

  function At(s: seq<Node>, i: nat): Node? { if i < |s| then s[i] else null }

  /** `i` separates the keys below `key` from those at or above it. */
  ghost predicate Bound(s: seq<Node>, key: int, i: nat) {
    i <= |s| && (forall j :: 0 <= j < i ==> s[j].key < key) && (forall j :: i <= j < |s| ==> s[j].key >= key)
  }

  /** The number of leading elements below `key`. */
  function LowerBound(s: seq<Node>, key: int): nat {
    if s == [] || s[0].key >= key then 0 else 1 + LowerBound(s[1..], key)
  }

  /** Only the lower bound separates the keys. */
  lemma {:induction false} BoundIsLower(s: seq<Node>, key: int, i: nat)
    requires Bound(s, key, i)
    ensures i == LowerBound(s, key)
  {
    if s != [] && i > 0 { BoundIsLower(s[1..], key, i - 1); }
  }

  /** In a sorted sequence the lower bound separates the keys below from those at or above. */
  lemma {:induction false} LowerBoundSplits(s: seq<Node>, key: int)
    requires SortedSeq(s)
    ensures Bound(s, key, LowerBound(s, key))
  {
    if s != [] && s[0].key < key { LowerBoundSplits(s[1..], key); }
  }

  ghost predicate Below(s: seq<Node>, key: int) { forall x :: x in s ==> x.key < key }

  ghost predicate NotBelow(s: seq<Node>, key: int) { forall x :: x in s ==> x.key >= key }

  lemma SplitSorted(a: seq<Node>, l: seq<Node>, n: Node, r: seq<Node>, b: seq<Node>, key: int)
    requires SortedSeq(a + (l + [n] + r) + b)
    ensures n.key < key ==> Below(l + [n], key)
    ensures n.key >= key ==> NotBelow([n] + r, key)
    ensures n.key > key ==> NotBelow([n] + r, key + 1)
  {
    var s, k := a + (l + [n] + r) + b, |a| + |l|;
    assert s[k] == n;
    forall i | 0 <= i < |l| ensures l[i].key <= n.key { assert s[|a| + i] == l[i]; }
    forall i | 0 <= i < |r| ensures n.key <= r[i].key { assert s[k + 1 + i] == r[i]; }
  }

  lemma BelowConcat(a: seq<Node>, b: seq<Node>, key: int)
    ensures Below(a + b, key) <==> Below(a, key) && Below(b, key)
    ensures NotBelow(a + b, key) <==> NotBelow(a, key) && NotBelow(b, key)
  {
    assert forall x :: x in a ==> x in a + b;
    assert forall x :: x in b ==> x in a + b;
  }

  lemma BoundAt(a: seq<Node>, b: seq<Node>, key: int)
    requires Below(a, key) && NotBelow(b, key)
    ensures Bound(a + b, key, |a|)
  {
  }

  lemma {:induction false} MinusIn(s: seq<Node>, x: Node)
    ensures forall y :: y in Minus(s, x) ==> y in s
  {
    if s != [] && s[0] != x { MinusIn(s[1..], x); }
  }

  lemma StrictPrepend(n: Node, s: seq<Node>)
    requires StrictlySorted(s) && forall y :: y in s ==> n.key < y.key
    ensures StrictlySorted([n] + s)
  {
  }

  lemma StrictTail(s: seq<Node>)
    requires StrictlySorted(s) && s != []
    ensures StrictlySorted(s[1..]) && forall y :: y in s[1..] ==> s[0].key < y.key
  {
  }

  lemma {:induction false} MinusSorted(s: seq<Node>, x: Node)
    requires StrictlySorted(s)
    ensures StrictlySorted(Minus(s, x))
  {
    hide StrictlySorted;
    if s != [] {
      StrictTail(s);
      if s[0] != x {
        MinusSorted(s[1..], x);
        MinusIn(s[1..], x);
        StrictPrepend(s[0], Minus(s[1..], x));
      }
    }
  }

  class Index {
    var root: Node?
    ghost var shape: Tree

    /** Linked, height-labelled and sorted. */
    ghost predicate Valid()
      reads this, Nodes(shape)
    {
      Linked(root, shape, null) && Distinct(shape) && SortedSeq(InOrder(shape))
    }

    constructor ()
      ensures Valid() && shape == Leaf
    {
      root, shape := null, Leaf;
    }

    /** avltree_insert: the node comes after everything not greater, and an AVL tree stays one. */
    method Insert(node: Node) returns (ghost p: nat)
      requires Valid() && InsertFits(shape, node)
      requires node !in Nodes(shape) && node.left == node.right == null
      modifies this, Nodes(shape), node
      ensures Valid() && shape == AvlShape.Insert(old(shape), node) && Nodes(shape) == old(Nodes(shape)) + {node}
      ensures var s := InOrder(old(shape));
        && p <= |s| && InOrder(shape) == s[..p] + [node] + s[p..]
        && (forall i :: 0 <= i < p ==> s[i].key <= node.key) && (forall i :: p <= i < |s| ==> s[i].key > node.key)
      ensures Balanced(old(shape)) ==> Balanced(shape)
    {
      hide Nodes, Linked, Distinct, H, Balanced, AvlShape.Insert, SortedSeq;
      ghost var t := shape;
      assert allocated(Nodes(t));
      node.height := 1;
      root := InsertHelper(null, root, node, t);
      shape := AvlShape.Insert(t, node);
      InsertNodes(t, node);
      InsertSorted(t, node);
      if Balanced(t) { InsertBalanced(t, node); }
      p := InsertInOrder(t, node);
    }

    /** avltree_remove: exactly the node leaves the sequence; whether balance is kept is known beforehand. */
    method Remove(node: Node) returns (found: bool)
      requires Valid() && StrictlySorted(InOrder(shape)) && RemoveFits(shape, node)
      modifies this, Nodes(shape)
      ensures Valid() && shape == AvlShape.Remove(old(shape), node).1
      ensures found <==> node in InOrder(old(shape))
      ensures InOrder(shape) == if found then Minus(InOrder(old(shape)), node) else InOrder(old(shape))
      ensures StrictlySorted(InOrder(shape))
      ensures Balanced(old(shape)) ==> (Balanced(shape) <==> SafeRemove(old(shape), node))
    {
      hide Nodes, Linked, Distinct, H, Balanced, SafeRemove, AvlShape.Remove, InOrder, Minus;
      ghost var t := shape;
      found, root := RemoveHelper(root, node, t, null);
      shape := AvlShape.Remove(t, node).1;
      RemoveNodes(t, node);
      RemoveInOrder(t, node);
      MinusSorted(InOrder(t), node);
      if Balanced(t) { RemoveBalancedIff(t, node); }
    }

    method Lookup(key: int) returns (r: Node?)
      requires Valid()
      ensures r != null ==> r in InOrder(shape) && r.key == key
      ensures r == null ==> forall x :: x in InOrder(shape) ==> x.key != key
    {
      hide Nodes, Distinct, H, SortedSeq, Below, NotBelow, InOrder;
      ghost var t, q := shape, null;
      ghost var a: seq<Node>, b: seq<Node> := [], [];
      EmptyBelow(key);
      r := root;
      while r != null
        invariant Linked(r, t, q) && InOrder(shape) == a + InOrder(t) + b
        invariant Below(a, key) && NotBelow(b, key + 1)
        decreases t
      {
        InOrderFork(t);
        if key < r.key {
          SearchLeft(a, InOrder(t.l), t.n, InOrder(t.r), b, key, key + 1);
          b := [t.n] + InOrder(t.r) + b;
          q, t := r, t.l;
          r := r.left;
        } else if key > r.key {
          SearchRight(a, InOrder(t.l), t.n, InOrder(t.r), b, key);
          a := a + InOrder(t.l) + [t.n];
          q, t := r, t.r;
          r := r.right;
        } else {
          return;
        }
      }
      LeafInOrder();
      NoneEqual(a, b, key);
    }

    /** avltree_first_superior_or_equal: the first node of the suffix at or above the key. */
    method FirstAtOrAbove(key: int) returns (best: Node?)
      requires Valid()
      ensures best == At(InOrder(shape), LowerBound(InOrder(shape), key))
    {
      hide Nodes, Distinct, H, SortedSeq, Below, NotBelow, InOrder;
      ghost var t, q := shape, null;
      ghost var a: seq<Node>, b: seq<Node> := [], [];
      EmptyBelow(key);
      var node := root;
      best := null;
      while node != null
        invariant Linked(node, t, q) && InOrder(shape) == a + InOrder(t) + b
        invariant Below(a, key) && NotBelow(b, key) && best == At(b, 0)
        decreases t
      {
        InOrderFork(t);
        if key <= node.key {
          SearchLeft(a, InOrder(t.l), t.n, InOrder(t.r), b, key, key);
          best := node;
          b := [t.n] + InOrder(t.r) + b;
          q, t := node, t.l;
          node := node.left;
        } else {
          SearchRight(a, InOrder(t.l), t.n, InOrder(t.r), b, key);
          a := a + InOrder(t.l) + [t.n];
          q, t := node, t.r;
          node := node.right;
        }
      }
      LeafInOrder();
      assert a + [] + b == a + b;
      BoundAt(a, b, key);
      BoundIsLower(a + b, key, |a|);
    }

    method First() returns (r: Node?)
      requires Valid()
      ensures r == At(InOrder(shape), 0)
    {
      hide Nodes, Distinct, H, SortedSeq;
      r := LeftmostAt(root, shape, null);
      if shape.Fork? { LeftmostFirst(shape); }
    }

    /** avltree_next: from the i-th node in order to the one after it. */
    method Next(start: Node?, ghost i: nat) returns (r: Node?)
      requires Valid() && (start != null ==> i < |InOrder(shape)| && InOrder(shape)[i] == start)
      ensures r == if start == null then null else At(InOrder(shape), i + 1)
    {
      hide Nodes, Distinct, H, SortedSeq, InOrder, Linked;
      if start == null { return null; }
      var node := start;
      LinkedRoot(root, shape, null);
      ghost var c, u := Focus(Top, shape, i);
      PlugInOrder(c, u);
      InOrderFork(u);
      LinkedRoot(node, u, Parent(c));
      LinkedRoot(node.right, u.r, node);
      LeafInOrder();
      if node.right != null {
        r := LeftmostAt(node.right, u.r, node);
        LeftmostFirst(u.r);
        NextInside(Before(c), InOrder(u.l), node, InOrder(u.r), After(c));
        return;
      }
      NextOutside(Before(c), InOrder(u.l), node, After(c));
      ghost var rest := After(c);
      var parent := node.parent;
      while parent != null && parent.right == node
        invariant u.Fork? && u.n == node && parent == Parent(c) && Plug(c, u) == shape
        invariant LinkedCtx(c, node) && After(c) == rest
        decreases c
      {
        UpFromLeft(c, u);
        u := Joined(c.n, c.side, u, c.sib);
        c := c.up;
        node := parent;
        parent := node.parent;
      }
      if c.Above? { UpFromRight(c, u); }
      r := parent;
    }

    /** The loop that users write: it visits exactly the sorted suffix at or above the key. */
    method WalkFrom(key: int) returns (visited: seq<Node>)
      requires Valid()
      ensures Bound(InOrder(shape), key, LowerBound(InOrder(shape), key))
      ensures visited == InOrder(shape)[LowerBound(InOrder(shape), key)..]
    {
      hide Nodes, Distinct, H, SortedSeq, InOrder, Linked;
      assert allocated(Nodes(shape));
      LowerBoundSplits(InOrder(shape), key);
      var node := FirstAtOrAbove(key);
      ghost var s, i := InOrder(shape), LowerBound(InOrder(shape), key);
      ghost var k := i;
      visited := [];
      while node != null
        invariant Valid() && i <= k <= |s| && node == At(s, k) && visited == s[i..k]
        decreases |s| - k
      {
        visited := visited + [node];
        assert allocated(Nodes(shape));
        node := Next(node, k);
        k := k + 1;
      }
    }
  }

  lemma EmptyBelow(key: int)
    ensures Below([], key) && NotBelow([], key) && NotBelow([], key + 1)
  {
  }

  lemma SearchLeft(a: seq<Node>, l: seq<Node>, n: Node, r: seq<Node>, b: seq<Node>, key: int, bound: int)
    requires SortedSeq(a + (l + [n] + r) + b) && bound <= n.key && key <= bound <= key + 1 && NotBelow(b, bound)
    ensures NotBelow([n] + r + b, bound)
    ensures a + (l + [n] + r) + b == a + l + ([n] + r + b)
  {
    SplitSorted(a, l, n, r, b, bound);
    BelowConcat([n] + r, b, bound);
    Concat5(a, l, n, r, b);
  }

  lemma SearchRight(a: seq<Node>, l: seq<Node>, n: Node, r: seq<Node>, b: seq<Node>, key: int)
    requires SortedSeq(a + (l + [n] + r) + b) && n.key < key && Below(a, key)
    ensures Below(a + l + [n], key)
    ensures a + (l + [n] + r) + b == (a + l + [n]) + r + b
  {
    SplitSorted(a, l, n, r, b, key);
    BelowConcat(a, l + [n], key);
    assert a + l + [n] == a + (l + [n]);
    Concat5(a, l, n, r, b);
  }

  lemma NoneEqual(a: seq<Node>, b: seq<Node>, key: int)
    requires Below(a, key) && NotBelow(b, key + 1)
    ensures forall x :: x in a + [] + b ==> x.key != key
  {
  }

  lemma NextInside(a: seq<Node>, l: seq<Node>, n: Node, r: seq<Node>, b: seq<Node>)
    requires r != []
    ensures At(a + (l + [n] + r) + b, |a| + |l| + 1) == r[0]
  {
  }

  lemma NextOutside(a: seq<Node>, l: seq<Node>, n: Node, b: seq<Node>)
    ensures At(a + (l + [n] + []) + b, |a| + |l| + 1) == At(b, 0)
  {
  }

  /** A parent whose right link is the subtree has it on its right: nothing after the subtree changes. */
  lemma UpFromLeft(c: Ctx, u: Tree)
    requires c.Above? && LinkedCtx(c, Root(u)) && u.Fork? && c.n.right == u.n && Distinct(Plug(c, u))
    ensures c.side == R && After(c) == After(c.up)
  {
    hide H;
    PlugDistinct(c.up, Joined(c.n, c.side, u, c.sib));
    LinkedRoot(Link(c.n, Other(c.side)), c.sib, c.n);
  }

  lemma UpFromRight(c: Ctx, u: Tree)
    requires c.Above? && LinkedCtx(c, Root(u)) && u.Fork? && c.n.right != u.n
    ensures c.side == L && At(After(c), 0) == c.n
  {
  }
}
