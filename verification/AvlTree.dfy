/** AVL insertion and deletion on linked nodes: avl.c. */
module AvlTree {
  import opened Links
  import opened Order
  import opened Container
  import opened Rotations
  import opened BinaryTree
  import opened TreeDeletion
  import opened AvlTrees

  /** A pointer to a link, `usrtc_node_t **`: the address of a node's left or right field. */
  datatype Slot = LeftOf(n: Node) | RightOf(n: Node) {
    function Get(): Node?
      reads n
    {
      if LeftOf? then n.left else n.right
    }

    method Put(v: Node)
      modifies n`left, n`right
      ensures n.left == (if LeftOf? then v else old(n.left)) && n.right == (if LeftOf? then old(n.right) else v)
    {
      if LeftOf? {
        n.left := v;
      } else {
        n.right := v;
      }
    }
  }

  /** The link that leads to the hole of `c`. */
  ghost function SlotOf(c: Ctx, nil: Node): Slot {
    if c.InR? then RightOf(c.e.n) else LeftOf(Up(c, nil))
  }

  /** The part of the rotation below the link `top`; `parent` may share its grandchild, the sentinel, with `top`. */
  method TurnLeft(parent: Node, child: Node, ghost S: set<Node>)
    requires parent.right == child && child.left != null && {parent, child, child.left} <= S
    requires parent !in {child, child.left} && child != child.left
    modifies parent, child, child.left`parent
    ensures var h, g, b := old(Snap(S)), old(parent.parent), old(child.left);
      && Agree(h, Snap(S), {parent, child, b})
      && Snap(S)[child] == h[child].(left := parent, parent := g)
      && Snap(S)[parent] == h[parent].(right := b, parent := child)
      && Snap(S)[b] == h[b].(parent := parent)
  {
    child.parent := parent.parent;
    parent.right := child.left;
    parent.right.parent := parent;
    child.left := parent;
    parent.parent := child;
  }

  method RotateSlotLeft(top: Slot, ghost c: Ctx, ghost t: Tree, ghost nil: Node, ghost S: set<Node>)
    requires t.Fork? && t.r.Fork? && At(c, t, nil, Snap(S)) && top == SlotOf(c, nil)
    modifies S
    ensures At(c, RotLeft(t), nil, Snap(S)) && nil.mark == old(nil.mark)
  {
    hide At, Shape, CShape, Nodes, CNodes, Distinct, Apart, Plug, Inorder;
    ghost var h := Snap(S);
    LeftLinks(c, t, nil, h);
    var parent := top.Get();
    var child := parent.right;
    TurnLeft(parent, child, S);
    top.Put(child);
    LeftRotated(c, t, nil, h, Snap(S));
  }

  /** The part of the rotation below the link `top`; `parent` may share its grandchild, the sentinel, with `top`. */
  method TurnRight(parent: Node, child: Node, ghost S: set<Node>)
    requires parent.left == child && child.right != null && {parent, child, child.right} <= S
    requires parent !in {child, child.right} && child != child.right
    modifies parent, child, child.right`parent
    ensures var h, g, b := old(Snap(S)), old(parent.parent), old(child.right);
      && Agree(h, Snap(S), {parent, child, b})
      && Snap(S)[child] == h[child].(right := parent, parent := g)
      && Snap(S)[parent] == h[parent].(left := b, parent := child)
      && Snap(S)[b] == h[b].(parent := parent)
  {
    child.parent := parent.parent;
    parent.left := child.right;
    parent.left.parent := parent;
    child.right := parent;
    parent.parent := child;
  }

  method RotateSlotRight(top: Slot, ghost c: Ctx, ghost t: Tree, ghost nil: Node, ghost S: set<Node>)
    requires t.Fork? && t.l.Fork? && At(c, t, nil, Snap(S)) && top == SlotOf(c, nil)
    modifies S
    ensures At(c, RotRight(t), nil, Snap(S)) && nil.mark == old(nil.mark)
  {
    hide At, Shape, CShape, Nodes, CNodes, Distinct, Apart, Plug, Inorder;
    ghost var h := Snap(S);
    RightLinks(c, t, nil, h);
    var parent := top.Get();
    var child := parent.left;
    TurnRight(parent, child, S);
    top.Put(child);
    RightRotated(c, t, nil, h, Snap(S));
  }

  lemma TwoMarksLeft(c: Ctx, t: Tree, x: int, y: int, nil: Node, h: Store, h': Store)
    requires t.Fork? && t.l.Fork? && At(c, t, nil, h)
    requires var n, a := t.e.n, t.l.e.n;
      && {n, a} <= h.Keys && n != a && h' == h[n := h[n].(mark := x)][a := h[a].(mark := y)]
    ensures At(c, t.(m := x, l := Painted(t.l, y)), nil, h')
  {
    hide At;
    var h1 := h[t.e.n := h[t.e.n].(mark := x)];
    Paint(c, t, x, nil, h, h1);
    PaintLeft(c, Painted(t, x), y, nil, h1, h');
  }

  lemma GrandchildPaintedLeft(c: Ctx, t: Tree, nil: Node, h: Store, h': Store)
    requires t.Fork? && t.l.Fork? && t.l.r.Fork? && At(c, t, nil, h)
    requires t.l.r.e.n in h && h' == h[t.l.r.e.n := h[t.l.r.e.n].(mark := BALANCED)]
    ensures At(c, t.(l := t.l.(r := Painted(t.l.r, BALANCED))), nil, h')
  {
    hide At;
    var t1 := t.(l := t.l.(r := Painted(t.l.r, BALANCED)));
    FocusLeft(c, t, nil, h);
    FocusLeft(c, t1, nil, h');
    PaintRight(BesideLeft(c, t), t.l, BALANCED, nil, h, h');
  }

  /** The context of the left subtree of `t`. */
  ghost function BesideLeft(c: Ctx, t: Tree): Ctx
    requires t.Fork?
  {
    InL(c, t.e, t.m, t.r)
  }

  lemma ChildrenLeft(c: Ctx, t: Tree, nil: Node, h: Store)
    requires t.Fork? && t.l.Fork? && At(c, t, nil, h)
    ensures {t.e.n, t.l.e.n} <= h.Keys && h[t.e.n].left == t.l.e.n && h[t.e.n].mark == t.m && h[t.l.e.n].mark == t.l.m
    ensures t.e.n !in {t.l.e.n, nil} && t.l.e.n != nil
    ensures t.l.r.Fork? ==>
      && t.l.r.e.n in h && h[t.l.e.n].right == t.l.r.e.n && h[t.l.r.e.n].mark == t.l.r.m
      && t.l.r.e.n !in {t.e.n, t.l.e.n, nil}
  {
    assert Shape(t.l, t.e.n, nil, h) && Shape(t.l.r, t.l.e.n, nil, h);
    assert t.l.e.n in Nodes(t.l) && Distinct(t.l);
    assert t.l.r.Fork? ==> t.l.r.e.n in Nodes(t.l.r) && t.l.r.e.n in Nodes(t.l);
  }

  /** The rotations of `fix_balance` for a node that was already heavy on the left. */
  method LightenLeft(pnode: Slot, ghost c: Ctx, ghost t: Tree, ghost nil: Node, ghost S: set<Node>)
    returns (ghost t': Tree)
    requires t.Fork? && Stale(t, LEFTHEAVY) && t.m == LEFTHEAVY && At(c, t, nil, Snap(S)) && pnode == SlotOf(c, nil)
    modifies S
    ensures At(c, t', nil, Snap(S)) && Rebalanced(t, LEFTHEAVY, t') && t'.Fork? && nil.mark == old(nil.mark)
  {
    hide At, Stale, Rebalanced;
    ghost var h := Snap(S);
    HoleLinks(c, t, nil, h);
    LeftRebalanced(t);
    ChildrenLeft(c, t, nil, h);
    var node := pnode.Get();
    var child := node.left;
    if child.mark == LEFTHEAVY {
      node.mark := BALANCED;
      child.mark := BALANCED;
      TwoMarksLeft(c, t, BALANCED, BALANCED, nil, h, Snap(S));
      RotateSlotRight(pnode, c, t.(m := BALANCED, l := Painted(t.l, BALANCED)), nil, S);
      t' := SingleLeft(t);
    } else if child.mark == BALANCED {
      node.mark := LEFTHEAVY;
      child.mark := RIGHTHEAVY;
      TwoMarksLeft(c, t, LEFTHEAVY, RIGHTHEAVY, nil, h, Snap(S));
      RotateSlotRight(pnode, c, t.(m := LEFTHEAVY, l := Painted(t.l, RIGHTHEAVY)), nil, S);
      t' := SingleLeft(t);
    } else {
      LightenTwiceLeft(pnode, node, child, c, t, nil, S);
      t' := DoubleLeft(t);
    }
  }

  method LightenTwiceLeft(pnode: Slot, node: Node, child: Node, ghost c: Ctx, ghost t: Tree, ghost nil: Node,
      ghost S: set<Node>)
    requires t.Fork? && t.l.Fork? && t.l.r.Fork? && At(c, t, nil, Snap(S)) && pnode == SlotOf(c, nil)
    requires node == t.e.n && child == t.l.e.n
    modifies S
    ensures At(c, DoubleLeft(t), nil, Snap(S)) && nil.mark == old(nil.mark)
  {
    hide At;
    ghost var h := Snap(S);
    ChildrenLeft(c, t, nil, h);
    var grandchild := child.right;
    if grandchild.mark == LEFTHEAVY {
      node.mark := RIGHTHEAVY;
      child.mark := BALANCED;
    } else if grandchild.mark == RIGHTHEAVY {
      node.mark := BALANCED;
      child.mark := LEFTHEAVY;
    } else {
      node.mark := BALANCED;
      child.mark := BALANCED;
    }
    ghost var x, y := node.mark, child.mark;
    ghost var h1 := h[node := h[node].(mark := x)][child := h[child].(mark := y)];
    TwoMarksLeft(c, t, x, y, nil, h, h1);
    ghost var t1 := t.(m := x, l := Painted(t.l, y));
    grandchild.mark := BALANCED;
    GrandchildPaintedLeft(c, t1, nil, h1, Snap(S));
    ghost var t2 := t1.(l := t1.l.(r := Painted(t1.l.r, BALANCED)));
    RotateTwiceLeft(pnode, node, c, t2, nil, S);
  }

  method RotateTwiceLeft(pnode: Slot, node: Node, ghost c: Ctx, ghost t: Tree, ghost nil: Node, ghost S: set<Node>)
    requires t.Fork? && t.l.Fork? && t.l.r.Fork? && At(c, t, nil, Snap(S)) && pnode == SlotOf(c, nil) && node == t.e.n
    modifies S
    ensures At(c, RotRight(t.(l := RotLeft(t.l))), nil, Snap(S)) && nil.mark == old(nil.mark)
  {
    hide At;
    FocusLeft(c, t, nil, Snap(S));
    RotateSlotLeft(LeftOf(node), BesideLeft(c, t), t.l, nil, S);
    FocusLeft(c, t.(l := RotLeft(t.l)), nil, Snap(S));
    RotateSlotRight(pnode, c, t.(l := RotLeft(t.l)), nil, S);
  }

  lemma TwoMarksRight(c: Ctx, t: Tree, x: int, y: int, nil: Node, h: Store, h': Store)
    requires t.Fork? && t.r.Fork? && At(c, t, nil, h)
    requires var n, a := t.e.n, t.r.e.n;
      && {n, a} <= h.Keys && n != a && h' == h[n := h[n].(mark := x)][a := h[a].(mark := y)]
    ensures At(c, t.(m := x, r := Painted(t.r, y)), nil, h')
  {
    hide At;
    var h1 := h[t.e.n := h[t.e.n].(mark := x)];
    Paint(c, t, x, nil, h, h1);
    PaintRight(c, Painted(t, x), y, nil, h1, h');
  }

  lemma GrandchildPaintedRight(c: Ctx, t: Tree, nil: Node, h: Store, h': Store)
    requires t.Fork? && t.r.Fork? && t.r.l.Fork? && At(c, t, nil, h)
    requires t.r.l.e.n in h && h' == h[t.r.l.e.n := h[t.r.l.e.n].(mark := BALANCED)]
    ensures At(c, t.(r := t.r.(l := Painted(t.r.l, BALANCED))), nil, h')
  {
    hide At;
    var t1 := t.(r := t.r.(l := Painted(t.r.l, BALANCED)));
    FocusRight(c, t, nil, h);
    FocusRight(c, t1, nil, h');
    PaintLeft(BesideRight(c, t), t.r, BALANCED, nil, h, h');
  }

  /** The context of the right subtree of `t`. */
  ghost function BesideRight(c: Ctx, t: Tree): Ctx
    requires t.Fork?
  {
    InR(c, t.l, t.e, t.m)
  }

  lemma ChildrenRight(c: Ctx, t: Tree, nil: Node, h: Store)
    requires t.Fork? && t.r.Fork? && At(c, t, nil, h)
    ensures {t.e.n, t.r.e.n} <= h.Keys && h[t.e.n].right == t.r.e.n && h[t.e.n].mark == t.m && h[t.r.e.n].mark == t.r.m
    ensures t.e.n !in {t.r.e.n, nil} && t.r.e.n != nil
    ensures t.r.l.Fork? ==>
      && t.r.l.e.n in h && h[t.r.e.n].left == t.r.l.e.n && h[t.r.l.e.n].mark == t.r.l.m
      && t.r.l.e.n !in {t.e.n, t.r.e.n, nil}
  {
    assert Shape(t.r, t.e.n, nil, h) && Shape(t.r.l, t.r.e.n, nil, h);
    assert t.r.e.n in Nodes(t.r) && Distinct(t.r);
    assert t.r.l.Fork? ==> t.r.l.e.n in Nodes(t.r.l) && t.r.l.e.n in Nodes(t.r);
  }

  /** The rotations of `fix_balance` for a node that was already heavy on the right. */
  method LightenRight(pnode: Slot, ghost c: Ctx, ghost t: Tree, ghost nil: Node, ghost S: set<Node>)
    returns (ghost t': Tree)
    requires t.Fork? && Stale(t, RIGHTHEAVY) && t.m == RIGHTHEAVY && At(c, t, nil, Snap(S)) && pnode == SlotOf(c, nil)
    modifies S
    ensures At(c, t', nil, Snap(S)) && Rebalanced(t, RIGHTHEAVY, t') && t'.Fork? && nil.mark == old(nil.mark)
  {
    hide At, Stale, Rebalanced;
    ghost var h := Snap(S);
    HoleLinks(c, t, nil, h);
    RightRebalanced(t);
    ChildrenRight(c, t, nil, h);
    var node := pnode.Get();
    var child := node.right;
    if child.mark == RIGHTHEAVY {
      node.mark := BALANCED;
      child.mark := BALANCED;
      TwoMarksRight(c, t, BALANCED, BALANCED, nil, h, Snap(S));
      RotateSlotLeft(pnode, c, t.(m := BALANCED, r := Painted(t.r, BALANCED)), nil, S);
      t' := SingleRight(t);
    } else if child.mark == BALANCED {
      node.mark := RIGHTHEAVY;
      child.mark := LEFTHEAVY;
      TwoMarksRight(c, t, RIGHTHEAVY, LEFTHEAVY, nil, h, Snap(S));
      RotateSlotLeft(pnode, c, t.(m := RIGHTHEAVY, r := Painted(t.r, LEFTHEAVY)), nil, S);
      t' := SingleRight(t);
    } else {
      LightenTwiceRight(pnode, node, child, c, t, nil, S);
      t' := DoubleRight(t);
    }
  }

  method LightenTwiceRight(pnode: Slot, node: Node, child: Node, ghost c: Ctx, ghost t: Tree, ghost nil: Node,
      ghost S: set<Node>)
    requires t.Fork? && t.r.Fork? && t.r.l.Fork? && At(c, t, nil, Snap(S)) && pnode == SlotOf(c, nil)
    requires node == t.e.n && child == t.r.e.n
    modifies S
    ensures At(c, DoubleRight(t), nil, Snap(S)) && nil.mark == old(nil.mark)
  {
    hide At;
    ghost var h := Snap(S);
    ChildrenRight(c, t, nil, h);
    var grandchild := child.left;
    if grandchild.mark == RIGHTHEAVY {
      node.mark := LEFTHEAVY;
      child.mark := BALANCED;
    } else if grandchild.mark == LEFTHEAVY {
      node.mark := BALANCED;
      child.mark := RIGHTHEAVY;
    } else {
      node.mark := BALANCED;
      child.mark := BALANCED;
    }
    ghost var x, y := node.mark, child.mark;
    ghost var h1 := h[node := h[node].(mark := x)][child := h[child].(mark := y)];
    TwoMarksRight(c, t, x, y, nil, h, h1);
    ghost var t1 := t.(m := x, r := Painted(t.r, y));
    grandchild.mark := BALANCED;
    GrandchildPaintedRight(c, t1, nil, h1, Snap(S));
    ghost var t2 := t1.(r := t1.r.(l := Painted(t1.r.l, BALANCED)));
    RotateTwiceRight(pnode, node, c, t2, nil, S);
  }

  method RotateTwiceRight(pnode: Slot, node: Node, ghost c: Ctx, ghost t: Tree, ghost nil: Node, ghost S: set<Node>)
    requires t.Fork? && t.r.Fork? && t.r.l.Fork? && At(c, t, nil, Snap(S)) && pnode == SlotOf(c, nil) && node == t.e.n
    modifies S
    ensures At(c, RotLeft(t.(r := RotRight(t.r))), nil, Snap(S)) && nil.mark == old(nil.mark)
  {
    hide At;
    FocusRight(c, t, nil, Snap(S));
    RotateSlotRight(RightOf(node), BesideRight(c, t), t.r, nil, S);
    FocusRight(c, t.(r := RotRight(t.r)), nil, Snap(S));
    RotateSlotLeft(pnode, c, t.(r := RotRight(t.r)), nil, S);
  }

  method FixBalance(pnode: Slot, bal: int, ghost c: Ctx, ghost t: Tree, ghost nil: Node, ghost S: set<Node>)
    returns (ghost t': Tree)
    requires Stale(t, bal) && At(c, t, nil, Snap(S)) && pnode == SlotOf(c, nil)
    modifies S
    ensures At(c, t', nil, Snap(S)) && Rebalanced(t, bal, t') && t'.Fork? && nil.mark == old(nil.mark)
  {
    hide At, Rebalanced;
    ghost var h := Snap(S);
    HoleLinks(c, t, nil, h);
    var node := pnode.Get();
    if node.mark == BALANCED {
      node.mark := bal;
      Paint(c, t, bal, nil, h, Snap(S));
      Remarked(t, bal);
      t' := Painted(t, bal);
    } else if node.mark != bal {
      node.mark := BALANCED;
      Paint(c, t, BALANCED, nil, h, Snap(S));
      Remarked(t, bal);
      t' := Painted(t, BALANCED);
    } else {
      if bal == LEFTHEAVY {
        t' := LightenLeft(pnode, c, t, nil, S);
      } else {
        t' := LightenRight(pnode, c, t, nil, S);
      }
    }
  }

  // ----- insertion

  /** What the recursive insertion did to the subtree `t`: `grew` is its result. */
  ghost predicate Extended(t: Tree, e: Entry, t': Tree, grew: bool) {
    && Avl(t') && t'.Fork? && Inorder(t') == Inserted(Inorder(t), e)
    && Height(t') == Height(t) + (if grew then 1 else 0)
    && (grew && t.Fork? ==> t'.m != BALANCED)
  }

  lemma ExtendedLeft(t: Tree, e: Entry, l: Tree, grew: bool)
    requires t.Fork? && Avl(t) && e.k < t.e.k && Extended(t.l, e, l, grew)
    ensures !grew ==> Extended(t, e, t.(l := l), false)
    ensures grew ==> Stale(t.(l := l), LEFTHEAVY)
  {
    InsertedLeft(Inorder(t.l), t.e, Inorder(t.r), e);
  }

  lemma FixedLeft(t: Tree, e: Entry, l: Tree, t': Tree)
    requires t.Fork? && Avl(t) && e.k < t.e.k && Extended(t.l, e, l, true) && Rebalanced(t.(l := l), LEFTHEAVY, t')
    ensures Extended(t, e, t', t'.m != BALANCED)
  {
    InsertedLeft(Inorder(t.l), t.e, Inorder(t.r), e);
  }

  lemma FixedRight(t: Tree, e: Entry, r: Tree, t': Tree)
    requires t.Fork? && Avl(t) && t.e.k <= e.k && Sorted(Inorder(t)) && Extended(t.r, e, r, true)
    requires Rebalanced(t.(r := r), RIGHTHEAVY, t')
    ensures Extended(t, e, t', t'.m != BALANCED)
  {
    SplitAround(t);
    InsertedRight(Inorder(t.l), t.e, Inorder(t.r), e);
  }

  lemma ExtendedRight(t: Tree, e: Entry, r: Tree, grew: bool)
    requires t.Fork? && Avl(t) && t.e.k <= e.k && Sorted(Inorder(t)) && Extended(t.r, e, r, grew)
    ensures !grew ==> Extended(t, e, t.(r := r), false)
    ensures grew ==> Stale(t.(r := r), RIGHTHEAVY)
  {
    SplitAround(t);
    InsertedRight(Inorder(t.l), t.e, Inorder(t.r), e);
  }

  lemma SubtreesSorted(t: Tree)
    requires t.Fork? && Sorted(Inorder(t)) && Avl(t)
    ensures Sorted(Inorder(t.l)) && Sorted(Inorder(t.r)) && Avl(t.l) && Avl(t.r)
  {
    SortedParts(Inorder(t.l) + [t.e], Inorder(t.r));
    SortedParts(Inorder(t.l), [t.e]);
  }

  lemma GrewFromLeaf(t: Tree, e: Entry, t': Tree, grew: bool)
    requires Extended(t, e, t', grew)
    ensures t.Leaf? ==> grew
    ensures Avl(t') && t'.Fork? && Inorder(t') == Inserted(Inorder(t), e)
  {
  }

  lemma ExtendedLeaf(e: Entry)
    ensures Extended(Leaf, e, Fork(Leaf, e, BALANCED, Leaf), true)
  {
  }

  method PutLeaf(what: Node, where: Slot, parent: Node, ghost c: Ctx, ghost nil: Node, ghost S: set<Node>)
    requires At(c, Leaf, nil, Snap(S)) && where == SlotOf(c, nil) && parent == Up(c, nil)
    requires what in S && what != nil && what !in CNodes(c) && what.left == what.right == nil
    modifies where.n`left, where.n`right, what`parent
    ensures At(c, Fork(Leaf, Entry(what, what.key), what.mark, Leaf), nil, Snap(S))
  {
    hide At;
    ghost var h := Snap(S);
    HoleLinks(c, Leaf, nil, h);
    assert Up(c, nil) in CNodes(c) + {nil};
    where.Put(what);
    what.parent := parent;
    Hung(c, what, what.key, nil, h, Snap(S));
  }

  /** `insert` of avl.c: true when the subtree has become one level higher. */
  method Insert(us: Usrtc, what: Node, where: Slot, parent: Node, ghost c: Ctx, ghost t: Tree, ghost S: set<Node>)
    returns (grew: bool, ghost t': Tree)
    requires At(c, t, us.sentinel, Snap(S)) && where == SlotOf(c, us.sentinel) && parent == Up(c, us.sentinel)
    requires Avl(t) && Sorted(Inorder(t))
    requires what in S && what != us.sentinel && what !in CNodes(c) && what !in Nodes(t)
    requires what.left == what.right == us.sentinel && what.mark == BALANCED
    modifies S
    ensures At(c, t', us.sentinel, Snap(S)) && us.sentinel.mark == old(us.sentinel.mark)
    ensures Extended(t, Entry(what, old(what.key)), t', grew)
    decreases t
  {
    hide At, Sorted, Extended, Stale, Rebalanced, Avl;
    var nil := us.sentinel;
    ghost var h, e := Snap(S), Entry(what, what.key);
    HoleLinks(c, t, nil, h);
    var here := where.Get();
    if here == nil {
      PutLeaf(what, where, parent, c, nil, S);
      ExtendedLeaf(e);
      grew, t' := true, Fork(Leaf, e, BALANCED, Leaf);
      return;
    }
    SubtreesSorted(t);
    var result := Compare(what.key, here.key);
    if result < 0 {
      FocusLeft(c, t, nil, h);
      var higher, l := Insert(us, what, LeftOf(here), here, BesideLeft(c, t), t.l, S);
      FocusLeft(c, t.(l := l), nil, Snap(S));
      ExtendedLeft(t, e, l, higher);
      t' := t.(l := l);
      grew := false;
      if higher {
        t' := FixBalance(where, LEFTHEAVY, c, t.(l := l), nil, S);
        FixedLeft(t, e, l, t');
        HoleLinks(c, t', nil, Snap(S));
        grew := where.Get().mark != BALANCED;
      }
    } else {
      FocusRight(c, t, nil, h);
      var higher, r := Insert(us, what, RightOf(here), here, BesideRight(c, t), t.r, S);
      FocusRight(c, t.(r := r), nil, Snap(S));
      ExtendedRight(t, e, r, higher);
      t' := t.(r := r);
      grew := false;
      if higher {
        t' := FixBalance(where, RIGHTHEAVY, c, t.(r := r), nil, S);
        FixedRight(t, e, r, t');
        HoleLinks(c, t', nil, Snap(S));
        grew := where.Get().mark != BALANCED;
      }
    }
  }

  method MarkSentinel(nil: Node, x: int, ghost c: Ctx, ghost t: Tree, ghost S: set<Node>)
    requires At(c, t, nil, Snap(S))
    modifies nil`mark
    ensures At(c, t, nil, Snap(S)) && nil.mark == x
  {
    hide At;
    ghost var h := Snap(S);
    HoleLinks(c, t, nil, h);
    nil.mark := x;
    AtFrame(c, t, nil, h, Snap(S), {nil});
  }

  method PrepareLeaf(nil: Node, node: Node, key: int, ghost t: Tree, ghost S: set<Node>)
    requires At(Top, t, nil, Snap(S)) && node in S && node != nil && node !in Nodes(t)
    modifies node
    ensures At(Top, t, nil, Snap(S)) && node.key == key && node.left == node.right == nil && node.mark == BALANCED
  {
    hide At;
    ghost var h := Snap(S);
    HoleLinks(Top, t, nil, h);
    node.key := key;
    node.left := nil;
    node.right := nil;
    node.mark := BALANCED;
    AtFrame(Top, t, nil, h, Snap(S), {node});
  }

  method AvlInsert(us: Usrtc, node: Node, key: int, ghost t: Tree, ghost S: set<Node>) returns (ghost t': Tree)
    requires At(Top, t, us.sentinel, Snap(S)) && Avl(t) && Sorted(Inorder(t))
    requires us.sentinel.mark == if t.Leaf? then BALANCED else LEFTHEAVY
    requires node in S && node != us.sentinel && node !in Nodes(t)
    modifies us`nodecount, S
    ensures us.nodecount == old(us.nodecount) + 1
    ensures At(Top, t', us.sentinel, Snap(S)) && Avl(t') && t'.Fork? && us.sentinel.mark == LEFTHEAVY
    ensures Inorder(t') == Inserted(Inorder(t), Entry(node, key))
  {
    hide At, Avl, Sorted, Inserted, Extended, Inorder, Snap;
    var nil := us.sentinel;
    PrepareLeaf(nil, node, key, t, S);
    var grew;
    grew, t' := Insert(us, node, LeftOf(nil), nil, Top, t, S);
    HoleLinks(Top, t', nil, Snap(S));
    GrewFromLeaf(t, Entry(node, key), t', grew);
    if grew {
      MarkSentinel(nil, LEFTHEAVY, Top, t', S);
    }
    us.nodecount := us.nodecount + 1;
  }

  // ----- deletion

  /** What the upward walk sees at the parent of a sunken tree. */
  lemma SunkLinks(c: Ctx, t: Tree, nil: Node, h: Store)
    requires !c.Top? && At(c, t, nil, h) && Sunk(c, t)
    ensures At(c.up, Up1(c, t), nil, h) && c.e.n in h && c.e.n != nil && Root(t, nil) in h
    ensures h[c.e.n].left == nil && h[c.e.n].right == nil <==> Up1(c, t).l.Leaf? && Up1(c, t).r.Leaf?
    ensures h[c.e.n].left == nil && h[c.e.n].right == nil ==> t.Leaf?
    ensures !(h[c.e.n].left == nil && h[c.e.n].right == nil) ==> (Root(t, nil) == h[c.e.n].left <==> c.InL?)
    ensures c.InR? ==> Root(t, nil) == h[c.e.n].right
    ensures Up(c.up, nil) in h && h[c.e.n].parent == Up(c.up, nil)
    ensures c.e.n == h[Up(c.up, nil)].left <==> !c.up.InR?
  {
    var g := Up1(c, t);
    FocusUp(c, t, nil, h);
    HoleLinks(c, t, nil, h);
    HoleLinks(c.up, g, nil, h);
    OneSided(c.up, g, nil, h);
    SpliceApart(c.up, g, nil, h);
    SidesApart(c.up, g, nil, h);
  }

  lemma SidesApart(c: Ctx, t: Tree, nil: Node, h: Store)
    requires t.Fork? && At(c, t, nil, h)
    ensures t.l.Fork? && t.r.Fork? ==> t.l.e.n != t.r.e.n
  {
    assert t.l.Fork? ==> t.l.e.n in Nodes(t.l);
  }

  /** The walk up from the gap: `child` has lost a level. */
  method RestoreBalance(us: Usrtc, child0: Node, parent0: Node, ghost c0: Ctx, ghost t0: Tree, ghost S: set<Node>)
    returns (ghost t': Tree)
    requires At(c0, t0, us.sentinel, Snap(S)) && Sunk(c0, t0)
    requires child0 == Root(t0, us.sentinel) && parent0 == Up(c0, us.sentinel)
    modifies S
    ensures At(Top, t', us.sentinel, Snap(S)) && Avl(t') && us.sentinel.mark == old(us.sentinel.mark)
    ensures Inorder(t') == Inorder(Plug(c0, t0))
  {
    hide At, Sunk, Avl, Inorder;
    var nil := us.sentinel;
    var child, parent := child0, parent0;
    ghost var c, t := c0, t0;
    HoleLinks(c, t, nil, Snap(S));
    while parent != nil
      invariant At(c, t, nil, Snap(S)) && Sunk(c, t) && nil.mark == old(nil.mark)
      invariant child == Root(t, nil) && parent == Up(c, nil) && (parent == nil <==> c.Top?)
      invariant Inorder(Plug(c, t)) == Inorder(Plug(c0, t0))
      decreases Depth(c)
    {
      c, t, parent := BalanceParent(nil, child, parent, c, t, S);
      HoleLinks(c, t, nil, Snap(S));
      if parent.mark == BALANCED {
        child := parent;
        parent := child.parent;
      } else {
        FocusTop(c, t, nil, Snap(S));
        t' := Plug(c, t);
        return;
      }
    }
    WholeSunk(c, t);
    t' := t;
  }

  lemma WholeSunk(c: Ctx, t: Tree)
    requires c.Top? && Sunk(c, t)
    ensures Avl(t) && Plug(c, t) == t
  {
  }

  /** One step of the walk. */
  method BalanceParent(nil: Node, child: Node, parent0: Node, ghost c0: Ctx, ghost t0: Tree, ghost S: set<Node>)
    returns (ghost c: Ctx, ghost t: Tree, parent: Node)
    requires !c0.Top? && At(c0, t0, nil, Snap(S)) && Sunk(c0, t0)
    requires child == Root(t0, nil) && parent0 == c0.e.n
    modifies S
    ensures c == c0.up && t.Fork? && parent == t.e.n && At(c, t, nil, Snap(S)) && nil.mark == old(nil.mark)
    ensures if t.m == BALANCED then Sunk(c, t) else Avl(Plug(c, t))
    ensures Inorder(Plug(c, t)) == Inorder(Plug(c0, t0))
  {
    hide At, Sunk, Avl, Inorder, Rebalanced, Stale;
    ghost var g, h := Up1(c0, t0), Snap(S);
    SunkLinks(c0, t0, nil, h);
    SunkStale(c0, t0);
    parent := parent0;
    c := c0.up;
    if parent.left == nil && parent.right == nil {
      if child != nil {
        assert false;
      }
      parent.mark := BALANCED;
      SunkLeaf(c0, t0);
      Paint(c, g, BALANCED, nil, h, Snap(S));
      t := Painted(g, BALANCED);
    } else {
      var pparent := if parent == parent.parent.left then LeftOf(parent.parent) else RightOf(parent.parent);
      if child == parent.left {
        t := FixBalance(pparent, RIGHTHEAVY, c, g, nil, S);
      } else {
        if child != parent.right {
          assert false;
        }
        t := FixBalance(pparent, LEFTHEAVY, c, g, nil, S);
      }
      SunkStep(c0, t0, t);
      HoleLinks(c, t, nil, Snap(S));
      parent := pparent.Get();
    }
  }

  method AvlDelete(us: Usrtc, node: Node, ghost c: Ctx, ghost t: Tree, ghost S: set<Node>) returns (ghost t': Tree)
    requires t.Fork? && t.e.n == node && At(c, t, us.sentinel, Snap(S))
    requires Avl(Plug(c, t)) && us.sentinel.mark == LEFTHEAVY && us.nodecount > 0
    modifies us`nodecount, S
    ensures us.nodecount == old(us.nodecount) - 1
    ensures At(Top, t', us.sentinel, Snap(S)) && Avl(t')
    ensures us.sentinel.mark == if t'.Leaf? then BALANCED else LEFTHEAVY
    ensures Inorder(t') == Before(c) + (Inorder(t.l) + Inorder(t.r)) + After(c)
  {
    hide At, Avl, Inorder, CNodes, Nodes, Shrunk, Refit, RefitGap, Raised, Swap, Gap, Sunk;
    var nil := us.sentinel;
    HoleLinks(c, t, nil, Snap(S));
    Unlinked(c, t, nil, Snap(S));
    var swap, child := TreeDelete(us, node, c, t, S);
    CopyMark(node, swap, c, t, nil, S);
    RefitFocus(c, t, nil, Snap(S));
    RefitAvl(c, t);
    RefitInorder(c, t);
    ghost var g, z := RefitGap(c, t), Raised(t);
    HoleLinks(g, z, nil, Snap(S));
    var parent := child.parent;
    if parent == nil {
      if child == nil {
        MarkSentinel(parent, BALANCED, g, z, S);
      }
    }
    t' := RestoreBalance(us, child, parent, g, z, S);
    SameEmpty(g, z, t');
  }

  lemma SameEmpty(c: Ctx, t: Tree, t': Tree)
    requires Inorder(t') == Inorder(Plug(c, t))
    ensures t'.Leaf? <==> c.Top? && t.Leaf?
  {
    PlugInorder(c, t);
  }

  /** `swap->balance = node->balance`. */
  method CopyMark(node: Node, swap: Node, ghost c: Ctx, ghost t: Tree, ghost nil: Node, ghost S: set<Node>)
    requires t.Fork? && t.e.n == node && At(c, Shrunk(t), nil, Snap(S)) && swap == Swap(t) && node.mark == t.m
    requires node in S && node != nil && node !in CNodes(c) && node !in Nodes(Shrunk(t))
    modifies S`mark
    ensures At(c, Refit(t), nil, Snap(S)) && nil.mark == old(nil.mark)
  {
    hide At;
    ghost var h := Snap(S);
    HoleLinks(c, Shrunk(t), nil, h);
    swap.mark := node.mark;
    if swap != node {
      Paint(c, Shrunk(t), t.m, nil, h, Snap(S));
    } else {
      assert Snap(S) == h;
    }
  }
}
