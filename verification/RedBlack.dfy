/** Red-black insertion and deletion on linked nodes: redblack.c. */
module RedBlack {
  import opened Links
  import opened Order
  import opened Container
  import opened Rotations
  import opened BinaryTree
  import opened TreeDeletion
  import opened RedBlackTrees

  lemma FamilyPainted(c: Ctx, t: Tree, nil: Node, h: Store, h': Store)
    requires t.Fork? && t.l.Fork? && t.r.Fork? && At(c, t, nil, h)
    requires var x, y, z := t.l.e.n, t.r.e.n, t.e.n;
      && {x, y, z} <= h.Keys && x != y && z !in {x, y}
      && h' == h[x := h[x].(mark := BLACK)][y := h[y].(mark := BLACK)][z := h[z].(mark := RED)]
    ensures At(c, Recoloured(t), nil, h')
  {
    hide At;
    var x, y, z := t.l.e.n, t.r.e.n, t.e.n;
    var h1 := h[x := h[x].(mark := BLACK)];
    var h2 := h1[y := h1[y].(mark := BLACK)];
    var t1 := t.(l := Painted(t.l, BLACK));
    var t2 := t1.(r := Painted(t1.r, BLACK));
    PaintLeft(c, t, BLACK, nil, h, h1);
    PaintRight(c, t1, BLACK, nil, h1, h2);
    Paint(c, t2, RED, nil, h2, h');
  }

  lemma FamilyLinks(c: Ctx, t: Tree, nil: Node, h: Store)
    requires t.Fork? && At(c, t, nil, h)
    ensures t.e.n in h && h[t.e.n] == Cell(Root(t.l, nil), Root(t.r, nil), Up(c, nil), t.e.k, t.m) && t.e.n != nil
    ensures t.l.Fork? ==>
      t.l.e.n in h && t.l.e.n !in {t.e.n, nil} && h[t.l.e.n].mark == t.l.m && h[t.l.e.n].parent == t.e.n
    ensures t.r.Fork? ==>
      t.r.e.n in h && t.r.e.n !in {t.e.n, nil} && h[t.r.e.n].mark == t.r.m && h[t.r.e.n].parent == t.e.n
    ensures t.l.Fork? && t.r.Fork? ==> t.l.e.n != t.r.e.n
  {
    assert Shape(t.l, t.e.n, nil, h) && Shape(t.r, t.e.n, nil, h);
    assert t.l.Fork? ==> t.l.e.n in Nodes(t.l);
    assert t.r.Fork? ==> t.r.e.n in Nodes(t.r);
  }

  /** Red parent, red uncle: both become black, the grandparent red, and the question moves up to it. */
  method RecolourFamily(parent0: Node, uncle: Node, grandpa: Node, ghost c: Ctx, ghost t: Tree, ghost nil: Node,
      ghost S: set<Node>)
    returns (node: Node, parent: Node)
    requires t.Fork? && CRed(c) && !c.up.Top? && Sibling(c.up).Fork?
    requires parent0 == c.e.n && uncle == Sibling(c.up).e.n && grandpa == c.up.e.n
    requires At(c.up.up, Family(c, t), nil, Snap(S))
    modifies S
    ensures At(c.up.up, Recoloured(Family(c, t)), nil, Snap(S)) && nil.mark == old(nil.mark)
    ensures Recoloured(Family(c, t)).Fork? && node == Recoloured(Family(c, t)).e.n && parent == Up(c.up.up, nil)
      && parent in S
  {
    hide At;
    ghost var h := Snap(S);
    FamilyLinks(c.up.up, Family(c, t), nil, h);
    parent0.mark := BLACK;
    uncle.mark := BLACK;
    grandpa.mark := RED;
    FamilyPainted(c.up.up, Family(c, t), nil, h, Snap(S));
    HoleLinks(c.up.up, Recoloured(Family(c, t)), nil, Snap(S));
    node := grandpa;
    parent := grandpa.parent;
  }

  /** A red node on the inner side of its red left-hand parent is rotated outwards first. */
  method TurnOutLeft(node: Node, parent0: Node, grandpa: Node, ghost c: Ctx, ghost t: Tree, ghost nil: Node,
      ghost S: set<Node>)
    returns (parent: Node)
    requires !c.Top? && c.up.InL? && t.Fork? && At(c, t, nil, Snap(S))
    requires node == t.e.n && parent0 == c.e.n && grandpa == c.up.e.n
    modifies S
    ensures At(c.up.up, Outward(c, t), nil, Snap(S)) && nil.mark == old(nil.mark)
    ensures Outward(c, t).l.Fork? && parent == Outward(c, t).l.e.n
  {
    hide At;
    parent := parent0;
    HoleLinks(c, t, nil, Snap(S));
    OneSided(c, t, nil, Snap(S));
    FocusUp(c, t, nil, Snap(S));
    if node == parent.right {
      RotateLeft(node, parent, c.up, Up1(c, t), nil, S);
      parent := node;
      HoleLinks(c.up, RotLeft(Up1(c, t)), nil, Snap(S));
      if grandpa != parent.parent {
        assert false;
      }
      FocusUp(c.up, RotLeft(Up1(c, t)), nil, Snap(S));
    } else {
      FocusUp(c.up, Up1(c, t), nil, Snap(S));
    }
  }

  /** The parent becomes black, the grandparent red, and the parent is rotated over it. */
  method LiftOverLeft(parent: Node, grandpa: Node, ghost c: Ctx, ghost t: Tree, ghost nil: Node, ghost S: set<Node>)
    requires t.Fork? && t.l.Fork? && At(c, t, nil, Snap(S)) && parent == t.l.e.n && grandpa == t.e.n
    modifies S
    ensures At(c, LiftLeft(t), nil, Snap(S)) && nil.mark == old(nil.mark)
    ensures t.l.r.Fork? ==> nil.parent == old(nil.parent)
  {
    hide At;
    ghost var t1 := t.(l := Painted(t.l, BLACK));
    ghost var h := Snap(S);
    FamilyLinks(c, t, nil, h);
    parent.mark := BLACK;
    grandpa.mark := RED;
    ghost var h1 := h[parent := h[parent].(mark := BLACK)];
    PaintLeft(c, t, BLACK, nil, h, h1);
    Paint(c, t1, RED, nil, h1, Snap(S));
    RotateRight(parent, grandpa, c, Painted(t1, RED), nil, S);
  }

  method RaiseLeft(node: Node, parent: Node, grandpa: Node, ghost c: Ctx, ghost t: Tree, ghost nil: Node,
      ghost S: set<Node>)
    requires !c.Top? && c.up.InL? && t.Fork? && At(c, t, nil, Snap(S))
    requires node == t.e.n && parent == c.e.n && grandpa == c.up.e.n
    modifies S
    ensures At(c.up.up, Lifted(c, t), nil, Snap(S)) && nil.mark == old(nil.mark)
  {
    hide At;
    var p := TurnOutLeft(node, parent, grandpa, c, t, nil, S);
    LiftOverLeft(p, grandpa, c.up.up, Outward(c, t), nil, S);
  }

  /** A red node on the inner side of its red right-hand parent is rotated outwards first. */
  method TurnOutRight(node: Node, parent0: Node, grandpa: Node, ghost c: Ctx, ghost t: Tree, ghost nil: Node,
      ghost S: set<Node>)
    returns (parent: Node)
    requires !c.Top? && c.up.InR? && t.Fork? && At(c, t, nil, Snap(S))
    requires node == t.e.n && parent0 == c.e.n && grandpa == c.up.e.n
    modifies S
    ensures At(c.up.up, Outward(c, t), nil, Snap(S)) && nil.mark == old(nil.mark)
    ensures Outward(c, t).r.Fork? && parent == Outward(c, t).r.e.n
  {
    hide At;
    parent := parent0;
    HoleLinks(c, t, nil, Snap(S));
    OneSided(c, t, nil, Snap(S));
    FocusUp(c, t, nil, Snap(S));
    if node == parent.left {
      RotateRight(node, parent, c.up, Up1(c, t), nil, S);
      parent := node;
      HoleLinks(c.up, RotRight(Up1(c, t)), nil, Snap(S));
      if grandpa != parent.parent {
        assert false;
      }
      FocusUp(c.up, RotRight(Up1(c, t)), nil, Snap(S));
    } else {
      FocusUp(c.up, Up1(c, t), nil, Snap(S));
    }
  }

  /** The parent becomes black, the grandparent red, and the parent is rotated over it. */
  method LiftOverRight(parent: Node, grandpa: Node, ghost c: Ctx, ghost t: Tree, ghost nil: Node, ghost S: set<Node>)
    requires t.Fork? && t.r.Fork? && At(c, t, nil, Snap(S)) && parent == t.r.e.n && grandpa == t.e.n
    modifies S
    ensures At(c, LiftRight(t), nil, Snap(S)) && nil.mark == old(nil.mark)
    ensures t.r.l.Fork? ==> nil.parent == old(nil.parent)
  {
    hide At;
    ghost var t1 := t.(r := Painted(t.r, BLACK));
    ghost var h := Snap(S);
    FamilyLinks(c, t, nil, h);
    parent.mark := BLACK;
    grandpa.mark := RED;
    ghost var h1 := h[parent := h[parent].(mark := BLACK)];
    PaintRight(c, t, BLACK, nil, h, h1);
    Paint(c, t1, RED, nil, h1, Snap(S));
    RotateLeft(parent, grandpa, c, Painted(t1, RED), nil, S);
  }

  method RaiseRight(node: Node, parent: Node, grandpa: Node, ghost c: Ctx, ghost t: Tree, ghost nil: Node,
      ghost S: set<Node>)
    requires !c.Top? && c.up.InR? && t.Fork? && At(c, t, nil, Snap(S))
    requires node == t.e.n && parent == c.e.n && grandpa == c.up.e.n
    modifies S
    ensures At(c.up.up, Lifted(c, t), nil, Snap(S)) && nil.mark == old(nil.mark)
  {
    hide At;
    var p := TurnOutRight(node, parent, grandpa, c, t, nil, S);
    LiftOverRight(p, grandpa, c.up.up, Outward(c, t), nil, S);
  }

  /** The black child below the repaired position was left alone. */
  lemma RepaidChild(c: Ctx, t: Tree, nil: Node, h: Store)
    requires !c.Top? && Sibling(c).Fork? && SisterStraight(c).Fork? && Short(c, t) && !Red(t)
    requires At(c.up, Repaid(c, t), nil, h) && h[nil].mark == BLACK
    ensures Root(t, nil) in h && h[Root(t, nil)].mark == BLACK
  {
    hide At;
    var x := Repaid(c, t);
    if c.InL? {
      FocusLeft(c.up, x, nil, h);
      FocusLeft(InL(c.up, x.e, x.m, x.r), x.l, nil, h);
      HoleLinks(InL(InL(c.up, x.e, x.m, x.r), x.l.e, x.l.m, x.l.r), t, nil, h);
    } else {
      FocusRight(c.up, x, nil, h);
      FocusRight(InR(c.up, x.l, x.e, x.m), x.r, nil, h);
      HoleLinks(InR(InR(c.up, x.l, x.e, x.m), x.r.l, x.r.e, x.r.m), t, nil, h);
    }
  }

  lemma NephewsApart(c: Ctx, t: Tree, nil: Node, h: Store)
    requires !c.Top? && Sibling(c).Fork? && At(c, t, nil, h)
    ensures c.e.n !in {Root(Sibling(c).l, nil), Root(Sibling(c).r, nil)}
  {
    assert Root(Sibling(c).l, nil) in Nodes(Sibling(c)) + {nil};
    assert Root(Sibling(c).r, nil) in Nodes(Sibling(c)) + {nil};
  }

  /** The context of the sibling of the hole of `c`, when that holds `t`. */
  ghost function Opposite(c: Ctx, t: Tree): Ctx
    requires !c.Top?
  {
    match c
    case InL(up, e, m, _) => InR(up, t, e, m)
    case InR(up, _, e, m) => InL(up, e, m, t)
  }

  lemma FocusOpposite(c: Ctx, t: Tree, nil: Node, h: Store)
    requires !c.Top?
    ensures At(c, t, nil, h) <==> At(Opposite(c, t), Sibling(c), nil, h)
  {
    FocusUp(c, t, nil, h);
    FocusUp(Opposite(c, t), Sibling(c), nil, h);
  }

  /** The hole on the left is short of a black node: one pass of the deletion loop; `done` stands for its `break`. */
  method FillLeft(nil: Node, child0: Node, parent: Node, ghost c0: Ctx, ghost t0: Tree, ghost S: set<Node>)
    returns (child: Node, ghost c: Ctx, ghost t: Tree, done: bool)
    requires c0.InL? && Short(c0, t0) && Stoppable(c0, t0) && !Red(t0)
    requires At(c0, t0, nil, Snap(S)) && nil.mark == BLACK && child0 == Root(t0, nil) && parent == c0.e.n
    modifies S
    ensures At(c, t, nil, Snap(S)) && nil.mark == BLACK && child in S
    ensures Inorder(Plug(c, t)) == Inorder(Plug(c0, t0))
    ensures done ==> child.mark == BLACK && RBTree(Painted(Plug(c, t), BLACK))
    ensures !done ==>
      && t.Fork? && child == Root(t, nil) && child.parent == Up(c, nil)
      && Short(c, t) && Stoppable(c, t) && (Red(t) || Depth(c) < Depth(c0))
  {
    hide At, Short, Inorder, RBTree;
    ghost var d := c0;
    SisterExists(c0, t0);
    HoleLinks(c0, t0, nil, Snap(S));
    FocusOpposite(c0, t0, nil, Snap(S));
    HoleLinks(Opposite(c0, t0), Sibling(c0), nil, Snap(S));
    child := child0;
    var sister := parent.right;
    if sister == nil {
      assert false;
    }
    if sister.mark == RED {
      RedSister(c0, t0);
      sister := SisterUpLeft(sister, parent, c0, t0, nil, S);
      d := SisterUp(c0);
    }
    done, c, t := SettleLeft(nil, child, sister, parent, d, t0, S);
    HoleLinks(c, t, nil, Snap(S));
    if !done {
      child := parent;
    }
  }

  /** As `FillLeft`, with a black sister. */
  method SettleLeft(nil: Node, child: Node, sister: Node, parent: Node, ghost c0: Ctx, ghost t0: Tree,
      ghost S: set<Node>)
    returns (done: bool, ghost c: Ctx, ghost t: Tree)
    requires c0.InL? && Short(c0, t0) && !Red(t0) && (CRed(c0) || TopMark(c0) == RED)
    requires Sibling(c0).Fork? && !Red(Sibling(c0)) && sister == Sibling(c0).e.n
    requires At(c0, t0, nil, Snap(S)) && nil.mark == BLACK && child == Root(t0, nil) && parent == c0.e.n
    modifies S
    ensures At(c, t, nil, Snap(S)) && nil.mark == BLACK && c == c0.up && t.Fork?
    ensures Inorder(Plug(c, t)) == Inorder(Plug(c0, t0))
    ensures done ==> child.mark == BLACK && RBTree(Painted(Plug(c, t), BLACK))
    ensures !done ==> parent == Root(t, nil) && Short(c, t) && Stoppable(c, t) && (CRed(c0) ==> Red(t))
  {
    hide At, Short, Inorder, RBTree;
    ghost var w, d, h := Sibling(c0), Opposite(c0, t0), Snap(S);
    SisterExists(c0, t0);
    FocusOpposite(c0, t0, nil, h);
    HoleLinks(d, w, nil, h);
    FamilyLinks(d, w, nil, h);
    c := c0.up;
    done := true;
    if sister.left.mark == BLACK && sister.right.mark == BLACK {
      BlackNephews(c0, t0);
      sister.mark := RED;
      done := false;
      t := SisterReddened(c0, t0);
      Paint(d, w, RED, nil, h, Snap(S));
      FocusUp(d, Painted(w, RED), nil, Snap(S));
    } else {
      RedNephew(c0, t0);
      var s := StraightenRight(sister, parent, c0, t0, nil, S);
      t := Repaid(c0, t0);
      RepayLeft(s, parent, c0.(r := SisterStraight(c0)), t0, nil, S);
      RepaidChild(c0, t0, nil, Snap(S));
    }
  }

  /** A red sister on the right turns black, the parent red, and the sister is rotated above it. */
  method SisterUpLeft(sister0: Node, parent: Node, ghost c: Ctx, ghost t: Tree, ghost nil: Node, ghost S: set<Node>)
    returns (sister: Node)
    requires c.InL? && c.r.Fork? && c.r.l.Fork? && At(c, t, nil, Snap(S)) && sister0 == c.r.e.n && parent == c.e.n
    modifies S
    ensures At(SisterUp(c), t, nil, Snap(S)) && nil.mark == old(nil.mark) && nil.parent == old(nil.parent)
    ensures sister == c.r.l.e.n
  {
    hide At;
    ghost var d := SisterUp(c);
    FocusUp(c, t, nil, Snap(S));
    LiftOverRight(sister0, parent, c.up, Up1(c, t), nil, S);
    FocusUp(d, t, nil, Snap(S));
    FocusUp(d.up, Up1(d, t), nil, Snap(S));
    HoleLinks(d.up, Up1(d, t), nil, Snap(S));
    sister := parent.right;
    if sister == nil {
      assert false;
    }
  }

  /** The inner nephew is rotated above the sister when the outer one is black. */
  method StraightenRight(sister0: Node, parent: Node, ghost c: Ctx, ghost t: Tree, ghost nil: Node, ghost S: set<Node>)
    returns (sister: Node)
    requires c.InL? && c.r.Fork? && RB(c.r) && At(c, t, nil, Snap(S)) && nil.mark == BLACK
    requires sister0 == c.r.e.n && parent == c.e.n && (Red(c.r.l) || Red(c.r.r))
    modifies S
    ensures SisterStraight(c).Fork? && SisterStraight(c).r.Fork? && At(c.(r := SisterStraight(c)), t, nil, Snap(S))
    ensures sister == SisterStraight(c).e.n && nil.mark == BLACK
  {
    hide At;
    sister := sister0;
    ghost var w, d := c.r, Opposite(c, t);
    FocusOpposite(c, t, nil, Snap(S));
    HoleLinks(d, w, nil, Snap(S));
    FamilyLinks(d, w, nil, Snap(S));
    if sister.right.mark == BLACK {
      if sister.left.mark != RED {
        assert false;
      }
      LiftOverLeft(sister.left, sister, d, w, nil, S);
      FocusOpposite(c.(r := SisterStraight(c)), t, nil, Snap(S));
      HoleLinks(d, SisterStraight(c), nil, Snap(S));
      sister := parent.right;
      if sister == nil {
        assert false;
      }
    }
  }

  lemma OwedPaintedLeft(c: Ctx, t: Tree, nil: Node, h: Store, h': Store)
    requires c.InL? && c.r.Fork? && c.r.r.Fork? && At(c, t, nil, h)
    requires var x, y, z := c.r.e.n, c.r.r.e.n, c.e.n;
      && {x, y, z} <= h.Keys && x !in {y, z} && y != z
      && h' == h[x := h[x].(mark := c.m)][y := h[y].(mark := BLACK)][z := h[z].(mark := BLACK)]
    ensures At(c.up, Owed(c, t), nil, h')
  {
    hide At;
    var x, y, z := c.r.e.n, c.r.r.e.n, c.e.n;
    var w, d := c.r, Opposite(c, t);
    var w1 := Painted(w, c.m);
    var w2 := w1.(r := Painted(w1.r, BLACK));
    var h1 := h[x := h[x].(mark := c.m)];
    var h2 := h1[y := h1[y].(mark := BLACK)];
    FocusOpposite(c, t, nil, h);
    Paint(d, w, c.m, nil, h, h1);
    PaintRight(d, w1, BLACK, nil, h1, h2);
    FocusUp(d, w2, nil, h2);
    Paint(c.up, Up1(d, w2), BLACK, nil, h2, h');
  }

  /** The sister takes over the parent's place and colour. */
  method RepayLeft(sister: Node, parent: Node, ghost c: Ctx, ghost t: Tree, ghost nil: Node, ghost S: set<Node>)
    requires c.InL? && c.r.Fork? && c.r.r.Fork? && At(c, t, nil, Snap(S)) && sister == c.r.e.n && parent == c.e.n
    modifies S
    ensures nil.mark == old(nil.mark)
    ensures At(c.up, RotLeft(Owed(c, t)), nil, Snap(S))
  {
    hide At;
    ghost var g, d, h := Up1(c, t), Opposite(c, t), Snap(S);
    FocusUp(c, t, nil, h);
    FocusOpposite(c, t, nil, h);
    FamilyLinks(c.up, g, nil, h);
    FamilyLinks(d, c.r, nil, h);
    NephewsApart(c, t, nil, h);
    sister.mark := parent.mark;
    sister.right.mark := BLACK;
    parent.mark := BLACK;
    OwedPaintedLeft(c, t, nil, h, Snap(S));
    RotateLeft(sister, parent, c.up, Owed(c, t), nil, S);
  }

  /** The hole on the right is short of a black node: one pass of the deletion loop; `done` stands for its `break`. */
  method FillRight(nil: Node, child0: Node, parent: Node, ghost c0: Ctx, ghost t0: Tree, ghost S: set<Node>)
    returns (child: Node, ghost c: Ctx, ghost t: Tree, done: bool)
    requires c0.InR? && Short(c0, t0) && Stoppable(c0, t0) && !Red(t0)
    requires At(c0, t0, nil, Snap(S)) && nil.mark == BLACK && child0 == Root(t0, nil) && parent == c0.e.n
    modifies S
    ensures At(c, t, nil, Snap(S)) && nil.mark == BLACK && child in S
    ensures Inorder(Plug(c, t)) == Inorder(Plug(c0, t0))
    ensures done ==> child.mark == BLACK && RBTree(Painted(Plug(c, t), BLACK))
    ensures !done ==>
      && t.Fork? && child == Root(t, nil) && child.parent == Up(c, nil)
      && Short(c, t) && Stoppable(c, t) && (Red(t) || Depth(c) < Depth(c0))
  {
    hide At, Short, Inorder, RBTree;
    ghost var d := c0;
    SisterExists(c0, t0);
    HoleLinks(c0, t0, nil, Snap(S));
    FocusOpposite(c0, t0, nil, Snap(S));
    HoleLinks(Opposite(c0, t0), Sibling(c0), nil, Snap(S));
    child := child0;
    var sister := parent.left;
    if sister == nil {
      assert false;
    }
    if sister.mark == RED {
      RedSister(c0, t0);
      sister := SisterUpRight(sister, parent, c0, t0, nil, S);
      d := SisterUp(c0);
    }
    done, c, t := SettleRight(nil, child, sister, parent, d, t0, S);
    HoleLinks(c, t, nil, Snap(S));
    if !done {
      child := parent;
    }
  }

  /** As `FillRight`, with a black sister. */
  method SettleRight(nil: Node, child: Node, sister: Node, parent: Node, ghost c0: Ctx, ghost t0: Tree,
      ghost S: set<Node>)
    returns (done: bool, ghost c: Ctx, ghost t: Tree)
    requires c0.InR? && Short(c0, t0) && !Red(t0) && (CRed(c0) || TopMark(c0) == RED)
    requires Sibling(c0).Fork? && !Red(Sibling(c0)) && sister == Sibling(c0).e.n
    requires At(c0, t0, nil, Snap(S)) && nil.mark == BLACK && child == Root(t0, nil) && parent == c0.e.n
    modifies S
    ensures At(c, t, nil, Snap(S)) && nil.mark == BLACK && c == c0.up && t.Fork?
    ensures Inorder(Plug(c, t)) == Inorder(Plug(c0, t0))
    ensures done ==> child.mark == BLACK && RBTree(Painted(Plug(c, t), BLACK))
    ensures !done ==> parent == Root(t, nil) && Short(c, t) && Stoppable(c, t) && (CRed(c0) ==> Red(t))
  {
    hide At, Short, Inorder, RBTree;
    ghost var w, d, h := Sibling(c0), Opposite(c0, t0), Snap(S);
    SisterExists(c0, t0);
    FocusOpposite(c0, t0, nil, h);
    HoleLinks(d, w, nil, h);
    FamilyLinks(d, w, nil, h);
    c := c0.up;
    done := true;
    if sister.right.mark == BLACK && sister.left.mark == BLACK {
      BlackNephews(c0, t0);
      sister.mark := RED;
      done := false;
      t := SisterReddened(c0, t0);
      Paint(d, w, RED, nil, h, Snap(S));
      FocusUp(d, Painted(w, RED), nil, Snap(S));
    } else {
      RedNephew(c0, t0);
      var s := StraightenLeft(sister, parent, c0, t0, nil, S);
      t := Repaid(c0, t0);
      RepayRight(s, parent, c0.(l := SisterStraight(c0)), t0, nil, S);
      RepaidChild(c0, t0, nil, Snap(S));
    }
  }

  /** A red sister on the left turns black, the parent red, and the sister is rotated above it. */
  method SisterUpRight(sister0: Node, parent: Node, ghost c: Ctx, ghost t: Tree, ghost nil: Node, ghost S: set<Node>)
    returns (sister: Node)
    requires c.InR? && c.l.Fork? && c.l.r.Fork? && At(c, t, nil, Snap(S)) && sister0 == c.l.e.n && parent == c.e.n
    modifies S
    ensures At(SisterUp(c), t, nil, Snap(S)) && nil.mark == old(nil.mark) && nil.parent == old(nil.parent)
    ensures sister == c.l.r.e.n
  {
    hide At;
    ghost var d := SisterUp(c);
    FocusUp(c, t, nil, Snap(S));
    LiftOverLeft(sister0, parent, c.up, Up1(c, t), nil, S);
    FocusUp(d, t, nil, Snap(S));
    FocusUp(d.up, Up1(d, t), nil, Snap(S));
    HoleLinks(d.up, Up1(d, t), nil, Snap(S));
    sister := parent.left;
    if sister == nil {
      assert false;
    }
  }

  /** The inner nephew is rotated above the sister when the outer one is black. */
  method StraightenLeft(sister0: Node, parent: Node, ghost c: Ctx, ghost t: Tree, ghost nil: Node, ghost S: set<Node>)
    returns (sister: Node)
    requires c.InR? && c.l.Fork? && RB(c.l) && At(c, t, nil, Snap(S)) && nil.mark == BLACK
    requires sister0 == c.l.e.n && parent == c.e.n && (Red(c.l.r) || Red(c.l.l))
    modifies S
    ensures SisterStraight(c).Fork? && SisterStraight(c).l.Fork? && At(c.(l := SisterStraight(c)), t, nil, Snap(S))
    ensures sister == SisterStraight(c).e.n && nil.mark == BLACK
  {
    hide At;
    sister := sister0;
    ghost var w, d := c.l, Opposite(c, t);
    FocusOpposite(c, t, nil, Snap(S));
    HoleLinks(d, w, nil, Snap(S));
    FamilyLinks(d, w, nil, Snap(S));
    if sister.left.mark == BLACK {
      if sister.right.mark != RED {
        assert false;
      }
      LiftOverRight(sister.right, sister, d, w, nil, S);
      FocusOpposite(c.(l := SisterStraight(c)), t, nil, Snap(S));
      HoleLinks(d, SisterStraight(c), nil, Snap(S));
      sister := parent.left;
      if sister == nil {
        assert false;
      }
    }
  }

  lemma OwedPaintedRight(c: Ctx, t: Tree, nil: Node, h: Store, h': Store)
    requires c.InR? && c.l.Fork? && c.l.l.Fork? && At(c, t, nil, h)
    requires var x, y, z := c.l.e.n, c.l.l.e.n, c.e.n;
      && {x, y, z} <= h.Keys && x !in {y, z} && y != z
      && h' == h[x := h[x].(mark := c.m)][y := h[y].(mark := BLACK)][z := h[z].(mark := BLACK)]
    ensures At(c.up, Owed(c, t), nil, h')
  {
    hide At;
    var x, y, z := c.l.e.n, c.l.l.e.n, c.e.n;
    var w, d := c.l, Opposite(c, t);
    var w1 := Painted(w, c.m);
    var w2 := w1.(l := Painted(w1.l, BLACK));
    var h1 := h[x := h[x].(mark := c.m)];
    var h2 := h1[y := h1[y].(mark := BLACK)];
    FocusOpposite(c, t, nil, h);
    Paint(d, w, c.m, nil, h, h1);
    PaintLeft(d, w1, BLACK, nil, h1, h2);
    FocusUp(d, w2, nil, h2);
    Paint(c.up, Up1(d, w2), BLACK, nil, h2, h');
  }

  /** The sister takes over the parent's place and colour. */
  method RepayRight(sister: Node, parent: Node, ghost c: Ctx, ghost t: Tree, ghost nil: Node, ghost S: set<Node>)
    requires c.InR? && c.l.Fork? && c.l.l.Fork? && At(c, t, nil, Snap(S)) && sister == c.l.e.n && parent == c.e.n
    modifies S
    ensures nil.mark == old(nil.mark)
    ensures At(c.up, RotRight(Owed(c, t)), nil, Snap(S))
  {
    hide At;
    ghost var g, d, h := Up1(c, t), Opposite(c, t), Snap(S);
    FocusUp(c, t, nil, h);
    FocusOpposite(c, t, nil, h);
    FamilyLinks(c.up, g, nil, h);
    FamilyLinks(d, c.l, nil, h);
    NephewsApart(c, t, nil, h);
    sister.mark := parent.mark;
    sister.left.mark := BLACK;
    parent.mark := BLACK;
    OwedPaintedRight(c, t, nil, h, Snap(S));
    RotateRight(sister, parent, c.up, Owed(c, t), nil, S);
  }

  lemma ParentColour(c: Ctx, t: Tree, nil: Node, h: Store)
    requires At(c, t, nil, h) && h[nil].mark == BLACK
    ensures Up(c, nil) in h && (h[Up(c, nil)].mark == RED <==> CRed(c))
  {
  }

  /** What the loop sees from a red node with a red parent. */
  lemma Relatives(c: Ctx, t: Tree, nil: Node, h: Store)
    requires At(c, t, nil, h) && h[nil].mark == BLACK && InsertInv(c, t) && CRed(c)
    ensures !c.up.Top? && At(c.up.up, Family(c, t), nil, h)
    ensures {c.e.n, c.up.e.n} <= h.Keys && h[c.e.n].parent == c.up.e.n
    ensures h[c.up.e.n].left == c.e.n <==> c.up.InL?
    ensures var u := if c.up.InL? then h[c.up.e.n].right else h[c.up.e.n].left;
      && u != null && u in h && u == Root(Sibling(c.up), nil) && (h[u].mark == RED <==> Red(Sibling(c.up)))
  {
    HoleLinks(c.up, Up1(c, t), nil, h);
    OneSided(c.up, Up1(c, t), nil, h);
    FamilyLinks(c.up.up, Family(c, t), nil, h);
  }

  /** `tree_root_priv(us)->color = x`; in an empty tree that is the sentinel's own colour. */
  method PaintRoot(us: Usrtc, x: int, ghost c: Ctx, ghost t: Tree, ghost S: set<Node>)
    requires At(c, t, us.sentinel, Snap(S))
    modifies S`mark
    ensures At(Top, Painted(Plug(c, t), x), us.sentinel, Snap(S))
    ensures us.sentinel.mark == if Plug(c, t).Leaf? then x else old(us.sentinel.mark)
    ensures forall n | n in S && n != Root(Plug(c, t), us.sentinel) :: n.mark == old(n.mark)
  {
    hide At;
    var nil := us.sentinel;
    ghost var w, h := Plug(c, t), Snap(S);
    FocusTop(c, t, nil, h);
    HoleLinks(Top, w, nil, h);
    nil.left.mark := x;
    if w.Fork? {
      Paint(Top, w, x, nil, h, Snap(S));
    } else {
      AtFrame(Top, w, nil, h, Snap(S), {nil});
    }
  }

  /** One pass of the recolouring loop; `settled` stands for its `break`. */
  method PushStep(node0: Node, parent0: Node, ghost c0: Ctx, ghost t0: Tree, ghost nil: Node, ghost S: set<Node>)
    returns (node: Node, parent: Node, ghost c: Ctx, ghost t: Tree, settled: bool)
    requires At(c0, t0, nil, Snap(S)) && InsertInv(c0, t0) && nil.mark == BLACK && CRed(c0)
    requires t0.Fork? && node0 == t0.e.n && parent0 == Up(c0, nil)
    modifies S
    ensures At(c, t, nil, Snap(S)) && nil.mark == BLACK
    ensures Inorder(Plug(c, t)) == Inorder(Plug(c0, t0))
    ensures settled ==> Settled(c, t)
    ensures !settled ==>
      && InsertInv(c, t) && t.Fork? && node == t.e.n && parent == Up(c, nil) && parent in S
      && (parent.mark == RED <==> CRed(c)) && Depth(c) < Depth(c0)
  {
    hide At, InsertInv, Inorder, Lifted, Recoloured, RBTree, Settled;
    Relatives(c0, t0, nil, Snap(S));
    node, parent, settled := node0, parent0, true;
    var grandpa := parent.parent;
    if parent == grandpa.left {
      var uncle := grandpa.right;
      if uncle.mark == RED {
        RedUncle(c0, t0);
        node, parent := RecolourFamily(parent, uncle, grandpa, c0, t0, nil, S);
        settled := false;
      } else {
        BlackUncle(c0, t0);
        RaiseLeft(node, parent, grandpa, c0, t0, nil, S);
      }
    } else {
      var uncle := grandpa.left;
      if uncle.mark == RED {
        RedUncle(c0, t0);
        node, parent := RecolourFamily(parent, uncle, grandpa, c0, t0, nil, S);
        settled := false;
      } else {
        BlackUncle(c0, t0);
        RaiseRight(node, parent, grandpa, c0, t0, nil, S);
      }
    }
    c, t := c0.up.up, if settled then Lifted(c0, t0) else Recoloured(Family(c0, t0));
    ParentColour(c, t, nil, Snap(S));
  }

  /** The recolouring loop: `node` turns red and is pushed up until its parent is black. */
  method PushUpRed(us: Usrtc, node0: Node, ghost c0: Ctx, ghost t0: Tree, ghost S: set<Node>) returns (ghost t': Tree)
    requires t0.Fork? && t0.e.n == node0 && At(c0, t0, us.sentinel, Snap(S)) && us.sentinel.mark == BLACK
    requires InsertInv(c0, Painted(t0, RED))
    modifies S
    ensures At(Top, t', us.sentinel, Snap(S)) && RBTree(t') && us.sentinel.mark == BLACK
    ensures Inorder(t') == Inorder(Plug(c0, t0))
  {
    hide At, InsertInv, Inorder, Lifted, Recoloured, RBTree, Settled;
    var nil := us.sentinel;
    var node := node0;
    var settled := false;
    ghost var c, t, h := c0, Painted(t0, RED), Snap(S);
    HoleLinks(c, t0, nil, h);
    node.mark := RED;
    Paint(c, t0, RED, nil, h, Snap(S));
    PaintedInorder(c, t0, RED);
    h := Snap(S);
    HoleLinks(c, t, nil, h);
    var parent := node.parent;
    ParentColour(c, t, nil, h);
    while parent.mark == RED
      invariant At(c, t, nil, Snap(S)) && InsertInv(c, t) && nil.mark == BLACK
      invariant t.Fork? && node == t.e.n && parent == Up(c, nil) && parent in S
      invariant parent.mark == RED <==> CRed(c)
      invariant Inorder(Plug(c, t)) == Inorder(Plug(c0, t0))
      decreases Depth(c)
    {
      node, parent, c, t, settled := PushStep(node, parent, c, t, nil, S);
      if settled {
        break;
      }
    }
    StopRed(c, t);
    InsertEnd(c, t);
    PaintedInorder(Top, Plug(c, t), BLACK);
    PaintRoot(us, BLACK, c, t, S);
    t' := Painted(Plug(c, t), BLACK);
  }

  lemma ChildLinks(c: Ctx, t: Tree, nil: Node, h: Store)
    requires At(c, t, nil, h) && Short(c, t) && Stoppable(c, t)
    requires h[nil].mark == if c.Top? && t.Leaf? then RED else BLACK
    ensures Root(t, nil) in h && Up(c, nil) in h
    ensures h[Root(t, nil)].mark == BLACK ==> !c.Top? && !Red(t)
    ensures h[Root(t, nil)].mark != BLACK ==> Red(t) || (c.Top? && t.Leaf?)
    ensures !c.Top? ==> (Sibling(c).Fork? && (h[c.e.n].left == Root(t, nil) <==> c.InL?))
    ensures !c.Top? && c.InR? ==> h[c.e.n].right == Root(t, nil)
  {
    HoleLinks(c, t, nil, h);
    if !c.Top? {
      SisterExists(c, t);
      FocusOpposite(c, t, nil, h);
      HoleLinks(Opposite(c, t), Sibling(c), nil, h);
      OneSided(Opposite(c, t), Sibling(c), nil, h);
    }
  }

  /** The deletion loop and its two final paintings. */
  method FillUp(us: Usrtc, child0: Node, ghost c0: Ctx, ghost t0: Tree, ghost S: set<Node>) returns (ghost t': Tree)
    requires At(c0, t0, us.sentinel, Snap(S)) && Short(c0, t0) && Stoppable(c0, t0)
    requires us.sentinel.mark == if c0.Top? && t0.Leaf? then RED else BLACK
    requires child0 == Root(t0, us.sentinel) && child0.parent == Up(c0, us.sentinel)
    modifies S
    ensures At(Top, t', us.sentinel, Snap(S)) && RBTree(t') && us.sentinel.mark == BLACK
    ensures Inorder(t') == Inorder(Plug(c0, t0))
  {
    hide At, Short, Stoppable, Inorder, RBTree;
    var nil := us.sentinel;
    var child := child0;
    var done := false;
    ghost var c, t := c0, t0;
    ChildLinks(c, t, nil, Snap(S));
    while child.mark == BLACK
      invariant At(c, t, nil, Snap(S)) && Short(c, t) && Stoppable(c, t) && child in S
      invariant nil.mark == if c.Top? && t.Leaf? then RED else BLACK
      invariant child == Root(t, nil) && child.parent == Up(c, nil)
      invariant Inorder(Plug(c, t)) == Inorder(Plug(c0, t0))
      decreases if Red(t) then 0 else 1 + Depth(c)
    {
      ChildLinks(c, t, nil, Snap(S));
      var parent := child.parent;
      if child == parent.left {
        child, c, t, done := FillLeft(nil, child, parent, c, t, S);
      } else {
        if child != parent.right {
          assert false;
        }
        child, c, t, done := FillRight(nil, child, parent, c, t, S);
      }
      if done {
        break;
      }
    }
    ChildEnd(c, t, nil, Snap(S));
    t' := FinishFill(us, child, c, t, done, S);
  }

  lemma ChildEnd(c: Ctx, t: Tree, nil: Node, h: Store)
    requires At(c, t, nil, h)
    ensures Root(t, nil) in h
    ensures Short(c, t) && Stoppable(c, t) && h[nil].mark == (if c.Top? && t.Leaf? then RED else BLACK) ==>
      h[Root(t, nil)].mark == BLACK || Red(t) || (c.Top? && t.Leaf?)
  {
    HoleLinks(c, t, nil, h);
  }

  method FinishFill(us: Usrtc, child: Node, ghost c: Ctx, ghost t: Tree, ghost done: bool, ghost S: set<Node>)
    returns (ghost t': Tree)
    requires At(c, t, us.sentinel, Snap(S)) && child in S
    requires done ==> child.mark == BLACK && us.sentinel.mark == BLACK && RBTree(Painted(Plug(c, t), BLACK))
    requires !done ==> child == Root(t, us.sentinel) && Short(c, t) && (Red(t) || (c.Top? && t.Leaf?))
    requires us.sentinel.mark == BLACK || child == us.sentinel
    modifies S
    ensures At(Top, t', us.sentinel, Snap(S)) && RBTree(t') && us.sentinel.mark == BLACK
    ensures Inorder(t') == Inorder(Plug(c, t))
  {
    hide At, Short, Inorder, RBTree;
    ghost var h, s := Snap(S), t;
    var nil := us.sentinel;
    child.mark := BLACK;
    if !done {
      DeleteEnd(c, t);
      s := Painted(t, BLACK);
      if t.Fork? {
        HoleLinks(c, t, nil, h);
        Paint(c, t, BLACK, nil, h, Snap(S));
      } else {
        AtFrame(c, t, nil, h, Snap(S), {nil});
      }
    } else {
      assert Snap(S) == h;
    }
    PaintedInorder(Top, Plug(c, s), BLACK);
    PaintRoot(us, BLACK, c, s, S);
    t' := Painted(Plug(c, s), BLACK);
  }

  /** `node` and the node that took its place exchange colours. */
  method ExchangeColours(node: Node, swap: Node, ghost c: Ctx, ghost t: Tree, ghost nil: Node, ghost S: set<Node>)
    requires t.Fork? && t.e.n == node && At(c, Shrunk(t), nil, Snap(S)) && swap == Swap(t) && node.mark == t.m
    requires node in S && node != nil && node !in CNodes(c) && node !in Nodes(Shrunk(t))
    modifies S`mark
    ensures At(c, Refit(t), nil, Snap(S)) && node.mark == Spent(t) && nil.mark == old(nil.mark)
  {
    hide At, Shape, CShape, Nodes, CNodes, Distinct, Apart, Inorder, DropMin, Shrunk, Refit, Spent, Swap;
    ghost var h := Snap(S);
    SwapLinks(c, t, nil, h);
    var savecolor := node.mark;
    node.mark := swap.mark;
    swap.mark := savecolor;
    assert Snap(S) == h[node := h[node].(mark := h[swap].mark)][swap := h[swap].(mark := t.m)];
    ColoursExchanged(c, t, nil, h, Snap(S));
  }

  lemma SwapLinks(c: Ctx, t: Tree, nil: Node, h: Store)
    requires t.Fork? && At(c, Shrunk(t), nil, h) && t.e.n != nil && t.e.n in h && h[t.e.n].mark == t.m
    ensures nil in h && Swap(t) in h && h[Swap(t)].mark == Spent(t) && Swap(t) != nil
  {
    hide At, Shape, CShape, Nodes, CNodes, DropMin;
    HoleLinks(c, Shrunk(t), nil, h);
  }

  lemma ColoursExchanged(c: Ctx, t: Tree, nil: Node, h: Store, h': Store)
    requires t.Fork? && At(c, Shrunk(t), nil, h) && t.e.n in h && h[t.e.n].mark == t.m
    requires t.e.n != nil && t.e.n !in CNodes(c) && t.e.n !in Nodes(Shrunk(t)) && Swap(t) in h
    requires h' == h[t.e.n := h[t.e.n].(mark := h[Swap(t)].mark)][Swap(t) := h[Swap(t)].(mark := t.m)]
    ensures At(c, Refit(t), nil, h')
  {
    var node, swap := t.e.n, Swap(t);
    var h1 := h[node := h[node].(mark := h[swap].mark)];
    HoleLinks(c, Shrunk(t), nil, h);
    AtFrame(c, Shrunk(t), nil, h, h1, {node});
    hide At, Shape, CShape, Nodes, CNodes, Distinct, Apart, Inorder, DropMin;
    if t.l.Leaf? || t.r.Leaf? {
      assert h' == h1;
    } else {
      HoleLinks(c, Shrunk(t), nil, h1);
      Paint(c, Shrunk(t), t.m, nil, h1, h');
    }
  }

  method RedBlackDelete(us: Usrtc, node: Node, ghost c: Ctx, ghost t: Tree, ghost S: set<Node>) returns (ghost t': Tree)
    requires t.Fork? && t.e.n == node && At(c, t, us.sentinel, Snap(S))
    requires RBTree(Plug(c, t)) && us.sentinel.mark == BLACK && us.nodecount > 0
    modifies us`nodecount, S
    ensures us.nodecount == old(us.nodecount) - 1
    ensures At(Top, t', us.sentinel, Snap(S)) && RBTree(t') && us.sentinel.mark == BLACK
    ensures Inorder(t') == Before(c) + (Inorder(t.l) + Inorder(t.r)) + After(c)
  {
    hide At, Short, Inorder, RBTree, CNodes, Nodes, Shrunk, Refit, RefitGap, Raised, Swap, Gap;
    var nil := us.sentinel;
    HoleLinks(c, t, nil, Snap(S));
    Unlinked(c, t, nil, Snap(S));
    var swap, child := TreeDelete(us, node, c, t, S);
    ExchangeColours(node, swap, c, t, nil, S);
    RefitFocus(c, t, nil, Snap(S));
    RefitRB(c, t);
    RefitInorder(c, t);
    ghost var g, z := RefitGap(c, t), Raised(t);
    if node.mark == BLACK {
      PaintRoot(us, RED, g, z, S);
      RootReddened(g, z, nil, Snap(S));
      t' := FillUp(us, child, PaintTop(g, RED), if g.Top? then Painted(z, RED) else z, S);
    } else {
      FocusTop(g, z, nil, Snap(S));
      t' := Plug(g, z);
    }
  }

  lemma RootReddened(c: Ctx, t: Tree, nil: Node, h: Store)
    requires Short(c, t) && (!c.Top? ==> TopMark(c) == BLACK) && At(Top, Painted(Plug(c, t), RED), nil, h)
    ensures var d, s := PaintTop(c, RED), if c.Top? then Painted(t, RED) else t;
      && At(d, s, nil, h) && Short(d, s) && Stoppable(d, s)
      && Root(s, nil) == Root(t, nil) && Up(d, nil) == Up(c, nil)
      && (Plug(c, t).Leaf? <==> c.Top? && t.Leaf?) && d.Top? == c.Top? && s.Leaf? == t.Leaf?
      && Inorder(Plug(d, s)) == Inorder(Plug(c, t))
  {
    var d, s := PaintTop(c, RED), if c.Top? then Painted(t, RED) else t;
    PaintPlug(c, t, RED);
    RootColour(c, t);
    PaintedTop(c, RED);
    PaintedTop(c, BLACK);
    FocusTop(d, s, nil, h);
    PaintedInorder(Top, Plug(c, t), RED);
  }

  method RedBlackInsert(us: Usrtc, node0: Node, key: int, ghost t0: Tree, ghost S: set<Node>) returns (ghost t': Tree)
    requires At(Top, t0, us.sentinel, Snap(S)) && Sorted(Inorder(t0)) && RBTree(t0) && us.sentinel.mark == BLACK
    requires node0 in S && node0 != us.sentinel && node0 !in Nodes(t0)
    requires !(us.dupes_allowed && HasKey(Inorder(t0), key))
    modifies us`nodecount, S
    ensures us.nodecount == old(us.nodecount) + 1
    ensures At(Top, t', us.sentinel, Snap(S)) && RBTree(t') && us.sentinel.mark == BLACK
    ensures Inorder(t') == Inserted(Inorder(t0), Entry(node0, key))
  {
    hide At, Sorted, HasKey, Inserted, InsertInv, RBTree, Inorder;
    ghost var c, linked := TreeInsert(us, node0, key, t0, S);
    ghost var t := Fork(Leaf, Entry(node0, key), old(node0.mark), Leaf);
    InsertStart(c, t.e);
    PlugInorder(c, t);
    LeafInorder(t);
    t' := PushUpRed(us, node0, c, t, S);
  }
}
