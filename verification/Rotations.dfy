/** The two rotations of tree.c. */
module Rotations {
  import opened Links

  lemma RotationInorder<T>(a: seq<T>, x: T, b: seq<T>, y: T, d: seq<T>)
    ensures (a + [x] + b) + [y] + d == a + [x] + (b + [y] + d)
  {
  }

  ghost function RotLeft(t: Tree): Tree
    requires t.Fork? && t.r.Fork?
  {
    Fork(Fork(t.l, t.e, t.m, t.r.l), t.r.e, t.r.m, t.r.r)
  }

  /** The links a left rotation reads, as the zipper predicts them. */
  lemma LeftLinks(c: Ctx, t: Tree, nil: Node, h: Store)
    requires t.Fork? && t.r.Fork? && At(c, t, nil, h)
    ensures var p, q, b, g := t.e.n, t.r.e.n, Root(t.r.l, nil), Up(c, nil);
      && {p, q, b, g, nil} <= h.Keys && p !in {q, b, g, nil} && q !in {b, g, nil} && (b == g ==> b == nil)
      && (g == nil <==> c.Top?) && (b == nil <==> t.r.l.Leaf?)
      && h[p].right == q && h[q].left == b && h[p].parent == g
      && (if c.InR? then h[g].right == p && h[g].left != p else h[g].left == p && h[g].right != p)
  {
    assert Shape(t.r, t.e.n, nil, h) && Shape(t.r.l, t.r.e.n, nil, h);
    assert Up(c, nil) in CNodes(c) + {nil} && Root(t.r.l, nil) in Nodes(t.r.l) + {nil};
  }

  lemma LeftTree(c: Ctx, t: Tree, nil: Node, h: Store, h': Store)
    requires t.Fork? && t.r.Fork? && At(c, t, nil, h)
    requires var p, q, b, g := t.e.n, t.r.e.n, Root(t.r.l, nil), Up(c, nil);
      && {p, q, b, g} <= h.Keys * h'.Keys && Agree(h, h', {p, q, b, g})
      && h'[q] == h[q].(left := p, parent := g) && h'[p] == h[p].(right := b, parent := q)
      && (b != nil ==> h'[b] == h[b].(parent := p))
    ensures Shape(RotLeft(t), Up(c, nil), nil, h')
  {
    var p, q, b, g := t.e.n, t.r.e.n, Root(t.r.l, nil), Up(c, nil);
    LeftLinks(c, t, nil, h);
    assert Shape(t.r, p, nil, h) && Distinct(t.r);
    assert g in CNodes(c) + {nil} && b in Nodes(t.r.l) + {nil};
    Frame(t.l, p, nil, h, h', {p, q, b, g});
    Frame(t.r.r, q, nil, h, h', {p, q, b, g});
    Reparent(t.r.l, q, p, nil, h, h', {p, q, b, g});
  }

  lemma LeftNodes(t: Tree)
    requires t.Fork? && t.r.Fork?
    ensures Nodes(RotLeft(t)) == Nodes(t) && Inorder(RotLeft(t)) == Inorder(t)
    ensures Distinct(t) ==> Distinct(RotLeft(t))
  {
    RotationInorder(Inorder(t.l), t.e, Inorder(t.r.l), t.r.e, Inorder(t.r.r));
    assert Distinct(t) ==> Distinct(t.r);
  }

  lemma LeftRotated(c: Ctx, t: Tree, nil: Node, h: Store, h': Store)
    requires t.Fork? && t.r.Fork? && At(c, t, nil, h)
    requires var p, q, b, g := t.e.n, t.r.e.n, Root(t.r.l, nil), Up(c, nil);
      && {p, q, b, g} <= h.Keys * h'.Keys && Agree(h, h', {p, q, b, g})
      && h'[q] == h[q].(left := p, parent := g) && h'[p] == h[p].(right := b, parent := q)
      && (b != nil ==> h'[b] == h[b].(parent := p)) && Rehung(c, q, nil, h, h')
    ensures At(c, RotLeft(t), nil, h')
  {
    var p, q, b, g := t.e.n, t.r.e.n, Root(t.r.l, nil), Up(c, nil);
    LeftTree(c, t, nil, h, h');
    LeftNodes(t);
    assert b in Nodes(t) + {nil};
    Rehang(c, p, q, nil, h, h', {p, q, b, g});
  }

  method RotateLeft(child: Node, parent: Node, ghost c: Ctx, ghost t: Tree, ghost nil: Node, ghost S: set<Node>)
    requires t.Fork? && t.r.Fork? && t.e.n == parent && t.r.e.n == child
    requires At(c, t, nil, Snap(S))
    modifies S
    ensures At(c, RotLeft(t), nil, Snap(S))
    ensures nil.mark == old(nil.mark)
    ensures nil.parent == if t.r.l.Leaf? then parent else old(nil.parent)
  {
    hide At;
    ghost var h := Snap(S);
    LeftLinks(c, t, nil, h);
    if parent.right != child {
      assert false;
    }
    var leftgrandchild := child.left;
    parent.right := leftgrandchild;
    leftgrandchild.parent := parent;
    var grandpa := parent.parent;
    child.parent := grandpa;
    if parent == grandpa.left {
      grandpa.left := child;
    } else {
      if parent != grandpa.right {
        assert false;
      }
      grandpa.right := child;
    }
    child.left := parent;
    parent.parent := child;
    LeftRotated(c, t, nil, h, Snap(S));
  }

  ghost function RotRight(t: Tree): Tree
    requires t.Fork? && t.l.Fork?
  {
    Fork(t.l.l, t.l.e, t.l.m, Fork(t.l.r, t.e, t.m, t.r))
  }

  /** The links a right rotation reads, as the zipper predicts them. */
  lemma RightLinks(c: Ctx, t: Tree, nil: Node, h: Store)
    requires t.Fork? && t.l.Fork? && At(c, t, nil, h)
    ensures var p, q, b, g := t.e.n, t.l.e.n, Root(t.l.r, nil), Up(c, nil);
      && {p, q, b, g, nil} <= h.Keys && p !in {q, b, g, nil} && q !in {b, g, nil} && (b == g ==> b == nil)
      && (g == nil <==> c.Top?) && (b == nil <==> t.l.r.Leaf?)
      && h[p].left == q && h[q].right == b && h[p].parent == g
      && (if c.InR? then h[g].right == p && h[g].left != p else h[g].left == p && h[g].right != p)
  {
    assert Shape(t.l, t.e.n, nil, h) && Shape(t.l.r, t.l.e.n, nil, h);
    assert Up(c, nil) in CNodes(c) + {nil} && Root(t.l.r, nil) in Nodes(t.l.r) + {nil};
  }

  lemma RightTree(c: Ctx, t: Tree, nil: Node, h: Store, h': Store)
    requires t.Fork? && t.l.Fork? && At(c, t, nil, h)
    requires var p, q, b, g := t.e.n, t.l.e.n, Root(t.l.r, nil), Up(c, nil);
      && {p, q, b, g} <= h.Keys * h'.Keys && Agree(h, h', {p, q, b, g})
      && h'[q] == h[q].(right := p, parent := g) && h'[p] == h[p].(left := b, parent := q)
      && (b != nil ==> h'[b] == h[b].(parent := p))
    ensures Shape(RotRight(t), Up(c, nil), nil, h')
  {
    var p, q, b, g := t.e.n, t.l.e.n, Root(t.l.r, nil), Up(c, nil);
    RightLinks(c, t, nil, h);
    assert Shape(t.l, p, nil, h) && Distinct(t.l);
    assert g in CNodes(c) + {nil} && b in Nodes(t.l.r) + {nil};
    Frame(t.r, p, nil, h, h', {p, q, b, g});
    Frame(t.l.l, q, nil, h, h', {p, q, b, g});
    Reparent(t.l.r, q, p, nil, h, h', {p, q, b, g});
  }

  lemma RightNodes(t: Tree)
    requires t.Fork? && t.l.Fork?
    ensures Nodes(RotRight(t)) == Nodes(t) && Inorder(RotRight(t)) == Inorder(t)
    ensures Distinct(t) ==> Distinct(RotRight(t))
  {
    RotationInorder(Inorder(t.l.l), t.l.e, Inorder(t.l.r), t.e, Inorder(t.r));
    assert Distinct(t) ==> Distinct(t.l);
  }

  lemma RightRotated(c: Ctx, t: Tree, nil: Node, h: Store, h': Store)
    requires t.Fork? && t.l.Fork? && At(c, t, nil, h)
    requires var p, q, b, g := t.e.n, t.l.e.n, Root(t.l.r, nil), Up(c, nil);
      && {p, q, b, g} <= h.Keys * h'.Keys && Agree(h, h', {p, q, b, g})
      && h'[q] == h[q].(right := p, parent := g) && h'[p] == h[p].(left := b, parent := q)
      && (b != nil ==> h'[b] == h[b].(parent := p)) && Rehung(c, q, nil, h, h')
    ensures At(c, RotRight(t), nil, h')
  {
    var p, q, b, g := t.e.n, t.l.e.n, Root(t.l.r, nil), Up(c, nil);
    RightTree(c, t, nil, h, h');
    RightNodes(t);
    assert b in Nodes(t) + {nil};
    Rehang(c, p, q, nil, h, h', {p, q, b, g});
  }

  method RotateRight(child: Node, parent: Node, ghost c: Ctx, ghost t: Tree, ghost nil: Node, ghost S: set<Node>)
    requires t.Fork? && t.l.Fork? && t.e.n == parent && t.l.e.n == child
    requires At(c, t, nil, Snap(S))
    modifies S
    ensures At(c, RotRight(t), nil, Snap(S))
    ensures nil.mark == old(nil.mark)
    ensures nil.parent == if t.l.r.Leaf? then parent else old(nil.parent)
  {
    hide At;
    ghost var h := Snap(S);
    RightLinks(c, t, nil, h);
    if parent.left != child {
      assert false;
    }
    var rightgrandchild := child.right;
    parent.left := rightgrandchild;
    rightgrandchild.parent := parent;
    var grandpa := parent.parent;
    child.parent := grandpa;
    if parent == grandpa.right {
      grandpa.right := child;
    } else {
      if parent != grandpa.left {
        assert false;
      }
      grandpa.left := child;
    }
    child.right := parent;
    parent.parent := child;
    RightRotated(c, t, nil, h, Snap(S));
  }
}
