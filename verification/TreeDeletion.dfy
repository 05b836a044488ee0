/** Unlinking a node from a binary tree: `usrtc_tree_delete` of tree.c. */
module TreeDeletion {
  import opened Links
  import opened Container
  import opened BinaryTree

  /** The subtree that replaces a node with at most one child. */
  ghost function OnlyChild(t: Tree): Tree
    requires t.Fork?
  {
    if t.l.Fork? then t.l else t.r
  }

  /** The subtree whose root comes first in order. */
  ghost function MinFork(r: Tree): (first: Tree)
    requires r.Fork?
    ensures first.Fork? && first.l.Leaf?
  {
    if r.l.Leaf? then r else MinFork(r.l)
  }

  /** `r` without its first node. */
  ghost function DropMin(r: Tree): Tree
    requires r.Fork?
  {
    if r.l.Leaf? then r.r else Fork(DropMin(r.l), r.e, r.m, r.r)
  }

  /** Where the first node of `r` was, when `r` hangs in `c`. */
  ghost function MinHole(c: Ctx, r: Tree): Ctx
    requires r.Fork?
    decreases r
  {
    if r.l.Leaf? then c else MinHole(InL(c, r.e, r.m, r.r), r.l)
  }

  /** The tree at the position of `t` once its root is deleted: the in-order successor, with its own
      mark, takes the place of a root that had two children. */
  ghost function Shrunk(t: Tree): Tree
    requires t.Fork?
  {
    if t.l.Leaf? || t.r.Leaf? then OnlyChild(t)
    else Fork(t.l, MinFork(t.r).e, MinFork(t.r).m, DropMin(t.r))
  }

  /** The node that went into the place of the deleted one, or the deleted one itself. */
  ghost function Swap(t: Tree): Node
    requires t.Fork?
  {
    if t.l.Leaf? || t.r.Leaf? then t.e.n else MinFork(t.r).e.n
  }

  /** The subtree that moved up by one. */
  ghost function Raised(t: Tree): Tree
    requires t.Fork?
  {
    if t.l.Leaf? || t.r.Leaf? then OnlyChild(t) else MinFork(t.r).r
  }

  /** Where `Raised(t)` hangs afterwards. */
  ghost function Gap(c: Ctx, t: Tree): Ctx
    requires t.Fork?
  {
    if t.l.Leaf? || t.r.Leaf? then c else MinHole(InR(c, t.l, MinFork(t.r).e, MinFork(t.r).m), t.r)
  }

  /** The tree at the deleted position once the successor also has the mark of the deleted node. */
  ghost function Refit(t: Tree): Tree
    requires t.Fork?
  {
    if t.l.Leaf? || t.r.Leaf? then OnlyChild(t) else Painted(Shrunk(t), t.m)
  }

  ghost function RefitGap(c: Ctx, t: Tree): Ctx
    requires t.Fork?
  {
    if t.l.Leaf? || t.r.Leaf? then c else MinHole(InR(c, t.l, MinFork(t.r).e, t.m), t.r)
  }

  lemma {:induction false} MinFocus(c: Ctx, r: Tree, nil: Node, h: Store)
    requires r.Fork?
    ensures At(c, r, nil, h) <==> At(MinHole(c, r), MinFork(r), nil, h)
    ensures At(c, DropMin(r), nil, h) <==> At(MinHole(c, r), MinFork(r).r, nil, h)
    decreases r
  {
    if r.l.Fork? {
      FocusLeft(c, r, nil, h);
      FocusLeft(c, DropMin(r), nil, h);
      MinFocus(InL(c, r.e, r.m, r.r), r.l, nil, h);
    }
  }

  lemma {:induction false} MinOrder(r: Tree)
    requires r.Fork?
    ensures Inorder(r) == [MinFork(r).e] + Inorder(DropMin(r))
    ensures MinFork(r).e.n in Nodes(r) && Nodes(r) == {MinFork(r).e.n} + Nodes(DropMin(r))
    ensures Distinct(r) ==> MinFork(r).e.n !in Nodes(DropMin(r))
    ensures Nodes(MinFork(r)) <= Nodes(r)
  {
    if r.l.Fork? {
      MinOrder(r.l);
    }
  }

  lemma {:induction false} MinPlug(c: Ctx, r: Tree)
    requires r.Fork?
    ensures Plug(MinHole(c, r), MinFork(r).r) == Plug(c, DropMin(r))
    decreases r
  {
    if r.l.Fork? {
      MinPlug(InL(c, r.e, r.m, r.r), r.l);
    }
  }

  lemma ShrunkInorder(t: Tree)
    requires t.Fork?
    ensures Inorder(Shrunk(t)) == Inorder(t.l) + Inorder(t.r)
  {
    if t.r.Fork? {
      MinOrder(t.r);
    }
  }

  lemma Spliced(c: Ctx, t: Tree, nil: Node, h: Store, h': Store)
    requires t.Fork? && (t.l.Leaf? || t.r.Leaf?) && At(c, t, nil, h)
    requires var z, g := Root(OnlyChild(t), nil), Up(c, nil);
      && {z, g} <= h.Keys * h'.Keys && Agree(h, h', {z, g})
      && (z != nil ==> h'[z] == h[z].(parent := g)) && Rehung(c, z, nil, h, h')
    ensures At(c, OnlyChild(t), nil, h')
  {
    var z, g := Root(OnlyChild(t), nil), Up(c, nil);
    assert g in CNodes(c) + {nil} && z in Nodes(OnlyChild(t)) + {nil};
    Rehang(c, t.e.n, z, nil, h, h', {z, g});
    Reparent(OnlyChild(t), t.e.n, g, nil, h, h', {z, g});
  }

  /** `child->parent = parent`, and `parent`'s link to `node` now leads to `child`. */
  method SpliceOut(node: Node, child: Node, parent: Node, ghost c: Ctx, ghost t: Tree, ghost nil: Node,
      ghost S: set<Node>)
    requires t.Fork? && t.e.n == node && (t.l.Leaf? || t.r.Leaf?) && At(c, t, nil, Snap(S))
    requires child == Root(OnlyChild(t), nil) && parent == Up(c, nil)
    modifies child`parent, parent`left, parent`right
    ensures At(c, OnlyChild(t), nil, Snap(S)) && child.parent == parent
  {
    hide At;
    ghost var h := Snap(S);
    HoleLinks(c, t, nil, h);
    OneSided(c, t, nil, h);
    SpliceApart(c, t, nil, h);
    child.parent := parent;
    if parent.left == node {
      parent.left := child;
    } else {
      parent.right := child;
    }
    Spliced(c, t, nil, h, Snap(S));
  }

  lemma SpliceApart(c: Ctx, t: Tree, nil: Node, h: Store)
    requires t.Fork? && At(c, t, nil, h)
    ensures t.e.n !in {nil, Up(c, nil), Root(t.l, nil), Root(t.r, nil)}
    ensures Up(c, nil) in {Root(t.l, nil), Root(t.r, nil)} ==> Up(c, nil) == nil
  {
    assert Up(c, nil) in CNodes(c) + {nil};
    assert Root(t.l, nil) in Nodes(t.l) + {nil} && Root(t.r, nil) in Nodes(t.r) + {nil};
  }

  lemma PlaceTaken(c: Ctx, t: Tree, n: Node, nil: Node, h: Store, h': Store)
    requires t.Fork? && t.l.Fork? && At(c, t, nil, h) && n != nil && n !in CNodes(c) && n !in Nodes(t) && n in h'
    requires var a, b, g := t.l.e.n, Root(t.r, nil), Up(c, nil);
      && {a, b, g} <= h.Keys * h'.Keys && Agree(h, h', {n, a, b, g, t.e.n})
      && h'[n] == Cell(a, b, g, h'[n].key, h'[n].mark)
      && h'[a] == h[a].(parent := n) && (b != nil ==> h'[b] == h[b].(parent := n))
      && Rehung(c, n, nil, h, h')
    ensures At(c, Fork(t.l, Entry(n, h'[n].key), h'[n].mark, t.r), nil, h')
  {
    var a, b, g := t.l.e.n, Root(t.r, nil), Up(c, nil);
    var D := {n, a, b, g, t.e.n};
    assert g in CNodes(c) + {nil} && b in Nodes(t.r) + {nil} && a in Nodes(t.l);
    Rehang(c, t.e.n, n, nil, h, h', D);
    Reparent(t.l, t.e.n, n, nil, h, h', D);
    Reparent(t.r, t.e.n, n, nil, h, h', D);
  }

  /** `next`, already unlinked, takes over the links of `node`. */
  method TakePlace(next: Node, node: Node, delparent: Node, ghost c: Ctx, ghost t: Tree, ghost nil: Node,
      ghost S: set<Node>)
    requires t.Fork? && t.l.Fork? && t.e.n == node && At(c, t, nil, Snap(S)) && delparent == Up(c, nil)
    requires next in S && next != nil && next !in CNodes(c) && next !in Nodes(t)
    modifies S
    ensures At(c, Fork(t.l, Entry(next, old(next.key)), old(next.mark), t.r), nil, Snap(S))
    ensures nil.parent == if t.r.Leaf? then next else old(nil.parent)
    ensures nil.mark == old(nil.mark) && node.key == old(node.key) && node.mark == old(node.mark)
  {
    hide At, CNodes, Nodes;
    ghost var h := Snap(S);
    TakeLinks(c, t, next, nil, h);
    next.parent := delparent;
    next.left := node.left;
    next.right := node.right;
    next.left.parent := next;
    next.right.parent := next;
    if delparent.left == node {
      delparent.left := next;
    } else {
      delparent.right := next;
    }
    PlaceTaken(c, t, next, nil, h, Snap(S));
  }

  lemma TakeLinks(c: Ctx, t: Tree, n: Node, nil: Node, h: Store)
    requires t.Fork? && t.l.Fork? && At(c, t, nil, h)
    requires n != nil && n !in CNodes(c) && n !in Nodes(t)
    ensures var x, a, b, g := t.e.n, t.l.e.n, Root(t.r, nil), Up(c, nil);
      && {x, a, b, g, nil} <= h.Keys && n !in {x, a, b, g} && x !in {a, b, g, nil} && a !in {b, g, nil}
      && (b == g ==> b == nil) && (g == nil <==> c.Top?) && (b == nil <==> t.r.Leaf?)
      && h[x].left == a && h[x].right == b && h[x].parent == g
      && (if c.InR? then h[g].right == x && h[g].left != x else h[g].left == x)
  {
    HoleLinks(c, t, nil, h);
    OneSided(c, t, nil, h);
    assert Up(c, nil) in CNodes(c) + {nil} && Root(t.r, nil) in Nodes(t.r) + {nil} && t.l.e.n in Nodes(t.l);
  }

  lemma GapFocus(c: Ctx, t: Tree, nil: Node, h: Store)
    requires t.Fork?
    ensures At(c, Shrunk(t), nil, h) <==> At(Gap(c, t), Raised(t), nil, h)
  {
    if t.l.Fork? && t.r.Fork? {
      var f := MinFork(t.r);
      FocusRight(c, Shrunk(t), nil, h);
      MinFocus(InR(c, t.l, f.e, f.m), t.r, nil, h);
    }
  }

  /** Both children present: the in-order successor is unlinked and takes the place of `node`. */
  method ReplaceByNext(next: Node, node: Node, ghost c: Ctx, ghost t: Tree, ghost nil: Node, ghost S: set<Node>)
    returns (child: Node)
    requires t.Fork? && t.l.Fork? && t.r.Fork? && t.e.n == node && At(c, t, nil, Snap(S))
    requires next == MinFork(t.r).e.n
    modifies S
    ensures node.key == old(node.key) && node.mark == old(node.mark) && nil.mark == old(nil.mark)
    ensures At(c, Shrunk(t), nil, Snap(S)) && child == Root(Raised(t), nil)
    ensures child.parent == Up(Gap(c, t), nil)
  {
    hide At;
    ghost var h, f := Snap(S), MinFork(t.r);
    ghost var c1 := InR(c, t.l, t.e, t.m);
    ghost var cx, t1 := MinHole(c1, t.r), Fork(t.l, t.e, t.m, DropMin(t.r));
    FocusRight(c, t, nil, h);
    MinFocus(c1, t.r, nil, h);
    HoleLinks(cx, f, nil, h);
    HoleLinks(c, t, nil, h);
    var delparent := node.parent;
    var nextparent := next.parent;
    child := next.right;
    MinApart(c, t, nil, h);
    SpliceOut(next, child, nextparent, cx, f, nil, S);
    MinFocus(c1, t.r, nil, Snap(S));
    FocusRight(c, t1, nil, Snap(S));
    MinHoleUp(c1, InR(c, t.l, f.e, f.m), t.r);
    TakePlace(next, node, delparent, c, t1, nil, S);
    GapFocus(c, t, nil, Snap(S));
    HoleLinks(Gap(c, t), Raised(t), nil, Snap(S));
  }

  lemma MinApart(c: Ctx, t: Tree, nil: Node, h: Store)
    requires t.Fork? && t.r.Fork? && At(c, t, nil, h)
    ensures var f, n := MinFork(t.r), MinFork(t.r).e.n;
      && n in h && n != t.e.n && n != nil && n !in CNodes(c)
      && n !in Nodes(Fork(t.l, t.e, t.m, DropMin(t.r)))
      && h[n].key == f.e.k && h[n].mark == f.m
  {
    MinOrder(t.r);
    FocusRight(c, t, nil, h);
    MinFocus(InR(c, t.l, t.e, t.m), t.r, nil, h);
  }

  lemma {:induction false} MinHoleUp(c: Ctx, c': Ctx, r: Tree)
    requires r.Fork?
    ensures r.l.Fork? ==> forall nil: Node {:trigger Up(MinHole(c, r), nil)} ::
      Up(MinHole(c, r), nil) == Up(MinHole(c', r), nil)
    decreases r
  {
    if r.l.Fork? && r.l.l.Fork? {
      MinHoleUp(InL(c, r.e, r.m, r.r), InL(c', r.e, r.m, r.r), r.l);
    }
  }

  lemma Unlinked(c: Ctx, t: Tree, nil: Node, h: Store)
    requires t.Fork? && At(c, t, nil, h)
    ensures t.e.n != nil && t.e.n !in CNodes(c) && t.e.n !in Nodes(Shrunk(t)) && t.e.n != Root(Raised(t), nil)
  {
    if t.r.Fork? {
      MinOrder(t.r);
      assert Root(Raised(t), nil) in Nodes(t.l) + Nodes(t.r) + {nil};
    }
  }

  /** At most one child: it moves up. */
  method ReplaceByChild(nil: Node, node: Node, ghost c: Ctx, ghost t: Tree, ghost S: set<Node>) returns (child: Node)
    requires t.Fork? && (t.l.Leaf? || t.r.Leaf?) && t.e.n == node && At(c, t, nil, Snap(S))
    modifies S
    ensures node.key == old(node.key) && node.mark == old(node.mark) && nil.mark == old(nil.mark)
    ensures At(c, Shrunk(t), nil, Snap(S)) && child == Root(Raised(t), nil)
    ensures child.parent == Up(Gap(c, t), nil)
  {
    hide At;
    HoleLinks(c, t, nil, Snap(S));
    child := if node.left != nil then node.left else node.right;
    var delparent := node.parent;
    SpliceOut(node, child, delparent, c, t, nil, S);
  }

  method Unlink(us: Usrtc, node: Node, ghost c: Ctx, ghost t: Tree, ghost S: set<Node>)
    returns (next: Node, child: Node)
    requires t.Fork? && t.e.n == node && At(c, t, us.sentinel, Snap(S))
    modifies S
    ensures node.key == old(node.key) && node.mark == old(node.mark) && us.sentinel.mark == old(us.sentinel.mark)
    ensures At(c, Shrunk(t), us.sentinel, Snap(S))
    ensures next == Swap(t) && child == Root(Raised(t), us.sentinel) && child.parent == Up(Gap(c, t), us.sentinel)
  {
    hide At, CNodes, Nodes, Shrunk, Raised, Gap, Overlay;
    var nil := us.sentinel;
    ghost var h := Snap(S);
    HoleLinks(c, t, nil, h);
    next := node;
    if node.left != nil && node.right != nil {
      OverlayNothing(h);
      next := TreeNext(us, node, c, t, h, {}, S);
      MinOrder(t.r);
      child := ReplaceByNext(next, node, c, t, nil, S);
    } else {
      child := ReplaceByChild(nil, node, c, t, S);
    }
  }

  method TreeDelete(us: Usrtc, node: Node, ghost c: Ctx, ghost t: Tree, ghost S: set<Node>)
    returns (swap: Node, child: Node)
    requires t.Fork? && t.e.n == node && At(c, t, us.sentinel, Snap(S)) && us.nodecount > 0
    modifies us`nodecount, S
    ensures us.nodecount == old(us.nodecount) - 1
    ensures node.left == null && node.right == null && node.parent == null
    ensures node.key == old(node.key) && node.mark == old(node.mark) && us.sentinel.mark == old(us.sentinel.mark)
    ensures At(c, Shrunk(t), us.sentinel, Snap(S))
    ensures swap == Swap(t) && child == Root(Raised(t), us.sentinel) && child.parent == Up(Gap(c, t), us.sentinel)
  {
    hide At, CNodes, Nodes, Shrunk, Raised, Gap, Swap, Snap;
    Unlinked(c, t, us.sentinel, Snap(S));
    HoleLinks(c, t, us.sentinel, Snap(S));
    swap, child := Unlink(us, node, c, t, S);
    Clear(node, c, Shrunk(t), us.sentinel, S);
    us.nodecount := us.nodecount - 1;
  }

  method Clear(node: Node, ghost c: Ctx, ghost t: Tree, ghost nil: Node, ghost S: set<Node>)
    requires At(c, t, nil, Snap(S)) && node in S && node != nil && node !in CNodes(c) && node !in Nodes(t)
    modifies node`parent, node`right, node`left
    ensures At(c, t, nil, Snap(S))
    ensures node.left == null && node.right == null && node.parent == null
  {
    hide At;
    ghost var h := Snap(S);
    HoleLinks(c, t, nil, h);
    node.parent := null;
    node.right := null;
    node.left := null;
    AtFrame(c, t, nil, h, Snap(S), {node});
  }

  lemma RefitFocus(c: Ctx, t: Tree, nil: Node, h: Store)
    requires t.Fork?
    ensures At(c, Refit(t), nil, h) <==> At(RefitGap(c, t), Raised(t), nil, h)
    ensures Up(RefitGap(c, t), nil) == Up(Gap(c, t), nil)
  {
    if t.l.Fork? && t.r.Fork? {
      var f := MinFork(t.r);
      FocusRight(c, Refit(t), nil, h);
      MinFocus(InR(c, t.l, f.e, t.m), t.r, nil, h);
      MinHoleUp(InR(c, t.l, f.e, t.m), InR(c, t.l, f.e, f.m), t.r);
    }
  }

  lemma RefitInorder(c: Ctx, t: Tree)
    requires t.Fork?
    ensures Inorder(Plug(RefitGap(c, t), Raised(t))) == Before(c) + (Inorder(t.l) + Inorder(t.r)) + After(c)
  {
    if t.l.Fork? && t.r.Fork? {
      MinPlug(InR(c, t.l, MinFork(t.r).e, t.m), t.r);
      PaintedInorder(c, Shrunk(t), t.m);
    }
    ShrunkInorder(t);
    hide Inorder;
    PlugInorder(c, Refit(t));
  }

  /** The tree without node `n`. */
  ghost function Cut(t: Tree, n: Node): Tree {
    if t.Leaf? then Leaf
    else if t.e.n == n then Shrunk(t)
    else if n in Nodes(t.l) then t.(l := Cut(t.l, n))
    else t.(r := Cut(t.r, n))
  }

  lemma {:induction false} CutBelow(c: Ctx, t: Tree, n: Node)
    requires Distinct(Plug(c, t)) && n in Nodes(t)
    ensures Cut(Plug(c, t), n) == Plug(c, Cut(t, n))
    decreases c
  {
    if !c.Top? {
      CutBelow(c.up, Up1(c, t), n);
      DistinctHole(c.up, Up1(c, t));
    }
  }
}
