/** Splaying: splay.c. */
module SplayTree {
  import opened Links
  import opened Order
  import opened Container
  import opened Rotations
  import opened BinaryTree
  import opened TreeDeletion
  import opened TreeSearch

  /** The tree that a splay step leaves where the grandparent (or the root) was, `node` on top. */
  ghost function Splayed(c: Ctx, t: Tree): Tree
    requires !c.Top? && t.Fork?
  {
    if c.up.Top? then
      if c.InL? then RotRight(Up1(c, t)) else RotLeft(Up1(c, t))
    else if c.InL? then
      if c.up.InL? then RotRight(RotRight(Up1(c.up, Up1(c, t)))) else RotLeft(Up1(c.up, RotRight(Up1(c, t))))
    else
      if c.up.InR? then RotLeft(RotLeft(Up1(c.up, Up1(c, t)))) else RotRight(Up1(c.up, RotLeft(Up1(c, t))))
  }

  ghost function SplayedIn(c: Ctx): Ctx
    requires !c.Top?
  {
    if c.up.Top? then Top else c.up.up
  }

  lemma SplayedTree(c: Ctx, t: Tree)
    requires !c.Top? && t.Fork?
    ensures Splayed(c, t).Fork? && Splayed(c, t).e == t.e
    ensures Depth(SplayedIn(c)) == Depth(c) - if c.up.Top? then 1 else 2
    ensures Inorder(Plug(SplayedIn(c), Splayed(c, t))) == Inorder(Plug(c, t))
  {
    var p := Up1(c, t);
    if c.InL? { RightNodes(p); } else { LeftNodes(p); }
    if !c.up.Top? {
      var g := Up1(c.up, p);
      var q := if c.InL? then RotRight(p) else RotLeft(p);
      if c.InL? && c.up.InL? {
        RightNodes(g);
        RightNodes(RotRight(g));
      } else if c.InR? && c.up.InR? {
        LeftNodes(g);
        LeftNodes(RotLeft(g));
      } else if c.InL? {
        LeftNodes(Up1(c.up, q));
      } else {
        RightNodes(Up1(c.up, q));
      }
    }
    SameInorder(SplayedIn(c), if c.up.Top? then p else Up1(c.up, p), Splayed(c, t));
  }

  /** The tree that is left once `t`, in context `c`, has been splayed all the way up. */
  ghost function Lifted(c: Ctx, t: Tree): (t': Tree)
    requires t.Fork?
    ensures t'.Fork? && t'.e == t.e && Inorder(t') == Inorder(Plug(c, t))
    decreases Depth(c)
  {
    if c.Top? then t else SplayedTree(c, t); Lifted(SplayedIn(c), Splayed(c, t))
  }

  /** The descent from `t`, which hangs in `c`, to node `n`. */
  ghost function Find(c: Ctx, t: Tree, n: Node): (z: (Ctx, Tree))
    requires n in Nodes(t)
    ensures z.1.Fork? && z.1.e.n == n && Plug(z.0, z.1) == Plug(c, t)
    decreases t
  {
    if t.e.n == n then (c, t)
    else if n in Nodes(t.l) then Find(InL(c, t.e, t.m, t.r), t.l, n)
    else Find(InR(c, t.l, t.e, t.m), t.r, n)
  }

  /** What splaying makes of a tree that holds `n`. */
  ghost function Splay(t: Tree, n: Node): (t': Tree)
    ensures Inorder(t') == Inorder(t) && (n in Nodes(t) ==> t'.Fork? && t'.e.n == n)
  {
    if n in Nodes(t) then Lifted(Find(Top, t, n).0, Find(Top, t, n).1) else t
  }

  /** How far `n` is from the root. */
  ghost function DepthOf(t: Tree, n: Node): nat {
    if n in Nodes(t) then Depth(Find(Top, t, n).0) else 0
  }

  lemma {:induction false} FindBelow(c: Ctx, t: Tree, n: Node)
    requires Distinct(Plug(c, t)) && n in Nodes(t)
    ensures n in Nodes(Plug(c, t)) && Find(Top, Plug(c, t), n) == Find(c, t, n)
    decreases c
  {
    if !c.Top? {
      FindBelow(c.up, Up1(c, t), n);
      DistinctHole(c.up, Up1(c, t));
    }
  }

  lemma SplayAt(c: Ctx, t: Tree, nil: Node, h: Store)
    requires t.Fork? && At(c, t, nil, h)
    ensures Splay(Plug(c, t), t.e.n) == Lifted(c, t) && DepthOf(Plug(c, t), t.e.n) == Depth(c)
  {
    FocusTop(c, t, nil, h);
    FindBelow(c, t, t.e.n);
  }

  method RightZigZig(child: Node, parent: Node, grandpa: Node, ghost c: Ctx, ghost t: Tree, ghost nil: Node,
      ghost S: set<Node>)
    requires t.Fork? && t.l.Fork? && t.l.l.Fork? && At(c, t, nil, Snap(S))
    requires grandpa == t.e.n && parent == t.l.e.n && child == t.l.l.e.n
    modifies S
    ensures At(c, RotRight(RotRight(t)), nil, Snap(S))
  {
    hide At;
    RotateRight(parent, grandpa, c, t, nil, S);
    RotateRight(child, parent, c, RotRight(t), nil, S);
  }

  method LeftZigZig(child: Node, parent: Node, grandpa: Node, ghost c: Ctx, ghost t: Tree, ghost nil: Node,
      ghost S: set<Node>)
    requires t.Fork? && t.r.Fork? && t.r.r.Fork? && At(c, t, nil, Snap(S))
    requires grandpa == t.e.n && parent == t.r.e.n && child == t.r.r.e.n
    modifies S
    ensures At(c, RotLeft(RotLeft(t)), nil, Snap(S))
  {
    hide At;
    RotateLeft(parent, grandpa, c, t, nil, S);
    RotateLeft(child, parent, c, RotLeft(t), nil, S);
  }

  method RightZigZag(child: Node, parent: Node, grandpa: Node, ghost c: Ctx, ghost t: Tree, ghost nil: Node,
      ghost S: set<Node>)
    requires t.Fork? && t.r.Fork? && t.r.l.Fork? && At(c, t, nil, Snap(S))
    requires grandpa == t.e.n && parent == t.r.e.n && child == t.r.l.e.n
    modifies S
    ensures At(c, RotLeft(t.(r := RotRight(t.r))), nil, Snap(S))
  {
    hide At;
    FocusRight(c, t, nil, Snap(S));
    RotateRight(child, parent, InR(c, t.l, t.e, t.m), t.r, nil, S);
    FocusRight(c, t.(r := RotRight(t.r)), nil, Snap(S));
    RotateLeft(child, grandpa, c, t.(r := RotRight(t.r)), nil, S);
  }

  method LeftZigZag(child: Node, parent: Node, grandpa: Node, ghost c: Ctx, ghost t: Tree, ghost nil: Node,
      ghost S: set<Node>)
    requires t.Fork? && t.l.Fork? && t.l.r.Fork? && At(c, t, nil, Snap(S))
    requires grandpa == t.e.n && parent == t.l.e.n && child == t.l.r.e.n
    modifies S
    ensures At(c, RotRight(t.(l := RotLeft(t.l))), nil, Snap(S))
  {
    hide At;
    FocusLeft(c, t, nil, Snap(S));
    RotateLeft(child, parent, InL(c, t.e, t.m, t.r), t.l, nil, S);
    FocusLeft(c, t.(l := RotLeft(t.l)), nil, Snap(S));
    RotateRight(child, grandpa, c, t.(l := RotLeft(t.l)), nil, S);
  }

  /** The links a splay step inspects. */
  lemma SplayLinks(c: Ctx, t: Tree, nil: Node, h: Store)
    requires !c.Top? && t.Fork? && At(c, t, nil, h)
    ensures At(c.up, Up1(c, t), nil, h) && {c.e.n, t.e.n, nil} <= h.Keys && h[t.e.n].parent == c.e.n
    ensures h[c.e.n].left == t.e.n <==> c.InL?
    ensures h[c.e.n].right == t.e.n <==> c.InR?
    ensures h[nil].left == c.e.n <==> c.up.Top?
    ensures !c.up.Top? ==>
      && At(c.up.up, Up1(c.up, Up1(c, t)), nil, h) && c.up.e.n in h && h[c.e.n].parent == c.up.e.n
      && (h[c.up.e.n].left == c.e.n <==> c.up.InL?) && (h[c.up.e.n].right == c.e.n <==> c.up.InR?)
  {
    var p := Up1(c, t);
    FocusUp(c, t, nil, h);
    HoleLinks(c, t, nil, h);
    OneSided(c, t, nil, h);
    HoleLinks(c.up, p, nil, h);
    OneSided(c.up, p, nil, h);
    if !c.up.Top? {
      FocusUp(c.up, p, nil, h);
      FocusTop(c.up, p, nil, h);
      HoleLinks(Top, Plug(c.up, p), nil, h);
      RootAbove(c.up, p);
      assert c.e.n !in CNodes(c.up);
    }
  }

  lemma {:induction false} RootAbove(c: Ctx, t: Tree)
    requires !c.Top?
    ensures Plug(c, t).Fork? && Plug(c, t).e.n in CNodes(c)
    decreases c
  {
    if !c.up.Top? {
      RootAbove(c.up, Up1(c, t));
    }
  }

  /** Where the links of `node`, its parent and its grandparent lead after a step.  In the straight case the grandparent
      ends below the parent and the parent below `node`, in the bent case both end below `node`. */
  lemma SplayedLinks(c: Ctx, t: Tree, nil: Node, h: Store)
    requires !c.Top? && t.Fork? && At(SplayedIn(c), Splayed(c, t), nil, h)
    ensures c.e.n in h && h[c.e.n].parent == t.e.n && t.e.n in h
    ensures if c.InL? then h[t.e.n].right == c.e.n else h[t.e.n].left == c.e.n
    ensures !c.up.Top? ==> c.up.e.n in h
    ensures !c.up.Top? && c.InL? && c.up.InL? ==> h[c.up.e.n].parent == c.e.n && h[c.e.n].right == c.up.e.n
    ensures !c.up.Top? && c.InR? && c.up.InR? ==> h[c.up.e.n].parent == c.e.n && h[c.e.n].left == c.up.e.n
    ensures !c.up.Top? && c.InL? && c.up.InR? ==> h[c.up.e.n].parent == t.e.n && h[t.e.n].left == c.up.e.n
    ensures !c.up.Top? && c.InR? && c.up.InL? ==> h[c.up.e.n].parent == t.e.n && h[t.e.n].right == c.up.e.n
  {
    var t' := Splayed(c, t);
    assert t'.e == t.e;
    assert Shape(t', Up(SplayedIn(c), nil), nil, h);
    assert Shape(t'.l, t.e.n, nil, h) && Shape(t'.r, t.e.n, nil, h);
    assert !c.up.Top? && c.InL? && c.up.InL? ==> Shape(t'.r.r, c.e.n, nil, h);
    assert !c.up.Top? && c.InR? && c.up.InR? ==> Shape(t'.l.l, c.e.n, nil, h);
  }

  /** One step: `node` rises by one level if its parent is the root, by two otherwise.  `turns` counts the rotations. */
  method SplayNode(us: Usrtc, node: Node, ghost c: Ctx, ghost t: Tree, ghost S: set<Node>) returns (ghost turns: nat)
    requires !c.Top? && t.Fork? && node == t.e.n && At(c, t, us.sentinel, Snap(S))
    modifies S
    ensures At(SplayedIn(c), Splayed(c, t), us.sentinel, Snap(S)) && turns == if c.up.Top? then 1 else 2
    ensures c.e.n == old(node.parent) && c.e.n.parent == node
    ensures if old(c.e.n.left) == node then node.right == c.e.n else node.left == c.e.n
    ensures old(us.sentinel.left) != c.e.n ==>
      && !c.up.Top? && c.up.e.n == old(c.e.n.parent)
      && (if (old(c.e.n.left) == node) == (old(c.up.e.n.left) == c.e.n) then c.up.e.n.parent == c.e.n
          else c.up.e.n.parent == node)
      && (if old(c.e.n.left) == node
          then if old(c.up.e.n.left) == c.e.n then c.e.n.right == c.up.e.n else node.left == c.up.e.n
          else if old(c.up.e.n.right) == c.e.n then c.e.n.left == c.up.e.n else node.right == c.up.e.n)
  {
    hide At;
    var nil := us.sentinel;
    SplayLinks(c, t, nil, Snap(S));
    var root := nil.left;
    turns := 2;
    var parent := node.parent;
    if parent.left == node {
      if parent == root {
        RotateRight(node, parent, Top, Up1(c, t), nil, S);
        turns := 1;
      } else {
        var grandpa := parent.parent;
        if grandpa.left == parent {
          RightZigZig(node, parent, grandpa, c.up.up, Up1(c.up, Up1(c, t)), nil, S);
        } else {
          if grandpa.right != parent {
            assert false;
          }
          RightZigZag(node, parent, grandpa, c.up.up, Up1(c.up, Up1(c, t)), nil, S);
        }
      }
    } else {
      if parent.right != node {
        assert false;
      }
      if parent == root {
        RotateLeft(node, parent, Top, Up1(c, t), nil, S);
        turns := 1;
      } else {
        var grandpa := parent.parent;
        if grandpa.right == parent {
          LeftZigZig(node, parent, grandpa, c.up.up, Up1(c.up, Up1(c, t)), nil, S);
        } else {
          if grandpa.left != parent {
            assert false;
          }
          LeftZigZag(node, parent, grandpa, c.up.up, Up1(c.up, Up1(c, t)), nil, S);
        }
      }
    }
    SplayedLinks(c, t, nil, Snap(S));
  }

  lemma AtRoot(c: Ctx, t: Tree, nil: Node, h: Store)
    requires t.Fork? && At(c, t, nil, h)
    ensures t.e.n in h && nil in h && (h[nil].left == t.e.n <==> c.Top?)
  {
    HoleLinks(c, t, nil, h);
    if !c.Top? {
      FocusTop(c, t, nil, h);
      HoleLinks(Top, Plug(c, t), nil, h);
      RootAbove(c, t);
    }
  }

  /** `while(node != root) splay_node(us, node)`. */
  method SplayToRoot(us: Usrtc, node: Node, ghost c0: Ctx, ghost t0: Tree, ghost S: set<Node>)
    returns (ghost turns: nat)
    requires t0.Fork? && node == t0.e.n && At(c0, t0, us.sentinel, Snap(S))
    modifies S
    ensures At(Top, Lifted(c0, t0), us.sentinel, Snap(S)) && turns == Depth(c0)
  {
    hide At, Inorder, Splayed;
    ghost var c, t := c0, t0;
    turns := 0;
    AtRoot(c, t, us.sentinel, Snap(S));
    while node != us.sentinel.left
      invariant At(c, t, us.sentinel, Snap(S)) && t.Fork? && t.e == t0.e
      invariant us.sentinel.left == node <==> c.Top?
      invariant Lifted(c, t) == Lifted(c0, t0) && turns + Depth(c) == Depth(c0)
      decreases Depth(c)
    {
      SplayedTree(c, t);
      ghost var more := SplayNode(us, node, c, t, S);
      turns := turns + more;
      c, t := SplayedIn(c), Splayed(c, t);
      AtRoot(c, t, us.sentinel, Snap(S));
    }
  }

  /** `turns` counts the rotations. */
  method SplayInsert(us: Usrtc, node: Node, key: int, ghost t: Tree, ghost S: set<Node>)
    returns (ghost t': Tree, ghost turns: nat)
    requires At(Top, t, us.sentinel, Snap(S)) && Sorted(Inorder(t))
    requires node in S && node != us.sentinel && node !in Nodes(t)
    requires !(us.dupes_allowed && HasKey(Inorder(t), key))
    modifies us`nodecount, S
    ensures us.nodecount == old(us.nodecount) + 1
    ensures At(Top, t', us.sentinel, Snap(S)) && t'.Fork? && t'.e == Entry(node, key)
    ensures Inorder(t') == Inserted(Inorder(t), Entry(node, key))
    ensures var g := Grown(t, Entry(node, key), old(node.mark)); t' == Splay(g, node) && turns == DepthOf(g, node)
  {
    hide At, Sorted, HasKey, Inserted, Inorder, Snap, Lifted, Grown;
    ghost var c, linked := TreeInsert(us, node, key, t, S);
    ghost var s := Fork(Leaf, Entry(node, key), old(node.mark), Leaf);
    PlugInorder(c, s);
    LeafInorder(s);
    SplayAt(c, s, us.sentinel, Snap(S));
    turns := SplayToRoot(us, node, c, s, S);
    t' := Lifted(c, s);
  }

  method SplayDelete(us: Usrtc, node: Node, ghost c: Ctx, ghost t: Tree, ghost S: set<Node>)
    requires t.Fork? && t.e.n == node && At(c, t, us.sentinel, Snap(S)) && us.nodecount > 0
    modifies us`nodecount, S
    ensures us.nodecount == old(us.nodecount) - 1
    ensures At(c, Shrunk(t), us.sentinel, Snap(S))
  {
    hide At, Snap;
    var dummy, dummy' := TreeDelete(us, node, c, t, S);
  }

  /** A lookup that finds something leaves it at the root, and one that does not changes nothing.  `steps` counts the
      rounds of the search loop and `turns` the rotations. */
  method SplayLookup(us: Usrtc, key: int, ghost t: Tree, ghost S: set<Node>)
    returns (node: Node?, ghost i: int, ghost t': Tree, ghost steps: nat, ghost turns: nat)
    requires At(Top, t, us.sentinel, Snap(S)) && Sorted(Inorder(t))
    modifies S
    ensures node == null <==> !HasKey(Inorder(t), key)
    ensures At(Top, t', us.sentinel, Snap(S)) && Inorder(t') == Inorder(t)
    ensures node == null ==> t' == t && turns == 0
    ensures node != null ==>
      && t'.Fork? && t'.e == Entry(node, key) && IsMatch(Inorder(t), key, node, us.dupes_allowed, i)
      && t' == Splay(t, node) && turns == DepthOf(t, node)
    ensures steps <= Height(t) && (node != null && !us.dupes_allowed ==> steps == turns)
  {
    hide At, Sorted, HasKey, Inorder, Snap, IsMatch, Lifted;
    ghost var c, s;
    node, c, s, steps := TreeLookup(us, key, t, S);
    i, t', turns := 0, t, 0;
    if node != null {
      i := |Before(c) + Inorder(s.l)|;
      SplayAt(c, s, us.sentinel, Snap(S));
      turns := SplayToRoot(us, node, c, s, S);
      t' := Lifted(c, s);
    }
  }
}
