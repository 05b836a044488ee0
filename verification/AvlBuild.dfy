/** Building an AVL tree from the sorted list, in place: `make_tree` and `avl_convert_from_list` of avl.c. */
module AvlBuild {
  import opened Links
  import opened Order
  import opened Container
  import opened SortedList
  import opened AvlTrees
  import opened AvlTree

  /** Number of binary digits: the least possible height of a tree with `n` nodes. */
  ghost function Bits(n: nat): nat {
    if n == 0 then 0 else 1 + Bits(n / 2)
  }

  lemma {:induction false} BitsStep(n: nat)
    ensures Bits(n) <= Bits(n + 1) <= Bits(n) + 1
  {
    if n > 0 {
      if n % 2 == 1 {
        assert (n + 1) / 2 == n / 2 + 1;
        BitsStep(n / 2);
      } else {
        assert (n + 1) / 2 == n / 2;
      }
    }
  }

  /** The list from the `i`-th entry on is still to be consumed. */
  ghost predicate Unread(s: seq<Entry>, j: int, nil: Node, h: Store)
    requires 0 <= j < |s|
  {
    s[j].n in h && h[s[j].n].key == s[j].k && h[s[j].n].right == NodeAt(s, j + 1, nil)
  }

  ghost predicate UnreadFrom(s: seq<Entry>, i: nat, nil: Node, h: Store) {
    && i <= |s| && DistinctNodes(s) && Absent(nil, s)
    && nil in h && h[nil].right == NodeAt(s, i, nil)
    && forall j | i <= j < |s| :: Unread(s, j, nil, h)
  }

  /** The links of `t`, whatever the parent of its root may be. */
  ghost predicate Rooted(t: Tree, nil: Node, h: Store) {
    t.Fork? ==> t.e.n in h && Shape(t, h[t.e.n].parent, nil, h)
  }

  /** Every node stands in the middle of its subtree; if there are two middles, in the left one. */
  ghost predicate Centred(t: Tree) {
    t.Fork? ==> |Inorder(t.l)| == (|Inorder(t)| - 1) / 2 && Centred(t.l) && Centred(t.r)
  }

  /** `t` holds the entries from the `i`-th to the `k`-th and is as low as possible. */
  ghost predicate Built(s: seq<Entry>, i: nat, k: nat, t: Tree) {
    i <= k <= |s| && Inorder(t) == s[i..k] && Avl(t) && Height(t) == Bits(k - i) && Centred(t)
  }

  lemma Halves(n: nat)
    requires n > 0
    ensures var a, b := (n - 1) / 2, n - 1 - (n - 1) / 2;
      Bits(n) == 1 + Bits(b) && Bits(a) <= Bits(b) <= Bits(a) + 1
  {
    var a := (n - 1) / 2;
    assert n - 1 - a == n / 2;
    if n % 2 == 0 {
      BitsStep(a);
    }
  }

  lemma EmptyBuilt(s: seq<Entry>, i: nat)
    ensures i <= |s| ==> Built(s, i, i, Leaf) && Height(Leaf) == 0
    ensures forall nil: Node, h: Store :: Rooted(Leaf, nil, h)
  {
  }

  /** The middle entry joins its two halves, of which the right one is never the lower. */
  lemma Join(s: seq<Entry>, i: nat, k: nat, e: nat, l: Tree, r: Tree)
    requires i <= k < e <= |s| && Built(s, i, k, l) && Built(s, k + 1, e, r)
    requires k - i == (e - i - 1) / 2
    requires Bits(e - i) == 1 + Bits(e - k - 1) && Bits(k - i) <= Bits(e - k - 1) <= Bits(k - i) + 1
    ensures Height(l) <= Height(r)
    ensures var t := Fork(l, s[k], if Height(l) == Height(r) then BALANCED else RIGHTHEAVY, r);
      Built(s, i, e, t) && Height(t) == 1 + Height(r)
  {
    hide Bits, Avl, Height;
    JoinAvl(l, s[k], r);
    assert s[i..e] == s[i..k] + [s[k]] + s[k + 1..e];
  }

  lemma JoinAvl(l: Tree, e: Entry, r: Tree)
    requires Avl(l) && Avl(r) && Height(l) <= Height(r) <= Height(l) + 1
    ensures var t := Fork(l, e, if Height(l) == Height(r) then BALANCED else RIGHTHEAVY, r);
      Avl(t) && Height(t) == 1 + Height(r)
  {
  }

  lemma UnreadFrame(s: seq<Entry>, i: nat, j: nat, nil: Node, h: Store, h': Store, D: set<Node>)
    requires UnreadFrom(s, i, nil, h) && i <= j <= |s| && Agree(h, h', D) && D !! NodeSet(s[j..])
    requires nil in h' && h'[nil].right == NodeAt(s, j, nil)
    ensures UnreadFrom(s, j, nil, h')
  {
    forall x | j <= x < |s| ensures Unread(s, x, nil, h') {
      assert Unread(s, x, nil, h);
      assert s[j..][x - j] == s[x];
    }
  }

  lemma BuiltNodes(s: seq<Entry>, i: nat, k: nat, t: Tree)
    requires Built(s, i, k, t) && DistinctNodes(s)
    ensures Nodes(t) == NodeSet(s[i..k]) && Distinct(t)
  {
    InorderNodes(t);
    assert DistinctNodes(s[i..k]);
    DistinctInorder(t);
  }

  /** Nodes of different stretches of the list, and the sentinel, are different. */
  lemma StretchesApart(s: seq<Entry>, i: nat, k: nat, e: nat, nil: Node)
    requires i <= k < e <= |s| && DistinctNodes(s) && Absent(nil, s)
    ensures NodeSet(s[i..k]) !! NodeSet(s[k + 1..e]) && NodeSet(s[i..k]) !! NodeSet(s[k + 1..])
    ensures NodeSet(s[k + 1..e]) !! NodeSet(s[e..]) && NodeSet(s[i..k]) !! NodeSet(s[e..])
    ensures s[k].n !in NodeSet(s[i..k]) && s[k].n !in NodeSet(s[k + 1..e]) && s[k].n !in NodeSet(s[k + 1..])
      && s[k].n !in NodeSet(s[e..])
    ensures nil !in NodeSet(s[i..k]) && nil !in NodeSet(s[k + 1..e]) && nil !in NodeSet(s[k + 1..])
      && nil !in NodeSet(s[e..])
    ensures NodeSet(s[i..e]) == NodeSet(s[i..k]) + {s[k].n} + NodeSet(s[k + 1..e])
    ensures s[k].n != nil
  {
    SegmentsApart(s, i, k, k + 1, e);
    SegmentsApart(s, i, k, k + 1, |s|);
    SegmentsApart(s, k + 1, e, e, |s|);
    SegmentsApart(s, i, k, e, |s|);
    assert s[k..k + 1] == [s[k]];
    SegmentsApart(s, i, k, k, k + 1);
    SegmentsApart(s, k, k + 1, k + 1, |s|);
    SegmentsApart(s, k, k + 1, k + 1, e);
    SegmentsApart(s, k, k + 1, e, |s|);
    NodeSetConcat([], s[k], []);
    assert s[i..e] == s[i..k] + [s[k]] + s[k + 1..e];
    NodeSetConcat(s[i..k], s[k], s[k + 1..e]);
    assert [] + [s[k]] + [] == [s[k]] && s[k].n in NodeSet([s[k]]);
    assert s[k + 1..|s|] == s[k + 1..] && s[e..|s|] == s[e..];
  }

  /** The next entry becomes the root over the left half. */
  method TakeRoot(pnode: Slot, nil: Node, leftroot: Node, ghost s: seq<Entry>, ghost i: nat, ghost k: nat,
      ghost l: Tree, ghost S: set<Node>)
    returns (root: Node)
    requires pnode == RightOf(nil) && i <= k < |s| && UnreadFrom(s, k, nil, Snap(S))
    requires Built(s, i, k, l) && leftroot == Root(l, nil) && Rooted(l, nil, Snap(S))
    modifies S
    ensures UnreadFrom(s, k + 1, nil, Snap(S)) && Agree(old(Snap(S)), Snap(S), NodeSet(s[i..k]) + {s[k].n, nil})
    ensures root == s[k].n && root in S && Snap(S)[root].left == leftroot && Snap(S)[root].key == s[k].k
      && Shape(l, root, nil, Snap(S))
    ensures nil.left == old(nil.left) && nil.mark == old(nil.mark)
  {
    hide UnreadFrom, Built, NodeSet;
    ghost var h, D := Snap(S), NodeSet(s[i..k]) + {s[k].n, nil};
    UnreadFirst(s, k, nil, h);
    BuiltNodes(s, i, k, l);
    StretchesApart(s, i, k, |s|, nil);
    assert Root(l, nil) in Nodes(l) + {nil};
    root := pnode.Get();
    pnode.Put(root.right);
    root.left := leftroot;
    leftroot.parent := root;
    UnreadFrame(s, k, k + 1, nil, h, Snap(S), D);
    if l.Fork? {
      Reparent(l, h[l.e.n].parent, root, nil, h, Snap(S), {nil, root, leftroot});
    }
  }

  lemma UnreadFirst(s: seq<Entry>, k: nat, nil: Node, h: Store)
    requires UnreadFrom(s, k, nil, h) && k < |s|
    ensures DistinctNodes(s) && Absent(nil, s) && nil in h && h[nil].right == s[k].n && s[k].n in h
    ensures h[s[k].n].key == s[k].k && h[s[k].n].right == NodeAt(s, k + 1, nil) && NodeAt(s, k + 1, nil) in h
  {
    assert Unread(s, k, nil, h);
    assert k + 1 < |s| ==> Unread(s, k + 1, nil, h);
  }

  lemma AgreeSame(h: Store, D: set<Node>)
    ensures Agree(h, h, D)
  {
  }

  method MakeTree(pnode: Slot, count: nat, nil: Node, ghost s: seq<Entry>, ghost i: nat, ghost S: set<Node>)
    returns (root: Node, height: nat, ghost t: Tree)
    requires pnode == RightOf(nil) && i + count <= |s| && UnreadFrom(s, i, nil, Snap(S))
    modifies S
    ensures UnreadFrom(s, i + count, nil, Snap(S)) && Agree(old(Snap(S)), Snap(S), NodeSet(s[i..i + count]) + {nil})
    ensures Built(s, i, i + count, t) && height == Height(t)
    ensures root == Root(t, nil) && Rooted(t, nil, Snap(S))
    ensures nil.left == old(nil.left) && nil.mark == old(nil.mark)
    decreases count
  {
    hide UnreadFrom, Built, NodeSet, Rooted, Shape, Agree, Bits, Height, Avl, Absent, DistinctNodes, Inorder, Snap;
    UnreadNil(s, i, nil, Snap(S));
    EmptyBuilt(s, i);
    ghost var h0 := Snap(S);
    AgreeSame(h0, NodeSet(s[i..i]) + {nil});
    if count == 0 {
      return nil, 0, Leaf;
    }
    var leftcount := (count - 1) / 2;
    ghost var k := i + leftcount;
    var leftroot, leftheight, l := MakeTree(pnode, leftcount, nil, s, i, S);
    var rightcount := count - leftcount - 1;
    ghost var h := Snap(S);
    root := TakeRoot(pnode, nil, leftroot, s, i, k, l, S);
    ghost var h1 := Snap(S);
    var rightroot, rightheight, r := MakeTree(pnode, rightcount, nil, s, k + 1, S);
    Halves(count);
    Join(s, i, k, i + count, l, r);
    LeftKept(s, i, k, i + count, l, root, nil, h1, Snap(S));
    if leftheight > rightheight {
      assert false;
    }
    height := rightheight + 1;
    var mark := if leftheight == rightheight then BALANCED else RIGHTHEAVY;
    ghost var h2 := Snap(S);
    JoinRight(root, nil, rightroot, mark, s, i, k, i + count, l, r, S);
    AgreeAll(s, i, k, i + count, nil, h0, h, h1, h2, Snap(S));
    t := Fork(l, s[k], mark, r);
  }

  lemma AgreeAll(s: seq<Entry>, i: nat, k: nat, e: nat, nil: Node, h0: Store, h1: Store, h2: Store, h3: Store,
      h4: Store)
    requires i <= k < e <= |s|
    requires Agree(h0, h1, NodeSet(s[i..k]) + {nil}) && Agree(h1, h2, NodeSet(s[i..k]) + {s[k].n, nil})
    requires Agree(h2, h3, NodeSet(s[k + 1..e]) + {nil}) && Agree(h3, h4, NodeSet(s[i..e]) + {nil})
    ensures Agree(h0, h4, NodeSet(s[i..e]) + {nil})
  {
    assert s[i..e] == s[i..k] + [s[k]] + s[k + 1..e];
    NodeSetConcat(s[i..k], s[k], s[k + 1..e]);
    hide NodeSet;
  }

  /** Building the right half leaves root and left half alone. */
  lemma LeftKept(s: seq<Entry>, i: nat, k: nat, e: nat, l: Tree, root: Node, nil: Node, h: Store, h': Store)
    requires i <= k < e <= |s| && Built(s, i, k, l) && UnreadFrom(s, e, nil, h') && root == s[k].n && root in h
    requires Shape(l, root, nil, h) && Agree(h, h', NodeSet(s[k + 1..e]) + {nil})
    ensures root in h' && h'[root] == h[root] && Shape(l, root, nil, h')
  {
    StretchesApart(s, i, k, e, nil);
    BuiltNodes(s, i, k, l);
    hide NodeSet, UnreadFrom, Built;
    Frame(l, root, nil, h, h', NodeSet(s[k + 1..e]) + {nil});
  }

  /** The right half is linked below the new root. */
  method JoinRight(root: Node, nil: Node, rightroot: Node, mark: int, ghost s: seq<Entry>, ghost i: nat, ghost k: nat,
      ghost e: nat, ghost l: Tree, ghost r: Tree, ghost S: set<Node>)
    requires i <= k < e <= |s| && root == s[k].n && root in S && Snap(S)[root].key == s[k].k
      && Snap(S)[root].left == Root(l, nil)
    requires Built(s, i, k, l) && Built(s, k + 1, e, r) && UnreadFrom(s, e, nil, Snap(S))
    requires rightroot == Root(r, nil) && Shape(l, root, nil, Snap(S)) && Rooted(r, nil, Snap(S))
    modifies S
    ensures UnreadFrom(s, e, nil, Snap(S)) && Agree(old(Snap(S)), Snap(S), NodeSet(s[i..e]) + {nil})
    ensures Rooted(Fork(l, s[k], mark, r), nil, Snap(S))
    ensures nil.left == old(nil.left) && nil.mark == old(nil.mark)
  {
    hide NodeSet, UnreadFrom, Built;
    ghost var h, D := Snap(S), {root, rightroot};
    UnreadNil(s, e, nil, h);
    BuiltNodes(s, i, k, l);
    BuiltNodes(s, k + 1, e, r);
    StretchesApart(s, i, k, e, nil);
    assert Root(r, nil) in Nodes(r) + {nil};
    root.right := rightroot;
    root.right.parent := root;
    root.mark := mark;
    Frame(l, root, nil, h, Snap(S), D);
    if r.Fork? {
      Reparent(r, h[r.e.n].parent, root, nil, h, Snap(S), D);
    }
    assert Snap(S)[root] == Cell(Root(l, nil), Root(r, nil), h[root].parent, s[k].k, mark);
    assert Shape(r, root, nil, Snap(S));
    UnreadFrame(s, e, e, nil, h, Snap(S), D);
  }

  lemma UnreadNil(s: seq<Entry>, e: nat, nil: Node, h: Store)
    requires UnreadFrom(s, e, nil, h)
    ensures e <= |s| && DistinctNodes(s) && Absent(nil, s) && nil in h && h[nil].right == NodeAt(s, e, nil)
  {
  }

  lemma ListUnread(s: seq<Entry>, nil: Node, h: Store)
    requires ListAt(s, nil, h)
    ensures UnreadFrom(s, 0, nil, h) && (s == [] ==> h[nil].left == nil && h[nil].right == nil)
  {
    forall j | 0 <= j < |s| ensures Unread(s, j, nil, h) && s[j].n != nil {
      assert Linked(s, j, nil, h);
    }
  }

  method AvlConvertFromList(us: Usrtc, ghost s: seq<Entry>, ghost S: set<Node>) returns (ghost t: Tree)
    requires ListAt(s, us.sentinel, Snap(S)) && us.nodecount == |s|
    modifies S
    ensures At(Top, t, us.sentinel, Snap(S)) && Inorder(t) == s && Avl(t) && Height(t) == Bits(|s|) && Centred(t)
    ensures us.sentinel.mark == if s == [] then BALANCED else LEFTHEAVY
  {
    hide ListAt, UnreadFrom, Built, Rooted, At, Agree, Bits, Height, Avl, Absent, DistinctNodes, Centred;
    var nil := us.sentinel;
    ListUnread(s, nil, Snap(S));
    UnreadNil(s, 0, nil, Snap(S));
    if us.nodecount == 0 {
      EmptyBuilt(s, 0);
      BuiltAll(s, Leaf);
      t := Leaf;
      EmptyAt(nil, Snap(S));
      MarkSentinel(nil, BALANCED, Top, t, S);
      return;
    }
    var root, height;
    root, height, t := MakeTree(RightOf(nil), us.nodecount, nil, s, 0, S);
    UnreadNil(s, |s|, nil, Snap(S));
    BuiltAll(s, t);
    assert t.e.n in S by { RootIn(t, nil, Snap(S)); }
    if nil.right != nil {
      assert false;
    }
    Crown(nil, root, s, t, S);
    MarkSentinel(nil, LEFTHEAVY, Top, t, S);
  }

  lemma BuiltAll(s: seq<Entry>, t: Tree)
    requires Built(s, 0, |s|, t)
    ensures Inorder(t) == s && Avl(t) && Height(t) == Bits(|s|) && Centred(t) && (s != [] ==> t.Fork?)
  {
    assert s[0..|s|] == s;
  }

  lemma RootIn(t: Tree, nil: Node, h: Store)
    requires Rooted(t, nil, h)
    ensures t.Fork? ==> t.e.n in h
  {
  }

  lemma EmptyAt(nil: Node, h: Store)
    requires nil in h && h[nil].left == nil && h[nil].right == nil
    ensures At(Top, Leaf, nil, h)
  {
  }

  /** The finished tree is hung below the sentinel. */
  method Crown(nil: Node, root: Node, ghost s: seq<Entry>, ghost t: Tree, ghost S: set<Node>)
    requires DistinctNodes(s) && Absent(nil, s) && nil in S && nil.right == nil
    requires Inorder(t) == s && t.Fork? && root == t.e.n && Rooted(t, nil, Snap(S))
    modifies nil`left, root`parent
    ensures At(Top, t, nil, Snap(S))
  {
    ghost var h := Snap(S);
    InorderNodes(t);
    DistinctInorder(t);
    hide DistinctNodes;
    nil.left := root;
    root.parent := nil;
    Reparent(t, h[root].parent, nil, nil, h, Snap(S), {nil, root});
  }
}
