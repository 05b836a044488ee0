/** The one interface over the five structures: usrtc.c. */
module Interface {
  import opened Links
  import opened Order
  import opened Container
  import opened BinaryTree
  import opened TreeDeletion
  import opened TreeSearch
  import opened SortedList
  import opened TreeToList
  import opened RedBlackTrees
  import opened RedBlack
  import opened AvlTrees
  import opened AvlTree
  import opened AvlBuild
  import opened SplayTree
  import opened Products
  import opened SplayCost
  import opened RowTrees
  import opened ListToTree
  import opened Heights

  ghost function Own(us: Usrtc): set<Node>
    reads us
  {
    {us.sentinel} + NodeSet(us.items)
  }

  /** The links of `us` hold its items, in order and each once, in the form its implementation asks for. */
  ghost predicate Holds(impl: Impl, s: seq<Entry>, t: Tree, nil: Node, h: Store) {
    if impl == USRTC_LIST then ListAt(s, nil, h) else At(Top, t, nil, h) && Inorder(t) == s
  }

  ghost predicate Intact(us: Usrtc)
    reads us, Own(us)
  {
    && us.nodecount == |us.items| < WORD && Sorted(us.items) && DistinctNodes(us.items) && Absent(us.sentinel, us.items)
    && Holds(us.futable, us.items, us.tree, us.sentinel, Snap(Own(us)))
  }

  /** What the implementation promises about balance, and the mark it keeps in the sentinel. */
  ghost predicate Tuned(impl: Impl, t: Tree, mark: int) {
    match impl
    case USRTC_REDBLACK => RBTree(t) && mark == BLACK
    case USRTC_AVL => Avl(t) && mark == if t.Leaf? then BALANCED else LEFTHEAVY
    case _ => true
  }

  ghost predicate Valid(us: Usrtc)
    reads us, Own(us)
  {
    Intact(us) && Tuned(us.futable, us.tree, us.sentinel.mark)
  }

  // ----- what the items of a container do

  lemma {:induction false} InsertedSplit(s: seq<Entry>, e: Entry) returns (a: seq<Entry>, b: seq<Entry>)
    ensures s == a + b && Inserted(s, e) == a + [e] + b && AllAtMost(a, e.k) && (b != [] ==> e.k < b[0].k)
  {
    if s == [] || e.k < s[0].k {
      a, b := [], s;
      assert [e] + s == a + [e] + b;
    } else {
      a, b := InsertedSplit(s[1..], e);
      Behind(s[0], a, e, b);
      assert s == [s[0]] + s[1..];
      a := [s[0]] + a;
    }
  }

  lemma Behind(x: Entry, a: seq<Entry>, e: Entry, b: seq<Entry>)
    ensures [x] + (a + [e] + b) == ([x] + a) + [e] + b && [x] + (a + b) == ([x] + a) + b
  {
  }

  lemma NodeSetJoin(a: seq<Entry>, b: seq<Entry>)
    ensures NodeSet(a + b) == NodeSet(a) + NodeSet(b)
  {
    NodeSetPart(a, b);
  }

  lemma DistinctJoin(a: seq<Entry>, b: seq<Entry>)
    ensures DistinctNodes(a + b) <==> DistinctNodes(a) && DistinctNodes(b) && NodeSet(a) !! NodeSet(b)
  {
    var s := a + b;
    assert forall i | 0 <= i < |a| :: a[i] == s[i] && a[i].n in NodeSet(a);
    assert forall i | 0 <= i < |b| :: b[i] == s[|a| + i] && b[i].n in NodeSet(b);
    if DistinctNodes(s) {
      SegmentsApart(s, 0, |a|, |a|, |s|);
      assert s[0..|a|] == a && s[|a|..|s|] == b;
    }
  }

  lemma AbsentSet(n: Node, s: seq<Entry>)
    ensures Absent(n, s) <==> n !in NodeSet(s)
  {
  }

  lemma InsertedItems(s: seq<Entry>, e: Entry)
    requires Sorted(s) && DistinctNodes(s) && Absent(e.n, s)
    ensures Sorted(Inserted(s, e)) && DistinctNodes(Inserted(s, e)) && |Inserted(s, e)| == |s| + 1
    ensures NodeSet(Inserted(s, e)) == NodeSet(s) + {e.n}
  {
    var a, b := InsertedSplit(s, e);
    SortedParts(a, b);
    SortedBetween(a, e, b);
    AbsentSet(e.n, s);
    hide NodeSet, DistinctNodes, Absent, Sorted;
    DistinctJoin(a, b);
    DistinctConcat(a, e, b);
    NodeSetConcat(a, e, b);
    NodeSetJoin(a, b);
  }

  lemma RemovedItems(s: seq<Entry>, i: nat)
    requires Sorted(s) && DistinctNodes(s) && i < |s|
    ensures var w := Removed(s, s[i].n);
      Sorted(w) && DistinctNodes(w) && |w| == |s| - 1 && Absent(s[i].n, w) && NodeSet(w) == NodeSet(s) - {s[i].n}
  {
    var a, b := s[..i], s[i + 1..];
    RemovedAt(s, i);
    assert s == a + [s[i]] + b;
    SortedWithout(a, s[i], b);
    hide NodeSet, DistinctNodes, Sorted;
    DistinctConcat(a, s[i], b);
    NodeSetConcat(a, s[i], b);
    NodeSetJoin(a, b);
    DistinctJoin(a, b);
    AbsentSet(s[i].n, a + b);
  }

  /** Nodes that are not part of the container may come and go. */
  lemma HoldsFrame(impl: Impl, s: seq<Entry>, t: Tree, nil: Node, h: Store, h': Store, D: set<Node>)
    requires Holds(impl, s, t, nil, h) && Agree(h, h', D) && D !! NodeSet(s) && nil !in D
    ensures Holds(impl, s, t, nil, h')
  {
    if impl == USRTC_LIST {
      forall n | n in D ensures Absent(n, s) {
        AbsentSet(n, s);
      }
      ListFrame(s, nil, h, h', D);
    } else {
      InorderNodes(t);
      AtFrame(Top, t, nil, h, h', D);
    }
  }

  lemma SnapAgree(A: set<Node>, B: set<Node>, D: set<Node>)
    requires A - D <= B
    ensures Agree(Snap(A), Snap(B), D)
  {
  }

  lemma NotInTree(n: Node, t: Tree)
    ensures n !in Nodes(t) <==> Absent(n, Inorder(t))
  {
    InorderNodes(t);
    AbsentSet(n, Inorder(t));
  }

  lemma Regather<T>(a: seq<T>, b: seq<T>, c: seq<T>, d: seq<T>)
    ensures a + (b + c) + d == (a + b) + (c + d)
  {
  }

  lemma ZipTop(t: Tree)
    ensures Plug(Top, t) == t && Before(Top) == []
  {
  }

  /** The zipper at the `i`-th item. */
  lemma Locate(t: Tree, i: nat, nil: Node, h: Store) returns (c: Ctx, z: Tree)
    requires At(Top, t, nil, h) && i < |Inorder(t)| && DistinctNodes(Inorder(t))
    ensures At(c, z, nil, h) && z.Fork? && z.e == Inorder(t)[i] && Plug(c, z) == t
    ensures Before(c) + (Inorder(z.l) + Inorder(z.r)) + After(c) == Removed(Inorder(t), z.e.n)
    ensures Before(c) + Inorder(z.l) == Inorder(t)[..i] && Inorder(z.r) + After(c) == Inorder(t)[i + 1..]
  {
    hide At, Before, After, Removed, DistinctNodes, Inorder, Plug;
    ZipTop(t);
    c, z := ZipAt(Top, t, i);
    FocusTop(c, z, nil, h);
    ZipParts(c, z);
    RemovedAt(Inorder(t), i);
    Regather(Before(c), Inorder(z.l), Inorder(z.r), After(c));
  }

  // ----- dispatch through the function table

  method DispatchInsert(us: Usrtc, node: Node, key: int, ghost s: seq<Entry>, ghost t: Tree, ghost S: set<Node>)
    returns (ghost t': Tree, ghost linked: bool, ghost turns: nat)
    requires Holds(us.futable, s, t, us.sentinel, Snap(S)) && us.sentinel in S && Tuned(us.futable, t, us.sentinel.mark)
    requires Sorted(s) && node in S && node != us.sentinel && Absent(node, s)
    requires us.dupes_allowed && HasKey(s, key) ==> us.futable != USRTC_REDBLACK && us.futable != USRTC_SPLAY
    modifies us`nodecount, S
    ensures linked <==> !(us.futable == USRTC_BST && us.dupes_allowed && HasKey(s, key))
    ensures us.nodecount == old(us.nodecount) + if linked then 1 else 0
    ensures Holds(us.futable, if linked then Inserted(s, Entry(node, key)) else s, t', us.sentinel, Snap(S))
    ensures Tuned(us.futable, t', us.sentinel.mark)
    ensures us.futable == USRTC_BST ==> t' == if linked then Grown(t, Entry(node, key), old(node.mark)) else t
    ensures us.futable == USRTC_SPLAY ==> t'.Fork? && t'.e == Entry(node, key)
    ensures us.futable == USRTC_SPLAY ==>
      var g := Grown(t, Entry(node, key), old(node.mark)); t' == Splay(g, node) && turns == DepthOf(g, node)
  {
    hide At, ListAt, Inserted, Inorder, Sorted, HasKey, RBTree, Avl, Absent, Splay, DepthOf, Grown;
    NotInTree(node, t);
    t', linked, turns := t, true, 0;
    match us.futable
    case USRTC_LIST => ListInsert(us, node, key, s, S);
    case USRTC_BST =>
      ghost var c;
      c, linked := TreeInsert(us, node, key, t, S);
      if linked {
        ghost var z := Fork(Leaf, Entry(node, key), old(node.mark), Leaf);
        FocusTop(c, z, us.sentinel, Snap(S));
        PlugInorder(c, z);
        LeafInorder(z);
        t' := Plug(c, z);
      }
    case USRTC_REDBLACK => t' := RedBlackInsert(us, node, key, t, S);
    case USRTC_SPLAY => t', turns := SplayInsert(us, node, key, t, S);
    case USRTC_AVL => t' := AvlInsert(us, node, key, t, S);
  }

  method DispatchDelete(us: Usrtc, node: Node, ghost i: nat, ghost s: seq<Entry>, ghost t: Tree, ghost S: set<Node>)
    returns (ghost t': Tree)
    requires Holds(us.futable, s, t, us.sentinel, Snap(S)) && us.sentinel in S && Tuned(us.futable, t, us.sentinel.mark)
    requires DistinctNodes(s) && i < |s| == us.nodecount && s[i].n == node
    modifies us`nodecount, S
    ensures us.nodecount == old(us.nodecount) - 1
    ensures Holds(us.futable, Removed(s, node), t', us.sentinel, Snap(S)) && Tuned(us.futable, t', us.sentinel.mark)
    ensures us.futable == USRTC_BST || us.futable == USRTC_SPLAY ==> t' == Cut(t, node)
  {
    hide At, ListAt, Removed, Inorder, RBTree, Avl, DistinctNodes, Shrunk, Swap, Raised, Gap, Cut;
    t' := t;
    ghost var c, z;
    if us.futable != USRTC_LIST {
      c, z := Locate(t, i, us.sentinel, Snap(S));
    }
    match us.futable
    case USRTC_LIST => ListDelete(us, node, s, i, S);
    case USRTC_BST =>
      var swap, child := TreeDelete(us, node, c, z, S);
      t' := Plug(c, Shrunk(z));
      ShrunkAt(c, z, us.sentinel, Snap(S));
      CutAt(c, z);
    case USRTC_REDBLACK => t' := RedBlackDelete(us, node, c, z, S);
    case USRTC_SPLAY =>
      SplayDelete(us, node, c, z, S);
      t' := Plug(c, Shrunk(z));
      ShrunkAt(c, z, us.sentinel, Snap(S));
      CutAt(c, z);
    case USRTC_AVL =>
      LocatedFork(c, z);
      t' := AvlDelete(us, node, c, z, S);
  }

  lemma CutAt(c: Ctx, z: Tree)
    requires z.Fork? && DistinctNodes(Inorder(Plug(c, z)))
    ensures Plug(c, Shrunk(z)) == Cut(Plug(c, z), z.e.n)
  {
    DistinctInorder(Plug(c, z));
    CutBelow(c, z, z.e.n);
  }

  lemma LocatedFork(c: Ctx, z: Tree)
    requires z.Fork?
    ensures Plug(c, z).Fork?
  {
    RootColour(c, z);
  }

  lemma ShrunkAt(c: Ctx, z: Tree, nil: Node, h: Store)
    requires z.Fork? && At(c, Shrunk(z), nil, h)
    ensures At(Top, Plug(c, Shrunk(z)), nil, h)
    ensures Inorder(Plug(c, Shrunk(z))) == Before(c) + (Inorder(z.l) + Inorder(z.r)) + After(c)
  {
    FocusTop(c, Shrunk(z), nil, h);
    PlugInorder(c, Shrunk(z));
    ShrunkInorder(z);
  }

  lemma FirstOnList(s: seq<Entry>, i: int, key: int)
    requires Sorted(s) && (0 <= i < |s| && s[i].k == key ==> forall j | 0 <= j < i :: s[j].k != key)
    ensures 0 <= i < |s| && s[i].k == key ==> AllBelow(s[..i], key)
  {
  }

  method DispatchLookup(us: Usrtc, key: int, ghost s: seq<Entry>, ghost t: Tree, ghost S: set<Node>)
    returns (res: Node?, ghost i: int, ghost t': Tree, ghost steps: nat, ghost turns: nat)
    requires Holds(us.futable, s, t, us.sentinel, Snap(S)) && us.sentinel in S && Sorted(s)
    modifies S
    ensures Holds(us.futable, s, t', us.sentinel, Snap(S))
    ensures Tuned(us.futable, t, old(us.sentinel.mark)) ==> Tuned(us.futable, t', us.sentinel.mark)
    ensures res == null <==> !HasKey(s, key)
    ensures res != null ==> IsMatch(s, key, res, us.dupes_allowed, i)
    ensures res != null && us.futable == USRTC_SPLAY ==>
      t'.Fork? && t'.e.n == res && t' == Splay(t, res) && turns == DepthOf(t, res)
    ensures res != null && us.futable == USRTC_SPLAY && !us.dupes_allowed ==> steps == turns
    ensures res == null || us.futable != USRTC_SPLAY ==> t' == t && turns == 0
    ensures us.futable != USRTC_LIST ==> steps <= Height(t)
  {
    hide At, ListAt, Inorder, Sorted, Height, Splay, DepthOf;
    t', steps, turns := t, 0, 0;
    match us.futable
    case USRTC_LIST =>
      res, i := ListLookup(us, key, s, S);
      FirstOnList(s, i, key);
    case USRTC_SPLAY =>
      res, i, t', steps, turns := SplayLookup(us, key, t, S);
    case _ =>
      ghost var c, z;
      res, c, z, steps := TreeLookup(us, key, t, S);
      i := if res == null then 0 else |Before(c) + Inorder(z.l)|;
  }

  /** Every tree is a plain search tree, and so is a splay tree. */
  ghost predicate Shared(from: Impl, to: Impl) {
    from != USRTC_LIST && (to == USRTC_BST || to == USRTC_SPLAY)
  }

  /** The tree is rebuilt row by row. */
  ghost predicate ByRows(from: Impl, to: Impl) {
    to != from && to != USRTC_LIST && to != USRTC_AVL && !Shared(from, to)
  }

  /** Changing the structure: over the sorted list, except that any tree already is a plain search tree. */
  method DispatchConvert(us: Usrtc, impl: Impl, ghost s: seq<Entry>, ghost t: Tree, ghost S: set<Node>)
    returns (ghost t': Tree)
    requires Holds(us.futable, s, t, us.sentinel, Snap(S)) && us.sentinel in S && us.nodecount == |s| < WORD
    modifies us`futable, S
    ensures us.futable == impl && Holds(impl, s, t', us.sentinel, Snap(S))
    ensures impl == old(us.futable) || Shared(old(us.futable), impl) ==> t' == t && Snap(S) == old(Snap(S))
    ensures impl != old(us.futable) ==>
      (Tuned(impl, t', us.sentinel.mark) <==>
        impl != USRTC_REDBLACK || |s| <= 2 * USRTC_COUNT_T_MAX + 1 || HighDigits(|s|))
    ensures impl != old(us.futable) && impl == USRTC_REDBLACK ==> us.sentinel.mark == BLACK
    ensures ByRows(old(us.futable), impl) && |s| <= 2 * USRTC_COUNT_T_MAX + 1 ==> Complete(t')
    ensures impl != old(us.futable) && impl == USRTC_AVL ==> Height(t') == Bits(|s|) && Centred(t')
  {
    hide At, ListAt, RBTree, Avl, HighDigits, LeftFilled, Inorder, Centred, Height, Bits;
    t' := t;
    if impl == us.futable {
      return;
    }
    if us.futable != USRTC_LIST && (impl == USRTC_BST || impl == USRTC_SPLAY) {
      us.futable := impl;
      return;
    }
    if us.futable != USRTC_LIST {
      ConvertToList(us, t, S);
    }
    us.futable := impl;
    match impl
    case USRTC_LIST =>
    case USRTC_AVL =>
      t' := AvlConvertFromList(us, s, S);
      LeafIffEmpty(t');
    case _ =>
      ghost var J;
      t', J := ConvertFromList(us, impl == USRTC_REDBLACK, s, S);
      LeafIffEmpty(t');
  }

  lemma LeafIffEmpty(t: Tree)
    ensures t.Leaf? <==> Inorder(t) == []
  {
  }

  // ----- the public operations

  /** `usrtc_create` with `usrtc_init`. */
  method Create(impl: Impl, maxcount: nat) returns (us: Usrtc)
    ensures fresh(us) && fresh(us.sentinel) && Valid(us) && us.items == []
    ensures us.futable == impl && us.maxcount == maxcount && !us.dupes_allowed
  {
    us := new Usrtc(impl, maxcount);
    if impl == USRTC_LIST {
      ListInit(us);
    } else {
      us.sentinel.left, us.sentinel.right, us.sentinel.parent := us.sentinel, us.sentinel, us.sentinel;
      us.sentinel.mark := if impl == USRTC_REDBLACK then BLACK else BALANCED;
    }
    assert Own(us) == {us.sentinel};
  }

  /** `turns` counts the rotations of a splay tree. */
  method Insert(us: Usrtc, node: Node, key: int) returns (ghost turns: nat)
    requires Valid(us) && Absent(node, us.items) && node != us.sentinel && us.nodecount + 1 < WORD
    requires us.dupes_allowed && HasKey(us.items, key) ==> us.futable != USRTC_REDBLACK && us.futable != USRTC_SPLAY
    modifies us`nodecount, us`items, us`tree, Own(us), node
    ensures Valid(us)
    ensures us.futable == USRTC_BST && us.items != old(us.items) ==>
      us.tree == Grown(old(us.tree), Entry(node, key), old(node.mark))
    ensures us.futable == USRTC_SPLAY ==> us.tree.Fork? && us.tree.e == Entry(node, key)
    ensures us.futable == USRTC_SPLAY ==> us.tree == Splay(Grown(old(us.tree), Entry(node, key), old(node.mark)), node)
    ensures us.futable == USRTC_SPLAY ==>
      Paid(turns, old(us.tree), us.tree, 2 * Times(us.nodecount, Cube(us.nodecount)))
    ensures us.items ==
      if us.futable == USRTC_BST && us.dupes_allowed && HasKey(old(us.items), key) then old(us.items)
      else Inserted(old(us.items), Entry(node, key))
  {
    hide Holds, Tuned, Sorted, DistinctNodes, Inserted, HasKey, NodeSet, Snap, Agree, Absent, Splay, DepthOf, Grown;
    hide Paid, Times, Cube;
    ghost var s, S0 := us.items, Own(us);
    ghost var S := S0 + {node};
    AbsentSet(us.sentinel, s);
    AbsentSet(node, s);
    SnapAgree(S0, S, {});
    HoldsFrame(us.futable, s, us.tree, us.sentinel, Snap(S0), Snap(S), {});
    ghost var t, linked;
    t, linked, turns := DispatchInsert(us, node, key, s, us.tree, S);
    if us.futable == USRTC_SPLAY {
      InsertCost(us.tree, Entry(node, key), old(node.mark));
    }
    us.tree := t;
    if linked {
      us.items := Inserted(s, Entry(node, key));
      InsertedItems(s, Entry(node, key));
      AbsentSet(us.sentinel, us.items);
      assert Own(us) == S;
    } else {
      SnapAgree(S, S0, {node});
      HoldsFrame(us.futable, s, t, us.sentinel, Snap(S), Snap(S0), {node});
    }
  }

  lemma Position(s: seq<Entry>, n: Node) returns (i: nat)
    requires Sorted(s) && DistinctNodes(s) && !Absent(n, s)
    ensures i < |s| && s[i].n == n && n in NodeSet(s)
    ensures var w := Removed(s, n);
      Sorted(w) && DistinctNodes(w) && |w| == |s| - 1 && Absent(n, w) && NodeSet(w) == NodeSet(s) - {n}
  {
    i :| 0 <= i < |s| && s[i].n == n;
    RemovedItems(s, i);
  }

  method Delete(us: Usrtc, node: Node)
    requires Valid(us) && !Absent(node, us.items)
    modifies us`nodecount, us`items, us`tree, Own(us)
    ensures Valid(us) && us.items == Removed(old(us.items), node) && Absent(node, us.items)
    ensures us.futable == USRTC_BST || us.futable == USRTC_SPLAY ==> us.tree == Cut(old(us.tree), node)
  {
    hide Holds, Tuned, Sorted, DistinctNodes, Removed, NodeSet, Absent, Snap, Agree;
    ghost var s, S := us.items, Own(us);
    ghost var i := Position(s, node);
    AbsentSet(us.sentinel, s);
    AbsentSet(us.sentinel, Removed(s, node));
    AbsentSet(node, Removed(s, node));
    ghost var t := DispatchDelete(us, node, i, s, us.tree, S);
    us.tree := t;
    us.items := Removed(s, node);
    SnapAgree(S, Own(us), {node});
    HoldsFrame(us.futable, us.items, t, us.sentinel, Snap(S), Snap(Own(us)), {node});
  }

  lemma MatchHeld(t: Tree, key: int, n: Node, first: bool, i: int)
    requires IsMatch(Inorder(t), key, n, first, i)
    ensures n in Nodes(t)
  {
    InorderNodes(t);
  }

  /** `steps` counts the rounds of the search loop: logarithmic in a red-black and in a balanced tree. */
  method Lookup(us: Usrtc, key: int) returns (res: Node?, ghost steps: nat)
    requires Intact(us)
    modifies us`tree, Own(us)
    ensures Intact(us) && us.items == old(us.items) && (old(Valid(us)) ==> Valid(us))
    ensures res == null <==> !HasKey(us.items, key)
    ensures res != null ==> exists i :: IsMatch(us.items, key, res, us.dupes_allowed, i)
    ensures us.futable != USRTC_LIST ==> steps <= Height(old(us.tree))
    ensures res == null || us.futable != USRTC_SPLAY ==> us.tree == old(us.tree)
    ensures res != null && us.futable == USRTC_SPLAY ==>
      us.tree.Fork? && us.tree.e.n == res && us.tree == Splay(old(us.tree), res) &&
      WayShortened(old(us.tree), res, us.tree)
    ensures res != null && us.futable == USRTC_SPLAY && !us.dupes_allowed ==>
      Paid(steps, old(us.tree), us.tree, 2 * Cube(us.nodecount))
    ensures old(Valid(us)) && us.futable == USRTC_REDBLACK ==> Pow2((steps + 1) / 2) <= us.nodecount + 1
    ensures old(Valid(us)) && us.futable == USRTC_AVL ==> Fib(steps + 2) <= us.nodecount + 1
  {
    hide Sorted, DistinctNodes, NodeSet, Absent, HasKey, Snap, IsMatch, At, ListAt, RBTree, Avl, Height, Inorder;
    hide Fib, Pow2, Splay, DepthOf, Paid, Times, Cube, WayShortened;
    ghost var i, t;
    ghost var turns;
    res, i, t, steps, turns := DispatchLookup(us, key, us.items, us.tree, Own(us));
    if us.futable == USRTC_SPLAY && res != null {
      MatchHeld(us.tree, key, res, us.dupes_allowed, i);
      DistinctInorder(us.tree);
      HitCost(us.tree, res);
      PathHalved(us.tree, res);
    }
    us.tree := t;
    assert res != null ==> IsMatch(us.items, key, res, us.dupes_allowed, i);
    if us.futable == USRTC_REDBLACK || us.futable == USRTC_AVL {
      SearchBound(t, steps);
    }
  }

  method LowerBound(us: Usrtc, key: int) returns (res: Node?)
    requires Intact(us)
    ensures res == null <==> AllBelow(us.items, key)
    ensures res != null ==> exists i :: IsLowerBound(us.items, key, res, i) && (us.dupes_allowed ==>
      AllBelow(us.items[..i], key))
  {
    ghost var i;
    if us.futable == USRTC_LIST {
      res, i := ListLowerBound(us, key, us.items, Own(us));
    } else {
      res, i := TreeLowerBound(us, key, us.tree, Own(us));
    }
  }

  method First(us: Usrtc) returns (res: Node?)
    requires Intact(us)
    ensures res == FirstNode(us.items)
  {
    if us.futable == USRTC_LIST {
      res := ListFirst(us, us.items, Own(us));
    } else {
      res := TreeFirst(us, us.tree, Own(us));
    }
  }

  method Last(us: Usrtc) returns (res: Node?)
    requires Intact(us)
    ensures res == LastNode(us.items)
  {
    if us.futable == USRTC_LIST {
      res := ListLast(us, us.items, Own(us));
    } else {
      res := TreeLast(us, us.tree, Own(us));
    }
  }

  method Next(us: Usrtc, node: Node, ghost i: nat) returns (res: Node?)
    requires Intact(us) && i < |us.items| && us.items[i].n == node
    ensures res == FirstNode(us.items[i + 1..])
  {
    hide At, ListAt, Inorder, Sorted;
    if us.futable == USRTC_LIST {
      res := ListNext(us, node, us.items, i, Own(us));
    } else {
      ghost var h := Snap(Own(us));
      ghost var c, z := Locate(us.tree, i, us.sentinel, h);
      OverlayNothing(h);
      res := TreeNext(us, node, c, z, h, {}, Own(us));
    }
  }

  method Prev(us: Usrtc, node: Node, ghost i: nat) returns (res: Node?)
    requires Intact(us) && i < |us.items| && us.items[i].n == node
    ensures res == LastNode(us.items[..i])
  {
    hide At, ListAt, Inorder, Sorted;
    if us.futable == USRTC_LIST {
      res := ListPrev(us, node, us.items, i, Own(us));
    } else {
      ghost var c, z := Locate(us.tree, i, us.sentinel, Snap(Own(us)));
      res := TreePrev(us, node, c, z, Own(us));
    }
  }

  method ConvertTo(us: Usrtc, impl: Impl)
    requires Intact(us)
    modifies us`futable, us`tree, Own(us)
    ensures Intact(us) && us.items == old(us.items) && us.futable == impl
    ensures impl == old(us.futable) || Shared(old(us.futable), impl) ==>
      us.tree == old(us.tree) && Snap(Own(us)) == old(Snap(Own(us)))
    ensures impl == old(us.futable) ==> (Valid(us) <==> old(Valid(us)))
    ensures impl != old(us.futable) ==>
      (Valid(us) <==> impl != USRTC_REDBLACK || |us.items| <= 2 * USRTC_COUNT_T_MAX + 1 || HighDigits(|us.items|))
    ensures impl != old(us.futable) && impl == USRTC_REDBLACK ==> us.sentinel.mark == BLACK
    ensures ByRows(old(us.futable), impl) && |us.items| <= 2 * USRTC_COUNT_T_MAX + 1 ==> Complete(us.tree)
    ensures impl != old(us.futable) && impl == USRTC_AVL ==>
      Height(us.tree) == Bits(|us.items|) && Centred(us.tree)
  {
    hide Holds, Tuned, Sorted, DistinctNodes, HighDigits, NodeSet, Absent, Complete, Centred, Height, Bits;
    ghost var t := DispatchConvert(us, impl, us.items, us.tree, Own(us));
    us.tree := t;
  }

  /** `usrtc_allow_dupes` does nothing to an empty container, although the assertion above it asks for one. */
  method AllowDupes(us: Usrtc)
    requires Valid(us)
    modifies us`dupes_allowed
    ensures Valid(us)
    ensures us.dupes_allowed == (old(us.dupes_allowed) || us.items != [])
  {
    if us.nodecount == 0 {
      return;
    }
    us.dupes_allowed := true;
  }
}
