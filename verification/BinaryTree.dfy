/** Searching, walking, inserting into and deleting from a linked binary tree: tree.c. */
module BinaryTree {
  import opened Links
  import opened Order
  import opened Container

  // ----- insertion

  lemma Hung(c: Ctx, n: Node, k: int, nil: Node, h: Store, h': Store)
    requires At(c, Leaf, nil, h) && n != nil && n !in CNodes(c) && n in h'
    requires Agree(h, h', {n, Up(c, nil)}) && Rehung(c, n, nil, h, h')
    requires h'[n] == Cell(nil, nil, Up(c, nil), k, h'[n].mark)
    ensures At(c, Fork(Leaf, Entry(n, k), h'[n].mark, Leaf), nil, h')
  {
    assert Up(c, nil) in CNodes(c) + {nil};
    Rehang(c, nil, n, nil, h, h', {n, Up(c, nil)});
  }

  /** Which side of its parent the hole is on, as `usrtc_tree_insert` remembers it in `res`. */
  ghost predicate Side(c: Ctx, res: int) {
    match c
    case Top => res < 0
    case InL(_, _, _, _) => res < 0
    case InR(_, _, _, _) => res >= 0
  }

  lemma HoleLinks(c: Ctx, t: Tree, nil: Node, h: Store)
    requires At(c, t, nil, h)
    ensures Up(c, nil) in h && nil in h && (Up(c, nil) == nil <==> c.Top?)
    ensures nil !in CNodes(c) && nil !in Nodes(t)
    ensures Root(t, nil) in h && (Root(t, nil) == nil <==> t.Leaf?) && CNodes(c) <= h.Keys
    ensures if c.InR? then h[Up(c, nil)].right == Root(t, nil) else h[Up(c, nil)].left == Root(t, nil)
    ensures c.Top? ==> h[nil].right == nil
    ensures t.Fork? ==>
      && h[t.e.n] == Cell(Root(t.l, nil), Root(t.r, nil), Up(c, nil), t.e.k, t.m)
      && Root(t.l, nil) in h && Root(t.r, nil) in h
      && (Root(t.l, nil) == nil <==> t.l.Leaf?) && (Root(t.r, nil) == nil <==> t.r.Leaf?)
  {
    CKeys(c, Root(t, nil), nil, h);
    TKeys(t, Up(c, nil), nil, h);
    assert t.Fork? ==> Root(t.l, nil) in Nodes(t.l) + {nil} && Root(t.r, nil) in Nodes(t.r) + {nil};
  }

  lemma {:induction false} TKeys(t: Tree, p: Node?, nil: Node, h: Store)
    requires Shape(t, p, nil, h)
    ensures Nodes(t) <= h.Keys
  {
    if t.Fork? {
      TKeys(t.l, t.e.n, nil, h);
      TKeys(t.r, t.e.n, nil, h);
    }
  }

  lemma {:induction false} CKeys(c: Ctx, q: Node, nil: Node, h: Store)
    requires CShape(c, q, nil, h)
    ensures CNodes(c) <= h.Keys
  {
    match c
    case Top =>
    case InL(up, e, _, r) => TKeys(r, e.n, nil, h); CKeys(up, e.n, nil, h);
    case InR(up, l, e, _) => TKeys(l, e.n, nil, h); CKeys(up, e.n, nil, h);
  }

  /** The keys around the hole are split by `key`; strictly so if an equal key stops the descent. */
  ghost predicate Splits(c: Ctx, key: int, strict: bool) {
    AllAtMost(Before(c), key) && AllAbove(After(c), key) && (strict ==> AllBelow(Before(c), key))
  }

  lemma SplitsTop(key: int, strict: bool)
    ensures Splits(Top, key, strict)
  {
  }

  /** Going left at `t` keeps the split; so does going right. */
  lemma SplitStep(c: Ctx, t: Tree, key: int, strict: bool)
    requires t.Fork? && Sorted(Inorder(Plug(c, t))) && Splits(c, key, strict)
    ensures key < t.e.k ==> Splits(InL(c, t.e, t.m, t.r), key, strict)
    ensures key >= t.e.k && (strict ==> key > t.e.k) ==> Splits(InR(c, t.l, t.e, t.m), key, strict)
  {
    hide Inorder;
    PlugInorder(c, t);
    SortedParts(Before(c) + Inorder(t), After(c));
    SortedParts(Before(c), Inorder(t));
    SplitAround(t);
  }

  lemma SplitAround(t: Tree)
    requires t.Fork? && Sorted(Inorder(t))
    ensures forall i | 0 <= i < |Inorder(t.l)| :: Inorder(t.l)[i].k <= t.e.k
    ensures forall i | 0 <= i < |Inorder(t.r)| :: t.e.k <= Inorder(t.r)[i].k
  {
    var l := Inorder(t.l);
    SortedParts(l + [t.e], Inorder(t.r));
    SortedParts(l, [t.e]);
    assert (l + [t.e])[|l|] == t.e && [t.e][0] == t.e;
  }

  lemma FoundPlace(c: Ctx, t: Tree, e: Entry, strict: bool)
    requires Plug(c, Leaf) == t && Splits(c, e.k, strict)
    ensures Before(c) + [e] + After(c) == Inserted(Inorder(t), e)
    ensures strict ==> !HasKey(Inorder(t), e.k)
  {
    PlugInorder(c, Leaf);
    assert Inorder(t) == Before(c) + After(c);
    InsertedBetween(Before(c), e, After(c));
  }

  lemma StoppedAtKey(c: Ctx, s: Tree, t: Tree, k: int)
    requires s.Fork? && s.e.k == k && Plug(c, s) == t
    ensures HasKey(Inorder(t), k)
  {
    PlugInorder(c, s);
    assert Inorder(t)[|Before(c)| + |Inorder(s.l)|] == s.e;
  }

  lemma UpAmong(c: Ctx, nil: Node)
    ensures Up(c, nil) in CNodes(c) + {nil}
  {
  }

  /** The new leaf goes to the left of every greater key on its way, to the right of the others. */
  ghost function Grown(t: Tree, e: Entry, m: int): Tree {
    if t.Leaf? then Fork(Leaf, e, m, Leaf)
    else if e.k < t.e.k then t.(l := Grown(t.l, e, m)) else t.(r := Grown(t.r, e, m))
  }

  method LinkLeaf(us: Usrtc, node: Node, parent: Node, res: int, ghost c: Ctx, ghost S: set<Node>)
    requires At(c, Leaf, us.sentinel, Snap(S)) && parent == Up(c, us.sentinel) && Side(c, res)
    requires node in S && node != us.sentinel && node !in CNodes(c)
    modifies us`nodecount, S
    ensures At(c, Fork(Leaf, Entry(node, old(node.key)), old(node.mark), Leaf), us.sentinel, Snap(S))
    ensures us.nodecount == old(us.nodecount) + 1
    ensures us.sentinel.mark == old(us.sentinel.mark) && us.sentinel.parent == old(us.sentinel.parent)
  {
    hide At, Shape, CShape, Nodes, CNodes, Distinct, CDistinct, Apart;
    var nil := us.sentinel;
    ghost var h := Snap(S);
    HoleLinks(c, Leaf, nil, h);
    UpAmong(c, nil);
    if res < 0 {
      parent.left := node;
    } else {
      parent.right := node;
    }
    node.parent := parent;
    node.left := nil;
    node.right := nil;
    us.nodecount := us.nodecount + 1;
    Hung(c, node, node.key, nil, h, Snap(S));
  }

  method TreeInsert(us: Usrtc, node: Node, key: int, ghost t: Tree, ghost S: set<Node>)
    returns (ghost c: Ctx, ghost linked: bool)
    requires At(Top, t, us.sentinel, Snap(S)) && Sorted(Inorder(t))
    requires node in S && node != us.sentinel && node !in Nodes(t)
    modifies us`nodecount, S
    ensures linked <==> !(us.dupes_allowed && HasKey(Inorder(t), key))
    ensures us.sentinel.mark == old(us.sentinel.mark) && us.sentinel.parent == old(us.sentinel.parent)
    ensures !linked ==> At(Top, t, us.sentinel, Snap(S)) && us.nodecount == old(us.nodecount)
    ensures linked ==>
      && us.nodecount == old(us.nodecount) + 1
      && Plug(c, Leaf) == t && node !in CNodes(c)
      && At(c, Fork(Leaf, Entry(node, key), old(node.mark), Leaf), us.sentinel, Snap(S))
      && Plug(c, Fork(Leaf, Entry(node, key), old(node.mark), Leaf)) == Grown(t, Entry(node, key), old(node.mark))
      && Before(c) + [Entry(node, key)] + After(c) == Inserted(Inorder(t), Entry(node, key))
  {
    hide At, Splits, Inserted, HasKey, Sorted, Inorder;
    var nil := us.sentinel;
    ghost var h := Snap(S);
    HoleLinks(Top, t, nil, h);
    var where := nil.left;
    var parent := nil;
    var res := -1;
    node.key := key;
    AtFrame(Top, t, nil, h, Snap(S), {node});
    h := Snap(S);
    c := Top;
    ghost var s := t;
    SplitsTop(key, us.dupes_allowed);
    while where != nil
      invariant At(c, s, nil, h) && h == Snap(S) && Plug(c, s) == t
      invariant node !in CNodes(c) && node !in Nodes(s)
      invariant where == Root(s, nil) && parent == Up(c, nil) && Side(c, res)
      invariant Splits(c, key, us.dupes_allowed)
      invariant Plug(c, Grown(s, Entry(node, key), node.mark)) == Grown(t, Entry(node, key), node.mark)
      invariant nil.mark == old(nil.mark) && nil.parent == old(nil.parent) && node.mark == old(node.mark)
      invariant us.nodecount == old(us.nodecount) && node.key == key
      decreases s
    {
      HoleLinks(c, s, nil, h);
      SplitStep(c, s, key, us.dupes_allowed);
      parent := where;
      res := Compare(key, where.key);
      if us.dupes_allowed && res == 0 {
        linked := false;
        StoppedAtKey(c, s, t, key);
        FocusTop(c, s, nil, h);
        return;
      }
      if res < 0 {
        where := where.left;
        FocusLeft(c, s, nil, h);
        c, s := InL(c, s.e, s.m, s.r), s.l;
      } else {
        where := where.right;
        FocusRight(c, s, nil, h);
        c, s := InR(c, s.l, s.e, s.m), s.r;
      }
    }
    HoleLinks(c, s, nil, h);
    LinkLeaf(us, node, parent, res, c, S);
    linked := true;
    FoundPlace(c, t, Entry(node, key), us.dupes_allowed);
  }

  // ----- walking

  ghost function FirstNode(s: seq<Entry>): Node? {
    if s == [] then null else s[0].n
  }

  ghost function LastNode(s: seq<Entry>): Node? {
    if s == [] then null else s[|s| - 1].n
  }

  /** `h'` repeats `h`, except that left links of nodes in `V` may have been overwritten. */
  ghost predicate Overlay(h: Store, h': Store, V: set<Node>) {
    forall n | n in h :: n in h' && h'[n] == h[n].(left := if n in V then h'[n].left else h[n].left)
  }

  lemma OverlayNothing(h: Store)
    ensures Overlay(h, h, {})
  {
  }

  method TreeFirst(us: Usrtc, ghost t: Tree, ghost S: set<Node>) returns (first: Node?)
    requires At(Top, t, us.sentinel, Snap(S))
    ensures first == FirstNode(Inorder(t))
  {
    hide At;
    var nil := us.sentinel;
    ghost var h, c, s := Snap(S), Top, t;
    HoleLinks(c, s, nil, h);
    var root := nil.left;
    if root != nil {
      var left := root.left;
      while left != nil
        invariant At(c, s, nil, h) && s.Fork? && root == s.e.n && left == Root(s.l, nil)
        invariant FirstNode(Inorder(s)) == FirstNode(Inorder(t))
        decreases s
      {
        FocusLeft(c, s, nil, h);
        c, s := InL(c, s.e, s.m, s.r), s.l;
        HoleLinks(c, s, nil, h);
        root := left;
        left := root.left;
      }
      FocusLeft(c, s, nil, h);
      HoleLinks(InL(c, s.e, s.m, s.r), s.l, nil, h);
    }
    return if root == nil then null else root;
  }

  method TreeLast(us: Usrtc, ghost t: Tree, ghost S: set<Node>) returns (last: Node?)
    requires At(Top, t, us.sentinel, Snap(S))
    ensures last == LastNode(Inorder(t))
  {
    hide At;
    var nil := us.sentinel;
    ghost var h, c, s := Snap(S), Top, t;
    HoleLinks(c, s, nil, h);
    var root := nil.left;
    if root != nil {
      var right := root.right;
      while right != nil
        invariant At(c, s, nil, h) && s.Fork? && root == s.e.n && right == Root(s.r, nil)
        invariant LastNode(Inorder(s)) == LastNode(Inorder(t))
        decreases s
      {
        FocusRight(c, s, nil, h);
        c, s := InR(c, s.l, s.e, s.m), s.r;
        HoleLinks(c, s, nil, h);
        root := right;
        right := root.right;
      }
      FocusRight(c, s, nil, h);
      HoleLinks(InR(c, s.l, s.e, s.m), s.r, nil, h);
    }
    return if root == nil then null else root;
  }

  method TreeNext(us: Usrtc, node: Node, ghost c0: Ctx, ghost t: Tree, ghost h: Store, ghost V: set<Node>,
      ghost S: set<Node>)
    returns (next: Node?)
    requires t.Fork? && t.e.n == node && At(c0, t, us.sentinel, h)
    requires Overlay(h, Snap(S), V) && V !! Nodes(t.r)
    ensures next == FirstNode(Inorder(t.r) + After(c0))
  {
    hide At;
    var curr := node;
    var nil := us.sentinel;
    ghost var c, s := c0, t;
    HoleLinks(c, s, nil, h);
    if curr.right != nil {
      curr := curr.right;
      FocusRight(c, s, nil, h);
      c, s := InR(c, s.l, s.e, s.m), s.r;
      HoleLinks(c, s, nil, h);
      var left := curr.left;
      while left != nil
        invariant At(c, s, nil, h) && s.Fork? && curr == s.e.n && left == Root(s.l, nil)
        invariant Nodes(s) <= Nodes(t.r) && FirstNode(Inorder(s)) == FirstNode(Inorder(t.r))
        decreases s
      {
        FocusLeft(c, s, nil, h);
        c, s := InL(c, s.e, s.m, s.r), s.l;
        HoleLinks(c, s, nil, h);
        curr := left;
        left := curr.left;
      }
      FocusLeft(c, s, nil, h);
      HoleLinks(InL(c, s.e, s.m, s.r), s.l, nil, h);
      return curr;
    }
    FocusRight(c, s, nil, h);
    HoleLinks(InR(c, s.l, s.e, s.m), s.r, nil, h);
    assert Inorder(t.r) + After(c0) == After(c);
    var parent := curr.parent;
    while parent != nil && curr == parent.right
      invariant At(c, s, nil, h) && s.Fork? && curr == s.e.n && parent == Up(c, nil)
      invariant After(c) == After(c0) && parent in h
      decreases c
    {
      HoleLinks(c, s, nil, h);
      OneSided(c, s, nil, h);
      FocusRight(c.up, Fork(c.l, c.e, c.m, s), nil, h);
      c, s := c.up, Fork(c.l, c.e, c.m, s);
      HoleLinks(c, s, nil, h);
      curr := parent;
      parent := curr.parent;
    }
    HoleLinks(c, s, nil, h);
    return if parent == nil then null else parent;
  }

  method TreePrev(us: Usrtc, node: Node, ghost c0: Ctx, ghost t: Tree, ghost S: set<Node>) returns (prev: Node?)
    requires t.Fork? && t.e.n == node && At(c0, t, us.sentinel, Snap(S))
    ensures prev == LastNode(Before(c0) + Inorder(t.l))
  {
    hide At;
    var curr := node;
    var nil := us.sentinel;
    ghost var h, c, s := Snap(S), c0, t;
    HoleLinks(c, s, nil, h);
    if curr.left != nil {
      curr := curr.left;
      FocusLeft(c, s, nil, h);
      c, s := InL(c, s.e, s.m, s.r), s.l;
      HoleLinks(c, s, nil, h);
      var right := curr.right;
      while right != nil
        invariant At(c, s, nil, h) && s.Fork? && curr == s.e.n && right == Root(s.r, nil)
        invariant LastNode(Inorder(s)) == LastNode(Inorder(t.l))
        decreases s
      {
        FocusRight(c, s, nil, h);
        c, s := InR(c, s.l, s.e, s.m), s.r;
        HoleLinks(c, s, nil, h);
        curr := right;
        right := curr.right;
      }
      FocusRight(c, s, nil, h);
      HoleLinks(InR(c, s.l, s.e, s.m), s.r, nil, h);
      return curr;
    }
    FocusLeft(c, s, nil, h);
    HoleLinks(InL(c, s.e, s.m, s.r), s.l, nil, h);
    assert Before(c0) + Inorder(t.l) == Before(c);
    var parent := curr.parent;
    while parent != nil && curr == parent.left
      invariant At(c, s, nil, h) && s.Fork? && curr == s.e.n && parent == Up(c, nil)
      invariant Before(c) == Before(c0) && parent in h
      decreases c
    {
      HoleLinks(c, s, nil, h);
      OneSided(c, s, nil, h);
      FocusLeft(c.up, Fork(s, c.e, c.m, c.r), nil, h);
      c, s := c.up, Fork(s, c.e, c.m, c.r);
      HoleLinks(c, s, nil, h);
      curr := parent;
      parent := curr.parent;
    }
    HoleLinks(c, s, nil, h);
    return if parent == nil then null else parent;
  }

  /** Only one of its parent's links leads to the root of a non-empty tree. */
  lemma OneSided(c: Ctx, t: Tree, nil: Node, h: Store)
    requires At(c, t, nil, h) && t.Fork?
    ensures c.InL? ==> h[c.e.n].right != t.e.n
    ensures c.InR? ==> h[c.e.n].left != t.e.n
  {
    assert c.InL? ==> Root(c.r, nil) in Nodes(c.r) + {nil};
    assert c.InR? ==> Root(c.l, nil) in Nodes(c.l) + {nil};
  }
}
