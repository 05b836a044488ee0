/** `usrtc_tree_lookup` and `usrtc_tree_lower_bound` of tree.c, on any tree whose in-order sequence is sorted. */
module TreeSearch {
  import opened Links
  import opened Order
  import opened Container
  import opened BinaryTree

  ghost predicate AllAtLeast(s: seq<Entry>, k: int) {
    forall i | 0 <= i < |s| :: k <= s[i].k
  }

  /** Everything left of the hole is below `key`, everything right of it at least `key`. */
  ghost predicate Brackets(c: Ctx, key: int) {
    AllBelow(Before(c), key) && AllAtLeast(After(c), key)
  }

  lemma BracketStep(c: Ctx, t: Tree, key: int)
    requires t.Fork? && Sorted(Inorder(Plug(c, t))) && Brackets(c, key)
    ensures key <= t.e.k ==> Brackets(InL(c, t.e, t.m, t.r), key)
    ensures key > t.e.k ==> Brackets(InR(c, t.l, t.e, t.m), key)
  {
    hide Inorder;
    PlugInorder(c, t);
    SortedParts(Before(c) + Inorder(t), After(c));
    SortedParts(Before(c), Inorder(t));
    SplitAround(t);
  }

  /** `i` is the position of `n` in `s`, and its key is the least one that is not below `key`. */
  ghost predicate IsLowerBound(s: seq<Entry>, key: int, n: Node, i: int) {
    && 0 <= i < |s| && s[i].n == n && key <= s[i].k
    && forall j | 0 <= j < |s| && key <= s[j].k :: s[i].k <= s[j].k
  }

  lemma FoundKey(c: Ctx, s: Tree, t: Tree, key: int)
    requires s.Fork? && s.e.k == key && Plug(c, s) == t
    ensures var i := |Before(c) + Inorder(s.l)|;
      i < |Inorder(t)| && Inorder(t)[i] == s.e && Inorder(t)[..i] == Before(c) + Inorder(s.l)
  {
    hide Inorder, Before, After;
    ZipParts(c, s);
  }

  /** The hole a search ends in separates the smaller keys from the others. */
  lemma FoundHole(c: Ctx, t: Tree, key: int)
    requires Plug(c, Leaf) == t && Brackets(c, key)
    ensures After(c) == [] ==> AllBelow(Inorder(t), key)
    ensures After(c) != [] ==> |Before(c)| < |Inorder(t)| && Inorder(t)[..|Before(c)|] == Before(c)
    ensures After(c) != [] && Sorted(Inorder(t)) ==> IsLowerBound(Inorder(t), key, After(c)[0].n, |Before(c)|)
  {
    PlugInorder(c, Leaf);
    assert Inorder(t) == Before(c) + After(c);
  }

  method TreeLowerBound(us: Usrtc, key: int, ghost t: Tree, ghost S: set<Node>) returns (res: Node?, ghost i: int)
    requires At(Top, t, us.sentinel, Snap(S)) && Sorted(Inorder(t))
    ensures res == null <==> AllBelow(Inorder(t), key)
    ensures res != null ==> IsLowerBound(Inorder(t), key, res, i)
    ensures res != null && us.dupes_allowed ==> AllBelow(Inorder(t)[..i], key)
  {
    hide At, Brackets, Sorted, Inorder, Before, After;
    var nil := us.sentinel;
    ghost var h, c, s := Snap(S), Top, t;
    HoleLinks(c, s, nil, h);
    var root := nil.left;
    var tentative: Node? := null;
    BracketsTop(key);
    while root != nil
      invariant At(c, s, nil, h) && h == Snap(S) && root == Root(s, nil) && Plug(c, s) == t
      invariant Brackets(c, key) && tentative == FirstNode(After(c))
      decreases s
    {
      HoleLinks(c, s, nil, h);
      BracketStep(c, s, key);
      FocusLeft(c, s, nil, h);
      FocusRight(c, s, nil, h);
      AfterLeft(c, s);
      var res' := Compare(key, root.key);
      if res' > 0 {
        root := root.right;
        c, s := InR(c, s.l, s.e, s.m), s.r;
      } else if res' < 0 {
        tentative := root;
        root := root.left;
        c, s := InL(c, s.e, s.m, s.r), s.l;
      } else {
        if !us.dupes_allowed {
          FoundKey(c, s, t, key);
          res, i := root, |Before(c) + Inorder(s.l)|;
          return;
        } else {
          tentative := root;
          root := root.left;
          c, s := InL(c, s.e, s.m, s.r), s.l;
        }
      }
    }
    HoleLinks(c, s, nil, h);
    FoundHole(c, t, key);
    BracketsBefore(c, key);
    return tentative, |Before(c)|;
  }

  lemma BracketsTop(key: int)
    ensures Brackets(Top, key) && FirstNode(After(Top)) == null
  {
  }

  lemma BracketsBefore(c: Ctx, key: int)
    requires Brackets(c, key)
    ensures AllBelow(Before(c), key)
  {
  }

  lemma AfterLeft(c: Ctx, s: Tree)
    requires s.Fork?
    ensures FirstNode(After(InL(c, s.e, s.m, s.r))) == s.e.n
    ensures After(InR(c, s.l, s.e, s.m)) == After(c)
  {
  }

  // ----- lookup

  /** The node a lookup found; with duplicates allowed, the first one in order. */
  ghost predicate IsMatch(s: seq<Entry>, key: int, n: Node, first: bool, i: int) {
    0 <= i < |s| && s[i] == Entry(n, key) && (first ==> AllBelow(s[..i], key))
  }

  lemma FoundMatch(c: Ctx, s: Tree, t: Tree, key: int, first: bool)
    requires s.Fork? && s.e.k == key && Plug(c, s) == t && (first ==> AllBelow(Before(c) + Inorder(s.l), key))
    ensures IsMatch(Inorder(t), key, s.e.n, first, |Before(c) + Inorder(s.l)|) && HasKey(Inorder(t), key)
  {
    FoundKey(c, s, t, key);
  }

  lemma NotFound(c: Ctx, t: Tree, key: int)
    requires Plug(c, Leaf) == t && Splits(c, key, true)
    ensures !HasKey(Inorder(t), key)
  {
    PlugInorder(c, Leaf);
    assert Inorder(t) == Before(c) + After(c);
  }

  /** Left of a node with the searched key lie smaller keys and, next to it, more of the same. */
  ghost predicate UpTo(c: Ctx, s: Tree, key: int, upTo: seq<Entry>) {
    AllBelow(Before(c), key) && Before(c) + Inorder(s) == upTo && Sorted(Inorder(s)) && AllAtMost(Inorder(s), key)
  }

  lemma UpToStart(c: Ctx, s: Tree, key: int)
    requires s.Fork? && s.e.k == key && Sorted(Inorder(s)) && AllBelow(Before(c), key)
    ensures UpTo(InL(c, s.e, s.m, s.r), s.l, key, Before(c) + Inorder(s.l))
  {
    SplitAround(s);
    SortedParts(Inorder(s.l) + [s.e], Inorder(s.r));
    SortedParts(Inorder(s.l), [s.e]);
  }

  lemma UpToRight(c: Ctx, s: Tree, key: int, upTo: seq<Entry>)
    requires s.Fork? && s.e.k != key && UpTo(c, s, key, upTo)
    ensures UpTo(InR(c, s.l, s.e, s.m), s.r, key, upTo)
  {
    UpToParts(Before(c), Inorder(s.l), s.e, Inorder(s.r), key);
  }

  lemma UpToParts(p: seq<Entry>, a: seq<Entry>, e: Entry, b: seq<Entry>, key: int)
    requires AllBelow(p, key) && Sorted(a + [e] + b) && AllAtMost(a + [e] + b, key) && e.k != key
    ensures AllBelow(p + (a + [e]), key) && Sorted(b) && AllAtMost(b, key)
    ensures p + (a + [e]) + b == p + (a + [e] + b)
  {
    var s := a + [e] + b;
    SortedParts(a + [e], b);
    assert s[|a|] == e;
    assert forall j | 0 <= j < |a| :: a[j] == s[j];
    assert forall j | 0 <= j < |b| :: b[j] == s[|a| + 1 + j];
    SortedParts(a, [e]);
  }

  lemma UpToFound(c: Ctx, s: Tree, key: int, upTo: seq<Entry>)
    requires UpTo(c, s, key, upTo)
    ensures Sorted(Inorder(s)) && AllBelow(Before(c), key)
    ensures s.Leaf? ==> AllBelow(upTo, key)
  {
    assert Before(c) + [] == Before(c);
  }

  /** From a node that matches, the search goes on for a match further left. */
  method FirstOccurrence(us: Usrtc, root0: Node, key: int, ghost c0: Ctx, ghost s0: Tree, ghost S: set<Node>)
    returns (saved: Node, ghost c: Ctx, ghost s: Tree, ghost steps: nat)
    requires At(c0, s0, us.sentinel, Snap(S)) && s0.Fork? && s0.e == Entry(root0, key)
    requires Sorted(Inorder(s0)) && AllBelow(Before(c0), key)
    ensures At(c, s, us.sentinel, Snap(S)) && Plug(c, s) == Plug(c0, s0) && s.Fork? && s.e == Entry(saved, key)
    ensures AllBelow(Before(c) + Inorder(s.l), key) && steps <= Height(s0)
  {
    hide At, Sorted, Inorder, Before, UpTo, AllBelow;
    var nil := us.sentinel;
    ghost var h := Snap(S);
    var root: Node? := root0;
    saved, c, s, steps := root0, c0, s0, 0;
    ghost var d, x := c0, s0;
    while true
      invariant At(d, x, nil, h) && h == Snap(S) && x.Fork? && x.e.n == root && x.e.k == key
        && Plug(d, x) == Plug(c0, s0)
      invariant Sorted(Inorder(x)) && AllBelow(Before(d), key) && steps + Height(x) <= Height(s0)
      decreases x
    {
      saved, c, s := root, d, x;
      HoleLinks(d, x, nil, h);
      root := root.left;
      FocusLeft(d, x, nil, h);
      UpToStart(d, x, key);
      ghost var upTo := Before(d) + Inorder(x.l);
      d, x, steps := InL(d, x.e, x.m, x.r), x.l, steps + 1;
      HoleLinks(d, x, nil, h);
      while root != nil && Compare(key, root.key) != 0
        invariant At(d, x, nil, h) && root == Root(x, nil) && root in h && Plug(d, x) == Plug(c0, s0)
        invariant UpTo(d, x, key, upTo) && steps + Height(x) <= Height(s0)
        invariant x == s.l || x < s.l
        decreases x
      {
        HoleLinks(d, x, nil, h);
        UpToRight(d, x, key, upTo);
        FocusRight(d, x, nil, h);
        root := root.right;
        d, x, steps := InR(d, x.l, x.e, x.m), x.r, steps + 1;
        HoleLinks(d, x, nil, h);
      }
      HoleLinks(d, x, nil, h);
      UpToFound(d, x, key, upTo);
      if root == nil {
        break;
      }
    }
  }

  method TreeLookup(us: Usrtc, key: int, ghost t: Tree, ghost S: set<Node>)
    returns (res: Node?, ghost c: Ctx, ghost s: Tree, ghost steps: nat)
    requires At(Top, t, us.sentinel, Snap(S)) && Sorted(Inorder(t))
    ensures res == null <==> !HasKey(Inorder(t), key)
    ensures res != null ==>
      && At(c, s, us.sentinel, Snap(S)) && Plug(c, s) == t && s.Fork? && s.e == Entry(res, key)
      && IsMatch(Inorder(t), key, res, us.dupes_allowed, |Before(c) + Inorder(s.l)|)
    ensures steps <= Height(t) && (res != null && !us.dupes_allowed ==> steps == Depth(c))
  {
    hide At, Splits, Sorted, Inorder, Before, HasKey, IsMatch, AllBelow;
    var nil := us.sentinel;
    ghost var h := Snap(S);
    c, s, steps := Top, t, 0;
    HoleLinks(c, s, nil, h);
    var root := nil.left;
    SplitsTop(key, true);
    while root != nil
      invariant At(c, s, nil, h) && h == Snap(S) && root == Root(s, nil) && Plug(c, s) == t
      invariant Splits(c, key, true) && steps + Height(s) <= Height(t) && steps == Depth(c)
      decreases s
    {
      HoleLinks(c, s, nil, h);
      SplitStep(c, s, key, true);
      FocusLeft(c, s, nil, h);
      FocusRight(c, s, nil, h);
      var res' := Compare(key, root.key);
      if res' < 0 {
        root := root.left;
        c, s := InL(c, s.e, s.m, s.r), s.l;
      } else if res' > 0 {
        root := root.right;
        c, s := InR(c, s.l, s.e, s.m), s.r;
      } else {
        if !us.dupes_allowed {
          FoundMatch(c, s, t, key, false);
          return root, c, s, steps;
        } else {
          SortedAt(c, s, t, key);
          ghost var more;
          res, c, s, more := FirstOccurrence(us, root, key, c, s, S);
          FoundMatch(c, s, t, key, true);
          return res, c, s, steps + more;
        }
      }
      steps := steps + 1;
    }
    HoleLinks(c, s, nil, h);
    NotFound(c, t, key);
    return null, c, s, steps;
  }

  lemma SortedAt(c: Ctx, s: Tree, t: Tree, key: int)
    requires Sorted(Inorder(t)) && Plug(c, s) == t && Splits(c, key, true)
    ensures Sorted(Inorder(s)) && AllBelow(Before(c), key)
  {
    PlugInorder(c, s);
    SortedParts(Before(c) + Inorder(s), After(c));
    SortedParts(Before(c), Inorder(s));
  }
}
