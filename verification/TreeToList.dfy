/** Turning the linked tree into the linked list, in place: `usrtc_tree_convert_to_list` of tree.c. */
module TreeToList {
  import opened Links
  import opened Order
  import opened Container
  import opened BinaryTree
  import opened SortedList

  /** The first `i` entries already have their `prev` links; everything else is still the tree `h0`. */
  ghost predicate BackTo(s: seq<Entry>, i: nat, temp: Node, h0: Store, h: Store) {
    && i <= |s| && Overlay(h0, h, NodeSet(s[..i]))
    && forall j | 0 <= j < i :: s[j].n in h && h[s[j].n].left == NodeAt(s, j - 1, temp)
  }

  lemma OverlayStep(h0: Store, h: Store, h': Store, V: set<Node>, n: Node, v: Node)
    requires Overlay(h0, h, V) && n in h && h' == h[n := h[n].(left := v)]
    ensures Overlay(h0, h', V + {n})
  {
  }

  lemma NodeSetStep(s: seq<Entry>, i: nat)
    requires i < |s|
    ensures NodeSet(s[..i + 1]) == NodeSet(s[..i]) + {s[i].n}
    ensures DistinctNodes(s) ==> forall j | 0 <= j < i :: s[j].n != s[i].n
  {
    assert s[..i + 1] == s[..i] + [s[i]] + [];
    NodeSetConcat(s[..i], s[i], []);
  }

  lemma StepBack(s: seq<Entry>, i: nat, temp: Node, h0: Store, h: Store, h': Store)
    requires BackTo(s, i, temp, h0, h) && i < |s| && DistinctNodes(s) && s[i].n in h
    requires h' == h[s[i].n := h[s[i].n].(left := NodeAt(s, i - 1, temp))]
    ensures BackTo(s, i + 1, temp, h0, h')
  {
    NodeSetStep(s, i);
    OverlayStep(h0, h, h', NodeSet(s[..i]), s[i].n, NodeAt(s, i - 1, temp));
    hide Overlay, NodeSet, DistinctNodes;
  }

  lemma BackOverlay(s: seq<Entry>, i: nat, temp: Node, h0: Store, h: Store)
    requires BackTo(s, i, temp, h0, h)
    ensures i <= |s| && Overlay(h0, h, NodeSet(s[..i]))
  {
  }

  /** What `usrtc_tree_next` needs to be asked about the `i`-th node while the walk is under way. */
  lemma WalkAt(t: Tree, i: nat, nil: Node, h0: Store) returns (c: Ctx, x: Tree)
    requires i < |Inorder(t)| && At(Top, t, nil, h0)
    ensures x.Fork? && x.e == Inorder(t)[i] && x.e.n in h0 && At(c, x, nil, h0)
    ensures Inorder(x.r) + After(c) == Inorder(t)[i + 1..] && NodeSet(Inorder(t)[..i]) !! Nodes(x.r)
  {
    var s := Inorder(t);
    c, x := ZipAt(Top, t, i);
    ZipParts(c, x);
    FocusTop(c, x, nil, h0);
    DistinctInorder(t);
    InorderNodes(x.r);
    NodeSetPart(Inorder(x.r), After(c));
    DistinctConcat(s[..i], s[i], s[i + 1..]);
    assert s == s[..i] + [s[i]] + s[i + 1..];
  }

  method SetPrev(node: Node, tail: Node, ghost s: seq<Entry>, ghost i: nat, ghost temp: Node, ghost h0: Store,
      ghost S: set<Node>)
    requires BackTo(s, i, temp, h0, Snap(S)) && i < |s| && DistinctNodes(s) && node == s[i].n && node in S
    requires tail == NodeAt(s, i - 1, temp)
    modifies node`left
    ensures BackTo(s, i + 1, temp, h0, Snap(S))
  {
    hide BackTo, DistinctNodes;
    ghost var h := Snap(S);
    node.left := tail;
    StepBack(s, i, temp, h0, h, Snap(S));
  }

  /** First pass: `prev` links, written into the left links of the very tree that is being walked. */
  method LinkBack(us: Usrtc, temp: Node, ghost t: Tree, ghost S: set<Node>) returns (tail: Node)
    requires At(Top, t, us.sentinel, Snap(S)) && temp !in S
    modifies S`left
    ensures BackTo(Inorder(t), |Inorder(t)|, temp, old(Snap(S)), Snap(S))
    ensures tail == NodeAt(Inorder(t), |Inorder(t)| - 1, temp)
  {
    hide At, Overlay, DistinctNodes, Inorder, BackTo, Absent, NodeSet, Snap;
    ghost var s, h0 := Inorder(t), Snap(S);
    var node := TreeFirst(us, t, S);
    tail := temp;
    ghost var i := 0;
    BackStart(s, temp, h0);
    DistinctEntries(t, us.sentinel, h0);
    while node != null
      invariant i <= |s| && BackTo(s, i, temp, h0, Snap(S))
      invariant node == (if i < |s| then s[i].n else null) && tail == NodeAt(s, i - 1, temp)
      decreases |s| - i
    {
      ghost var c, x := WalkAt(t, i, us.sentinel, h0);
      BackOverlay(s, i, temp, h0, Snap(S));
      var next := TreeNext(us, node, c, x, h0, NodeSet(s[..i]), S);
      SetPrev(node, tail, s, i, temp, h0, S);
      tail := node;
      node := next;
      i := i + 1;
    }
  }

  lemma DistinctEntries(t: Tree, nil: Node, h: Store)
    requires At(Top, t, nil, h)
    ensures DistinctNodes(Inorder(t))
  {
    DistinctInorder(t);
  }

  lemma BackStart(s: seq<Entry>, temp: Node, h0: Store)
    ensures BackTo(s, 0, temp, h0, h0)
  {
  }

  lemma EntriesIn(t: Tree, nil: Node, h: Store)
    requires At(Top, t, nil, h)
    ensures DistinctNodes(Inorder(t)) && Absent(nil, Inorder(t)) && nil in h
    ensures forall j | 0 <= j < |Inorder(t)| :: Inorder(t)[j].n in h && h[Inorder(t)[j].n].key == Inorder(t)[j].k
  {
    DistinctInorder(t);
    InorderNodes(t);
    KeysIn(t, nil, nil, h);
    TKeys(t, nil, nil, h);
    forall j | 0 <= j < |Inorder(t)| ensures Inorder(t)[j].n in h && Inorder(t)[j].n != nil {
      assert Inorder(t)[j].n in NodeSet(Inorder(t));
    }
  }

  lemma {:induction false} KeysIn(t: Tree, p: Node?, nil: Node, h: Store)
    requires Shape(t, p, nil, h)
    ensures forall j | 0 <= j < |Inorder(t)| :: Inorder(t)[j].n in h && h[Inorder(t)[j].n].key == Inorder(t)[j].k
  {
    if t.Fork? {
      KeysIn(t.l, t.e.n, nil, h);
      KeysIn(t.r, t.e.n, nil, h);
    }
  }

  ghost predicate HasPrev(s: seq<Entry>, j: int, nil: Node)
    requires 0 <= j < |s|
    reads s[j].n`left
  {
    s[j].n.left == NodeAt(s, j - 1, nil)
  }

  ghost predicate HasNext(s: seq<Entry>, j: int, nil: Node)
    requires 0 <= j < |s|
    reads s[j].n`right
  {
    s[j].n.right == NodeAt(s, j + 1, nil)
  }

  /** Second pass, from the last entry back: `next` links. */
  method LinkForward(nil: Node, ghost s: seq<Entry>, ghost S: set<Node>) returns (tail: Node)
    requires DistinctNodes(s) && Absent(nil, s) && nil !in S && NodeSet(s) <= S
    requires nil.left == NodeAt(s, |s| - 1, nil)
    requires forall j | 0 <= j < |s| :: HasPrev(s, j, nil)
    modifies S`right
    ensures tail == NodeAt(s, 0, nil)
    ensures forall j | 0 <= j < |s| :: HasNext(s, j, nil)
  {
    tail := nil;
    var node := nil.left;
    ghost var i := |s|;
    while node != nil
      invariant 0 <= i <= |s| && node == NodeAt(s, i - 1, nil) && tail == NodeAt(s, i, nil)
      invariant forall j | i <= j < |s| :: HasNext(s, j, nil)
      decreases i
    {
      assert HasPrev(s, i - 1, nil);
      assert s[i - 1].n in NodeSet(s);
      node.right := tail;
      tail := node;
      node := node.left;
      i := i - 1;
    }
  }

  /** With the temporary sentinel replaced by the real one, the ring is the sorted list. */
  lemma RingClosed(s: seq<Entry>, nil: Node, temp: Node, h: Store, h': Store)
    requires s != [] && DistinctNodes(s) && Absent(nil, s) && nil in h'
    requires forall j | 0 <= j < |s| :: Linked(s, j, temp, h)
    requires h'[nil].right == s[0].n && h'[nil].left == s[|s| - 1].n
    requires var a, b := s[0].n, s[|s| - 1].n;
      && {a, b} <= h.Keys * h'.Keys && Agree(h, h', {nil, a, b}) && h'[a].key == h[a].key && h'[b].key == h[b].key
      && h'[a].left == nil && (a != b ==> h'[a].right == h[a].right)
      && h'[b].right == nil && (a != b ==> h'[b].left == h[b].left)
    ensures ListAt(s, nil, h')
  {
    forall i | 0 <= i < |s| ensures Linked(s, i, nil, h') {
      EndsApart(s, i);
      assert Linked(s, i, temp, h);
      hide DistinctNodes;
      RingLink(s, i, nil, temp, h, h');
    }
  }

  lemma EndsApart(s: seq<Entry>, i: nat)
    requires i < |s| && DistinctNodes(s)
    ensures i > 0 ==> s[i].n != s[0].n
    ensures i < |s| - 1 ==> s[i].n != s[|s| - 1].n
  {
  }

  lemma RingLink(s: seq<Entry>, i: nat, nil: Node, temp: Node, h: Store, h': Store)
    requires i < |s| && s[i].n != nil && s[i].n in h' && Linked(s, i, temp, h)
    requires var n := s[i].n;
      && h'[n].key == h[n].key
      && h'[n].left == (if i == 0 then nil else h[n].left)
      && h'[n].right == (if i == |s| - 1 then nil else h[n].right)
    ensures Linked(s, i, nil, h')
  {
  }

  /** Both passes, with the temporary sentinel `nil`. */
  method Thread(us: Usrtc, nil: Node, ghost t: Tree, ghost S: set<Node>)
    requires At(Top, t, us.sentinel, Snap(S)) && nil !in S
    modifies S, nil
    ensures var s := Inorder(t);
      && nil.left == NodeAt(s, |s| - 1, nil) && nil.right == NodeAt(s, 0, nil)
      && (forall j | 0 <= j < |s| :: Linked(s, j, nil, Snap(S)))
  {
    hide At, Overlay, Inorder;
    ghost var s, h0 := Inorder(t), Snap(S);
    EntriesIn(t, us.sentinel, h0);
    var tail := LinkBack(us, nil, t, S);
    nil.left := tail;
    NodesIn(s, h0);
    forall j | 0 <= j < |s| ensures HasPrev(s, j, nil) && s[j].n in S && s[j].n.key == s[j].k {
      assert Snap(S)[s[j].n].key == h0[s[j].n].key;
    }
    tail := LinkForward(nil, s, S);
    nil.right := tail;
    forall j | 0 <= j < |s| ensures Linked(s, j, nil, Snap(S)) {
      assert HasPrev(s, j, nil) && HasNext(s, j, nil);
    }
  }

  method ConvertToList(us: Usrtc, ghost t: Tree, ghost S: set<Node>)
    requires At(Top, t, us.sentinel, Snap(S)) && us.nodecount == |Inorder(t)|
    modifies S
    ensures ListAt(Inorder(t), us.sentinel, Snap(S))
  {
    hide At, Overlay, Absent, DistinctNodes, Inorder, ListAt;
    var tempsentinel := new Node();
    ghost var s, h0 := Inorder(t), Snap(S);
    EntriesIn(t, us.sentinel, h0);
    NodesIn(s, h0);
    if us.nodecount == 0 {
      EmptyTree(t, us.sentinel, h0);
      return;
    }
    tempsentinel.right := tempsentinel;
    tempsentinel.left := tempsentinel;
    Thread(us, tempsentinel, t, S);
    CloseRing(us, tempsentinel, s, S);
  }

  lemma EmptyTree(t: Tree, nil: Node, h: Store)
    requires At(Top, t, nil, h) && Inorder(t) == []
    ensures ListAt([], nil, h)
  {
    HoleLinks(Top, t, nil, h);
    assert t.Leaf?;
  }

  lemma NodesIn(s: seq<Entry>, h: Store)
    requires forall j | 0 <= j < |s| :: s[j].n in h
    ensures NodeSet(s) <= h.Keys
  {
  }

  method CloseRing(us: Usrtc, nil: Node, ghost s: seq<Entry>, ghost S: set<Node>)
    requires s != [] && DistinctNodes(s) && Absent(us.sentinel, s) && us.sentinel in S && nil !in S
    requires nil.left == s[|s| - 1].n && nil.right == s[0].n
    requires forall j | 0 <= j < |s| :: Linked(s, j, nil, Snap(S))
    modifies S
    ensures ListAt(s, us.sentinel, Snap(S))
  {
    hide ListAt, NodeSet, DistinctNodes;
    ghost var h := Snap(S);
    var treenil := us.sentinel;
    assert Linked(s, 0, nil, h) && Linked(s, |s| - 1, nil, h);
    treenil.right := nil.right;
    treenil.left := nil.left;
    treenil.right.left := treenil;
    treenil.left.right := treenil;
    RingClosed(s, treenil, nil, h, Snap(S));
  }
}
