/** The sorted doubly linked list through the sentinel: lslist.c. */
module SortedList {
  import opened Links
  import opened Order
  import opened Container

  ghost function NodeAt(s: seq<Entry>, i: int, nil: Node): Node {
    if 0 <= i < |s| then s[i].n else nil
  }

  /** `next` is the right link and `prev` the left one; the sentinel closes the ring. */
  ghost predicate Linked(s: seq<Entry>, i: int, nil: Node, h: Store)
    requires 0 <= i < |s|
  {
    var n := s[i].n;
    && n in h && n != nil && h[n].key == s[i].k
    && h[n].right == NodeAt(s, i + 1, nil) && h[n].left == NodeAt(s, i - 1, nil)
  }

  ghost predicate ListAt(s: seq<Entry>, nil: Node, h: Store) {
    && nil in h && h[nil].right == NodeAt(s, 0, nil) && h[nil].left == NodeAt(s, |s| - 1, nil)
    && DistinctNodes(s)
    && forall i | 0 <= i < |s| :: Linked(s, i, nil, h)
  }

  ghost predicate Absent(n: Node, s: seq<Entry>) {
    forall i | 0 <= i < |s| :: s[i].n != n
  }

  /** Insertion only looks for the first greater key. */
  lemma {:induction false} InsertedAt(s: seq<Entry>, i: nat, e: Entry)
    requires i <= |s| && AllAtMost(s[..i], e.k) && (i < |s| ==> e.k < s[i].k)
    ensures Inserted(s, e) == s[..i] + [e] + s[i..]
  {
    if i > 0 {
      assert s[0] == s[..i][0] && s[1..][..i - 1] == s[..i][1..] && s[1..][i - 1..] == s[i..];
      InsertedAt(s[1..], i - 1, e);
      assert [s[0]] + (s[..i][1..] + [e] + s[i..]) == s[..i] + [e] + s[i..];
    } else {
      assert s[..0] + [e] + s[0..] == [e] + s;
    }
  }

  lemma RemovedAt(s: seq<Entry>, i: nat)
    requires i < |s| && DistinctNodes(s)
    ensures Removed(s, s[i].n) == s[..i] + s[i + 1..]
  {
    assert s == s[..i] + [s[i]] + s[i + 1..];
    RemovedBetween(s[..i], s[i], s[i + 1..]);
  }

  lemma SpliceIn(s: seq<Entry>, i: nat, e: Entry, nil: Node, h: Store, h': Store)
    requires ListAt(s, nil, h) && i <= |s| && e.n != nil && Absent(e.n, s) && e.n in h'
    requires var p, q := NodeAt(s, i - 1, nil), NodeAt(s, i, nil);
      && {p, q} <= h.Keys * h'.Keys && Agree(h, h', {p, q, e.n})
      && h'[e.n].left == p && h'[e.n].right == q && h'[e.n].key == e.k
      && h'[p] == h[p].(right := e.n, left := h'[p].left) && (p != q ==> h'[p].left == h[p].left)
      && h'[q] == h[q].(left := e.n, right := h'[q].right) && (p != q ==> h'[q].right == h[q].right)
    ensures ListAt(s[..i] + [e] + s[i..], nil, h')
  {
    var w := s[..i] + [e] + s[i..];
    assert i > 0 ==> Linked(s, i - 1, nil, h);
    assert i < |s| ==> Linked(s, i, nil, h);
    forall j | 0 <= j < |w| ensures Linked(w, j, nil, h') {
      if j < i {
        assert Linked(s, j, nil, h);
      } else if j > i {
        assert Linked(s, j - 1, nil, h);
      }
    }
  }

  lemma SpliceOutOf(s: seq<Entry>, i: nat, nil: Node, h: Store, h': Store)
    requires ListAt(s, nil, h) && i < |s|
    requires var p, q := NodeAt(s, i - 1, nil), NodeAt(s, i + 1, nil);
      && {p, q} <= h.Keys * h'.Keys && Agree(h, h', {p, q, s[i].n})
      && h'[p] == h[p].(right := q, left := h'[p].left) && (p != q ==> h'[p].left == h[p].left)
      && h'[q] == h[q].(left := p, right := h'[q].right) && (p != q ==> h'[q].right == h[q].right)
    ensures ListAt(s[..i] + s[i + 1..], nil, h')
  {
    var w := s[..i] + s[i + 1..];
    assert Linked(s, i, nil, h);
    assert i > 0 ==> Linked(s, i - 1, nil, h);
    assert i + 1 < |s| ==> Linked(s, i + 1, nil, h);
    forall j | 0 <= j < |w| ensures Linked(w, j, nil, h') {
      assert Linked(s, if j < i then j else j + 1, nil, h);
    }
  }

  method ListInit(us: Usrtc)
    modifies us.sentinel
    ensures ListAt([], us.sentinel, Snap({us.sentinel}))
  {
    us.sentinel.right := us.sentinel;
    us.sentinel.left := us.sentinel;
  }

  method InsertBefore(us: Usrtc, newnode: Node, succ: Node, ghost s: seq<Entry>, ghost i: nat, ghost S: set<Node>)
    requires ListAt(s, us.sentinel, Snap(S)) && i <= |s| && succ == NodeAt(s, i, us.sentinel)
    requires newnode in S && newnode != us.sentinel && Absent(newnode, s)
    modifies us`nodecount, S
    ensures ListAt(s[..i] + [Entry(newnode, old(newnode.key))] + s[i..], us.sentinel, Snap(S))
    ensures us.nodecount == old(us.nodecount) + 1
  {
    ghost var nil, h := us.sentinel, Snap(S);
    assert i < |s| ==> Linked(s, i, nil, h);
    assert i > 0 ==> Linked(s, i - 1, nil, h);
    var pred := succ.left;
    newnode.left := pred;
    newnode.right := succ;
    pred.right := newnode;
    succ.left := newnode;
    us.nodecount := us.nodecount + 1;
    SpliceIn(s, i, Entry(newnode, newnode.key), nil, h, Snap(S));
  }

  method ListInsert(us: Usrtc, newnode: Node, key: int, ghost s: seq<Entry>, ghost S: set<Node>)
    requires ListAt(s, us.sentinel, Snap(S))
    requires newnode in S && newnode != us.sentinel && Absent(newnode, s)
    modifies us`nodecount, S
    ensures ListAt(Inserted(s, Entry(newnode, key)), us.sentinel, Snap(S))
    ensures us.nodecount == old(us.nodecount) + 1
  {
    var nil := us.sentinel;
    ghost var h := Snap(S);
    newnode.key := key;
    ListFrame(s, nil, h, Snap(S), {newnode});
    h := Snap(S);
    var succ := nil.right;
    ghost var i := 0;
    while succ != nil
      invariant ListAt(s, nil, h) && h == Snap(S) && i <= |s| && succ == NodeAt(s, i, nil) && AllAtMost(s[..i], key)
      invariant newnode.key == key && us.nodecount == old(us.nodecount)
      decreases |s| - i
    {
      assert Linked(s, i, nil, h);
      if Compare(succ.key, key) > 0 {
        break;
      }
      succ := succ.right;
      i := i + 1;
    }
    assert i < |s| ==> Linked(s, i, nil, h);
    InsertedAt(s, i, Entry(newnode, key));
    InsertBefore(us, newnode, succ, s, i, S);
  }

  lemma ListFrame(s: seq<Entry>, nil: Node, h: Store, h': Store, D: set<Node>)
    requires ListAt(s, nil, h) && Agree(h, h', D) && nil !in D && forall n | n in D :: Absent(n, s)
    ensures ListAt(s, nil, h')
  {
    forall i | 0 <= i < |s| ensures Linked(s, i, nil, h') {
      assert Linked(s, i, nil, h);
    }
  }

  method ListDelete(us: Usrtc, node: Node, ghost s: seq<Entry>, ghost i: nat, ghost S: set<Node>)
    requires ListAt(s, us.sentinel, Snap(S)) && i < |s| && node == s[i].n && us.nodecount > 0
    modifies us`nodecount, S
    ensures ListAt(Removed(s, node), us.sentinel, Snap(S))
    ensures us.nodecount == old(us.nodecount) - 1
  {
    ghost var nil, h := us.sentinel, Snap(S);
    assert Linked(s, i, nil, h);
    assert i > 0 ==> Linked(s, i - 1, nil, h);
    assert i + 1 < |s| ==> Linked(s, i + 1, nil, h);
    var pred := node.left;
    var succ := node.right;
    pred.right := succ;
    succ.left := pred;
    us.nodecount := us.nodecount - 1;
    SpliceOutOf(s, i, nil, h, Snap(S));
    RemovedAt(s, i);
  }

  method ListLookup(us: Usrtc, key: int, ghost s: seq<Entry>, ghost S: set<Node>) returns (res: Node?, ghost i: int)
    requires ListAt(s, us.sentinel, Snap(S))
    ensures res == null <==> !HasKey(s, key)
    ensures res != null ==> 0 <= i < |s| && s[i] == Entry(res, key) && forall j | 0 <= j < i :: s[j].k != key
  {
    var nil := us.sentinel;
    ghost var h := Snap(S);
    var node := nil.right;
    i := 0;
    while node != nil
      invariant 0 <= i <= |s| && node == NodeAt(s, i, nil) && forall j | 0 <= j < i :: s[j].k != key
      decreases |s| - i
    {
      assert Linked(s, i, nil, h);
      if Compare(node.key, key) == 0 {
        return node, i;
      }
      node := node.right;
      i := i + 1;
    }
    assert i < |s| ==> Linked(s, i, nil, h);
    return null, i;
  }

  method ListLowerBound(us: Usrtc, key: int, ghost s: seq<Entry>, ghost S: set<Node>) returns (res: Node?, ghost i: int)
    requires ListAt(s, us.sentinel, Snap(S))
    ensures res == null <==> AllBelow(s, key)
    ensures res != null ==> 0 <= i < |s| && s[i].n == res && key <= s[i].k && AllBelow(s[..i], key)
  {
    var nil := us.sentinel;
    ghost var h := Snap(S);
    var node := nil.right;
    i := 0;
    while node != nil
      invariant 0 <= i <= |s| && node == NodeAt(s, i, nil) && AllBelow(s[..i], key)
      decreases |s| - i
    {
      assert Linked(s, i, nil, h);
      if Compare(node.key, key) >= 0 {
        return node, i;
      }
      node := node.right;
      i := i + 1;
    }
    assert i < |s| ==> Linked(s, i, nil, h);
    assert s[..i] == s;
    return null, i;
  }

  method ListFirst(us: Usrtc, ghost s: seq<Entry>, ghost S: set<Node>) returns (res: Node?)
    requires ListAt(s, us.sentinel, Snap(S))
    ensures res == if s == [] then null else s[0].n
  {
    assert s != [] ==> Linked(s, 0, us.sentinel, Snap(S));
    return if us.sentinel.right == us.sentinel then null else us.sentinel.right;
  }

  method ListLast(us: Usrtc, ghost s: seq<Entry>, ghost S: set<Node>) returns (res: Node?)
    requires ListAt(s, us.sentinel, Snap(S))
    ensures res == if s == [] then null else s[|s| - 1].n
  {
    assert s != [] ==> Linked(s, |s| - 1, us.sentinel, Snap(S));
    return if us.sentinel.left == us.sentinel then null else us.sentinel.left;
  }

  method ListNext(us: Usrtc, node: Node, ghost s: seq<Entry>, ghost i: nat, ghost S: set<Node>) returns (res: Node?)
    requires ListAt(s, us.sentinel, Snap(S)) && i < |s| && node == s[i].n
    ensures res == if i + 1 < |s| then s[i + 1].n else null
  {
    assert Linked(s, i, us.sentinel, Snap(S));
    assert i + 1 < |s| ==> Linked(s, i + 1, us.sentinel, Snap(S));
    return if node.right == us.sentinel then null else node.right;
  }

  method ListPrev(us: Usrtc, node: Node, ghost s: seq<Entry>, ghost i: nat, ghost S: set<Node>) returns (res: Node?)
    requires ListAt(s, us.sentinel, Snap(S)) && i < |s| && node == s[i].n
    ensures res == if i > 0 then s[i - 1].n else null
  {
    assert Linked(s, i, us.sentinel, Snap(S));
    assert i > 0 ==> Linked(s, i - 1, us.sentinel, Snap(S));
    return if node.left == us.sentinel then null else node.left;
  }
}
