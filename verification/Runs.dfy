/** Whole runs: any sequence of calls, on any of the five structures and across changes of structure. */
module Runs {
  import opened Links
  import opened Order
  import opened Container
  import opened SortedList
  import opened BinaryTree
  import opened TreeDeletion
  import opened RedBlackTrees
  import opened RowTrees
  import opened Products
  import opened SplayTree
  import opened SplayCost
  import opened ListToTree
  import opened Interface

  datatype Op = Insertion(node: Node, key: int) | Deletion(node: Node) | Search(key: int) | Conversion(impl: Impl)

  /** What one call does to the sorted list of entries. */
  ghost function Effect(s: seq<Entry>, op: Op): seq<Entry> {
    match op
    case Insertion(node, key) => Inserted(s, Entry(node, key))
    case Deletion(node) => Removed(s, node)
    case _ => s
  }

  ghost function Replay(s: seq<Entry>, ops: seq<Op>): seq<Entry> {
    if ops == [] then s else Effect(Replay(s, ops[..|ops| - 1]), ops[|ops| - 1])
  }

  /** The caller's side: fresh nodes go in, held nodes come out, and a red-black rebuild has a count it can handle. */
  ghost predicate Allowed(s: seq<Entry>, op: Op, nil: Node) {
    match op
    case Insertion(node, _) => Absent(node, s) && node != nil && |s| + 1 < WORD
    case Deletion(node) => !Absent(node, s)
    case Search(_) => true
    case Conversion(impl) => impl == USRTC_REDBLACK ==> |s| <= 2 * USRTC_COUNT_T_MAX + 1 || HighDigits(|s|)
  }

  ghost predicate Admissible(s: seq<Entry>, ops: seq<Op>, nil: Node) {
    forall i | 0 <= i < |ops| :: Allowed(Replay(s, ops[..i]), ops[i], nil)
  }

  ghost function Fresh(ops: seq<Op>): set<Node> {
    set i | 0 <= i < |ops| && ops[i].Insertion? :: ops[i].node
  }

  /** A search in `s` gives a node held under the key, or none if there is no such node; the other calls give none. */
  ghost predicate Answer(s: seq<Entry>, op: Op, res: Node?) {
    if op.Search? && HasKey(s, op.key) then res != null && Entry(res, op.key) in s else res == null
  }

  lemma ReplayStep(s: seq<Entry>, ops: seq<Op>, i: nat)
    requires i < |ops|
    ensures Replay(s, ops[..i + 1]) == Effect(Replay(s, ops[..i]), ops[i])
  {
    assert ops[..i + 1][..i] == ops[..i];
  }

  /** A call on a splay tree whose cost is bounded over a whole run: a search that misses leaves the tree as it is, and
      may be as expensive the next time. */
  ghost predicate Splays(s: seq<Entry>, op: Op) {
    !op.Conversion? && (op.Search? ==> HasKey(s, op.key))
  }

  ghost function Price(n: nat): nat {
    2 * Times(n, Cube(n))
  }

  lemma PriceGrows(m: nat, n: nat)
    requires m <= n
    ensures Price(m) <= Price(n) && 2 * Cube(m) <= Price(m + 1) && 1 <= Price(m + 1)
  {
    Mono(m, m, n, n);
    Mono(m, Times(m, m), n, Times(n, n));
    Mono(m, Cube(m), n, Cube(n));
    Mono(m, m, m + 1, m + 1);
    Mono(m, Times(m, m), m + 1, Times(m + 1, m + 1));
    Mono(1, Cube(m), m + 1, Cube(m + 1));
    One(Cube(m));
  }

  /** `cost` counts the rotations of an insertion into a splay tree, and the rounds of a search. */
  method Step(us: Usrtc, op: Op) returns (res: Node?, ghost cost: nat)
    requires Valid(us) && !us.dupes_allowed && Allowed(us.items, op, us.sentinel)
    modifies us`futable, us`nodecount, us`items, us`tree, Own(us), if op.Insertion? then {op.node} else {}
    ensures Valid(us) && us.items == Effect(old(us.items), op)
    ensures Answer(old(us.items), op, res) && (!op.Conversion? ==> us.futable == old(us.futable))
    ensures us.futable == USRTC_SPLAY && Splays(old(us.items), op) ==>
      Paid(cost, old(us.tree), us.tree, Price(|old(us.items)| + 1))
  {
    hide Paid, Times, Cube, Sorted, DistinctNodes, NodeSet, Holds, Tuned, Inserted, Removed, Cut, Grown, Splay;
    res, cost := null, 0;
    ghost var n, t := |us.items|, us.tree;
    PriceGrows(n, n);
    SizeKept(us);
    match op
    case Insertion(node, key) =>
      cost := Insert(us, node, key);
      InsertedSize(old(us.items), Entry(node, key));
      SizeKept(us);
    case Deletion(node) =>
      Delete(us, node);
      CutPaid(t, node);
      if us.futable == USRTC_SPLAY {
        PaidMore(0, t, us.tree, 1, Price(n + 1));
      }
    case Search(key) =>
      res, cost := Lookup(us, key);
      SizeKept(us);
      if us.futable == USRTC_SPLAY && res != null {
        PaidMore(cost, t, us.tree, 2 * Cube(n), Price(n + 1));
      }
    case Conversion(impl) => ConvertTo(us, impl);
  }

  lemma InsertedSize(s: seq<Entry>, e: Entry)
    ensures |Inserted(s, e)| == |s| + 1
  {
    var a, b := InsertedSplit(s, e);
  }

  /** Refinement: whatever structures the run goes through, contents and answers are those of the sorted list. */
  method Run(us: Usrtc, ops: seq<Op>) returns (found: seq<Node?>)
    requires Valid(us) && !us.dupes_allowed && Admissible(us.items, ops, us.sentinel)
    modifies us, Own(us), Fresh(ops)
    ensures Valid(us) && us.items == Replay(old(us.items), ops) && us.nodecount == |us.items|
    ensures |found| == |ops|
    ensures forall i | 0 <= i < |ops| :: Answer(Replay(old(us.items), ops[..i]), ops[i], found[i])
  {
    hide Allowed, Answer, Replay, Valid;
    found := [];
    ghost var s, S := us.items, Own(us);
    assert ops[..0] == [];
    ReplayNothing(s);
    while |found| < |ops|
      invariant |found| <= |ops| && Valid(us) && !us.dupes_allowed && us.items == Replay(s, ops[..|found|])
      invariant Own(us) <= S + Fresh(ops)
      invariant forall i | 0 <= i < |found| :: Answer(Replay(s, ops[..i]), ops[i], found[i])
    {
      var j := |found|;
      ReplayStep(s, ops, j);
      assert Allowed(Replay(s, ops[..j]), ops[j], us.sentinel);
      OwnGrows(us.items, ops[j], us.sentinel);
      var res, cost := Step(us, ops[j]);
      found := found + [res];
    }
    assert ops[..|ops|] == ops;
    SizeKept(us);
  }

  /** Splaying pays off over a run.  With fewer than `n` nodes at any time, the rotations of all insertions and the
      rounds of all searches are together at most as many, for each call, as one and four times the binary logarithm of
      `n`, beyond the potential there was at the start; and an empty tree has none. */
  method SplayRun(us: Usrtc, ops: seq<Op>, ghost n: nat) returns (ghost cost: nat)
    requires Valid(us) && !us.dupes_allowed && us.futable == USRTC_SPLAY && Admissible(us.items, ops, us.sentinel)
    requires forall i | 0 <= i < |ops| :: var s := Replay(us.items, ops[..i]); Splays(s, ops[i]) && |s| < n
    modifies us, Own(us), Fresh(ops)
    ensures Valid(us) && us.items == Replay(old(us.items), ops) && us.futable == USRTC_SPLAY
    ensures Paid(cost, old(us.tree), us.tree, Power(Price(n), |ops|))
    ensures old(us.items) == [] ==> Pow2(cost) <= Power(Price(n), |ops|)
  {
    hide Allowed, Answer, Replay, Valid, Splays, Paid, Price, Pow2;
    cost := 0;
    ghost var s, t, S := us.items, us.tree, Own(us);
    assert ops[..0] == [];
    ReplayNothing(s);
    NothingPaid(t);
    if s == [] {
      EmptyTree(us);
    }
    var j := 0;
    while j < |ops|
      invariant j <= |ops| && Valid(us) && !us.dupes_allowed && us.items == Replay(s, ops[..j])
      invariant Own(us) <= S + Fresh(ops) && us.futable == USRTC_SPLAY
      invariant Paid(cost, t, us.tree, Power(Price(n), j))
    {
      ReplayStep(s, ops, j);
      assert Allowed(Replay(s, ops[..j]), ops[j], us.sentinel);
      assert Splays(Replay(s, ops[..j]), ops[j]) && |us.items| < n;
      SplaysStay(us.items, ops[j]);
      OwnGrows(us.items, ops[j], us.sentinel);
      ghost var u, m := us.tree, |us.items| + 1;
      ghost var res, more := Step(us, ops[j]);
      PriceGrows(m, n);
      PaidMore(more, u, us.tree, Price(m), Price(n));
      PaidTwice(cost, more, t, u, us.tree, Power(Price(n), j), Price(n));
      cost, j := cost + more, j + 1;
    }
    assert ops[..|ops|] == ops;
    if s == [] {
      PaidFromNothing(cost, us.tree, Power(Price(n), |ops|));
    }
  }

  lemma EmptyTree(us: Usrtc)
    requires Valid(us) && us.futable != USRTC_LIST && us.items == []
    ensures us.tree == Leaf
  {
  }

  lemma SplaysStay(s: seq<Entry>, op: Op)
    requires Splays(s, op)
    ensures !op.Conversion?
  {
  }

  lemma ReplayNothing(s: seq<Entry>)
    ensures Replay(s, []) == s
  {
  }

  lemma SizeKept(us: Usrtc)
    requires Valid(us)
    ensures us.nodecount == |us.items|
  {
  }

  lemma OwnGrows(s: seq<Entry>, op: Op, nil: Node)
    ensures NodeSet(Effect(s, op)) <= NodeSet(s) + if op.Insertion? then {op.node} else {}
  {
    match op
    case Insertion(node, key) =>
      var a, b := InsertedSplit(s, Entry(node, key));
      NodeSetConcat(a, Entry(node, key), b);
      NodeSetJoin(a, b);
    case Deletion(node) => RemovedNodes(s, node);
    case _ =>
  }

  lemma {:induction false} RemovedNodes(s: seq<Entry>, n: Node)
    ensures NodeSet(Removed(s, n)) <= NodeSet(s)
  {
    if s != [] {
      NodeSetJoin([s[0]], s[1..]);
      assert s == [s[0]] + s[1..];
      if s[0].n != n {
        RemovedNodes(s[1..], n);
        NodeSetJoin([s[0]], Removed(s[1..], n));
      }
    }
  }

  // ----- the red-black rebuild of a list

  /** A list takes in a new node. */
  method Append(us: Usrtc, key: int)
    requires Valid(us) && us.futable == USRTC_LIST && us.nodecount + 1 < WORD
    modifies us`nodecount, us`items, us`tree, Own(us)
    ensures Valid(us) && |us.items| == |old(us.items)| + 1 && fresh(Own(us) - old(Own(us)))
  {
    hide Holds, Tuned, Sorted, DistinctNodes, Inserted, HasKey, Absent, Snap;
    var node := new Node();
    AbsentSet(node, us.items);
    InsertedItems(us.items, Entry(node, key));
    ghost var turns := Insert(us, node, key);
  }

  /** A list of new nodes with the given keys, rebuilt as a red-black tree. */
  method Rebuild(keys: seq<int>) returns (us: Usrtc)
    requires |keys| < WORD
    ensures fresh(us) && fresh(Own(us)) && us.futable == USRTC_REDBLACK
    ensures Intact(us) && us.nodecount == |us.items| == |keys|
    ensures Valid(us) <==> RBTree(us.tree)
    ensures Valid(us) <==> |keys| <= 2 * USRTC_COUNT_T_MAX + 1 || HighDigits(|keys|)
  {
    hide Holds, Sorted, DistinctNodes, HighDigits, Absent, Snap, RBTree;
    us := Create(USRTC_LIST, WORD - 1);
    assert Own(us) == {us.sentinel};
    var i := 0;
    while i < |keys|
      invariant i <= |keys| && fresh(us) && fresh(Own(us)) && us.futable == USRTC_LIST
      invariant Valid(us) && |us.items| == i
    {
      Append(us, keys[i]);
      i := i + 1;
    }
    ConvertTo(us, USRTC_REDBLACK);
  }

  /** The cap is sharp: with one node more than twice the cap plus one the colours no longer add up, although every node
      is still there in order.  The next full tree comes out right again. */
  method BeyondCap() returns (wrong: Usrtc, right: Usrtc)
    ensures Intact(wrong) && |wrong.items| == 131072 && !RBTree(wrong.tree)
    ensures Valid(right) && |right.items| == 262143
  {
    hide Holds, Tuned, Sorted, DistinctNodes, HighDigits, Absent, Snap, RBTree;
    CapDigits();
    wrong := Rebuild(seq(131072, i => i));
    right := Rebuild(seq(262143, i => i));
  }

  // ----- what a run leaves behind, said without replaying it

  /** The nodes put in and not taken out since. */
  ghost function Live(ops: seq<Op>): set<Node> {
    if ops == [] then {} else
      var held, op := Live(ops[..|ops| - 1]), ops[|ops| - 1];
      match op
      case Insertion(node, _) => held + {node}
      case Deletion(node) => held - {node}
      case _ => held
  }

  /** When `n` was last put in: the number of the call, counted from one. */
  ghost function Since(ops: seq<Op>, n: Node): nat {
    if ops == [] then 0
    else if ops[|ops| - 1].Insertion? && ops[|ops| - 1].node == n then |ops|
    else Since(ops[..|ops| - 1], n)
  }

  /** By key, and among equal keys by age. */
  ghost predicate Precedes(ops: seq<Op>, a: Entry, b: Entry) {
    a.k < b.k || (a.k == b.k && Since(ops, a.n) < Since(ops, b.n))
  }

  ghost predicate KeyedBy(ops: seq<Op>, e: Entry) {
    0 < Since(ops, e.n) <= |ops| && ops[Since(ops, e.n) - 1] == Insertion(e.n, e.k)
  }

  ghost predicate Arranged(ops: seq<Op>, s: seq<Entry>) {
    && (forall i | 0 <= i < |s| :: KeyedBy(ops, s[i]))
    && forall i, j | 0 <= i < j < |s| :: Precedes(ops, s[i], s[j])
  }

  lemma SinceKept(ops: seq<Op>, e: Entry)
    requires ops != [] && KeyedBy(ops[..|ops| - 1], e) && !(ops[|ops| - 1].Insertion? && ops[|ops| - 1].node == e.n)
    ensures KeyedBy(ops, e) && Since(ops, e.n) == Since(ops[..|ops| - 1], e.n) < |ops|
  {
  }

  /** A call that does not put in any of the nodes of `s` changes nothing about them. */
  lemma ArrangedKept(ops: seq<Op>, s: seq<Entry>)
    requires ops != [] && Arranged(ops[..|ops| - 1], s)
    requires ops[|ops| - 1].Insertion? ==> Absent(ops[|ops| - 1].node, s)
    ensures Arranged(ops, s) && forall i | 0 <= i < |s| :: Since(ops, s[i].n) < |ops|
  {
    var p := ops[..|ops| - 1];
    hide Since;
    forall i | 0 <= i < |s| ensures Since(ops, s[i].n) == Since(p, s[i].n) && KeyedBy(ops, s[i])
      && Since(ops, s[i].n) < |ops| {
      SinceKept(ops, s[i]);
    }
    forall i, j | 0 <= i < j < |s| ensures Precedes(ops, s[i], s[j]) {
      assert Precedes(p, s[i], s[j]);
    }
  }

  lemma ArrangedBetween(ops: seq<Op>, a: seq<Entry>, e: Entry, b: seq<Entry>)
    requires Arranged(ops, a + b) && KeyedBy(ops, e)
    requires forall i | 0 <= i < |a| :: Precedes(ops, a[i], e)
    requires forall i | 0 <= i < |b| :: Precedes(ops, e, b[i])
    ensures Arranged(ops, a + [e] + b)
  {
    hide Precedes, KeyedBy;
    var s, w := a + b, a + [e] + b;
    forall i | 0 <= i < |w| ensures KeyedBy(ops, w[i]) {
      assert i != |a| ==> w[i] == s[if i < |a| then i else i - 1];
    }
    forall i, j | 0 <= i < j < |w| ensures Precedes(ops, w[i], w[j]) {
      assert i < |a| ==> w[i] == a[i] == s[i];
      assert i > |a| ==> w[i] == s[i - 1];
      assert j < |a| ==> w[j] == s[j];
      assert j > |a| ==> w[j] == b[j - |a| - 1] == s[j - 1];
    }
  }

  lemma ArrangedInsert(ops: seq<Op>, s: seq<Entry>, e: Entry)
    requires ops != [] && Arranged(ops[..|ops| - 1], s) && ops[|ops| - 1] == Insertion(e.n, e.k) && Absent(e.n, s)
      && Sorted(s)
    ensures Arranged(ops, Inserted(s, e))
  {
    ArrangedKept(ops, s);
    var a, b := InsertedSplit(s, e);
    SortedParts(a, b);
    assert Since(ops, e.n) == |ops|;
    hide Arranged, Since, Inserted;
    forall i | 0 <= i < |a| ensures Precedes(ops, a[i], e) {
      assert a[i] == s[i];
    }
    ArrangedBetween(ops, a, e, b);
  }

  lemma ArrangedRemove(ops: seq<Op>, s: seq<Entry>, x: nat)
    requires ops != [] && Arranged(ops[..|ops| - 1], s) && !ops[|ops| - 1].Insertion? && x < |s|
    ensures Arranged(ops, s[..x] + s[x + 1..])
  {
    ArrangedKept(ops, s);
    var w := s[..x] + s[x + 1..];
    assert forall i | 0 <= i < |w| :: w[i] == s[if i < x then i else i + 1];
  }

  /** A run from the empty container ends with the live nodes under the keys they were put in with, ordered by key, and
      equal keys in the order of insertion. */
  lemma {:induction false} StableRun(ops: seq<Op>, nil: Node)
    requires Admissible([], ops, nil)
    ensures var s := Replay([], ops); NodeSet(s) == Live(ops) && Arranged(ops, s) && Sorted(s) && DistinctNodes(s)
    decreases |ops|
  {
    if ops != [] {
      var p, op := ops[..|ops| - 1], ops[|ops| - 1];
      forall i | 0 <= i < |p| ensures Allowed(Replay([], p[..i]), p[i], nil) {
        assert p[..i] == ops[..i];
        assert Allowed(Replay([], ops[..i]), ops[i], nil);
      }
      StableRun(p, nil);
      var s := Replay([], p);
      assert Allowed(s, op, nil);
      match op
      case Insertion(node, key) =>
        ArrangedInsert(ops, s, Entry(node, key));
        InsertedItems(s, Entry(node, key));
      case Deletion(node) =>
        var x := Position(s, node);
        RemovedAt(s, x);
        ArrangedRemove(ops, s, x);
      case _ => ArrangedKept(ops, s);
    }
  }
}
