/** Turning the sorted list back into a tree, in place: `usrtc_tree_convert_from_list` of tree.c, and the
    same loop with colours, `redblack_convert_from_list` of redblack.c.

  The loop runs a binary counter.  `tree[v]` is a node whose left subtree, `v` rows high, is finished and
  whose right subtree is still being built; `complete` is a finished subtree without a parent.
 */
module ListToTree {
  import opened Links
  import opened Order
  import opened Container
  import opened SortedList
  import opened AvlBuild
  import opened RedBlackTrees
  import opened RowTrees

  const TREE_DEPTH_MAX := 64
  const USRTC_COUNT_T_MAX := 65535
  /** `usrtc_count_t` is an unsigned 64-bit integer. */
  const WORD := 0x1_0000_0000_0000_0000

  /** The pending nodes, lowest level first. */
  datatype Spine = Base | Pend(up: Spine, lv: nat, l: Tree, e: Entry, m: int)

  ghost function Stack(p: Spine): Ctx {
    if p.Base? then Top else InR(Stack(p.up), p.l, p.e, p.m)
  }

  /** The tree that results when `K` is put below the lowest pending node and each one below the next. */
  ghost function Closed(p: Spine, K: Tree): Tree {
    Plug(Stack(p), K)
  }

  /** The number of places, of the full rows, that the pending nodes and their left subtrees stand for. */
  ghost function Weight(p: Spine): nat {
    if p.Base? then 0 else Weight(p.up) + Pow2(p.lv + 1)
  }

  ghost function Value(p: Spine, K: Tree, level: nat): int {
    Weight(p) + if K.Leaf? then 0 else Pow2(level + 1) - 1
  }

  /** The places of row 0 that the pending nodes and the finished subtree stand for. */
  ghost function SpinePlaces(p: Spine): seq<bool> {
    if p.Base? then [] else SpinePlaces(p.up) + Places(p.l, p.lv)
  }

  ghost function Bottom(p: Spine, K: Tree, level: nat): seq<bool> {
    SpinePlaces(p) + if K.Leaf? then [] else Places(K, level)
  }

  /** While the bottom row lasts every place is taken; afterwards no more are. */
  ghost predicate Filling(b: seq<bool>, base: nat) {
    Packed(b) && (base == 0 ==> forall x | 0 <= x < |b| :: b[x])
  }

  lemma FillingOn(b: seq<bool>, base: nat, more: seq<bool>, base': nat)
    requires Filling(b, base) && base <= base' && forall x | 0 <= x < |more| :: more[x] <==> base' == 0
    ensures Filling(b + more, base')
  {
  }

  lemma Append3<T>(a: seq<T>, b: seq<T>, c: seq<T>)
    ensures a + b + c == a + (b + c)
  {
  }

  /** From slot `k` on, `a` holds the pending nodes, each at its level. */
  ghost predicate Slots(p: Spine, k: nat, a: seq<Node?>) {
    match p
    case Base => forall j | k <= j < |a| :: a[j] == null
    case Pend(up, lv, _, e, _) =>
      k <= lv < |a| && a[lv] == e.n && Slots(up, lv + 1, a) && forall j | k <= j < lv :: a[j] == null
  }

  ghost predicate Clear(k: nat, a: seq<Node?>) {
    k <= |a| && forall j | 0 <= j < k :: a[j] == null
  }

  /** The levels rise from the lowest pending node upwards. */
  ghost predicate Rising(p: Spine, k: nat) {
    p.Pend? ==> k <= p.lv && Rising(p.up, p.lv + 1)
  }

  ghost predicate Rowed(t: Tree, level: nat, coloured: bool) {
    Row(t, level) && (coloured ==> Tinted(t, level))
  }

  ghost predicate Rows(p: Spine, coloured: bool) {
    p.Pend? ==>
      && Rowed(p.l, p.lv, coloured) && (coloured ==> p.m == (p.lv + 1) % 2)
      && Rows(p.up, coloured)
  }

  /** Left links and left subtrees of the pending nodes; right and parent links are not yet set. */
  ghost predicate Hanging(p: Spine, nil: Node, h: Store) {
    p.Pend? ==>
      && p.e.n in h && h[p.e.n].left == Root(p.l, nil) && h[p.e.n].key == p.e.k && h[p.e.n].mark == p.m
      && Shape(p.l, p.e.n, nil, h) && Hanging(p.up, nil, h)
  }

  /** The first `i` entries of the list have moved into the pending trees and `K`; the others are untouched. */
  ghost predicate Site(p: Spine, K: Tree, s: seq<Entry>, i: nat, nil: Node, h: Store) {
    && i <= |s| && DistinctNodes(s) && Absent(nil, s) && nil in h
    && Inorder(Closed(p, K)) == s[..i]
    && Hanging(p, nil, h) && Rooted(K, nil, h)
    && forall j | i <= j < |s| :: Unread(s, j, nil, h)
  }

  // ----- arithmetic of the counter

  /** Pending nodes that fit below `2^(J+1)` leave room for one subtree of level `k`. */
  lemma {:induction false} WeightRoom(p: Spine, k: nat, J: nat)
    requires Rising(p, k) && k <= J && Weight(p) < Pow2(J + 1)
    ensures Weight(p) <= Pow2(J + 1) - Pow2(k + 1)
    decreases p
  {
    if p.Pend? {
      if p.lv >= J {
        Pow2Monotone(J + 1, p.lv + 1);
      }
      WeightRoom(p.up, p.lv + 1, J);
      Pow2Monotone(k + 1, p.lv + 1);
    } else {
      Pow2Monotone(k + 1, J + 1);
    }
  }

  /** When the room is used up every level is pending, so closing the spine yields a tree of `J` full rows. */
  lemma {:induction false} ClosedRows(p: Spine, K: Tree, k: nat, J: nat, coloured: bool)
    requires Rising(p, k) && Rows(p, coloured) && Rowed(K, k, coloured)
    requires Weight(p) == Pow2(J + 1) - Pow2(k + 1)
    ensures Rowed(Closed(p, K), J, coloured) && Places(Closed(p, K), J) == SpinePlaces(p) + Places(K, k)
    decreases p
  {
    if p.Base? {
      if k < J {
        Pow2Monotone(k + 2, J + 1);
      } else if k > J {
        Pow2Monotone(J + 2, k + 1);
      }
    } else {
      if k >= J {
        Pow2Monotone(J + 1, k + 1);
      } else if p.lv > k {
        WeightRoom(p, k + 1, J);
      }
      Append3(SpinePlaces(p.up), Places(p.l, k), Places(K, k));
      ClosedRows(p.up, Fork(p.l, p.e, p.m, K), k + 1, J, coloured);
    }
  }

  // ----- above the cap

  /** Every base-4 digit of `n` but the leading one is 2 or 3. */
  ghost predicate HighDigits(n: nat) {
    n >= 4 ==> n % 4 >= 2 && HighDigits(n / 4)
  }

  /** Each pending node matches the black height of what is closed below it; `r` is the level of that, -1 for
      nothing. */
  ghost predicate Chain(p: Spine, r: int) {
    p.Pend? ==> (r + 1) / 2 == (p.lv + 1) / 2 && Chain(p.up, p.lv + 1)
  }

  /** The weight without its `2 * j` lowest binary digits. */
  ghost function Scaled(p: Spine, j: nat): nat {
    if p.Base? then 0 else Scaled(p.up, j) + if p.lv + 1 < 2 * j then 0 else Pow2(p.lv + 1 - 2 * j)
  }

  lemma {:induction false} ScaledWeight(p: Spine)
    ensures Scaled(p, 0) == Weight(p)
  {
    if p.Pend? {
      ScaledWeight(p.up);
    }
  }

  lemma {:induction false} ScaledStep(p: Spine, k: nat, j: nat)
    requires Rising(p, k) && k >= 2 * j + 1
    ensures Scaled(p, j) == 4 * Scaled(p, j + 1)
  {
    if p.Pend? {
      ScaledStep(p.up, p.lv + 1, j);
      assert Pow2(p.lv + 1 - 2 * j) == 2 * Pow2(p.lv - 2 * j);
      assert Pow2(p.lv - 2 * j) == 2 * Pow2(p.lv - 1 - 2 * j);
    }
  }

  lemma DigitHigh(m: nat, d: nat)
    requires d == 2 || d == 3
    ensures HighDigits(4 * m + d) <==> HighDigits(m)
  {
    assert (4 * m + d) % 4 == d && (4 * m + d) / 4 == m;
  }

  lemma DigitLow(m: nat, d: nat)
    requires d == 0 || d == 1
    ensures HighDigits(4 * m + d) <==> m == 0
  {
    assert (4 * m + d) % 4 == d;
  }

  /** The pending levels are the binary digits of the count, so the chain can be read off its base-4 digits. */
  lemma {:induction false} ChainDigits(p: Spine, r: int, j: nat)
    requires (r == 2 * j - 1 || r == 2 * j) && Rising(p, if r < 0 then 0 else r)
    ensures Chain(p, r) <==> HighDigits(Scaled(p, j) + r + 1 - 2 * j)
    decreases p
  {
    if p.Base? {
      assert Scaled(p, j) + r + 1 - 2 * j < 4;
    } else {
      hide HighDigits;
      var d := r + 1 - 2 * j;
      assert Pow2(0) == 1 && Pow2(1) == 2 && (r + 1) / 2 == j;
      if p.lv == 2 * j - 1 {
        assert (p.lv + 1) / 2 == j;
        ChainDigits(p.up, 2 * j, j);
      } else if p.lv == 2 * j {
        assert (p.lv + 1) / 2 == j;
        ChainDigits(p.up, 2 * j + 1, j + 1);
        ScaledStep(p.up, 2 * j + 1, j);
        DigitHigh(Scaled(p.up, j + 1), d + 2);
      } else {
        assert (p.lv + 1) / 2 > j;
        ScaledStep(p, 2 * j + 1, j);
        DigitLow(Scaled(p, j + 1), d);
        assert Scaled(p, j + 1) >= Pow2(p.lv - 1 - 2 * j);
      }
    }
  }

  /** Colours alternate upwards, so closing the spine is right exactly when the black heights match all along. */
  lemma {:induction false} ChainRB(p: Spine, K: Tree, r: int)
    requires Rising(p, if r < 0 then 0 else r) && Rows(p, true) && RB(K) && r >= -1
    requires BlackHeight(K) == (r + 1) / 2 && (Red(K) <==> r % 2 == 0) && (r == -1 <==> K.Leaf?)
    ensures RBTree(Painted(Closed(p, K), BLACK)) <==> Chain(p, r)
    decreases p
  {
    if p.Pend? {
      RowRB(p.l, p.lv);
      var K' := Fork(p.l, p.e, p.m, K);
      if (r + 1) / 2 == (p.lv + 1) / 2 {
        ChainRB(p.up, K', p.lv + 1);
      } else {
        BrokenBelow(Stack(p.up), K');
      }
    }
  }

  /** Unequal black heights stay wrong, whatever is built above and however the root is painted. */
  lemma {:induction false} BrokenBelow(c: Ctx, t: Tree)
    requires t.Fork? && BlackHeight(t.l) != BlackHeight(t.r)
    ensures !RB(Painted(Plug(c, t), BLACK))
  {
    PaintPlug(c, t, BLACK);
    if !c.Top? {
      PlugRB(PaintTop(c, BLACK), t);
    }
  }

  /** The first count beyond twice the cap plus one, and that of the next full tree. */
  lemma CapDigits()
    ensures 2 * USRTC_COUNT_T_MAX + 2 == 131072 && !HighDigits(131072) && HighDigits(262143)
  {
    assert HighDigits(3) && HighDigits(0xF) && HighDigits(0x3F) && HighDigits(0xFF);
    assert HighDigits(0x3FF) && HighDigits(0xFFF) && HighDigits(0x3FFF) && HighDigits(0xFFFF);
  }

  /** A finished subtree stands for a run of binary ones, whose base-4 digits are 3. */
  lemma {:induction false} FullDigits(p: Spine, r: int, i: nat, j: nat)
    requires (r == 2 * j - 1 || r == 2 * j) && i <= j && Rising(p, if r < 0 then 0 else r)
    ensures HighDigits(Scaled(p, i) + Pow2(r + 1 - 2 * i) - 1) <==> HighDigits(Scaled(p, j) + r + 1 - 2 * j)
    decreases j - i
  {
    if i == j {
      ChainDigits(p, r, j);
    } else {
      FullDigits(p, r, i + 1, j);
      ScaledStep(p, r, i);
      assert Pow2(r + 1 - 2 * i) == 2 * Pow2(r - 2 * i) == 4 * Pow2(r - 1 - 2 * i);
    }
  }

  lemma DigitsDecide(p: Spine, K: Tree, r: int)
    requires Rising(p, if r < 0 then 0 else r) && Rows(p, true) && r >= -1 && (r == -1 <==> K.Leaf?)
    requires K.Fork? ==> Rowed(K, r, true)
    ensures RBTree(Painted(Closed(p, K), BLACK)) <==> HighDigits(Weight(p) + Pow2(r + 1) - 1)
  {
    hide Chain, HighDigits, Rising, Rows, Closed, Row, Tinted, Weight, Scaled;
    if K.Fork? {
      RowRB(K, r);
    }
    ChainRB(p, K, r);
    ChainDigits(p, r, (r + 1) / 2);
    FullDigits(p, r, 0, (r + 1) / 2);
    ScaledWeight(p);
  }

  // ----- the slots

  lemma {:induction false} SlotsFrame(p: Spine, k: nat, a: seq<Node?>, a': seq<Node?>)
    requires Slots(p, k, a) && |a| == |a'| && forall j | k <= j < |a| :: a'[j] == a[j]
    ensures Slots(p, k, a')
  {
    if p.Pend? {
      SlotsFrame(p.up, p.lv + 1, a, a');
    }
  }

  lemma {:induction false} SlotsRising(p: Spine, k: nat, a: seq<Node?>)
    requires Slots(p, k, a)
    ensures Rising(p, k)
  {
    if p.Pend? {
      SlotsRising(p.up, p.lv + 1, a);
    }
  }

  /** What is read from slot `k`. */
  lemma SlotRead(p: Spine, k: nat, a: seq<Node?>)
    requires Slots(p, k, a) && k < |a|
    ensures a[k] == if p.Pend? && p.lv == k then p.e.n else null
    ensures a[k] == null ==> Slots(p, k + 1, a)
  {
  }

  // ----- the links

  lemma {:induction false} ApartClosed(c: Ctx, t: Tree, nil: Node)
    requires Distinct(Plug(c, t)) && nil !in Nodes(Plug(c, t))
    ensures Apart(c, t, nil) && Nodes(Plug(c, t)) == CNodes(c) + Nodes(t)
    decreases c
  {
    if !c.Top? {
      ApartClosed(c.up, Up1(c, t), nil);
    }
  }

  lemma AbsentPart(nil: Node, s: seq<Entry>, i: nat)
    requires Absent(nil, s) && i <= |s|
    ensures nil !in NodeSet(s[..i]) && nil !in NodeSet(s[i..])
  {
  }

  /** Pending nodes, the finished subtree, the unread nodes and the sentinel are all different. */
  lemma SiteApart(p: Spine, K: Tree, s: seq<Entry>, i: nat, nil: Node)
    requires i <= |s| && DistinctNodes(s) && Absent(nil, s) && Inorder(Closed(p, K)) == s[..i]
    ensures Apart(Stack(p), K, nil)
    ensures (CNodes(Stack(p)) + Nodes(K)) !! NodeSet(s[i..]) && nil !in NodeSet(s[i..])
    ensures i < |s| ==> s[i].n in NodeSet(s[i..]) && s[i].n !in NodeSet(s[i + 1..])
  {
    InorderNodes(Closed(p, K));
    DistinctInorder(Closed(p, K));
    AbsentPart(nil, s, i);
    ApartClosed(Stack(p), K, nil);
    SegmentsApart(s, 0, i, i, |s|);
    assert s[0..i] == s[..i] && s[i..|s|] == s[i..];
    if i < |s| {
      assert s[i..][0] == s[i];
      SegmentsApart(s, i, i + 1, i + 1, |s|);
      assert s[i..i + 1][0] == s[i] && s[i + 1..|s|] == s[i + 1..];
    }
  }

  lemma {:induction false} HangingFrame(p: Spine, nil: Node, h: Store, h': Store, D: set<Node>)
    requires Hanging(p, nil, h) && Agree(h, h', D) && D !! CNodes(Stack(p))
    ensures Hanging(p, nil, h')
  {
    if p.Pend? {
      Frame(p.l, p.e.n, nil, h, h', D);
      HangingFrame(p.up, nil, h, h', D);
    }
  }

  lemma UnreadKept(s: seq<Entry>, i: nat, nil: Node, h: Store, h': Store, D: set<Node>)
    requires i <= |s| && Agree(h, h', D) && D !! NodeSet(s[i..]) && forall j | i <= j < |s| :: Unread(s, j, nil, h)
    ensures forall j | i <= j < |s| :: Unread(s, j, nil, h')
  {
    forall j | i <= j < |s| ensures Unread(s, j, nil, h') {
      assert Unread(s, j, nil, h);
      assert s[i..][j - i] == s[j];
    }
  }

  lemma {:induction false} StackAfter(p: Spine)
    ensures After(Stack(p)) == []
  {
    if p.Pend? {
      StackAfter(p.up);
    }
  }

  lemma ClosedInorder(p: Spine, K: Tree)
    ensures Inorder(Closed(p, K)) == Before(Stack(p)) + Inorder(K)
  {
    PlugInorder(Stack(p), K);
    StackAfter(p);
  }

  lemma OneMore<T>(a: seq<T>, b: seq<T>, s: seq<T>, i: nat)
    requires i < |s| && a + b == s[..i]
    ensures a + (b + [s[i]]) == s[..i + 1]
  {
    assert a + (b + [s[i]]) == (a + b) + [s[i]];
  }

  lemma Consumed(p: Spine, K: Tree, p': Spine, K': Tree, s: seq<Entry>, i: nat)
    requires i < |s| && Inorder(Closed(p, K)) == s[..i]
    requires Before(Stack(p')) + Inorder(K') == Before(Stack(p)) + (Inorder(K) + [s[i]])
    ensures Inorder(Closed(p', K')) == s[..i + 1]
  {
    hide Before, Inorder, Plug, Stack, After, Closed;
    ClosedInorder(p, K);
    ClosedInorder(p', K');
    OneMore(Before(Stack(p)), Inorder(K), s, i);
  }

  /** The lowest pending node gets `K` as its right subtree. */
  lemma Attach(p: Spine, K: Tree, s: seq<Entry>, i: nat, nil: Node, h: Store, h': Store)
    requires Site(p, K, s, i, nil, h) && p.Pend? && p.e.n in h && p.e.n in h' && nil in h'
    requires Agree(h, h', {p.e.n, Root(K, nil)}) && h'[p.e.n] == h[p.e.n].(right := Root(K, nil))
    requires K.Fork? ==> K.e.n in h && K.e.n in h' && h'[K.e.n] == h[K.e.n].(parent := p.e.n)
    ensures Site(p.up, Fork(p.l, p.e, p.m, K), s, i, nil, h')
  {
    SiteApart(p, K, s, i, nil);
    var D := {p.e.n, Root(K, nil)};
    hide NodeSet;
    UnreadKept(s, i, nil, h, h', D);
    HangingFrame(p.up, nil, h, h', D);
    Frame(p.l, p.e.n, nil, h, h', D);
    if K.Fork? {
      Reparent(K, h[K.e.n].parent, p.e.n, nil, h, h', D);
    }
    assert h'[p.e.n] == Cell(Root(p.l, nil), Root(K, nil), h[p.e.n].parent, p.e.k, p.m);
    assert Shape(K, p.e.n, nil, h');
  }

  /** The next node becomes a pending node over `K`. */
  lemma Push(p: Spine, K: Tree, lv: nat, m: int, s: seq<Entry>, i: nat, nil: Node, h: Store, h': Store)
    requires Site(p, K, s, i, nil, h) && i < |s| && K.Fork? && K.e.n in h && K.e.n in h' && s[i].n in h && s[i].n in h'
    requires Agree(h, h', {s[i].n, K.e.n}) && h'[K.e.n] == h[K.e.n].(parent := s[i].n)
    requires h'[s[i].n] == h[s[i].n].(left := K.e.n, mark := m)
    ensures Site(Pend(p, lv, K, s[i], m), Leaf, s, i + 1, nil, h')
  {
    SiteApart(p, K, s, i, nil);
    Consumed(p, K, Pend(p, lv, K, s[i], m), Leaf, s, i);
    SiteApart(Pend(p, lv, K, s[i], m), Leaf, s, i + 1, nil);
    var D := {s[i].n, K.e.n};
    assert Unread(s, i, nil, h);
    hide NodeSet;
    UnreadKept(s, i + 1, nil, h, h', D);
    HangingFrame(p, nil, h, h', D);
    Reparent(K, h[K.e.n].parent, s[i].n, nil, h, h', D);
  }

  /** The next node becomes a finished subtree of its own. */
  lemma Single(p: Spine, m: int, s: seq<Entry>, i: nat, nil: Node, h: Store, h': Store)
    requires Site(p, Leaf, s, i, nil, h) && i < |s| && s[i].n in h && s[i].n in h'
    requires Agree(h, h', {s[i].n}) && h'[s[i].n] == h[s[i].n].(left := nil, right := nil, mark := m)
    ensures Site(p, Fork(Leaf, s[i], m, Leaf), s, i + 1, nil, h')
  {
    SiteApart(p, Leaf, s, i, nil);
    Consumed(p, Leaf, p, Fork(Leaf, s[i], m, Leaf), s, i);
    var D := {s[i].n};
    assert Unread(s, i, nil, h);
    SiteApart(p, Fork(Leaf, s[i], m, Leaf), s, i + 1, nil);
    UnreadKept(s, i + 1, nil, h, h', D);
    HangingFrame(p, nil, h, h', D);
  }

  // ----- steps of the counter

  ghost predicate Counter(p: Spine, K: Tree, level: nat, coloured: bool, a: seq<Node?>) {
    && |a| == TREE_DEPTH_MAX && Clear(level, a) && Slots(p, level, a) && Rows(p, coloured)
    && (K.Fork? ==> Rowed(K, level, coloured))
  }

  lemma CarryStep(p: Spine, K: Tree, level: nat, coloured: bool, a: seq<Node?>, a': seq<Node?>)
    requires Counter(p, K, level, coloured, a) && K.Fork? && p.Pend? && p.lv == level < |a| && a' == a[level := null]
    ensures var K' := Fork(p.l, p.e, p.m, K);
      Counter(p.up, K', level + 1, coloured, a') && Value(p.up, K', level + 1) == Value(p, K, level)
        && Bottom(p.up, K', level + 1) == Bottom(p, K, level)
  {
    SlotsFrame(p.up, level + 1, a, a');
    Append3(SpinePlaces(p.up), Places(p.l, level), Places(K, level));
  }

  lemma PushStep(p: Spine, K: Tree, level: nat, e: Entry, m: int, base: nat, coloured: bool, a: seq<Node?>,
      a': seq<Node?>)
    requires Counter(p, K, level, coloured, a) && K.Fork? && level < |a| && a[level] == null && a' == a[level := e.n]
    requires base <= level && (coloured ==> m == (level + 1) % 2)
    ensures var p' := Pend(p, level, K, e, m);
      Counter(p', Leaf, base, coloured, a') && Value(p', Leaf, base) == Value(p, K, level) + 1
        && Bottom(p', Leaf, base) == Bottom(p, K, level)
  {
    SlotRead(p, level, a);
    SlotsFrame(p, level + 1, a, a');
  }

  lemma SingleStep(p: Spine, e: Entry, m: int, base: nat, coloured: bool, a: seq<Node?>)
    requires Counter(p, Leaf, base, coloured, a) && base <= 1 && (coloured ==> m == base % 2)
    ensures var K := Fork(Leaf, e, m, Leaf);
      Counter(p, K, base, coloured, a) && Value(p, K, base) == Value(p, Leaf, base) + 1 + 2 * base
        && Bottom(p, K, base) == Bottom(p, Leaf, base) + if base == 0 then [true] else [false, false]
  {
    assert Pow2(1) == 2 && Pow2(2) == 4;
    assert Places(Leaf, 0) == [false] && [false] + [false] == [false, false];
    assert SpinePlaces(p) + [] == SpinePlaces(p);
  }

  lemma EmptyStep(p: Spine, coloured: bool, a: seq<Node?>, a': seq<Node?>)
    requires Counter(p, Leaf, 0, coloured, a) && a' == a[0 := null]
    ensures a[0] == null ==> Counter(p, Leaf, 1, coloured, a) && Bottom(p, Leaf, 1) == Bottom(p, Leaf, 0)
    ensures a[0] != null ==> p.Pend? && a[0] == p.e.n
    ensures a[0] != null ==> var K := Fork(p.l, p.e, p.m, Leaf);
      Counter(p.up, K, 1, coloured, a') && Value(p.up, K, 1) == Value(p, Leaf, 0) + 1
        && Bottom(p.up, K, 1) == Bottom(p, Leaf, 0) + [false]
  {
    SlotRead(p, 0, a);
    if a[0] != null {
      SlotsFrame(p.up, 1, a, a');
      Append3(SpinePlaces(p.up), [true], [false]);
      assert Places(Leaf, 0) == [false] && Places(p.l, 0) == [true];
      assert SpinePlaces(p) + [] == SpinePlaces(p);
    }
    assert Pow2(1) == 2 && Pow2(2) == 4;
  }

  lemma {:induction false} WeightPositive(p: Spine)
    ensures p.Pend? ==> Weight(p) >= Pow2(p.lv + 1)
  {
    if p.Pend? {
      WeightPositive(p.up);
    }
  }

  lemma {:induction false} WeightEven(p: Spine, k: nat) returns (w: nat, q: nat)
    requires Rising(p, k)
    ensures Weight(p) == 2 * w && (k > 0 ==> w == 2 * q)
  {
    w, q := 0, 0;
    if p.Pend? {
      w, q := WeightEven(p.up, p.lv + 1);
      w := w + Pow2(p.lv);
      q := q + if p.lv > 0 then Pow2(p.lv - 1) else 0;
    }
  }

  lemma SmallPowers()
    ensures Pow2(0) == 1 && Pow2(1) == 2 && Pow2(2) == 4 && Pow2(4) == 16
  {
    assert Pow2(3) == 8;
  }

  lemma WordSize()
    ensures Pow2(16) == USRTC_COUNT_T_MAX + 1 && Pow2(64) == WORD
  {
    hide Pow2;
    SmallPowers();
    Pow2Sum(4, 4);
    Pow2Sum(8, 8);
    Pow2Sum(16, 16);
    Pow2Sum(32, 32);
  }

  lemma {:induction false} Pow2Sum(a: nat, b: nat)
    ensures Pow2(a + b) == Pow2(a) * Pow2(b)
  {
    if a > 0 {
      Pow2Sum(a - 1, b);
    }
  }

  /** A counter below `2^64` stays within the 64 slots. */
  lemma LevelBound(p: Spine, K: Tree, level: nat)
    requires K.Fork? && Value(p, K, level) < WORD
    ensures level < TREE_DEPTH_MAX
  {
    WeightPositive(p);
    WordSize();
    assert Pow2(65) == 2 * Pow2(64);
    if level >= 64 {
      Pow2Monotone(65, level + 1);
    }
  }

  /** `while(tree[level]!=NULL)`: the finished subtree completes the pending nodes right above it. */
  method Carry(tree: array<Node?>, complete0: Node, level0: nat, coloured: bool, ghost p0: Spine, ghost K0: Tree,
      ghost s: seq<Entry>, ghost i: nat, ghost nil: Node, ghost S: set<Node>)
    returns (complete: Node, level: nat, ghost p: Spine, ghost K: Tree)
    requires Site(p0, K0, s, i, nil, Snap(S)) && K0.Fork? && complete0 == K0.e.n
    requires Counter(p0, K0, level0, coloured, tree[..]) && Value(p0, K0, level0) < WORD
    modifies tree, S
    ensures Site(p, K, s, i, nil, Snap(S)) && K.Fork? && complete == K.e.n
    ensures Counter(p, K, level, coloured, tree[..]) && level0 <= level < TREE_DEPTH_MAX && tree[level] == null
    ensures Value(p, K, level) == Value(p0, K0, level0) && Bottom(p, K, level) == Bottom(p0, K0, level0)
  {
    hide Site, Slots, Value, Rows, Rowed, Clear, Bottom;
    complete, level, p, K := complete0, level0, p0, K0;
    LevelBound(p, K, level);
    SlotRead(p, level, tree[..]);
    while tree[level] != null
      invariant Site(p, K, s, i, nil, Snap(S)) && K.Fork? && complete == K.e.n
      invariant Counter(p, K, level, coloured, tree[..]) && level0 <= level < TREE_DEPTH_MAX
      invariant tree[level] == if p.Pend? && p.lv == level then p.e.n else null
      invariant Value(p, K, level) == Value(p0, K0, level0) && Bottom(p, K, level) == Bottom(p0, K0, level0)
      decreases p
    {
      ghost var h, a := Snap(S), tree[..];
      SiteRead(p, K, s, i, nil, h);
      tree[level].right := complete;
      complete.parent := tree[level];
      complete := tree[level];
      tree[level] := null;
      level := level + 1;
      Attach(p, K, s, i, nil, h, Snap(S));
      CarryStep(p, K, level - 1, coloured, a, tree[..]);
      p, K := p.up, Fork(p.l, p.e, p.m, K);
      LevelBound(p, K, level);
      SlotRead(p, level, tree[..]);
    }
  }

  lemma SiteRead(p: Spine, K: Tree, s: seq<Entry>, i: nat, nil: Node, h: Store)
    requires Site(p, K, s, i, nil, h)
    ensures i <= |s| && nil in h
    ensures p.Pend? ==> p.e.n in h && p.e.n != nil
    ensures K.Fork? ==> K.e.n in h && K.e.n != nil
    ensures p.Pend? && K.Fork? ==> p.e.n != K.e.n
    ensures i < |s| ==> s[i].n in h && s[i].n != nil && h[s[i].n].right == NodeAt(s, i + 1, nil)
    ensures i < |s| && K.Fork? ==> s[i].n != K.e.n
  {
    SiteApart(p, K, s, i, nil);
    assert i < |s| ==> Unread(s, i, nil, h);
  }

  // ----- the loop over the list

  ghost function Ref(K: Tree): Node? {
    if K.Leaf? then null else K.e.n
  }

  /** The counter between two list nodes. */
  ghost predicate Ready(p: Spine, K: Tree, level: nat, base: nat, coloured: bool, a: seq<Node?>) {
    && Counter(p, K, level, coloured, a) && base <= 1 && base <= level
    && if K.Leaf? then level == base else level < |a| && a[level] == null
  }

  /** How far the counter has got after `i` of `n` nodes.  While the bottom row lasts every node counts one.  Then
      each place left out of it is skipped, and what is still to come fills exactly the full rows. */
  ghost predicate Phase(base: nat, v: int, i: int, n: int, f: int, botrow: int) {
    if base == 0 then v == i && 0 <= botrow == n - f - (v + 1) / 2
    else n < 2 * f && v <= 2 * f + 1 && n - i == (2 * f + 1 - v) / 2 && WORD - 1 - i <= botrow < WORD
  }

  lemma Parity(p: Spine, K: Tree, level: nat, base: nat, coloured: bool, a: seq<Node?>)
    requires Ready(p, K, level, base, coloured, a)
    ensures Value(p, K, level) % 2 == if K.Leaf? then 0 else 1
    ensures K.Leaf? && base == 1 ==> Value(p, K, level) % 4 == 0
  {
    SlotsRising(p, level, a);
    var w, q := WeightEven(p, level);
    hide Counter, Rising, Weight;
    assert Value(p, K, level) == 2 * w + if K.Leaf? then 0 else 2 * (Pow2(level) - 1) + 1;
  }

  lemma PhaseLast(v: int, i: nat, n: nat, f: nat, base: nat)
    requires Phase(base, v, i, n, f, 0) && v % 2 == 0 && i < n < WORD && f <= USRTC_COUNT_T_MAX
    ensures base == 0 && v + 1 < WORD && Phase(1, v, i, n, f, WORD - 1) && Phase(1, v + 1, i, n, f, WORD - 1)
  {
  }

  lemma PhaseSingle(base: nat, v: int, i: nat, n: nat, f: nat, botrow: int, botrow': int)
    requires Phase(base, v, i, n, f, botrow) && i < n < WORD && f <= USRTC_COUNT_T_MAX && base <= 1
    requires v % 2 == 0 && (base == 1 ==> v % 4 == 0)
    requires (botrow > 0 && botrow' == botrow - 1) || (base == 1 && botrow' == botrow)
    ensures Phase(base, v + 1 + 2 * base, i + 1, n, f, botrow') && v + 1 + 2 * base < WORD
  {
    var w := v / 2;
    assert v == 2 * w;
    if base == 0 {
      assert (v + 1) / 2 == w && (v + 2) / 2 == w + 1;
    } else {
      assert (2 * f + 1 - v) / 2 == f - w && (2 * f + 1 - (v + 3)) / 2 == f - w - 1;
    }
  }

  lemma PhasePush(base: nat, v: int, i: nat, n: nat, f: nat, botrow: int)
    requires Phase(base, v, i, n, f, botrow) && i < n && v % 2 == 1
    ensures Phase(base, v + 1, i + 1, n, f, botrow)
  {
  }

  lemma PhaseEnd(base: nat, v: int, n: nat, f: nat, botrow: int)
    requires Phase(base, v, n, n, f, botrow) && n <= 2 * f + 1
    ensures if v % 2 == 1 then v == 2 * f + 1 else v == 2 * f
    ensures v % 2 == 0 && base == 1 && f % 2 == 1 ==> v % 4 == 2
  {
  }

  lemma PhaseNat(base: nat, v: int, i: int, n: int, f: nat, botrow: int)
    requires Phase(base, v, i, n, f, botrow) && 0 <= i <= n < WORD
    ensures 0 <= botrow < WORD
  {
  }

  /** The bottom row is used up: from here on leaves stand in the second row. */
  method Turn(tree: array<Node?>, nil: Node, coloured: bool, ghost p0: Spine, ghost s: seq<Entry>, ghost i: nat,
      ghost S: set<Node>)
    returns (complete: Node?, level: nat, ghost p: Spine, ghost K: Tree)
    requires Site(p0, Leaf, s, i, nil, Snap(S)) && Counter(p0, Leaf, 0, coloured, tree[..])
      && Value(p0, Leaf, 0) + 1 < WORD
    modifies tree, S
    ensures Site(p, K, s, i, nil, Snap(S)) && Ready(p, K, level, 1, coloured, tree[..]) && complete == Ref(K)
    ensures Value(p, K, level) == Value(p0, Leaf, 0) + if K.Leaf? then 0 else 1
    ensures Bottom(p, K, level) == Bottom(p0, Leaf, 0) + if K.Leaf? then [] else [false]
  {
    hide Site, Counter, Value, Bottom;
    ghost var h, a := Snap(S), tree[..];
    SiteRead(p0, Leaf, s, i, nil, h);
    CounterSize(p0, Leaf, 0, coloured, a);
    EmptyStep(p0, coloured, a, a[0 := null]);
    complete, level, p, K := tree[0], 1, p0, Leaf;
    if complete != null {
      tree[0] := null;
      complete.right := nil;
      p, K := p0.up, Fork(p0.l, p0.e, p0.m, Leaf);
      assert h[complete].(right := nil) == Snap(S)[complete];
      Attach(p0, Leaf, s, i, nil, h, Snap(S));
      assert tree[..] == a[0 := null];
      complete, level, p, K := Carry(tree, complete, level, coloured, p, K, s, i, nil, S);
      CounterSize(p, K, level, coloured, tree[..]);
    } else {
      LeafValue(p0);
    }
  }

  lemma LeafValue(p: Spine)
    ensures Value(p, Leaf, 1) == Value(p, Leaf, 0)
  {
  }

  lemma CounterSize(p: Spine, K: Tree, level: nat, coloured: bool, a: seq<Node?>)
    requires Counter(p, K, level, coloured, a)
    ensures |a| == TREE_DEPTH_MAX
  {
  }

  method TakeSingle(tree: array<Node?>, curr: Node, level0: nat, base: nat, nil: Node, coloured: bool, ghost p0: Spine,
      ghost s: seq<Entry>, ghost i: nat, ghost S: set<Node>)
    returns (complete: Node, level: nat, ghost p: Spine, ghost K: Tree)
    requires i < |s| && curr == s[i].n && Site(p0, Leaf, s, i, nil, Snap(S))
    requires Ready(p0, Leaf, level0, base, coloured, tree[..]) && Value(p0, Leaf, base) + 1 + 2 * base < WORD
    modifies tree, S
    ensures Site(p, K, s, i + 1, nil, Snap(S)) && Ready(p, K, level, base, coloured, tree[..]) && K.Fork?
      && complete == K.e.n
    ensures Value(p, K, level) == Value(p0, Leaf, base) + 1 + 2 * base
    ensures Bottom(p, K, level) == Bottom(p0, Leaf, base) + if base == 0 then [true] else [false, false]
  {
    hide Site, Counter, Value, Bottom;
    ghost var h := Snap(S);
    SiteRead(p0, Leaf, s, i, nil, h);
    curr.left := nil;
    curr.right := nil;
    if coloured {
      curr.mark := level0 % 2;
    }
    if level0 != base {
      assert false;
    }
    Single(p0, curr.mark, s, i, nil, h, Snap(S));
    SingleStep(p0, s[i], curr.mark, base, coloured, tree[..]);
    complete, level, p, K := Carry(tree, curr, level0, coloured, p0, Fork(Leaf, s[i], curr.mark, Leaf), s, i + 1, nil,
      S);
    CounterSize(p, K, level, coloured, tree[..]);
  }

  method TakePush(tree: array<Node?>, curr: Node, complete: Node, level: nat, base: nat, coloured: bool,
      ghost p0: Spine, ghost K0: Tree, ghost s: seq<Entry>, ghost i: nat, ghost nil: Node, ghost S: set<Node>)
    returns (ghost p: Spine)
    requires i < |s| && curr == s[i].n && Site(p0, K0, s, i, nil, Snap(S)) && K0.Fork? && complete == K0.e.n
    requires Ready(p0, K0, level, base, coloured, tree[..])
    modifies tree, S
    ensures Site(p, Leaf, s, i + 1, nil, Snap(S)) && Ready(p, Leaf, base, base, coloured, tree[..])
    ensures Value(p, Leaf, base) == Value(p0, K0, level) + 1 && Bottom(p, Leaf, base) == Bottom(p0, K0, level)
  {
    hide Site, Counter, Value, Bottom;
    ghost var h, a := Snap(S), tree[..];
    SiteRead(p0, K0, s, i, nil, h);
    curr.left := complete;
    if coloured {
      curr.mark := (level + 1) % 2;
    }
    complete.parent := curr;
    tree[level] := curr;
    p := Pend(p0, level, K0, s[i], curr.mark);
    Push(p0, K0, level, curr.mark, s, i, nil, h, Snap(S));
    PushStep(p0, K0, level, s[i], curr.mark, base, coloured, a, tree[..]);
  }

  /** `while(fullcount>=nodecount && fullcount) fullcount>>=1`: as many full rows as leave something for the
      bottom row. */
  method FullCount(nodecount: nat) returns (fullcount: nat, ghost J: nat)
    ensures fullcount == Pow2(J) - 1 <= USRTC_COUNT_T_MAX && fullcount <= nodecount
    ensures nodecount > 0 ==> fullcount < nodecount
    ensures if nodecount <= 2 * USRTC_COUNT_T_MAX + 1 then nodecount <= 2 * fullcount + 1
            else fullcount == USRTC_COUNT_T_MAX
  {
    WordSize();
    fullcount, J := USRTC_COUNT_T_MAX, 16;
    while fullcount >= nodecount && fullcount != 0
      invariant fullcount == Pow2(J) - 1 <= USRTC_COUNT_T_MAX
      invariant fullcount == USRTC_COUNT_T_MAX || nodecount <= 2 * fullcount + 1
    {
      assert J > 0;
      fullcount := fullcount / 2;
      J := J - 1;
    }
  }

  /** One round of the loop. */
  method TakeNode(tree: array<Node?>, curr: Node, complete0: Node?, level0: nat, base0: nat, botrow0: int, nil: Node,
      coloured: bool, ghost f: nat, ghost p0: Spine, ghost K0: Tree, ghost s: seq<Entry>, ghost i: nat,
      ghost S: set<Node>)
    returns (complete: Node?, level: nat, base: nat, botrow: int, ghost p: Spine, ghost K: Tree)
    requires i < |s| < WORD && f <= USRTC_COUNT_T_MAX && curr == s[i].n && Site(p0, K0, s, i, nil, Snap(S))
    requires Ready(p0, K0, level0, base0, coloured, tree[..]) && complete0 == Ref(K0)
    requires Phase(base0, Value(p0, K0, level0), i, |s|, f, botrow0) && Filling(Bottom(p0, K0, level0), base0)
    modifies tree, S
    ensures Site(p, K, s, i + 1, nil, Snap(S))
    ensures Ready(p, K, level, base, coloured, tree[..]) && complete == Ref(K)
    ensures Phase(base, Value(p, K, level), i + 1, |s|, f, botrow) && Filling(Bottom(p, K, level), base)
  {
    hide Site, Counter, Value, Phase, Bottom, Filling;
    complete, level, base, botrow, p, K := complete0, level0, base0, botrow0, p0, K0;
    Parity(p, K, level, base, coloured, tree[..]);
    ghost var v := Value(p, K, level);
    PhaseNat(base, v, i, |s|, f, botrow);
    if complete == null {
      var last := botrow == 0;
      botrow := (botrow - 1) % WORD;
      if last {
        PhaseLast(v, i, |s|, f, base);
        base, level := 1, 1;
        ghost var b := Bottom(p, Leaf, 0);
        complete, level, p, K := Turn(tree, nil, coloured, p, s, i, S);
        FillingOn(b, 0, if K.Leaf? then [] else [false], 1);
        Parity(p, K, level, base, coloured, tree[..]);
      }
    }
    v := Value(p, K, level);
    if complete == null {
      PhaseSingle(base, v, i, |s|, f, if base0 == base then botrow0 else botrow, botrow);
      ghost var b := Bottom(p, Leaf, base);
      complete, level, p, K := TakeSingle(tree, curr, level, base, nil, coloured, p, s, i, S);
      FillingOn(b, base, if base == 0 then [true] else [false, false], base);
    } else {
      PhasePush(base, v, i, |s|, f, botrow);
      p := TakePush(tree, curr, complete, level, base, coloured, p, K, s, i, nil, S);
      complete, level, K := null, base, Leaf;
    }
  }

  /** The final loop: what is pending is closed with what is finished. */
  method CloseSpine(tree: array<Node?>, complete0: Node, nil: Node, coloured: bool, ghost level: nat, ghost p0: Spine,
      ghost K0: Tree, ghost s: seq<Entry>, ghost S: set<Node>)
    returns (complete: Node, ghost t: Tree)
    requires Site(p0, K0, s, |s|, nil, Snap(S)) && Counter(p0, K0, level, coloured, tree[..])
      && complete0 == Root(K0, nil)
    modifies S
    ensures Site(Base, t, s, |s|, nil, Snap(S)) && t == Closed(p0, K0) && complete == Root(t, nil)
  {
    hide Site;
    ghost var p := p0;
    complete, t := complete0, K0;
    ghost var a := tree[..];
    SlotsBelow(p, level, a);
    hide Counter;
    for i := 0 to TREE_DEPTH_MAX
      invariant |a| == TREE_DEPTH_MAX && tree[..] == a && Slots(p, i, a)
      invariant Site(p, t, s, |s|, nil, Snap(S)) && complete == Root(t, nil) && Closed(p, t) == Closed(p0, K0)
    {
      ghost var h := Snap(S);
      SiteRead(p, t, s, |s|, nil, h);
      SlotRead(p, i, a);
      if tree[i] != null {
        tree[i].right := complete;
        complete.parent := tree[i];
        complete := tree[i];
        Attach(p, t, s, |s|, nil, h, Snap(S));
        p, t := p.up, Fork(p.l, p.e, p.m, t);
      }
    }
  }

  lemma {:induction false} SlotsBelow(p: Spine, k: nat, a: seq<Node?>)
    requires Slots(p, k, a) && Clear(k, a)
    ensures Slots(p, 0, a)
  {
  }

  /** With no more than twice the cap plus one nodes the counter ends with every row full but the bottom one. */
  lemma EndRows(p: Spine, K: Tree, level: nat, base: nat, coloured: bool, a: seq<Node?>, n: nat, f: nat, botrow: int,
      J: nat)
    requires Ready(p, K, level, base, coloured, a) && Phase(base, Value(p, K, level), n, n, f, botrow)
    requires f == Pow2(J) - 1 && f <= n <= 2 * f + 1 && (n > 0 ==> f < n) && Filling(Bottom(p, K, level), base)
    ensures n > 0 ==> Rowed(Closed(p, K), J, coloured) && LeftFilled(Closed(p, K), J)
  {
    Parity(p, K, level, base, coloured, a);
    SlotsRising(p, level, a);
    PhaseEnd(base, Value(p, K, level), n, f, botrow);
    hide Slots, Clear, Rows, Closed, Weight, Phase;
    assert Pow2(J + 1) == 2 * Pow2(J) && Pow2(0) == 1;
    if K.Fork? {
      ClosedRows(p, K, level, J, coloured);
    } else if n > 0 {
      assert J > 0 && Pow2(J) == 2 * Pow2(J - 1);
      BottomGap(p, J, coloured);
      assert SpinePlaces(p) + [] == SpinePlaces(p);
      FillingOn(SpinePlaces(p), base, [false], 1);
    }
  }

  /** Above that the bottom row never ends, and the digits of the count decide. */
  lemma EndDigits(p: Spine, K: Tree, level: nat, base: nat, a: seq<Node?>, n: nat, botrow: int)
    requires Ready(p, K, level, base, true, a) && Phase(base, Value(p, K, level), n, n, USRTC_COUNT_T_MAX, botrow)
    requires n > 2 * USRTC_COUNT_T_MAX + 1
    ensures RBTree(Painted(Closed(p, K), BLACK)) <==> HighDigits(n)
  {
    SlotsRising(p, level, a);
    hide Slots, Clear, Chain, HighDigits, Rows, Weight, RBTree, Closed;
    assert Pow2(0) == 1;
    DigitsDecide(p, K, if K.Leaf? then -1 else level);
  }

  /** One place of the bottom row is empty at the far right. */
  lemma BottomGap(p: Spine, J: nat, coloured: bool)
    requires Rising(p, 0) && Rows(p, coloured) && J > 0 && Weight(p) == Pow2(J + 1) - 2
    ensures Rowed(Closed(p, Leaf), J, coloured) && Places(Closed(p, Leaf), J) == SpinePlaces(p) + [false]
  {
    assert Pow2(1) == 2 && Pow2(2) == 4;
    Pow2Monotone(1, J);
    if p.Base? || p.lv > 0 {
      WeightRoom(p, 1, J);
    } else {
      ClosedRows(p.up, Fork(p.l, p.e, p.m, Leaf), 1, J, coloured);
      Append3(SpinePlaces(p.up), [true], [false]);
    }
  }

  lemma SiteDone(t: Tree, s: seq<Entry>, nil: Node, h: Store)
    requires Site(Base, t, s, |s|, nil, h)
    ensures Inorder(t) == s && Apart(Top, t, nil) && Rooted(t, nil, h) && nil in h && (t.Fork? ==> t.e.n in h)
  {
    SiteApart(Base, t, s, |s|, nil);
    assert s[..|s|] == s;
  }

  method Plant(nil: Node, complete: Node, coloured: bool, ghost t: Tree, ghost s: seq<Entry>, ghost S: set<Node>)
    returns (ghost t': Tree)
    requires Site(Base, t, s, |s|, nil, Snap(S)) && complete == Root(t, nil)
    modifies S
    ensures At(Top, t', nil, Snap(S)) && Inorder(t') == s && t' == if coloured then Painted(t, BLACK) else t
    ensures coloured ==> nil.mark == BLACK
  {
    hide Site;
    ghost var h := Snap(S);
    SiteDone(t, s, nil, h);
    nil.right := nil;
    nil.left := complete;
    if coloured {
      nil.mark := BLACK;
    }
    complete.parent := nil;
    if t.Fork? {
      Reparent(t, h[t.e.n].parent, nil, nil, h, Snap(S), {nil, complete});
    }
    t' := t;
    assert At(Top, t, nil, Snap(S));
    if coloured {
      ghost var h1 := Snap(S);
      complete.mark := BLACK;
      t' := Painted(t, BLACK);
      if t.Fork? {
        Paint(Top, t, BLACK, nil, h1, Snap(S));
      } else {
        assert Snap(S) == h1;
      }
    }
  }

  lemma Start(s: seq<Entry>, nil: Node, h: Store, coloured: bool, a: seq<Node?>)
    requires ListAt(s, nil, h) && |a| == TREE_DEPTH_MAX && forall j | 0 <= j < |a| :: a[j] == null
    ensures Site(Base, Leaf, s, 0, nil, h) && nil in h && h[nil].right == NodeAt(s, 0, nil)
    ensures Ready(Base, Leaf, 0, 0, coloured, a) && Value(Base, Leaf, 0) == 0 && Filling(Bottom(Base, Leaf, 0), 0)
  {
    ListUnread(s, nil, h);
  }

  lemma ReadAll(p: Spine, K: Tree, s: seq<Entry>, i: nat, nil: Node, h: Store)
    requires Site(p, K, s, i, nil, h) && NodeAt(s, i, nil) == nil
    ensures i == |s|
  {
  }

  lemma AllClosed(p: Spine, K: Tree, s: seq<Entry>, nil: Node, h: Store)
    requires Site(p, K, s, |s|, nil, h)
    ensures Inorder(Closed(p, K)) == s
  {
    assert s[..|s|] == s;
  }

  /** What the spine closes to once every node is taken, with the root painted where colours count. */
  lemma Outcome(p: Spine, K: Tree, level: nat, base: nat, coloured: bool, a: seq<Node?>, n: nat, f: nat, botrow: int,
      J: nat)
    requires Ready(p, K, level, base, coloured, a) && Phase(base, Value(p, K, level), n, n, f, botrow)
    requires f == Pow2(J) - 1 && f <= n && (n > 0 ==> f < n)
    requires if n <= 2 * USRTC_COUNT_T_MAX + 1 then n <= 2 * f + 1 else f == USRTC_COUNT_T_MAX
    requires |Inorder(Closed(p, K))| == n && Filling(Bottom(p, K, level), base)
    ensures var t := if coloured then Painted(Closed(p, K), BLACK) else Closed(p, K);
      && (0 < n <= 2 * USRTC_COUNT_T_MAX + 1 ==> LeftFilled(t, J))
      && (coloured ==> (RBTree(t) <==> n <= 2 * USRTC_COUNT_T_MAX + 1 || HighDigits(n)))
  {
    if n == 0 {
    } else if n <= 2 * USRTC_COUNT_T_MAX + 1 {
      hide Ready;
      EndRows(p, K, level, base, coloured, a, n, f, botrow, J);
      if coloured {
        RowRB(Closed(p, K), J);
      }
    } else if coloured {
      hide Ready;
      EndDigits(p, K, level, base, a, n, botrow);
    }
  }

  method ConvertFromList(us: Usrtc, coloured: bool, ghost s: seq<Entry>, ghost S: set<Node>)
    returns (ghost t: Tree, ghost J: nat)
    requires ListAt(s, us.sentinel, Snap(S)) && us.nodecount == |s| < WORD
    modifies S
    ensures At(Top, t, us.sentinel, Snap(S)) && Inorder(t) == s
    ensures 0 < |s| <= 2 * USRTC_COUNT_T_MAX + 1 ==> LeftFilled(t, J)
    ensures coloured ==> us.sentinel.mark == BLACK
    ensures coloured ==> (RBTree(t) <==> |s| <= 2 * USRTC_COUNT_T_MAX + 1 || HighDigits(|s|))
  {
    hide ListAt, Site, Counter, At, LeftFilled, RBTree, Rowed, HighDigits, Value, Bottom, Filling;
    var tree := new Node?[TREE_DEPTH_MAX](_ => null);
    var nil := us.sentinel;
    var complete: Node?, botrow, baselevel, level := null, 0, 0, 0;
    var fullcount;
    fullcount, J := FullCount(us.nodecount);
    botrow := us.nodecount - fullcount;
    ghost var p, K, i := Base, Leaf, 0;
    Start(s, nil, Snap(S), coloured, tree[..]);
    var curr := nil.right;
    while curr != nil
      invariant i <= |s| && curr == NodeAt(s, i, nil) && Site(p, K, s, i, nil, Snap(S))
      invariant Ready(p, K, level, baselevel, coloured, tree[..]) && complete == Ref(K)
      invariant Phase(baselevel, Value(p, K, level), i, |s|, fullcount, botrow)
      invariant Filling(Bottom(p, K, level), baselevel)
      decreases |s| - i
    {
      SiteRead(p, K, s, i, nil, Snap(S));
      var next := curr.right;
      complete, level, baselevel, botrow, p, K := TakeNode(tree, curr, complete, level, baselevel, botrow, nil,
        coloured, fullcount, p, K, s, i, S);
      curr := next;
      i := i + 1;
    }
    ReadAll(p, K, s, i, nil, Snap(S));
    AllClosed(p, K, s, nil, Snap(S));
    Outcome(p, K, level, baselevel, coloured, tree[..], |s|, fullcount, botrow, J);
    if complete == null {
      complete := nil;
    }
    complete, t := CloseSpine(tree, complete, nil, coloured, level, p, K, s, S);
    SiteDone(t, s, nil, Snap(S));
    t := Plant(nil, complete, coloured, t, s, S);
  }
}
