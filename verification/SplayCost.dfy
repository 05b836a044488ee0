/** What splaying costs and what it buys.  Neither would hold if a node were just rotated to the root. */
module SplayCost {
  import opened Links
  import opened Order
  import opened Rotations
  import opened BinaryTree
  import opened TreeDeletion
  import opened RowTrees
  import opened Products
  import opened SplayTree

  // ----- the amortized cost of a splay

  ghost function Size(t: Tree): nat {
    if t.Leaf? then 0 else 1 + Size(t.l) + Size(t.r)
  }

  /** The product of the sizes of all subtrees; its logarithm is the usual potential of a splay tree. */
  ghost function Potential(t: Tree): (p: nat)
    ensures p > 0
  {
    if t.Leaf? then 1 else Times(Size(t), Times(Potential(t.l), Potential(t.r)))
  }

  /** So many rounds are paid for by the potential, at the price `growth`: the number of rounds is at most the binary
      logarithm of `growth`, plus the potential before, less the potential after. */
  ghost predicate Paid(rounds: nat, before: Tree, after: Tree, growth: nat) {
    Times(Pow2(rounds), Potential(after)) <= Times(growth, Potential(before))
  }

  lemma {:induction false} SizeInorder(t: Tree)
    ensures Size(t) == |Inorder(t)|
  {
    if t.Fork? {
      SizeInorder(t.l);
      SizeInorder(t.r);
    }
  }

  /** The sizes of a straight step: `s` below `p` below `g` before; after it `q` is below and `r` at the bottom. */
  lemma StraightSizes(s: nat, p: nat, g: nat, q: nat, r: nat)
    requires s <= p && q <= g && s + r <= g
    ensures Times(Times(4, Times(q, r)), Cube(s)) <= Times(Cube(g), Times(p, s))
  {
    Means(s, r, g);
    hide Times;
    var x := Times(4, Times(s, r));
    Mono(x, q, Times(g, g), g);
    Mono(s, s, p, s);
    Mono(Times(x, q), Times(s, s), Times(Times(g, g), g), Times(p, s));
    Comm(g, Times(g, g));
    Assoc(Times(4, Times(q, r)), s, Times(s, s));
    Assoc(4, Times(q, r), s);
    Last(q, r, s);
    Comm(Times(q, s), r);
    Second(r, q, s);
    Comm(r, s);
    Comm(q, Times(s, r));
    Assoc(4, Times(s, r), q);
  }

  /** The sizes of a bent step: both nodes end below the one that rises. */
  lemma BentSizes(s: nat, p: nat, g: nat, q: nat, r: nat)
    requires s <= p && s <= g && q + r <= g
    ensures Times(Times(4, Times(q, r)), Cube(s)) <= Times(Cube(g), Times(p, s))
  {
    Means(q, r, g);
    hide Times;
    var x := Times(4, Times(q, r));
    Mono(x, s, Times(g, g), g);
    Mono(s, s, p, s);
    Mono(Times(x, s), Times(s, s), Times(Times(g, g), g), Times(p, s));
    Comm(g, Times(g, g));
    Assoc(x, s, Times(s, s));
  }

  /** `k` is what the subtrees that the step moves around contribute on both sides. */
  lemma StepPotential(g: nat, q: nat, r: nat, p: nat, s: nat, k: nat)
    requires Times(Times(4, Times(q, r)), Cube(s)) <= Times(Cube(g), Times(p, s))
    ensures Times(Times(4, Cube(s)), Times(Times(g, Times(q, r)), k)) <= Times(Cube(g), Times(Times(g, Times(p, s)), k))
  {
    hide Times, Cube;
    Mono(Times(Times(4, Times(q, r)), Cube(s)), Times(g, k), Times(Cube(g), Times(p, s)), Times(g, k));
    Pull(Times(4, Cube(s)), g, Times(q, r), k);
    Last(4, Cube(s), Times(q, r));
    Pull(Cube(g), g, Times(p, s), k);
  }

  /** The potential of a node, whichever child is named first. */
  lemma NodePotential(c: Ctx, t: Tree)
    requires !c.Top?
    ensures Potential(Up1(c, t)) == Times(Size(Up1(c, t)), Times(Potential(t), Potential(Sibling(c))))
    ensures Size(Up1(c, t)) == 1 + Size(t) + Size(Sibling(c))
  {
    Comm(Potential(t), Potential(Sibling(c)));
  }

  /** The potential before a step, and after it in the straight and in the bent case. */
  lemma ThreeNodes(g: nat, p: nat, s: nat, a: nat, b: nat, c: nat, d: nat)
    ensures Times(g, Times(Times(p, Times(Times(s, Times(a, b)), c)), d)) ==
      Times(Times(g, Times(p, s)), Times(Times(a, b), Times(c, d)))
    ensures Times(g, Times(Times(p, Times(Times(s, Times(c, d)), b)), a)) ==
      Times(Times(g, Times(p, s)), Times(Times(a, b), Times(c, d)))
    ensures Times(g, Times(Times(p, Times(d, a)), Times(s, Times(b, c)))) ==
      Times(Times(g, Times(p, s)), Times(Times(a, b), Times(c, d)))
  {
    hide Times;
    Nested(g, p, s, Times(a, b), c, d);
    Nested(g, p, s, Times(c, d), b, a);
    Comm(b, a);
    Comm(Times(c, d), Times(a, b));
    Pairs(p, Times(d, a), s, Times(b, c));
    Assoc(g, Times(p, s), Times(Times(d, a), Times(b, c)));
    Turned(a, b, c, d);
  }

  lemma Nested(g: nat, p: nat, s: nat, x: nat, c: nat, d: nat)
    ensures Times(g, Times(Times(p, Times(Times(s, x), c)), d)) == Times(Times(g, Times(p, s)), Times(x, Times(c, d)))
  {
    hide Times;
    Assoc(p, Times(Times(s, x), c), d);
    Assoc(Times(s, x), c, d);
    Assoc(s, x, Times(c, d));
    Assoc(p, s, Times(x, Times(c, d)));
    Assoc(g, Times(p, s), Times(x, Times(c, d)));
  }

  /** One step towards the root: its two rotations are paid for by the growth of the subtree below `t`. */
  lemma StepCost(c: Ctx, t: Tree)
    requires !c.Top? && !c.up.Top? && t.Fork?
    ensures var g, t' := Up1(c.up, Up1(c, t)), Splayed(c, t);
      Size(t') == Size(g) &&
      Times(Times(4, Cube(Size(t))), Potential(t')) <= Times(Cube(Size(g)), Potential(g))
  {
    var p := Up1(c, t);
    var g, t' := Up1(c.up, p), Splayed(c, t);
    var x, y := Potential(Sibling(c)), Potential(Sibling(c.up));
    var near, far := if c.InL? then t.l else t.r, if c.InL? then t.r else t.l;
    var a, b := Potential(near), Potential(far);
    var k := Times(Times(a, b), Times(x, y));
    var q, r := StepNodes(c, t);
    StepPotential(Size(g), Size(q), Size(r), Size(p), Size(t), k);
  }

  /** The two nodes that end below the one that rises, first the one that is the higher one if they end in a line. */
  lemma StepNodes(c: Ctx, t: Tree) returns (q: Tree, r: Tree)
    requires !c.Top? && !c.up.Top? && t.Fork?
    ensures var p := Up1(c, t); var g, t' := Up1(c.up, p), Splayed(c, t);
      var x, y := Potential(Sibling(c)), Potential(Sibling(c.up));
      var near, far := if c.InL? then t.l else t.r, if c.InL? then t.r else t.l;
      var k := Times(Times(Potential(near), Potential(far)), Times(x, y));
      && Size(t') == Size(g)
      && Times(Times(4, Times(Size(q), Size(r))), Cube(Size(t))) <= Times(Cube(Size(g)), Times(Size(p), Size(t)))
      && Potential(g) == Times(Times(Size(g), Times(Size(p), Size(t))), k)
      && Potential(t') == Times(Times(Size(g), Times(Size(q), Size(r))), k)
  {
    var p := Up1(c, t);
    var g, t' := Up1(c.up, p), Splayed(c, t);
    var x, y := Potential(Sibling(c)), Potential(Sibling(c.up));
    var near, far := if c.InL? then t.l else t.r, if c.InL? then t.r else t.l;
    var a, b := Potential(near), Potential(far);
    hide Times, Cube;
    NodePotential(c, t);
    NodePotential(c.up, p);
    Comm(a, b);
    ThreeNodes(Size(g), Size(p), Size(t), a, b, x, y);
    Comm(Potential(t'.l), Potential(t'.r));
    if c.InL? == c.up.InL? {
      q := if c.InL? then t'.r else t'.l;
      r := if c.InL? then q.r else q.l;
      Comm(Potential(q.l), Potential(q.r));
      Comm(x, y);
      ThreeNodes(Size(g), Size(q), Size(r), a, b, x, y);
      StraightSizes(Size(t), Size(p), Size(g), Size(q), Size(r));
    } else {
      q := if c.InL? then t'.l else t'.r;
      r := if c.InL? then t'.r else t'.l;
      Comm(a, y);
      Comm(b, x);
      ThreeNodes(Size(g), Size(q), Size(r), a, b, x, y);
      BentSizes(Size(t), Size(p), Size(g), Size(q), Size(r));
    }
  }

  /** The last step, below the root: a single rotation, which may cost one more. */
  lemma ZigCost(c: Ctx, t: Tree)
    requires !c.Top? && c.up.Top? && t.Fork?
    ensures Times(Cube(Size(t)), Potential(Splayed(c, t))) <= Times(Cube(Size(Plug(c, t))), Potential(Plug(c, t)))
  {
    var p, t' := Up1(c, t), Splayed(c, t);
    var near, far := if c.InL? then t.l else t.r, if c.InL? then t.r else t.l;
    var q := if c.InL? then t'.r else t'.l;
    var n, s := Size(p), Size(t);
    var a, b, x := Potential(near), Potential(far), Potential(Sibling(c));
    hide Times;
    NodePotential(c, t);
    Comm(a, b);
    Comm(b, x);
    Comm(a, Potential(q));
    Assoc(s, Times(a, b), x);
    Second(a, Size(q), Times(b, x));
    Assoc(a, b, x);
    var k := Times(Times(a, b), x);
    assert Potential(p) == Times(n, Times(s, k)) && Potential(t') == Times(n, Times(Size(q), k));
    Assoc(n, s, k);
    Assoc(n, Size(q), k);
    Pull(Cube(s), n, Size(q), k);
    Pull(Cube(n), n, s, k);
    Mono(s, s, n, n);
    Mono(Times(s, s), Size(q), Times(n, n), n);
    Assoc(s, Times(s, s), Size(q));
    Comm(n, Times(n, n));
    Mono(s, Times(Times(s, s), Size(q)), s, Cube(n));
    Comm(s, Cube(n));
    Mono(Times(Cube(s), Size(q)), Times(n, k), Times(Cube(n), s), Times(n, k));
  }

  /** What is paid for in a subtree is paid for in the whole tree. */
  lemma {:induction false} PlugPotential(c: Ctx, t: Tree, t': Tree, x: nat, y: nat)
    requires Size(t) == Size(t') && Times(x, Potential(t')) <= Times(y, Potential(t))
    ensures Size(Plug(c, t)) == Size(Plug(c, t'))
    ensures Times(x, Potential(Plug(c, t'))) <= Times(y, Potential(Plug(c, t)))
    decreases c
  {
    if !c.Top? {
      var n, p := Size(Up1(c, t)), Potential(Sibling(c));
      hide Times, Potential;
      NodePotential(c, t);
      NodePotential(c, t');
      Assoc(n, Potential(t), p);
      Assoc(n, Potential(t'), p);
      Pull(x, n, Potential(t'), p);
      Pull(y, n, Potential(t), p);
      Mono(Times(x, Potential(t')), Times(n, p), Times(y, Potential(t)), Times(n, p));
      PlugPotential(c.up, Up1(c, t), Up1(c, t'), x, y);
    }
  }

  /** A step in front of the others. */
  lemma Chained(e: nat, f: nat, g: nat, s: nat, q: nat, r: nat, n: nat)
    requires Times(Times(e, f), g) <= 2 * Times(q, n) && Times(Times(4, s), q) <= Times(g, r) && g > 0
    ensures Times(Times(4 * e, f), s) <= 2 * Times(r, n)
  {
    var x := Times(4, s);
    Twice(Times(q, n));
    Twice(Times(r, n));
    Twice(e);
    hide Times;
    Mono(Times(Times(e, f), g), x, Times(2, Times(q, n)), x);
    Last(Times(e, f), g, x);
    Pairs(e, f, 4, s);
    Comm(e, 4);
    Assoc(Times(4, e), f, s);
    Assoc(2, Times(q, n), x);
    Last(q, n, x);
    Comm(q, x);
    Mono(Times(x, q), n, Times(g, r), n);
    Mono(2, Times(Times(x, q), n), 2, Times(Times(g, r), n));
    Assoc(g, r, n);
    Second(2, g, Times(r, n));
    Comm(g, Times(2, Times(r, n)));
    Cancel(Times(Times(4 * e, f), s), Times(2, Times(r, n)), g);
  }

  lemma CubePositive(n: nat)
    ensures n > 0 ==> Cube(n) > 0
  {
  }

  /** The access lemma: all rotations of a splay are paid for by the potential and by the growth of the subtree below
      the node, which ends up as the whole tree. */
  lemma {:induction false} Access(c: Ctx, t: Tree)
    requires t.Fork?
    ensures var w := Plug(c, t);
      Times(Times(Pow2(Depth(c)), Potential(Lifted(c, t))), Cube(Size(t))) <= 2 * Times(Potential(w), Cube(Size(w)))
    decreases Depth(c)
  {
    var w := Plug(c, t);
    if c.Top? {
      One(Potential(t));
      assert Pow2(0) == 1;
    } else if c.up.Top? {
      var p := Potential(Splayed(c, t));
      ZigCost(c, t);
      hide Times, Cube, Potential;
      assert Pow2(1) == 2 && Lifted(c, t) == Splayed(c, t);
      Assoc(2, p, Cube(Size(t)));
      Comm(p, Cube(Size(t)));
      Twice(Times(p, Cube(Size(t))));
      Comm(Potential(w), Cube(Size(w)));
    } else {
      var g, t' := Up1(c.up, Up1(c, t)), Splayed(c, t);
      StepCost(c, t);
      hide Times, Cube, Potential, Splayed;
      Access(SplayedIn(c), t');
      var d := Depth(SplayedIn(c));
      assert Pow2(d + 2) == 2 * Pow2(d + 1) == 4 * Pow2(d);
      PlugPotential(c.up.up, g, t', Times(4, Cube(Size(t))), Cube(Size(g)));
      CubePositive(Size(g));
      Chained(Pow2(d), Potential(Lifted(c, t)), Cube(Size(g)), Cube(Size(t)), Potential(Plug(c.up.up, t')),
        Potential(w), Cube(Size(w)));
    }
  }

  /** A hit in a tree of `n` nodes: beyond what the potential pays, the rounds of the search, or the rotations, are at
      most three times the binary logarithm of `n`, and one. */
  lemma HitCost(t: Tree, n: Node)
    requires n in Nodes(t)
    ensures Paid(DepthOf(t, n), t, Splay(t, n), 2 * Cube(|Inorder(t)|))
  {
    var z := Find(Top, t, n);
    var p := Times(Pow2(DepthOf(t, n)), Potential(Splay(t, n)));
    SizeInorder(t);
    Access(z.0, z.1);
    CubePositive(Size(z.1));
    Twice(Cube(Size(t)));
    Twice(Times(Cube(Size(t)), Potential(t)));
    hide Times, Cube, Potential, Lifted;
    Mono(p, 1, p, Cube(Size(z.1)));
    One(p);
    Comm(Potential(t), Cube(Size(t)));
    Assoc(2, Cube(Size(t)), Potential(t));
  }

  lemma {:induction false} GrownPotential(t: Tree, e: Entry, m: int)
    ensures Size(Grown(t, e, m)) == Size(t) + 1 && Potential(Grown(t, e, m)) <= Times(Potential(t), Size(t) + 1)
  {
    if t.Leaf? {
      One(1);
    } else {
      var child, other := if e.k < t.e.k then t.l else t.r, if e.k < t.e.k then t.r else t.l;
      GrownPotential(child, e, m);
      var g, p, q, n := Potential(Grown(child, e, m)), Potential(child), Potential(other), Size(t);
      hide Times;
      Comm(p, q);
      Comm(g, q);
      assert Potential(Grown(t, e, m)) == Times(n + 1, Times(g, q)) && Potential(t) == Times(n, Times(p, q));
      Mono(p, Size(child) + 1, p, n);
      Mono(g, q, Times(p, n), q);
      Mono(n + 1, Times(g, q), n + 1, Times(Times(p, n), q));
      Last(p, n, q);
      Comm(Times(p, q), n);
      Comm(n + 1, Times(n, Times(p, q)));
    }
  }

  lemma {:induction false} GrownHolds(t: Tree, e: Entry, m: int)
    ensures e.n in Nodes(Grown(t, e, m))
  {
    if t.Fork? {
      GrownHolds(if e.k < t.e.k then t.l else t.r, e, m);
    }
  }

  /** An insertion that leaves `k` nodes: at most four times the binary logarithm of `k`, and one. */
  lemma InsertCost(t: Tree, e: Entry, m: int)
    ensures var g, k := Grown(t, e, m), |Inorder(t)| + 1;
      Paid(DepthOf(g, e.n), t, Splay(g, e.n), 2 * Times(k, Cube(k)))
  {
    var g, k, n := Grown(t, e, m), |Inorder(t)| + 1, e.n;
    GrownHolds(t, e, m);
    GrownPotential(t, e, m);
    SizeInorder(t);
    SizeInorder(g);
    HitCost(g, n);
    Twice(Cube(k));
    Twice(Times(k, Cube(k)));
    hide Times, Cube, Potential, Splay, DepthOf;
    Mono(2 * Cube(k), Potential(g), 2 * Cube(k), Times(Potential(t), k));
    Comm(Potential(t), k);
    Assoc(Times(2, Cube(k)), k, Potential(t));
    Assoc(2, Cube(k), k);
    Comm(Cube(k), k);
  }

  lemma {:induction false} DropMinPotential(t: Tree)
    requires t.Fork?
    ensures Size(DropMin(t)) == Size(t) - 1 && Potential(DropMin(t)) <= Potential(t)
  {
    if t.l.Leaf? {
      OnlyPotential(Size(t), Potential(t.r));
    } else {
      DropMinPotential(t.l);
      hide Times;
      Mono(Potential(DropMin(t.l)), Potential(t.r), Potential(t.l), Potential(t.r));
      Mono(Size(t) - 1, Times(Potential(DropMin(t.l)), Potential(t.r)), Size(t), Times(Potential(t.l), Potential(t.r)));
    }
  }

  lemma OnlyPotential(n: nat, p: nat)
    requires n > 0
    ensures p <= Times(n, Times(1, p)) && p <= Times(n, Times(p, 1))
  {
    One(p);
    Mono(1, p, n, p);
  }

  /** Deletion lowers the potential. */
  lemma {:induction false} CutPotential(t: Tree, n: Node)
    ensures Size(Cut(t, n)) == (if n in Nodes(t) then Size(t) - 1 else Size(t)) && Potential(Cut(t, n)) <= Potential(t)
  {
    if t.Fork? && t.e.n == n {
      ShrunkPotential(t);
    } else if t.Fork? {
      CutPotential(t.l, n);
      CutPotential(t.r, n);
      var u := Cut(t, n);
      hide Times, Cut;
      Mono(Potential(u.l), Potential(u.r), Potential(t.l), Potential(t.r));
      Mono(Size(u), Times(Potential(u.l), Potential(u.r)), Size(t), Times(Potential(t.l), Potential(t.r)));
    }
  }

  lemma ShrunkPotential(t: Tree)
    requires t.Fork?
    ensures Size(Shrunk(t)) == Size(t) - 1 && Potential(Shrunk(t)) <= Potential(t)
  {
    if t.l.Leaf? || t.r.Leaf? {
      OnlyPotential(Size(t), Potential(OnlyChild(t)));
    } else {
      DropMinPotential(t.r);
      hide Times;
      Mono(Potential(t.l), Potential(DropMin(t.r)), Potential(t.l), Potential(t.r));
      Mono(Size(t) - 1, Times(Potential(t.l), Potential(DropMin(t.r))), Size(t), Times(Potential(t.l), Potential(t.r)));
    }
  }

  lemma CutPaid(t: Tree, n: Node)
    ensures Paid(0, t, Cut(t, n), 1)
  {
    CutPotential(t, n);
    One(Potential(t));
    One(Potential(Cut(t, n)));
  }

  lemma NothingPaid(t: Tree)
    ensures Paid(0, t, t, 1)
  {
  }

  /** Two series of rounds, one after the other. */
  lemma PaidTwice(a: nat, b: nat, t: Tree, u: Tree, v: Tree, x: nat, y: nat)
    requires Paid(a, t, u, x) && Paid(b, u, v, y)
    ensures Paid(a + b, t, v, Times(y, x))
  {
    Pow2Times(a, b);
    hide Times, Potential, Pow2;
    Assoc(Pow2(a), Pow2(b), Potential(v));
    Mono(Pow2(a), Times(Pow2(b), Potential(v)), Pow2(a), Times(y, Potential(u)));
    Second(Pow2(a), y, Potential(u));
    Mono(y, Times(Pow2(a), Potential(u)), y, Times(x, Potential(t)));
    Assoc(y, x, Potential(t));
  }

  lemma {:induction false} Pow2Times(a: nat, b: nat)
    ensures Pow2(a + b) == Times(Pow2(a), Pow2(b))
  {
    if a == 0 {
      One(Pow2(b));
    } else {
      Pow2Times(a - 1, b);
      Twice(Pow2(a - 1));
      Twice(Pow2(a + b - 1));
      hide Times;
      Assoc(2, Pow2(a - 1), Pow2(b));
    }
  }

  lemma PaidMore(a: nat, t: Tree, u: Tree, x: nat, y: nat)
    requires Paid(a, t, u, x) && x <= y
    ensures Paid(a, t, u, y)
  {
    Mono(x, Potential(t), y, Potential(t));
  }

  /** Starting with nothing there is no potential to draw on. */
  lemma PaidFromNothing(a: nat, u: Tree, x: nat)
    requires Paid(a, Leaf, u, x)
    ensures Pow2(a) <= x
  {
    Mono(Pow2(a), 1, Pow2(a), Potential(u));
    One(Pow2(a));
    One(x);
  }

  // ----- what becomes of the nodes on the way

  /** The nodes between the root and the hole of `c`. */
  ghost function Way(c: Ctx): set<Node> {
    if c.Top? then {} else Way(c.up) + {c.e.n}
  }

  /** The nodes above `n`. */
  ghost function Ancestors(t: Tree, n: Node): set<Node> {
    if n in Nodes(t) then Way(Find(Top, t, n).0) else {}
  }

  lemma {:induction false} DepthFrom(c: Ctx, t: Tree, n: Node)
    requires n in Nodes(t)
    ensures Depth(Find(c, t, n).0) == Depth(c) + DepthOf(t, n)
    ensures n != t.e.n ==> DepthOf(t, n) == 1 + if n in Nodes(t.l) then DepthOf(t.l, n) else DepthOf(t.r, n)
    decreases t
  {
    if n != t.e.n {
      var l := n in Nodes(t.l);
      var child := if l then t.l else t.r;
      DepthFrom(if l then InL(c, t.e, t.m, t.r) else InR(c, t.l, t.e, t.m), child, n);
      DepthFrom(if l then InL(Top, t.e, t.m, t.r) else InR(Top, t.l, t.e, t.m), child, n);
    }
  }

  /** A step takes no node below the one that rises further from it than one level. */
  lemma StepBelow(c: Ctx, t: Tree, y: Node)
    requires !c.Top? && t.Fork? && y in Nodes(t) && Distinct(Plug(c, t))
    ensures y in Nodes(Splayed(c, t)) && DepthOf(Splayed(c, t), y) <= DepthOf(t, y) + 1
  {
    var p, t' := Up1(c, t), Splayed(c, t);
    DistinctHole(c, t);
    DistinctHole(c.up, p);
    DepthFrom(Top, t, y);
    hide DepthOf, Plug;
    if y != t.e.n {
      if !c.up.Top? {
        DistinctHole(c.up.up, Up1(c.up, p));
      }
      DepthFrom(Top, t', y);
      if y in Nodes(t'.l) { DepthFrom(Top, t'.l, y); } else { DepthFrom(Top, t'.r, y); }
    }
  }

  lemma StepDistinct(c: Ctx, t: Tree)
    requires !c.Top? && t.Fork? && Distinct(Plug(c, t))
    ensures Distinct(Plug(SplayedIn(c), Splayed(c, t)))
  {
    SplayedTree(c, t);
    DistinctInorder(Plug(c, t));
    DistinctInorder(Plug(SplayedIn(c), Splayed(c, t)));
  }

  /** All steps together take it further by at most half the way. */
  lemma {:induction false} LiftedBelow(c: Ctx, t: Tree, y: Node)
    requires t.Fork? && y in Nodes(t) && Distinct(Plug(c, t))
    ensures y in Nodes(Lifted(c, t)) && DepthOf(Lifted(c, t), y) <= DepthOf(t, y) + (Depth(c) + 1) / 2
    decreases Depth(c)
  {
    if !c.Top? {
      hide DepthOf, Splayed;
      SplayedTree(c, t);
      StepBelow(c, t, y);
      StepDistinct(c, t);
      LiftedBelow(SplayedIn(c), Splayed(c, t), y);
    }
  }

  /** The parent and the grandparent of the node that rises are close to it after the step. */
  lemma StepClose(c: Ctx, t: Tree, y: Node)
    requires !c.Top? && t.Fork? && Distinct(Plug(c, t)) && (y == c.e.n || (!c.up.Top? && y == c.up.e.n))
    ensures y in Nodes(Splayed(c, t)) && DepthOf(Splayed(c, t), y) <= 2
  {
    var t' := Splayed(c, t);
    StepDistinct(c, t);
    DistinctHole(SplayedIn(c), t');
    hide DepthOf, Plug;
    DepthFrom(Top, t', y);
    if y != t'.e.n {
      var u := if y in Nodes(t'.l) then t'.l else t'.r;
      DepthFrom(Top, u, y);
      if y != u.e.n {
        DepthFrom(Top, if y in Nodes(u.l) then u.l else u.r, y);
      }
    }
  }

  lemma ParentDepth(c: Ctx, t: Tree)
    requires !c.Top? && Distinct(Plug(c, t))
    ensures c.e.n in Nodes(Plug(c, t)) && DepthOf(Plug(c, t), c.e.n) == Depth(c) - 1
  {
    FindBelow(c.up, Up1(c, t), c.e.n);
  }

  /** How far a node on the way is from the root does not depend on what is below it. */
  lemma {:induction false} WayDepth(c: Ctx, t: Tree, t': Tree, y: Node)
    requires y in Way(c) && Distinct(Plug(c, t)) && Distinct(Plug(c, t'))
    ensures DepthOf(Plug(c, t), y) == DepthOf(Plug(c, t'), y)
    decreases c
  {
    hide DepthOf;
    if y == c.e.n {
      ParentDepth(c, t);
      ParentDepth(c, t');
    } else {
      WayDepth(c.up, Up1(c, t), Up1(c, t'), y);
    }
  }

  lemma {:induction false} WayHalved(c: Ctx, t: Tree, y: Node)
    requires t.Fork? && y in Way(c) && Distinct(Plug(c, t))
    ensures 2 * DepthOf(Lifted(c, t), y) <= DepthOf(Plug(c, t), y) + 5
    decreases Depth(c)
  {
    hide DepthOf, Splayed;
    SplayedTree(c, t);
    StepDistinct(c, t);
    if y == c.e.n || y == c.up.e.n {
      StepClose(c, t, y);
      LiftedBelow(SplayedIn(c), Splayed(c, t), y);
      if y == c.e.n { ParentDepth(c, t); } else { ParentDepth(c.up, Up1(c, t)); }
    } else {
      WayHalved(SplayedIn(c), Splayed(c, t), y);
      WayDepth(c.up.up, Up1(c.up, Up1(c, t)), Splayed(c, t), y);
    }
  }

  /** Splaying `n` brings every node above it to about half its depth. */
  ghost predicate WayShortened(t: Tree, n: Node, t': Tree) {
    forall y | y in Ancestors(t, n) :: 2 * DepthOf(t', y) <= DepthOf(t, y) + 5
  }

  lemma PathHalved(t: Tree, n: Node)
    requires Distinct(t) && n in Nodes(t)
    ensures WayShortened(t, n, Splay(t, n))
  {
    var z := Find(Top, t, n);
    hide DepthOf, Lifted;
    forall y | y in Ancestors(t, n) ensures 2 * DepthOf(Splay(t, n), y) <= DepthOf(t, y) + 5 {
      WayHalved(z.0, z.1, y);
    }
  }
}
