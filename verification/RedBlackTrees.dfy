/** The red-black invariant, on trees and on contexts. */
module RedBlackTrees {
  import opened Links
  import opened Rotations
  import opened TreeDeletion

  ghost predicate Red(t: Tree) {
    t.Fork? && t.m == RED
  }

  ghost predicate CRed(c: Ctx) {
    !c.Top? && c.m == RED
  }

  ghost function Ink(m: int): nat {
    if m == BLACK then 1 else 0
  }

  /** Black nodes on the leftmost path. */
  ghost function BlackHeight(t: Tree): nat {
    if t.Leaf? then 0 else BlackHeight(t.l) + Ink(t.m)
  }

  /** Two colours, no red node with a red child, the same number of black nodes on every path. */
  ghost predicate RB(t: Tree) {
    t.Fork? ==>
      && (t.m == RED || t.m == BLACK)
      && (t.m == RED ==> !Red(t.l) && !Red(t.r))
      && BlackHeight(t.l) == BlackHeight(t.r)
      && RB(t.l) && RB(t.r)
  }

  /** A red-black tree whose root is black. */
  ghost predicate RBTree(t: Tree) {
    RB(t) && !Red(t)
  }

  /** What `c` asks of its own nodes when a tree of black height `bh` is put in its hole. */
  ghost predicate RBC(c: Ctx, bh: nat) {
    !c.Top? ==>
      && (c.m == RED || c.m == BLACK)
      && (c.m == RED ==> !Red(Sibling(c)) && !CRed(c.up))
      && BlackHeight(Sibling(c)) == bh
      && RB(Sibling(c)) && RBC(c.up, bh + Ink(c.m))
  }

  ghost function TopMark(c: Ctx): int
    requires !c.Top?
  {
    if c.up.Top? then c.m else TopMark(c.up)
  }

  /** `c` with its outermost node painted. */
  ghost function PaintTop(c: Ctx, x: int): Ctx {
    match c
    case Top => Top
    case InL(up, e, m, s) => InL(PaintTop(up, x), e, if up.Top? then x else m, s)
    case InR(up, s, e, m) => InR(PaintTop(up, x), s, e, if up.Top? then x else m)
  }

  lemma StepRB(c: Ctx, t: Tree)
    requires !c.Top?
    ensures RB(t) && RBC(c, BlackHeight(t)) && !(Red(t) && CRed(c))
      <==> RB(Up1(c, t)) && RBC(c.up, BlackHeight(Up1(c, t))) && !(Red(Up1(c, t)) && CRed(c.up))
  {
  }

  /** A tree in a context is red-black exactly when both sides keep their half of the bargain. */
  lemma {:induction false} PlugRB(c: Ctx, t: Tree)
    ensures RB(Plug(c, t)) <==> RB(t) && RBC(c, BlackHeight(t)) && !(Red(t) && CRed(c))
    decreases c
  {
    if !c.Top? {
      StepRB(c, t);
      PlugRB(c.up, Up1(c, t));
    }
  }

  lemma {:induction false} PaintPlug(c: Ctx, t: Tree, x: int)
    ensures Painted(Plug(c, t), x) == if c.Top? then Painted(t, x) else Plug(PaintTop(c, x), t)
    decreases c
  {
    if !c.Top? {
      PaintPlug(c.up, Up1(c, t), x);
    }
  }

  lemma {:induction false} RootColour(c: Ctx, t: Tree)
    ensures !c.Top? ==> Plug(c, t).Fork? && Plug(c, t).m == TopMark(c)
    decreases c
  {
    if !c.Top? {
      RootColour(c.up, Up1(c, t));
    }
  }

  // ----- insertion

  /** The red node being pushed up may have a red parent; nothing else is wrong. */
  ghost predicate InsertInv(c: Ctx, t: Tree) {
    && Red(t) && RB(t) && RBC(c, BlackHeight(t))
    && (!c.Top? ==> TopMark(c) == BLACK)
  }

  lemma InsertStart(c: Ctx, e: Entry)
    requires RBTree(Plug(c, Leaf))
    ensures InsertInv(c, Fork(Leaf, e, RED, Leaf))
  {
    PlugRB(c, Leaf);
    RootColour(c, Leaf);
  }

  ghost predicate Settled(c: Ctx, t: Tree) {
    RB(t) && RBC(c, BlackHeight(t)) && !(Red(t) && CRed(c))
  }

  lemma StopRed(c: Ctx, t: Tree)
    ensures InsertInv(c, t) && !CRed(c) ==> Settled(c, t)
  {
  }

  lemma InsertEnd(c: Ctx, t: Tree)
    requires Settled(c, t)
    ensures RBTree(Painted(Plug(c, t), BLACK))
  {
    PlugRB(c, t);
  }

  /** The tree at the grandparent. */
  ghost function Family(c: Ctx, t: Tree): Tree
    requires !c.Top? && !c.up.Top?
  {
    Up1(c.up, Up1(c, t))
  }

  /** Root and both children repainted, as in the red-uncle case. */
  ghost function Recoloured(t: Tree): Tree
    requires t.Fork?
  {
    Fork(Painted(t.l, BLACK), t.e, RED, Painted(t.r, BLACK))
  }

  lemma RedUncle(c: Ctx, t: Tree)
    requires CRed(c) && !c.up.Top? && InsertInv(c, t) && Red(Sibling(c.up))
    ensures InsertInv(c.up.up, Recoloured(Family(c, t)))
    ensures Inorder(Plug(c.up.up, Recoloured(Family(c, t)))) == Inorder(Plug(c, t))
  {
    SameInorder(c.up.up, Family(c, t), Recoloured(Family(c, t)));
    assert RBC(c.up, BlackHeight(Up1(c, t)));
    assert TopMark(c) == TopMark(c.up);
  }

  /** Left child painted black, root red, then rotated right. */
  ghost function LiftLeft(t: Tree): Tree
    requires t.Fork? && t.l.Fork?
  {
    RotRight(Fork(Painted(t.l, BLACK), t.e, RED, t.r))
  }

  ghost function LiftRight(t: Tree): Tree
    requires t.Fork? && t.r.Fork?
  {
    RotLeft(Fork(t.l, t.e, RED, Painted(t.r, BLACK)))
  }

  /** The family tree with `node` and its parent on the outside. */
  ghost function Outward(c: Ctx, t: Tree): Tree
    requires !c.Top? && !c.up.Top? && t.Fork?
  {
    var g := Family(c, t);
    if c.InR? && c.up.InL? then g.(l := RotLeft(g.l))
    else if c.InL? && c.up.InR? then g.(r := RotRight(g.r))
    else g
  }

  ghost function Lifted(c: Ctx, t: Tree): Tree
    requires !c.Top? && !c.up.Top? && t.Fork?
  {
    if c.up.InL? then LiftLeft(Outward(c, t)) else LiftRight(Outward(c, t))
  }

  lemma LiftedInorder(c: Ctx, t: Tree)
    requires !c.Top? && !c.up.Top? && t.Fork?
    ensures Inorder(Lifted(c, t)) == Inorder(Family(c, t))
  {
    var g, o := Family(c, t), Outward(c, t);
    if c.up.InL? {
      if c.InR? { LeftNodes(g.l); }
      RightNodes(Fork(Painted(o.l, BLACK), o.e, RED, o.r));
    } else {
      if c.InL? { RightNodes(g.r); }
      LeftNodes(Fork(o.l, o.e, RED, Painted(o.r, BLACK)));
    }
  }

  lemma BlackUncle(c: Ctx, t: Tree)
    requires CRed(c) && !c.up.Top? && InsertInv(c, t) && !Red(Sibling(c.up))
    ensures Settled(c.up.up, Lifted(c, t))
    ensures Inorder(Plug(c.up.up, Lifted(c, t))) == Inorder(Plug(c, t))
  {
    LiftedInorder(c, t);
    SameInorder(c.up.up, Family(c, t), Lifted(c, t));
    assert RBC(c.up, BlackHeight(Up1(c, t)));
  }

  // ----- deletion

  /** The deleted position is one black node short; painting `t` black would make up for it.  The
      outermost node counts as black: while the loop runs it is painted red to stop it. */
  ghost predicate Short(c: Ctx, t: Tree) {
    && RB(Painted(t, BLACK)) && (t.Fork? ==> t.m == RED || t.m == BLACK)
    && RBC(PaintTop(c, BLACK), BlackHeight(t) + 1)
  }

  /** The loop will stop at the root at the latest. */
  ghost predicate Stoppable(c: Ctx, t: Tree) {
    Red(t) || if c.Top? then t.Leaf? else TopMark(c) == RED
  }

  lemma {:induction false} SisterExists(c: Ctx, t: Tree)
    requires !c.Top? && Short(c, t)
    ensures Sibling(c).Fork? && RB(Sibling(c))
    ensures Red(Sibling(c)) ==> Sibling(c).l.Fork? && Sibling(c).r.Fork?
  {
    assert Sibling(PaintTop(c, BLACK)) == Sibling(c);
  }

  /** A red sister is rotated above the parent, which turns red. */
  ghost function SisterUp(c: Ctx): Ctx
    requires !c.Top? && Sibling(c).Fork?
  {
    match c
    case InL(up, e, _, w) => InL(InL(up, w.e, BLACK, w.r), e, RED, w.l)
    case InR(up, w, e, _) => InR(InR(up, w.l, w.e, BLACK), w.r, e, RED)
  }

  lemma RedSister(c: Ctx, t: Tree)
    requires !c.Top? && Short(c, t) && !Red(t) && Red(Sibling(c))
    ensures Short(SisterUp(c), t) && !Red(Sibling(SisterUp(c))) && CRed(SisterUp(c))
    ensures Inorder(Plug(SisterUp(c), t)) == Inorder(Plug(c, t))
  {
    SisterOrder(c, t);
    hide Inorder;
    var q, d := PaintTop(c, BLACK), PaintTop(SisterUp(c), BLACK);
    assert RBC(q.up, BlackHeight(t) + 1 + Ink(q.m));
    assert d.up == PaintTop(SisterUp(c).up, BLACK) && d.up.up == q.up;
    assert RBC(d.up, BlackHeight(t) + 1);
  }

  lemma SisterOrder(c: Ctx, t: Tree)
    requires !c.Top? && Sibling(c).Fork?
    ensures Inorder(Plug(SisterUp(c), t)) == Inorder(Plug(c, t))
  {
    var d := SisterUp(c);
    var a, b := Up1(c, t), Up1(d.up, Up1(d, t));
    assert Inorder(a) == Inorder(b) by {
      if c.InL? {
        RotationInorder(Inorder(t), c.e, Inorder(c.r.l), c.r.e, Inorder(c.r.r));
      } else {
        RotationInorder(Inorder(c.l.l), c.l.e, Inorder(c.l.r), c.e, Inorder(t));
      }
    }
    SameInorder(c.up, a, b);
  }

  /** The sister gives up a black node as well, and the shortage moves up. */
  ghost function SisterReddened(c: Ctx, t: Tree): Tree
    requires !c.Top?
  {
    match c
    case InL(_, e, m, w) => Fork(t, e, m, Painted(w, RED))
    case InR(_, w, e, m) => Fork(Painted(w, RED), e, m, t)
  }

  lemma BlackNephews(c: Ctx, t: Tree)
    requires !c.Top? && Short(c, t) && !Red(t)
    requires var w := Sibling(c); w.Fork? && !Red(w) && !Red(w.l) && !Red(w.r)
    requires CRed(c) || TopMark(c) == RED
    ensures Short(c.up, SisterReddened(c, t)) && Stoppable(c.up, SisterReddened(c, t))
    ensures Inorder(Plug(c.up, SisterReddened(c, t))) == Inorder(Plug(c, t))
  {
    SameInorder(c.up, Up1(c, t), SisterReddened(c, t));
  }

  /** The sister, rotated first if its outer child is not red. */
  ghost function SisterStraight(c: Ctx): Tree
    requires !c.Top? && Sibling(c).Fork?
  {
    var w := Sibling(c);
    if c.InL? then
      if Red(w.r) || w.l.Leaf? then w else RotRight(Fork(Painted(w.l, BLACK), w.e, RED, w.r))
    else
      if Red(w.l) || w.r.Leaf? then w else RotLeft(Fork(w.l, w.e, RED, Painted(w.r, BLACK)))
  }

  /** The sister takes the parent's colour; parent and outer nephew turn black. */
  ghost function Owed(c: Ctx, t: Tree): Tree
    requires !c.Top? && Sibling(c).Fork?
  {
    match c
    case InL(_, e, m, w) => Fork(t, e, BLACK, Fork(w.l, w.e, m, Painted(w.r, BLACK)))
    case InR(_, w, e, m) => Fork(Fork(Painted(w.l, BLACK), w.e, m, w.r), e, BLACK, t)
  }

  /** Then the sister is rotated into the parent's place. */
  ghost function Repaid(c: Ctx, t: Tree): Tree
    requires !c.Top? && Sibling(c).Fork?
  {
    if c.InL? then RotLeft(Owed(c.(r := SisterStraight(c)), t)) else RotRight(Owed(c.(l := SisterStraight(c)), t))
  }

  lemma StraightRB(c: Ctx)
    requires !c.Top?
    requires var w := Sibling(c); w.Fork? && RB(w) && !Red(w) && (Red(w.l) || Red(w.r))
    ensures var w, s := Sibling(c), SisterStraight(c);
      && s.Fork? && RB(s) && !Red(s) && Red(if c.InL? then s.r else s.l)
      && BlackHeight(s) == BlackHeight(w) && Inorder(s) == Inorder(w)
  {
    var w := Sibling(c);
    if c.InL? {
      if w.l.Fork? { RightNodes(Fork(Painted(w.l, BLACK), w.e, RED, w.r)); }
    } else {
      if w.r.Fork? { LeftNodes(Fork(w.l, w.e, RED, Painted(w.r, BLACK))); }
    }
  }

  lemma RepaidRB(c: Ctx, t: Tree, m: int)
    requires !c.Top? && RB(t) && !Red(t) && (m == RED || m == BLACK)
    requires var w := Sibling(c);
      w.Fork? && RB(w) && !Red(w) && (Red(w.l) || Red(w.r)) && BlackHeight(w) == BlackHeight(t) + 1
    ensures RB(Painted(Repaid(c, t), m)) && BlackHeight(Painted(Repaid(c, t), m)) == BlackHeight(t) + 1 + Ink(m)
    ensures Inorder(Repaid(c, t)) == Inorder(Up1(c, t))
  {
    StraightRB(c);
    var s := SisterStraight(c);
    if c.InL? {
      RotationInorder(Inorder(t), c.e, Inorder(s.l), s.e, Inorder(s.r));
    } else {
      RotationInorder(Inorder(s.l), s.e, Inorder(s.r), c.e, Inorder(t));
    }
  }

  lemma RedNephew(c: Ctx, t: Tree)
    requires !c.Top? && Short(c, t) && !Red(t)
    requires var w := Sibling(c); w.Fork? && !Red(w) && (Red(w.l) || Red(w.r))
    ensures RBTree(Painted(Plug(c.up, Repaid(c, t)), BLACK))
    ensures Inorder(Plug(c.up, Repaid(c, t))) == Inorder(Plug(c, t))
  {
    var p, x := PaintTop(c, BLACK), Repaid(c, t);
    assert Sibling(p) == Sibling(c) && RBC(p.up, BlackHeight(t) + 1 + Ink(p.m));
    RepaidRB(c, t, p.m);
    SameInorder(c.up, Up1(c, t), x);
    PaintPlug(c.up, x, BLACK);
    if !c.up.Top? {
      PlugRB(p.up, x);
      PaintPlug(p.up, x, BLACK);
      RootColour(p.up, x);
      PaintedTop(c.up, BLACK);
    }
  }

  lemma {:induction false} PaintedTop(c: Ctx, x: int)
    ensures !c.Top? ==> !PaintTop(c, x).Top? && TopMark(PaintTop(c, x)) == x
    ensures !c.Top? && TopMark(c) == x ==> PaintTop(c, x) == c
    ensures forall y :: PaintTop(PaintTop(c, y), x) == PaintTop(c, x)
    decreases c
  {
    if !c.Top? {
      PaintedTop(c.up, x);
    }
  }

  lemma DeleteEnd(c: Ctx, t: Tree)
    requires Short(c, t) && (Red(t) || (c.Top? && t.Leaf?))
    ensures RBTree(Painted(Plug(c, Painted(t, BLACK)), BLACK))
    ensures Inorder(Plug(c, Painted(t, BLACK))) == Inorder(Plug(c, t))
  {
    var b := Painted(t, BLACK);
    PaintedInorder(c, t, BLACK);
    PaintPlug(c, b, BLACK);
    if !c.Top? {
      PlugRB(PaintTop(c, BLACK), b);
      RootColour(PaintTop(c, BLACK), b);
      PaintedTop(c, BLACK);
    }
  }

  // ----- what unlinking leaves behind

  /** The colour that leaves the tree with the deleted node. */
  ghost function Spent(t: Tree): int
    requires t.Fork?
  {
    if t.l.Leaf? || t.r.Leaf? then t.m else MinFork(t.r).m
  }

  lemma {:induction false} MinSettled(c: Ctx, r: Tree)
    requires r.Fork? && Settled(c, r)
    ensures Settled(MinHole(c, r), MinFork(r))
    ensures !c.Top? ==> !MinHole(c, r).Top? && TopMark(MinHole(c, r)) == TopMark(c)
    decreases r
  {
    if r.l.Fork? {
      var d := InL(c, r.e, r.m, r.r);
      StepRB(d, r.l);
      MinSettled(d, r.l);
    }
  }

  /** Losing a red node breaks nothing; losing a black one leaves its place short. */
  lemma UnlinkRB(c: Ctx, f: Tree)
    requires f.Fork? && (f.l.Leaf? || f.r.Leaf?) && Settled(c, f) && (!c.Top? ==> TopMark(c) == BLACK)
    ensures f.m != BLACK ==> Settled(c, OnlyChild(f))
    ensures f.m == BLACK ==> Short(c, OnlyChild(f))
  {
    assert RB(OnlyChild(f));
    PaintedTop(c, BLACK);
  }

  lemma RefitRB(c: Ctx, t: Tree)
    requires t.Fork? && RBTree(Plug(c, t))
    ensures Spent(t) == RED || Spent(t) == BLACK
    ensures !RefitGap(c, t).Top? ==> TopMark(RefitGap(c, t)) == BLACK
    ensures Spent(t) != BLACK ==> RBTree(Plug(RefitGap(c, t), Raised(t)))
    ensures Spent(t) == BLACK ==> Short(RefitGap(c, t), Raised(t))
  {
    PlugRB(c, t);
    RootColour(c, t);
    var g := RefitGap(c, t);
    if t.l.Leaf? || t.r.Leaf? {
      UnlinkRB(c, t);
    } else {
      var f := MinFork(t.r);
      var d := InR(c, t.l, f.e, t.m);
      StepRB(InR(c, t.l, t.e, t.m), t.r);
      assert Settled(d, t.r);
      MinSettled(d, t.r);
      UnlinkRB(g, f);
    }
    PlugRB(g, Raised(t));
    RootColour(g, Raised(t));
  }
}
