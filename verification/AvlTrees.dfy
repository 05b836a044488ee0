/** The AVL invariant, on trees and on contexts. */
module AvlTrees {
  import opened Links
  import opened Rotations
  import opened TreeDeletion

  /** The height difference (left minus right) a mark stands for. */
  ghost function Lean(m: int): int {
    if m == LEFTHEAVY then 1 else if m == RIGHTHEAVY then -1 else 0
  }

  ghost predicate IsMark(m: int) {
    m == BALANCED || m == LEFTHEAVY || m == RIGHTHEAVY
  }

  /** Every mark is the true height difference of the two subtrees, which is at most one. */
  ghost predicate Avl(t: Tree) {
    t.Fork? ==> IsMark(t.m) && Lean(t.m) == Height(t.l) - Height(t.r) && Avl(t.l) && Avl(t.r)
  }

  ghost function Over(h: nat, s: Tree): nat {
    1 + if h < Height(s) then Height(s) else h
  }

  /** What `c` asks of its own nodes when a tree of height `h` is put in its hole. */
  ghost predicate AvlC(c: Ctx, h: nat) {
    match c
    case Top => true
    case InL(up, _, m, s) => Avl(s) && IsMark(m) && Lean(m) == h - Height(s) && AvlC(up, Over(h, s))
    case InR(up, s, _, m) => Avl(s) && IsMark(m) && Lean(m) == Height(s) - h && AvlC(up, Over(h, s))
  }

  lemma {:induction false} PlugAvl(c: Ctx, t: Tree)
    ensures Avl(Plug(c, t)) <==> Avl(t) && AvlC(c, Height(t))
    decreases c
  {
    if !c.Top? {
      hide Avl, AvlC, Height;
      UpAvl(c, t);
      PlugAvl(c.up, Up1(c, t));
    }
  }

  lemma UpAvl(c: Ctx, t: Tree)
    requires !c.Top?
    ensures Avl(Up1(c, t)) && AvlC(c.up, Height(Up1(c, t))) <==> Avl(t) && AvlC(c, Height(t))
  {
    UpHeight(c, t);
    hide Height, Over, Lean, IsMark;
  }

  lemma UpHeight(c: Ctx, t: Tree)
    requires !c.Top?
    ensures Height(Up1(c, t)) == Over(Height(t), if c.InL? then c.r else c.l)
  {
  }

  /** The mark of `t` is out of date: since it was set, the side `bal` has gained one level on the other. */
  ghost predicate Stale(t: Tree, bal: int) {
    && t.Fork? && Avl(t.l) && Avl(t.r) && IsMark(t.m) && (bal == LEFTHEAVY || bal == RIGHTHEAVY)
    && Lean(t.m) + Lean(bal) == Height(t.l) - Height(t.r)
  }

  ghost function HeavyChild(t: Tree, bal: int): Tree
    requires t.Fork?
  {
    if bal == LEFTHEAVY then t.l else t.r
  }

  /** What rebalancing achieves.  The resulting mark tells whether a level was lost. */
  ghost predicate Rebalanced(t: Tree, bal: int, t': Tree)
    requires t.Fork?
  {
    && t'.Fork? && Avl(t') && Inorder(t') == Inorder(t)
    && (t.m == BALANCED ==> t'.m == bal)
    && (t.m != BALANCED && t.m != bal ==> t'.m == BALANCED)
    && (t.m != bal ==> Height(t') == Height(t))
    && (t.m == bal ==>
      && (t'.m == BALANCED ==> Height(t') == Height(t) - 1)
      && (t'.m != BALANCED ==> Height(t') == Height(t) && HeavyChild(t, bal).Fork? && HeavyChild(t, bal).m == BALANCED))
  }

  lemma Remarked(t: Tree, bal: int)
    requires Stale(t, bal) && t.m != bal
    ensures Rebalanced(t, bal, t.(m := if t.m == BALANCED then bal else BALANCED))
  {
  }

  /** The left side is two levels too high; its own left side, or neither, is to blame. */
  ghost function SingleLeft(t: Tree): Tree
    requires t.Fork? && t.l.Fork?
  {
    if t.l.m == LEFTHEAVY then RotRight(Fork(Painted(t.l, BALANCED), t.e, BALANCED, t.r))
    else RotRight(Fork(Painted(t.l, RIGHTHEAVY), t.e, LEFTHEAVY, t.r))
  }

  /** The right grandchild is to blame: its marks say which of the two lower nodes gets the shorter side. */
  ghost function DoubleLeft(t: Tree): Tree
    requires t.Fork? && t.l.Fork? && t.l.r.Fork?
  {
    var g := t.l.r;
    var m := if g.m == LEFTHEAVY then RIGHTHEAVY else BALANCED;
    var n := if g.m == RIGHTHEAVY then LEFTHEAVY else BALANCED;
    RotRight(Fork(RotLeft(Fork(t.l.l, t.l.e, n, Painted(g, BALANCED))), t.e, m, t.r))
  }

  lemma LeftRebalanced(t: Tree)
    requires Stale(t, LEFTHEAVY) && t.m == LEFTHEAVY
    ensures t.l.Fork? && IsMark(t.l.m) && (t.l.m == RIGHTHEAVY ==> t.l.r.Fork?)
    ensures t.l.m != RIGHTHEAVY ==> Rebalanced(t, LEFTHEAVY, SingleLeft(t))
    ensures t.l.m == RIGHTHEAVY ==> Rebalanced(t, LEFTHEAVY, DoubleLeft(t))
  {
    if t.l.m == RIGHTHEAVY {
      DoubleLeftShape(t);
      assert Avl(t.l) && Avl(t.l.r);
    } else {
      SingleLeftInorder(t);
    }
  }

  lemma SingleLeftInorder(t: Tree)
    requires t.Fork? && t.l.Fork?
    ensures Inorder(SingleLeft(t)) == Inorder(t)
  {
    RightNodes(Fork(Painted(t.l, if t.l.m == LEFTHEAVY then BALANCED else RIGHTHEAVY), t.e,
                    if t.l.m == LEFTHEAVY then BALANCED else LEFTHEAVY, t.r));
  }

  lemma DoubleLeftShape(t: Tree)
    requires t.Fork? && t.l.Fork? && t.l.r.Fork?
    ensures Inorder(DoubleLeft(t)) == Inorder(t)
    ensures var g, d := t.l.r, DoubleLeft(t);
      d == Fork(Fork(t.l.l, t.l.e, d.l.m, g.l), g.e, BALANCED, Fork(g.r, t.e, d.r.m, t.r))
  {
    var g, d := t.l.r, DoubleLeft(t);
    RotationInorder(Inorder(t.l.l), t.l.e, Inorder(g.l), g.e, Inorder(g.r));
    var a := Fork(Fork(t.l.l, t.l.e, d.l.m, g.l), g.e, BALANCED, g.r);
    assert Inorder(a) == Inorder(t.l);
    RightNodes(Fork(a, t.e, d.r.m, t.r));
  }

  ghost function SingleRight(t: Tree): Tree
    requires t.Fork? && t.r.Fork?
  {
    if t.r.m == RIGHTHEAVY then RotLeft(Fork(t.l, t.e, BALANCED, Painted(t.r, BALANCED)))
    else RotLeft(Fork(t.l, t.e, RIGHTHEAVY, Painted(t.r, LEFTHEAVY)))
  }

  ghost function DoubleRight(t: Tree): Tree
    requires t.Fork? && t.r.Fork? && t.r.l.Fork?
  {
    var g := t.r.l;
    var m := if g.m == RIGHTHEAVY then LEFTHEAVY else BALANCED;
    var n := if g.m == LEFTHEAVY then RIGHTHEAVY else BALANCED;
    RotLeft(Fork(t.l, t.e, m, RotRight(Fork(Painted(g, BALANCED), t.r.e, n, t.r.r))))
  }

  lemma RightRebalanced(t: Tree)
    requires Stale(t, RIGHTHEAVY) && t.m == RIGHTHEAVY
    ensures t.r.Fork? && IsMark(t.r.m) && (t.r.m == LEFTHEAVY ==> t.r.l.Fork?)
    ensures t.r.m != LEFTHEAVY ==> Rebalanced(t, RIGHTHEAVY, SingleRight(t))
    ensures t.r.m == LEFTHEAVY ==> Rebalanced(t, RIGHTHEAVY, DoubleRight(t))
  {
    if t.r.m == LEFTHEAVY {
      DoubleRightShape(t);
      assert Avl(t.r) && Avl(t.r.l);
    } else {
      SingleRightInorder(t);
    }
  }

  lemma SingleRightInorder(t: Tree)
    requires t.Fork? && t.r.Fork?
    ensures Inorder(SingleRight(t)) == Inorder(t)
  {
    LeftNodes(Fork(t.l, t.e, if t.r.m == RIGHTHEAVY then BALANCED else RIGHTHEAVY,
                   Painted(t.r, if t.r.m == RIGHTHEAVY then BALANCED else LEFTHEAVY)));
  }

  lemma DoubleRightShape(t: Tree)
    requires t.Fork? && t.r.Fork? && t.r.l.Fork?
    ensures Inorder(DoubleRight(t)) == Inorder(t)
    ensures var g, d := t.r.l, DoubleRight(t);
      d == Fork(Fork(t.l, t.e, d.l.m, g.l), g.e, BALANCED, Fork(g.r, t.r.e, d.r.m, t.r.r))
  {
    var g, d := t.r.l, DoubleRight(t);
    RotationInorder(Inorder(g.l), g.e, Inorder(g.r), t.r.e, Inorder(t.r.r));
    var a := Fork(g.l, g.e, BALANCED, Fork(g.r, t.r.e, d.r.m, t.r.r));
    assert Inorder(a) == Inorder(t.r);
    LeftNodes(Fork(t.l, t.e, d.l.m, a));
  }

  // ----- deletion

  /** The tree in the hole has lost one level and nobody above knows yet. */
  ghost predicate Sunk(c: Ctx, t: Tree) {
    Avl(t) && AvlC(c, Height(t) + 1)
  }

  /** The side that is now too high at the parent of a sunken tree. */
  ghost function OtherSide(c: Ctx): int {
    if c.InL? then RIGHTHEAVY else LEFTHEAVY
  }

  /** One level up: either the mark makes good the difference and the walk stops, or the parent has sunk too. */
  lemma SunkStale(c: Ctx, t: Tree)
    requires !c.Top? && Sunk(c, t)
    ensures var g := Up1(c, t);
      && Stale(g, OtherSide(c)) && AvlC(c.up, Over(Height(t) + 1, Sibling(c)))
      && Over(Height(t) + 1, Sibling(c)) == Height(g) + (if Lean(g.m) == -Lean(OtherSide(c)) then 1 else 0)
  {
  }

  lemma SunkStep(c: Ctx, t: Tree, t': Tree)
    requires !c.Top? && Sunk(c, t) && Rebalanced(Up1(c, t), OtherSide(c), t')
    ensures if t'.m == BALANCED then Sunk(c.up, t') else Avl(Plug(c.up, t'))
    ensures Inorder(Plug(c.up, t')) == Inorder(Plug(c, t))
  {
    hide Inorder, Height, Over, Stale, Plug, Up1;
    SunkHeight(c, t, t');
    SunkStale(c, t);
    PlugAvl(c.up, t');
    RebalancedAvl(Up1(c, t), OtherSide(c), t');
    SameInorder(c.up, t', Up1(c, t));
    UpPlug(c, t);
  }

  /** The height that the node above expects, told from the new mark. */
  lemma SunkHeight(c: Ctx, t: Tree, t': Tree)
    requires !c.Top? && Sunk(c, t) && Rebalanced(Up1(c, t), OtherSide(c), t')
    ensures Over(Height(t) + 1, Sibling(c)) == Height(t') + if t'.m == BALANCED then 1 else 0
  {
    SunkStale(c, t);
    hide Inorder, Height, Over, Avl, AvlC, Up1;
  }

  lemma RebalancedAvl(t: Tree, bal: int, t': Tree)
    requires t.Fork? && Rebalanced(t, bal, t')
    ensures Avl(t') && t'.Fork? && Inorder(t') == Inorder(t)
  {
  }

  lemma UpPlug(c: Ctx, t: Tree)
    requires !c.Top?
    ensures Plug(c, t) == Plug(c.up, Up1(c, t))
  {
  }

  lemma SunkLeaf(c: Ctx, t: Tree)
    requires !c.Top? && Sunk(c, t) && Up1(c, t).l.Leaf? && Up1(c, t).r.Leaf?
    ensures t.Leaf? && Sunk(c.up, Painted(Up1(c, t), BALANCED))
    ensures Inorder(Plug(c.up, Painted(Up1(c, t), BALANCED))) == Inorder(Plug(c, t))
  {
    SameInorder(c.up, Up1(c, t), Painted(Up1(c, t), BALANCED));
  }

  lemma {:induction false} MinAvl(c: Ctx, r: Tree)
    requires r.Fork? && Avl(r) && AvlC(c, Height(r))
    ensures Avl(MinFork(r)) && AvlC(MinHole(c, r), Height(MinFork(r)))
    decreases r
  {
    if r.l.Fork? {
      MinAvl(InL(c, r.e, r.m, r.r), r.l);
    }
  }

  lemma RefitAvl(c: Ctx, t: Tree)
    requires t.Fork? && Avl(Plug(c, t))
    ensures Sunk(RefitGap(c, t), Raised(t))
  {
    PlugAvl(c, t);
    AvlTop(c, t);
    if t.l.Fork? && t.r.Fork? {
      var f := MinFork(t.r);
      hide Height, Avl;
      MinAvl(InR(c, t.l, f.e, t.m), t.r);
      ThinTree(f);
    } else {
      ThinTree(t);
    }
  }

  lemma AvlTop(c: Ctx, t: Tree)
    requires t.Fork? && Avl(t) && AvlC(c, Height(t))
    ensures AvlC(InR(c, t.l, t.e, t.m), Height(t.r)) && Avl(t.r)
  {
  }

  lemma ThinTree(t: Tree)
    requires t.Fork? && Avl(t) && (t.l.Leaf? || t.r.Leaf?)
    ensures Avl(OnlyChild(t)) && Height(t) == Height(OnlyChild(t)) + 1
  {
  }
}
