/** How high the trees can be, and so how long a search can take. */
module Heights {
  import opened Links
  import opened RowTrees
  import opened RedBlackTrees
  import opened AvlTrees
  import opened AvlBuild

  ghost function Fib(n: nat): nat {
    if n < 2 then n else Fib(n - 1) + Fib(n - 2)
  }

  lemma {:induction false} FibMonotone(a: nat, b: nat)
    requires a <= b
    ensures Fib(a) <= Fib(b)
    decreases b - a
  {
    if a < b {
      FibMonotone(a, b - 1);
    }
  }

  /** A balanced tree of height `h` holds at least `Fib(h + 2) - 1` nodes. */
  lemma {:induction false} AvlHeight(t: Tree)
    requires Avl(t)
    ensures Fib(Height(t) + 2) <= |Inorder(t)| + 1
  {
    if t.Fork? {
      AvlHeight(t.l);
      AvlHeight(t.r);
      var h := Height(t);
      FibMonotone(h, Height(t.l) + 2);
      FibMonotone(h, Height(t.r) + 2);
    }
  }

  /** Black nodes alone fill `BlackHeight` rows, and no path has more red nodes than black ones below a red root. */
  lemma {:induction false} BlackRows(t: Tree)
    requires RB(t)
    ensures Pow2(BlackHeight(t)) <= |Inorder(t)| + 1
    ensures Height(t) <= 2 * BlackHeight(t) + if Red(t) then 1 else 0
  {
    if t.Fork? {
      BlackRows(t.l);
      BlackRows(t.r);
    }
  }

  /** The height of a red-black tree with `n` nodes is at most twice the binary logarithm of `n + 1`. */
  lemma RedBlackHeight(t: Tree)
    requires RBTree(t)
    ensures Pow2((Height(t) + 1) / 2) <= |Inorder(t)| + 1
  {
    BlackRows(t);
    Pow2Monotone((Height(t) + 1) / 2, BlackHeight(t));
  }

  /** No tree at all is lower than the one the bulk build of avl.c makes. */
  lemma BuiltMinimal(t: Tree)
    ensures Bits(|Inorder(t)|) <= Height(t)
  {
    HeightRoom(t);
    BitsBelow(|Inorder(t)|, Height(t));
  }

  lemma {:induction false} BitsBelow(n: nat, h: nat)
    requires n < Pow2(h)
    ensures Bits(n) <= h
  {
    if n > 0 {
      BitsBelow(n / 2, h - 1);
    }
  }

  /** A search that takes no more rounds than the tree is high is logarithmic. */
  lemma SearchBound(t: Tree, steps: nat)
    requires steps <= Height(t)
    ensures RBTree(t) ==> Pow2((steps + 1) / 2) <= |Inorder(t)| + 1
    ensures Avl(t) ==> Fib(steps + 2) <= |Inorder(t)| + 1
  {
    if RBTree(t) {
      RedBlackHeight(t);
      Pow2Monotone((steps + 1) / 2, (Height(t) + 1) / 2);
    }
    if Avl(t) {
      AvlHeight(t);
      FibMonotone(steps + 2, Height(t) + 2);
    }
  }
}
