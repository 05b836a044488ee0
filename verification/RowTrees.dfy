/** Trees filled row by row, the shape the list rebuild of tree.c and redblack.c aims at. */
module RowTrees {
  import opened Links
  import opened RedBlackTrees

  ghost function Pow2(n: nat): (r: nat)
    ensures r >= 1
  {
    if n == 0 then 1 else 2 * Pow2(n - 1)
  }

  /** Rows `1..j` are full; the nodes of row 0, at the bottom, are optional. */
  ghost predicate Row(t: Tree, j: nat) {
    && t.Fork?
    && if j == 0 then t.l.Leaf? && t.r.Leaf?
       else if j == 1 then (t.l.Leaf? || Row(t.l, 0)) && (t.r.Leaf? || Row(t.r, 0))
       else Row(t.l, j - 1) && Row(t.r, j - 1)
  }

  /** Which places of row 0 are taken, from left to right. */
  ghost function Places(t: Tree, j: nat): seq<bool> {
    if j == 0 then [t.Fork?] else if t.Leaf? then [] else Places(t.l, j - 1) + Places(t.r, j - 1)
  }

  ghost predicate Packed(b: seq<bool>) {
    forall x, y | 0 <= x < y < |b| :: b[y] ==> b[x]
  }

  /** The rows are full, and what there is of row 0 stands to the left. */
  ghost predicate LeftFilled(t: Tree, j: nat) {
    Row(t, j) && Packed(Places(t, j))
  }

  ghost predicate Complete(t: Tree) {
    t.Leaf? || exists j: nat :: LeftFilled(t, j)
  }

  /** Colours alternate from row to row, red at the bottom. */
  ghost predicate Tinted(t: Tree, j: nat) {
    t.Fork? ==> t.m == j % 2 && (j > 0 ==> Tinted(t.l, j - 1) && Tinted(t.r, j - 1))
  }

  /** Alternating rows satisfy the red-black rules. */
  lemma {:induction false} RowRB(t: Tree, j: nat)
    requires Row(t, j) && Tinted(t, j)
    ensures RB(t) && BlackHeight(t) == (j + 1) / 2 && (Red(t) <==> j % 2 == 0)
  {
    if j == 1 {
      if t.l.Fork? { RowRB(t.l, 0); }
      if t.r.Fork? { RowRB(t.r, 0); }
    } else if j > 1 {
      RowRB(t.l, j - 1);
      RowRB(t.r, j - 1);
    }
  }

  /** A row-filled tree uses its last row: with one level less there would be no room for its nodes. */
  lemma {:induction false} RowHeight(t: Tree, j: nat)
    requires Row(t, j)
    ensures |Inorder(t)| >= Pow2(j) - 1
    ensures (j > 0 && Height(t) == j) || (Height(t) == j + 1 && |Inorder(t)| >= Pow2(j))
  {
    if j == 1 {
      if t.l.Fork? { RowHeight(t.l, 0); }
      if t.r.Fork? { RowHeight(t.r, 0); }
    } else if j > 1 {
      RowHeight(t.l, j - 1);
      RowHeight(t.r, j - 1);
    }
  }

  /** A tree of height `h` has room for fewer than `2^h` nodes. */
  lemma {:induction false} HeightRoom(t: Tree)
    ensures |Inorder(t)| < Pow2(Height(t))
  {
    if t.Fork? {
      HeightRoom(t.l);
      HeightRoom(t.r);
      Pow2Monotone(Height(t.l), Height(t) - 1);
      Pow2Monotone(Height(t.r), Height(t) - 1);
    }
  }

  lemma {:induction false} Pow2Monotone(a: nat, b: nat)
    requires a <= b
    ensures Pow2(a) <= Pow2(b)
    decreases b - a
  {
    if a < b {
      Pow2Monotone(a, b - 1);
    }
  }

  /** So no tree with the same number of nodes is lower. */
  lemma RowMinimal(t: Tree, j: nat, other: Tree)
    requires Row(t, j) && |Inorder(other)| == |Inorder(t)|
    ensures Height(t) <= Height(other)
  {
    RowHeight(t, j);
    HeightRoom(other);
    if Height(other) < Height(t) {
      Pow2Monotone(Height(other), Height(t) - 1);
    }
  }
}
