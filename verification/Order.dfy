/** What the operations do to the sequence of entries a container holds. */
module Order {
  import opened Links

  ghost predicate Sorted(s: seq<Entry>) {
    forall i, j | 0 <= i < j < |s| :: s[i].k <= s[j].k
  }

  ghost predicate AllAtMost(s: seq<Entry>, k: int) {
    forall i | 0 <= i < |s| :: s[i].k <= k
  }

  ghost predicate AllBelow(s: seq<Entry>, k: int) {
    forall i | 0 <= i < |s| :: s[i].k < k
  }

  ghost predicate AllAbove(s: seq<Entry>, k: int) {
    forall i | 0 <= i < |s| :: k < s[i].k
  }

  ghost predicate HasKey(s: seq<Entry>, k: int) {
    exists i | 0 <= i < |s| :: s[i].k == k
  }

  ghost predicate DistinctNodes(s: seq<Entry>) {
    forall i, j | 0 <= i < j < |s| :: s[i].n != s[j].n
  }

  /** The entry goes in front of the first entry with a greater key. */
  ghost function Inserted(s: seq<Entry>, e: Entry): seq<Entry> {
    if s == [] || e.k < s[0].k then [e] + s else [s[0]] + Inserted(s[1..], e)
  }

  ghost function Removed(s: seq<Entry>, n: Node): seq<Entry> {
    if s == [] then [] else if s[0].n == n then s[1..] else [s[0]] + Removed(s[1..], n)
  }

  lemma Regroup<T>(a: seq<T>, b: seq<T>, x: T, d: seq<T>, f: seq<T>)
    ensures a + (b + [x] + d) + f == (a + b) + [x] + (d + f)
  {
  }

  /** On a sorted sequence insertion is stable: behind every entry with a key no greater, ahead of the rest. */
  lemma {:induction false} InsertedBetween(a: seq<Entry>, e: Entry, b: seq<Entry>)
    requires AllAtMost(a, e.k) && AllAbove(b, e.k)
    ensures Inserted(a + b, e) == a + [e] + b
  {
    if a == [] {
      assert a + b == b;
    } else {
      InsertedBetween(a[1..], e, b);
      assert (a + b)[1..] == a[1..] + b;
      assert [a[0]] + (a[1..] + [e] + b) == a + [e] + b;
    }
  }

  lemma SortedBetween(a: seq<Entry>, e: Entry, b: seq<Entry>)
    requires Sorted(a + b) && AllAtMost(a, e.k) && AllAbove(b, e.k)
    ensures Sorted(a + [e] + b)
  {
    var s, w := a + b, a + [e] + b;
    forall i, j | 0 <= i < j < |w| ensures w[i].k <= w[j].k {
      assert i != |a| ==> w[i] == s[if i < |a| then i else i - 1];
      assert j != |a| ==> w[j] == s[if j < |a| then j else j - 1];
    }
  }

  lemma {:induction false} InsertedLeft(a: seq<Entry>, x: Entry, b: seq<Entry>, e: Entry)
    requires e.k < x.k
    ensures Inserted(a + [x] + b, e) == Inserted(a, e) + [x] + b
  {
    if a != [] {
      InsertedLeft(a[1..], x, b, e);
      assert (a + [x] + b)[1..] == a[1..] + [x] + b;
      assert [a[0]] + (Inserted(a[1..], e) + [x] + b) == ([a[0]] + Inserted(a[1..], e)) + [x] + b;
    } else {
      assert a + [x] + b == [x] + b;
      assert [e] + ([x] + b) == [e] + [x] + b;
    }
  }

  lemma {:induction false} InsertedRight(a: seq<Entry>, x: Entry, b: seq<Entry>, e: Entry)
    requires AllAtMost(a, e.k) && x.k <= e.k
    ensures Inserted(a + [x] + b, e) == a + [x] + Inserted(b, e)
  {
    if a != [] {
      InsertedRight(a[1..], x, b, e);
      assert (a + [x] + b)[1..] == a[1..] + [x] + b;
      assert [a[0]] + (a[1..] + [x] + Inserted(b, e)) == a + [x] + Inserted(b, e);
    } else {
      assert a + [x] + b == [x] + b && ([x] + b)[1..] == b;
    }
  }

  lemma {:induction false} RemovedBetween(a: seq<Entry>, e: Entry, b: seq<Entry>)
    requires forall i | 0 <= i < |a| :: a[i].n != e.n
    ensures Removed(a + [e] + b, e.n) == a + b
  {
    if a == [] {
      assert a + [e] + b == [e] + b;
    } else {
      RemovedBetween(a[1..], e, b);
      assert (a + [e] + b)[1..] == a[1..] + [e] + b;
      assert [a[0]] + (a[1..] + b) == a + b;
    }
  }

  lemma SortedParts(a: seq<Entry>, b: seq<Entry>)
    requires Sorted(a + b)
    ensures Sorted(a) && Sorted(b)
    ensures forall i, j | 0 <= i < |a| && 0 <= j < |b| :: a[i].k <= b[j].k
  {
    var s := a + b;
    assert forall i | 0 <= i < |a| :: a[i] == s[i];
    assert forall j | 0 <= j < |b| :: b[j] == s[|a| + j];
  }

  lemma SortedWithout(a: seq<Entry>, e: Entry, b: seq<Entry>)
    requires Sorted(a + [e] + b)
    ensures Sorted(a + b)
  {
    var s, w := a + [e] + b, a + b;
    forall i, j | 0 <= i < j < |w| ensures w[i].k <= w[j].k {
      assert w[i] == s[if i < |a| then i else i + 1];
      assert w[j] == s[if j < |a| then j else j + 1];
    }
  }

  // ----- trees and their in-order sequences

  ghost function NodeSet(s: seq<Entry>): set<Node> {
    set i | 0 <= i < |s| :: s[i].n
  }

  lemma NodeSetConcat(a: seq<Entry>, e: Entry, b: seq<Entry>)
    ensures NodeSet(a + [e] + b) == NodeSet(a) + {e.n} + NodeSet(b)
  {
    var s := a + [e] + b;
    forall n | n in NodeSet(a) + {e.n} + NodeSet(b) ensures n in NodeSet(s) {
      if n in NodeSet(a) {
        var i :| 0 <= i < |a| && a[i].n == n;
        assert s[i].n == n;
      } else if n == e.n {
        assert s[|a|].n == n;
      } else {
        var i :| 0 <= i < |b| && b[i].n == n;
        assert s[|a| + 1 + i].n == n;
      }
    }
  }

  lemma {:induction false} InorderNodes(t: Tree)
    ensures Nodes(t) == NodeSet(Inorder(t))
  {
    if t.Fork? {
      InorderNodes(t.l);
      InorderNodes(t.r);
      NodeSetConcat(Inorder(t.l), t.e, Inorder(t.r));
    }
  }

  lemma DistinctConcat(a: seq<Entry>, e: Entry, b: seq<Entry>)
    ensures DistinctNodes(a + [e] + b) <==>
      DistinctNodes(a) && DistinctNodes(b) && e.n !in NodeSet(a) && e.n !in NodeSet(b) && NodeSet(a) !! NodeSet(b)
  {
    var s := a + [e] + b;
    assert forall i | 0 <= i < |a| :: a[i] == s[i];
    assert forall i | 0 <= i < |b| :: b[i] == s[|a| + 1 + i];
    assert s[|a|] == e;
    if DistinctNodes(a) && DistinctNodes(b) && e.n !in NodeSet(a) && e.n !in NodeSet(b) && NodeSet(a) !! NodeSet(b) {
      forall i, j | 0 <= i < j < |s| ensures s[i].n != s[j].n {
        assert i < |a| ==> s[i] == a[i] && a[i].n in NodeSet(a);
        assert i > |a| ==> s[i] == b[i - |a| - 1];
        assert j < |a| ==> s[j] == a[j];
        assert j > |a| ==> s[j] == b[j - |a| - 1] && b[j - |a| - 1].n in NodeSet(b);
      }
    }
  }

  /** No node is linked twice exactly when the in-order sequence has no repetition. */
  lemma {:induction false} DistinctInorder(t: Tree)
    ensures Distinct(t) <==> DistinctNodes(Inorder(t))
  {
    if t.Fork? {
      DistinctInorder(t.l);
      DistinctInorder(t.r);
      InorderNodes(t.l);
      InorderNodes(t.r);
      DistinctConcat(Inorder(t.l), t.e, Inorder(t.r));
    }
  }

  lemma NodeSetPart(a: seq<Entry>, b: seq<Entry>)
    ensures NodeSet(a) <= NodeSet(a + b) && NodeSet(b) <= NodeSet(a + b)
  {
    var s := a + b;
    assert forall i | 0 <= i < |a| :: a[i] == s[i];
    assert forall i | 0 <= i < |b| :: b[i] == s[|a| + i];
  }

  /** The zipper at the `i`-th entry. */
  lemma {:induction false} ZipAt(c0: Ctx, t0: Tree, i: nat) returns (c: Ctx, t: Tree)
    requires i < |Inorder(t0)|
    ensures t.Fork? && Plug(c, t) == Plug(c0, t0) && t.e == Inorder(t0)[i]
    ensures |Before(c)| + |Inorder(t.l)| == |Before(c0)| + i
    decreases t0
  {
    var l := |Inorder(t0.l)|;
    if i < l {
      c, t := ZipAt(InL(c0, t0.e, t0.m, t0.r), t0.l, i);
    } else if i == l {
      c, t := c0, t0;
    } else {
      c, t := ZipAt(InR(c0, t0.l, t0.e, t0.m), t0.r, i - l - 1);
    }
  }

  lemma Slices<T>(a: seq<T>, x: T, b: seq<T>)
    ensures var s := a + [x] + b; s[..|a|] == a && s[|a|] == x && s[|a| + 1..] == b
  {
  }

  lemma ZipParts(c: Ctx, t: Tree)
    requires t.Fork?
    ensures var s, i := Inorder(Plug(c, t)), |Before(c)| + |Inorder(t.l)|;
      i < |s| && s[..i] == Before(c) + Inorder(t.l) && s[i] == t.e && s[i + 1..] == Inorder(t.r) + After(c)
  {
    hide Before, After;
    PlugInorder(c, t);
    Regroup(Before(c), Inorder(t.l), t.e, Inorder(t.r), After(c));
    Slices(Before(c) + Inorder(t.l), t.e, Inorder(t.r) + After(c));
  }

  lemma SegmentsApart(s: seq<Entry>, a: nat, b: nat, c: nat, d: nat)
    requires a <= b <= c <= d <= |s| && DistinctNodes(s)
    ensures NodeSet(s[a..b]) !! NodeSet(s[c..d])
  {
    forall n | n in NodeSet(s[a..b]) ensures n !in NodeSet(s[c..d]) {
      var i :| 0 <= i < b - a && s[a..b][i].n == n;
      assert s[a + i].n == n;
      assert forall j | 0 <= j < d - c :: s[c..d][j] == s[c + j];
    }
  }
}
