/** Products of natural numbers, by their laws: where `Times` is hidden nothing is left to multiply out. */
module Products {

  ghost function Times(a: nat, b: nat): (p: nat)
    ensures a > 0 && b > 0 ==> p > 0
  {
    a * b
  }

  ghost function Cube(n: nat): nat {
    Times(n, Times(n, n))
  }

  ghost function Power(x: nat, n: nat): nat {
    if n == 0 then 1 else Times(x, Power(x, n - 1))
  }

  lemma Comm(a: nat, b: nat)
    ensures Times(a, b) == Times(b, a)
  {
  }

  lemma Assoc(a: nat, b: nat, c: nat)
    ensures Times(Times(a, b), c) == Times(a, Times(b, c))
  {
  }

  lemma Mono(a: nat, b: nat, c: nat, d: nat)
    requires a <= c && b <= d
    ensures Times(a, b) <= Times(c, d)
  {
    assert a * b <= c * b <= c * d;
  }

  lemma More(a: nat, b: nat, g: nat)
    requires g > 0 && b < a
    ensures Times(b, g) < Times(a, g)
  {
    Mono(b + 1, g, a, g);
    assert Times(b + 1, g) == Times(b, g) + g;
  }

  lemma Cancel(a: nat, b: nat, g: nat)
    requires g > 0 && Times(a, g) <= Times(b, g)
    ensures a <= b
  {
    if b < a {
      More(a, b, g);
    }
  }

  lemma One(a: nat)
    ensures Times(1, a) == a == Times(a, 1)
  {
  }

  lemma Twice(a: nat)
    ensures Times(2, a) == 2 * a && Times(4, a) == 4 * a
  {
  }

  /** The square of a sum is at least four times the product. */
  lemma Means(a: nat, b: nat, c: nat)
    requires a + b <= c
    ensures Times(4, Times(a, b)) <= Times(c, c)
  {
    var d := c - a;
    Mono(a, b, a, d);
    Difference(a, d);
  }

  lemma Difference(a: nat, d: nat)
    ensures 4 * (a * d) <= (a + d) * (a + d)
  {
    assert (a + d) * (a + d) - 4 * (a * d) == (d - a) * (d - a);
  }

  /** The second factor goes first. */
  lemma Second(a: nat, b: nat, c: nat)
    ensures Times(a, Times(b, c)) == Times(b, Times(a, c))
  {
    hide Times;
    Assoc(a, b, c);
    Assoc(b, a, c);
    Comm(a, b);
  }

  /** The last two factors change places. */
  lemma Last(a: nat, b: nat, c: nat)
    ensures Times(Times(a, b), c) == Times(Times(a, c), b)
  {
    hide Times;
    Assoc(a, b, c);
    Assoc(a, c, b);
    Comm(b, c);
  }

  lemma Pull(x: nat, g: nat, m: nat, k: nat)
    ensures Times(x, Times(Times(g, m), k)) == Times(Times(x, m), Times(g, k))
  {
    hide Times;
    Comm(g, m);
    Assoc(m, g, k);
    Assoc(x, m, Times(g, k));
  }

  lemma Pairs(a: nat, b: nat, c: nat, d: nat)
    ensures Times(Times(a, b), Times(c, d)) == Times(Times(a, c), Times(b, d))
  {
    hide Times;
    Assoc(a, b, Times(c, d));
    Second(b, c, d);
    Assoc(a, c, Times(b, d));
  }

  lemma Turned(a: nat, b: nat, c: nat, d: nat)
    ensures Times(Times(a, b), Times(c, d)) == Times(Times(d, a), Times(b, c))
  {
    hide Times;
    Pairs(a, b, c, d);
    Comm(b, d);
    Pairs(a, c, d, b);
    Comm(a, d);
    Comm(b, c);
  }
}
