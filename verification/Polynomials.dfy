/** Polynomials over GF(2), by the exponents of their terms. */
module Polynomials {

  /** A set of exponents; a polynomial when it is bounded. */
  type Terms = iset<nat>

  const ZERO: Terms := iset{}

  ghost predicate Below(p: Terms, n: nat) {
    forall e: nat :: e in p ==> e < n
  }

  /** Addition has no carries: equal terms cancel. */
  ghost function Plus(p: Terms, q: Terms): Terms {
    iset e: nat | (e in p) != (e in q)
  }

  /** Multiplication by `x^k`. */
  ghost function TimesPower(p: Terms, k: nat): Terms {
    iset e: nat | Moved(p, k, e)
  }

  ghost predicate Moved(p: Terms, k: nat, e: nat) {
    k <= e && e - k in p
  }

  ghost function Scale(bit: bool, p: Terms): Terms {
    if bit then p else ZERO
  }

  /** The product of a list of coefficients, lowest first, with `g`. */
  ghost function Product(q: seq<bool>, g: Terms): Terms {
    if q == [] then ZERO else Plus(Scale(q[0], g), TimesPower(Product(q[1..], g), 1))
  }

  /** Some multiple of `g`, by a quotient of `n` coefficients, and `r` add up to `dividend`. */
  ghost predicate Leaves(dividend: Terms, g: Terms, n: nat, r: Terms) {
    exists q: seq<bool> :: |q| == n && dividend == Plus(Product(q, g), r)
  }

  // ---------------------------------------------------------------- sums and shifts

  lemma PlusLaws(p: Terms, q: Terms, r: Terms)
    ensures Plus(p, q) == Plus(q, p) && Plus(Plus(p, q), r) == Plus(p, Plus(q, r))
    ensures Plus(p, ZERO) == p == Plus(ZERO, p) && Plus(p, p) == ZERO
  {
    assert forall e: nat :: e in Plus(p, q) <==> e in Plus(q, p);
    assert forall e: nat :: e in Plus(Plus(p, q), r) <==> e in Plus(p, Plus(q, r));
  }

  lemma PowerOfSum(p: Terms, q: Terms, k: nat)
    ensures TimesPower(Plus(p, q), k) == Plus(TimesPower(p, k), TimesPower(q, k))
  {
    assert forall e: nat :: e in TimesPower(Plus(p, q), k) <==> e in Plus(TimesPower(p, k), TimesPower(q, k));
  }

  lemma PowerTwice(p: Terms, j: nat, k: nat)
    ensures TimesPower(TimesPower(p, j), k) == TimesPower(p, j + k) && TimesPower(p, 0) == p
  {
    assert forall e: nat :: e in TimesPower(TimesPower(p, j), k) <==> e in TimesPower(p, j + k);
    assert forall e: nat :: e in TimesPower(p, 0) <==> e in p;
  }

  /** `a + b` and `c + d` regrouped. */
  lemma PlusSwap(a: Terms, b: Terms, c: Terms, d: Terms)
    ensures Plus(Plus(a, b), Plus(c, d)) == Plus(Plus(a, c), Plus(b, d))
  {
    assert forall e: nat :: e in Plus(Plus(a, b), Plus(c, d)) <==> e in Plus(Plus(a, c), Plus(b, d));
  }

  // ---------------------------------------------------------------- products

  /** A coefficient put on top of the quotient adds a shifted `g`. */
  lemma {:induction false} ProductOnTop(q: seq<bool>, bit: bool, g: Terms)
    ensures Product(q + [bit], g) == Plus(Product(q, g), TimesPower(Scale(bit, g), |q|))
    decreases |q|
  {
    hide Plus, TimesPower, Scale;
    var top := Scale(bit, g);
    if q == [] {
      assert [bit][1..] == [] && q + [bit] == [bit];
      PowerTwice(top, 0, 0);
      PlusLaws(top, ZERO, ZERO);
      PlusLaws(ZERO, top, ZERO);
      ZeroPower(1);
    } else {
      assert (q + [bit])[1..] == q[1..] + [bit];
      ProductOnTop(q[1..], bit, g);
      PowerOfSum(Product(q[1..], g), TimesPower(top, |q| - 1), 1);
      PowerTwice(top, |q| - 1, 1);
      PlusLaws(Scale(q[0], g), TimesPower(Product(q[1..], g), 1), TimesPower(top, |q|));
    }
  }

  lemma ZeroPower(k: nat)
    ensures TimesPower(ZERO, k) == ZERO
  {
    assert forall e: nat :: e !in TimesPower(ZERO, k);
  }

  lemma {:induction false} ProductOfZeros(q: seq<bool>, g: Terms)
    requires true !in q
    ensures Product(q, g) == ZERO
  {
    if q != [] {
      assert q[0] != true && true !in q[1..];
      ProductOfZeros(q[1..], g);
      ZeroPower(1);
      PlusLaws(ZERO, ZERO, ZERO);
    }
  }

  function Sum(a: seq<bool>, b: seq<bool>): (c: seq<bool>)
    requires |a| == |b|
    ensures |c| == |a|
  {
    seq(|a|, i requires 0 <= i < |a| => a[i] != b[i])
  }

  lemma {:induction false} ProductOfSum(a: seq<bool>, b: seq<bool>, g: Terms)
    requires |a| == |b|
    ensures Product(Sum(a, b), g) == Plus(Product(a, g), Product(b, g))
    decreases |a|
  {
    if a == [] {
      PlusLaws(ZERO, ZERO, ZERO);
    } else {
      assert Sum(a, b)[1..] == Sum(a[1..], b[1..]);
      ScaleSum(a[0], b[0], g);
      hide Plus, TimesPower, Scale;
      ProductOfSum(a[1..], b[1..], g);
      var x, y := Product(a[1..], g), Product(b[1..], g);
      PowerOfSum(x, y, 1);
      PlusSwap(Scale(a[0], g), Scale(b[0], g), TimesPower(x, 1), TimesPower(y, 1));
    }
  }

  lemma ScaleSum(a: bool, b: bool, g: Terms)
    ensures Scale(a != b, g) == Plus(Scale(a, g), Scale(b, g))
  {
    PlusLaws(g, g, g);
    PlusLaws(ZERO, g, g);
    PlusLaws(ZERO, ZERO, g);
  }

  // ---------------------------------------------------------------- division

  /** `g` has degree `w`. */
  ghost predicate Degree(g: Terms, w: nat) {
    w in g && Below(g, w + 1)
  }

  /** A multiple of `g` other than zero has a term at or above its degree. */
  lemma {:induction false} MultipleIsHigh(q: seq<bool>, g: Terms, w: nat) returns (e: nat)
    requires Degree(g, w) && true in q
    ensures w <= e && e in Product(q, g)
    decreases |q|
  {
    if true in q[1..] {
      var f := MultipleIsHigh(q[1..], g, w);
      e := f + 1;
      assert e in TimesPower(Product(q[1..], g), 1) && e !in Scale(q[0], g);
    } else {
      assert q[0];
      ProductOfZeros(q[1..], g);
      e := w;
      assert e !in TimesPower(Product(q[1..], g), 1);
    }
  }

  /** Two remainders below the degree are the same. */
  lemma {:induction false} RemainderUnique(dividend: Terms, g: Terms, w: nat, n: nat, r: Terms, s: Terms)
    requires Degree(g, w) && Below(r, w) && Below(s, w)
    requires Leaves(dividend, g, n, r) && Leaves(dividend, g, n, s)
    ensures r == s
  {
    var a: seq<bool> :| |a| == n && dividend == Plus(Product(a, g), r);
    var b: seq<bool> :| |b| == n && dividend == Plus(Product(b, g), s);
    ProductOfSum(a, b, g);
    var both := Product(Sum(a, b), g);
    forall e: nat
      ensures e in both <==> (e in r) != (e in s)
    {
      assert e in dividend <==> (e in Product(a, g)) != (e in r);
      assert e in dividend <==> (e in Product(b, g)) != (e in s);
    }
    if true in Sum(a, b) {
      var e := MultipleIsHigh(Sum(a, b), g, w);
      assert false;
    }
    ProductOfZeros(Sum(a, b), g);
    assert forall e: nat :: e in r <==> e in s;
  }

  /** One coefficient of the dividend at a time: divide the leading part, then go on with what it leaves. */
  lemma {:induction false} LeavesOnTop(head: bool, g: Terms, n: nat, top: Terms, mid: Terms, low: Terms, r: Terms)
    requires top == Plus(Scale(head, g), mid)
    requires Leaves(Plus(low, TimesPower(mid, n)), g, n, r)
    ensures Leaves(Plus(low, TimesPower(top, n)), g, n + 1, r)
  {
    var q: seq<bool> :| |q| == n && Plus(low, TimesPower(mid, n)) == Plus(Product(q, g), r);
    hide Plus, TimesPower, Scale, Product;
    var g1 := TimesPower(Scale(head, g), n);
    ProductOnTop(q, head, g);
    PowerOfSum(Scale(head, g), mid, n);
    PlusLaws(g1, TimesPower(mid, n), ZERO);
    PlusLaws(low, TimesPower(mid, n), g1);
    PlusLaws(Product(q, g), r, g1);
    PlusLaws(r, g1, ZERO);
    PlusLaws(Product(q, g), g1, r);
    assert |q + [head]| == n + 1;
    assert Plus(low, TimesPower(top, n)) == Plus(Product(q + [head], g), r);
  }
}
