/** Fractions kept in lowest terms without renormalising, and their comparison by
    continued fractions. */
module Rational {

  import opened Arith
  import opened NumberTheory

  /** Lowest terms with a positive denominator. */
  ghost predicate Normal(n: int, d: int) {
    d > 0 && Coprime(n, d)
  }

  /** `n / d` and `p / q` are the same number (for nonzero `d` and `q`). */
  ghost predicate SameRatio(n: int, d: int, p: int, q: int) {
    n * q == p * d
  }

  // ---------------------------------------------------------------- arithmetic without renormalising

  lemma {:induction false} SameProduct(x: int, y: int, g: int, h: int)
    ensures (x * g) * (y * h) == (x * y) * (g * h)
  {
    assert (x * g) * (y * h) == x * (g * (y * h));
    assert g * (y * h) == y * (g * h);
  }

  lemma {:induction false} CoprimeParts(x: int, g: int, y: int, h: int)
    requires Coprime(x * g, y * h)
    ensures Coprime(x, y)
  {
    CoprimeFactor(x * g, y, h);
    CoprimeSymmetric(x * g, y);
    CoprimeFactor(y, x, g);
    CoprimeSymmetric(y, x);
  }

  /** Two numerators, each coprime to two denominators, give a fraction in lowest terms. */
  lemma {:induction false} CoprimeCross(a: int, c: int, b: int, d: int)
    requires Coprime(a, b) && Coprime(a, d) && Coprime(c, b) && Coprime(c, d)
    ensures Coprime(a * c, b * d)
  {
    CoprimeProduct(a, b, d);
    CoprimeProduct(c, b, d);
    CoprimeSymmetric(a, b * d);
    CoprimeSymmetric(c, b * d);
    CoprimeProduct(b * d, a, c);
    CoprimeSymmetric(b * d, a * c);
  }

  /** Cancelling crosswise before multiplying leaves lowest terms. */
  lemma {:induction false} CrossCancel(a: int, b: int, c: int, d: int)
    requires Coprime(a, b) && Coprime(c, d) && b != 0 && d != 0
    ensures var g, h := Gcd(a, d), Gcd(c, b);
            g > 0 && h > 0
            && var n, m := Quot(a, g) * Quot(c, h), Quot(b, h) * Quot(d, g);
               m != 0 && Coprime(n, m) && SameRatio(n, m, a * c, b * d) && (b > 0 && d > 0 ==> m > 0)
  {
    hide Gcd, Quot, Coprime;
    var g, h := Gcd(a, d), Gcd(c, b);
    var a1, d1 := Reduce(a, d);
    var c1, b1 := Reduce(c, b);
    CoprimeParts(a1, g, b1, h);
    CoprimeParts(c1, h, d1, g);
    CoprimeCross(a1, c1, b1, d1);
    SameProduct(a1, c1, g, h);
    SameProduct(b1, d1, h, g);
    SameProduct(a1 * c1, b1 * d1, 1, g * h);
    SignOfProduct(b1, d1);
    SignOfProduct(b1, h);
    SignOfProduct(d1, g);
  }

  /** Why `+=` need not renormalise: after bringing both fractions over the least common
      denominator, only the gcd of the new numerator with `g` can still cancel. */
  lemma {:induction false} SumCancel(a: int, b: int, c: int, d: int)
    requires Normal(a, b) && Normal(c, d)
    ensures var g := Gcd(b, d);
            g > 0
            && var b1 := Quot(b, g);
               var n := a * Quot(d, g) + c * b1;
               var h := Gcd(n, g);
               h > 0 && Normal(Quot(n, h), b1 * Quot(d, h))
               && SameRatio(Quot(n, h), b1 * Quot(d, h), a * d + c * b, b * d)
  {
    hide Gcd, Quot, Coprime;
    var g := Gcd(b, d);
    var b1, d1 := Reduce(b, d);
    var n := a * d1 + c * b1;
    assert Coprime(n, b1) && Coprime(n, d1) by {
      SumCoprime(a, b1, c, d1, g);
    }
    var h := Gcd(n, g);
    var n1, g1 := Reduce(n, g);
    assert d == (d1 * g1) * h;
    ExactQuot(d1 * g1, h);
    CoprimeParts(n1, h, b1, 1);
    CoprimeParts(n1, h, d1, 1);
    CoprimeProduct(n1, b1, d1);
    CoprimeProduct(n1, b1 * d1, g1);
    assert (b1 * d1) * g1 == b1 * (d1 * g1);
    SignOfProduct(b1, g);
    SignOfProduct(d1 * g1, h);
    SignOfProduct(b1, d1 * g1);
    SumRatio(a, b1, c, d1, g, n1, g1, h);
  }

  lemma {:induction false} NegateProduct(c: int, x: int)
    ensures (-c) * x == -(c * x)
  {
  }

  lemma {:induction false} DifferenceCancel(a: int, b: int, c: int, d: int)
    requires Normal(a, b) && Normal(c, d)
    ensures var g := Gcd(b, d);
            g > 0
            && var b1 := Quot(b, g);
               var n := a * Quot(d, g) - c * b1;
               var h := Gcd(n, g);
               h > 0 && Normal(Quot(n, h), b1 * Quot(d, h))
               && SameRatio(Quot(n, h), b1 * Quot(d, h), a * d - c * b, b * d)
  {
    CoprimeNegate(c, d);
    hide Quot, Gcd, Coprime, SameRatio;
    SumCancel(a, b, -c, d);
    NegateProduct(c, Quot(b, Gcd(b, d)));
    NegateProduct(c, b);
  }

  lemma {:induction false} SumCoprime(a: int, b1: int, c: int, d1: int, g: int)
    requires Coprime(a, b1 * g) && Coprime(c, d1 * g) && Coprime(b1, d1)
    ensures Coprime(a * d1 + c * b1, b1) && Coprime(a * d1 + c * b1, d1)
  {
    hide Coprime;
    CoprimeParts(a, 1, b1, g);
    CoprimeParts(c, 1, d1, g);
    CoprimeSymmetric(b1, d1);
    CoprimeSymmetric(a, b1);
    CoprimeProduct(b1, a, d1);
    CoprimeSymmetric(b1, a * d1);
    CoprimeShift(a * d1, b1, c);
    CoprimeSymmetric(c, d1);
    CoprimeProduct(d1, c, b1);
    CoprimeSymmetric(d1, c * b1);
    CoprimeShift(c * b1, d1, a);
  }

  lemma {:induction false} SumRatio(a: int, b1: int, c: int, d1: int, g: int, n1: int, g1: int, h: int)
    requires a * d1 + c * b1 == n1 * h && g == g1 * h
    ensures SameRatio(n1, b1 * (d1 * g1), a * (d1 * g) + c * (b1 * g), (b1 * g) * (d1 * g))
  {
    assert a * (d1 * g) + c * (b1 * g) == (a * d1 + c * b1) * g;
    assert (n1 * h) * g * (b1 * (d1 * g1)) == n1 * ((b1 * g) * (d1 * (g1 * h))) by {
      assert (b1 * g) * (d1 * (g1 * h)) == (h * g) * (b1 * (d1 * g1));
      assert (n1 * h) * g == n1 * (h * g);
    }
  }

  /** A fraction has only one form in lowest terms. */
  lemma {:induction false} LowestTermsUnique(n: int, d: int, p: int, q: int)
    requires Normal(n, d) && Normal(p, q) && SameRatio(n, d, p, q)
    ensures n == p && d == q
  {
    var k := DividesByEuclid(d, n, q, p);
    CrossSwap(n, d, p, q);
    var l := DividesByEuclid(q, p, d, n);
    MutualMultiples(d, q, k, l);
    assert (n - p) * d == 0;
    SmallMultiple(n - p, d);
  }

  lemma {:induction false} MutualMultiples(d: int, q: int, k: int, l: int)
    requires d > 0 && q > 0 && q == k * d && d == l * q
    ensures d == q
  {
    SignOfProduct(k, d);
    SignOfProduct(l, q);
    ProductMonotone(1, d, k, d);
    ProductMonotone(1, q, l, q);
  }

  lemma {:induction false} CrossSwap(n: int, d: int, p: int, q: int)
    requires SameRatio(n, d, p, q)
    ensures SameRatio(p, q, n, d)
  {
  }

  /** Euclid's lemma: if `n * q == p * d` and `n`, `d` are coprime, `d` divides `q`. */
  lemma {:induction false} DividesByEuclid(d: int, n: int, q: int, p: int) returns (k: int)
    requires Coprime(n, d) && n * q == p * d
    ensures q == k * d
  {
    var u, v :| Combines(u, n, v, d, 1);
    k := u * p + v * q;
    assert (u * n + v * d) * q == u * (n * q) + v * d * q;
    assert k * d == u * (p * d) + v * q * d;
  }

  // ---------------------------------------------------------------- normalisation

  function InnerGcd(a: int, b: int): int
    decreases Abs(b)
  {
    RemRange(a, b);
    if b == 0 then a else InnerGcd(b, Rem(a, b))
  }

  /** `is_normalized`: the gcd here follows C++ remainders and may come out negative. */
  predicate IsNormalized(n: int, d: int) {
    d > 0 && (n != 0 || d == 1) && Abs(InnerGcd(n, d)) == 1
  }

  /** The C++ remainder has the sign of the dividend and is smaller than the divisor. */
  lemma {:induction false} RemRange(a: int, b: int)
    ensures b != 0 ==> Rem(a, b) == if a < 0 then -(Abs(a) % Abs(b)) else Abs(a) % Abs(b)
    ensures b != 0 ==> Abs(Rem(a, b)) < Abs(b)
    ensures b != 0 ==> a == Quot(a, b) * b + Rem(a, b)
  {
    if b != 0 {
      SignedProduct(Abs(a) / Abs(b), b);
      DivMod(Abs(a), Abs(b));
    }
  }

  lemma {:induction false} SignedProduct(q: int, b: int)
    ensures q * Abs(b) == if b < 0 then -(q * b) else q * b
    ensures (-q) * b == -(q * b)
  {
  }

  lemma {:induction false} CombineSelf(a: int, b: int)
    ensures Combines(1, a, 0, b, a)
  {
  }

  lemma {:induction false} InnerGcdCombines(a: int, b: int) returns (u: int, v: int)
    ensures Combines(u, a, v, b, InnerGcd(a, b))
    decreases Abs(b)
  {
    hide Quot, Rem, Combines;
    if b == 0 {
      CombineSelf(a, b);
      u, v := 1, 0;
    } else {
      RemRange(a, b);
      var x, y := InnerGcdCombines(b, Rem(a, b));
      CombineStep(a, b, Quot(a, b), Rem(a, b), x, y, InnerGcd(a, b));
      u, v := y, x - y * Quot(a, b);
    }
  }

  lemma {:induction false} InnerGcdDivides(a: int, b: int) returns (x: int, y: int)
    ensures a == x * InnerGcd(a, b) && b == y * InnerGcd(a, b)
    decreases Abs(b)
  {
    if b == 0 {
      x, y := 1, 0;
    } else {
      RemRange(a, b);
      var q, r := InnerGcdDivides(b, Rem(a, b));
      Distribute(Quot(a, b), q, r, InnerGcd(a, b));
      x, y := Quot(a, b) * q + r, q;
    }
  }

  lemma {:induction false} UnitIsCoprime(n: int, d: int)
    requires Abs(InnerGcd(n, d)) == 1
    ensures Coprime(n, d)
  {
    hide InnerGcd;
    var g := InnerGcd(n, d);
    var u, v := InnerGcdCombines(n, d);
    assert (u * g) * n + (v * g) * d == (u * n + v * d) * g;
    assert Combines(u * g, n, v * g, d, 1);
  }

  lemma {:induction false} CoprimeIsUnit(n: int, d: int)
    requires Coprime(n, d)
    ensures Abs(InnerGcd(n, d)) == 1
  {
    hide InnerGcd;
    var g := InnerGcd(n, d);
    var s, t :| Combines(s, n, t, d, 1);
    var x, y := InnerGcdDivides(n, d);
    var k := s * x + t * y;
    assert k * g == s * (x * g) + t * (y * g);
    UnitFactor(if g < 0 then -k else k, Abs(g));
  }

  /** The conversion check accepts exactly the lowest-terms fractions. */
  lemma {:induction false} IsNormalizedExact(n: int, d: int)
    ensures IsNormalized(n, d) <==> Normal(n, d)
  {
    hide InnerGcd;
    if IsNormalized(n, d) {
      UnitIsCoprime(n, d);
    }
    if Normal(n, d) {
      CoprimeIsUnit(n, d);
      if n == 0 {
        var u, v :| Combines(u, n, v, d, 1);
        UnitFactor(v, d);
      }
    }
  }

  lemma {:induction false} LowestTerms(n: int, d: int)
    requires d != 0
    ensures Gcd(n, d) > 0
    ensures var p, q := Quot(n, Gcd(n, d)), Quot(d, Gcd(n, d));
            q != 0 && Coprime(p, q) && Coprime(-p, -q) && SameRatio(p, q, n, d) && SameRatio(-p, -q, n, d)
  {
    hide Quot, Gcd, Coprime;
    var p, q := Reduce(n, d);
    CoprimeNegate(p, q);
    ScaledRatio(p, q, Gcd(n, d));
    SignOfProduct(q, Gcd(n, d));
  }

  lemma {:induction false} ScaledRatio(p: int, q: int, g: int)
    ensures SameRatio(p, q, p * g, q * g) && SameRatio(-p, -q, p * g, q * g)
  {
    assert p * (q * g) == (p * g) * q;
    assert (-p) * (q * g) == (p * g) * (-q);
  }

  // ---------------------------------------------------------------- the class

  class Rational {
    var num: int
    var den: int

    ghost predicate Valid()
      reads this
    {
      Normal(num, den)
    }

    constructor (n: int)
      ensures Valid() && num == n && den == 1
    {
      num, den := n, 1;
      new;
      assert Combines(0, num, 1, den, 1);
    }

    /** `assign`, through the normalising constructor; false stands for `bad_rational`, thrown
        before the object is touched. */
    method Assign(n: int, d: int) returns (ok: bool)
      requires Valid()
      modifies this
      ensures Valid() && (ok <==> d != 0)
      ensures ok ==> SameRatio(num, den, n, d)
      ensures !ok ==> num == old(num) && den == old(den)
    {
      if d == 0 {
        return false;
      }
      if n == 0 {
        num, den := 0, 1;
        assert Combines(0, num, 1, den, 1);
        return true;
      }
      hide Quot, Gcd, Coprime, SameRatio;
      LowestTerms(n, d);
      var g := Gcd(n, d);
      num, den := Quot(n, g), Quot(d, g);
      if den < 0 {
        num, den := -num, -den;
      }
      return true;
    }

    /** `+=`, safe when `r` is this object. */
    method AddAssign(r: Rational)
      requires Valid() && r.Valid()
      modifies this
      ensures Valid()
      ensures SameRatio(num, den, old(num * r.den + r.num * den), old(den * r.den))
    {
      hide Quot, Gcd, Coprime, SameRatio;
      var rNum, rDen := r.num, r.den;
      SumCancel(num, den, rNum, rDen);
      var g := Gcd(den, rDen);
      den := Quot(den, g);
      num := num * Quot(rDen, g) + rNum * den;
      g := Gcd(num, g);
      num := Quot(num, g);
      den := den * Quot(rDen, g);
    }

    method SubtractAssign(r: Rational)
      requires Valid() && r.Valid()
      modifies this
      ensures Valid()
      ensures SameRatio(num, den, old(num * r.den - r.num * den), old(den * r.den))
    {
      hide Quot, Gcd, Coprime, SameRatio;
      var rNum, rDen := r.num, r.den;
      DifferenceCancel(num, den, rNum, rDen);
      var g := Gcd(den, rDen);
      den := Quot(den, g);
      num := num * Quot(rDen, g) - rNum * den;
      g := Gcd(num, g);
      num := Quot(num, g);
      den := den * Quot(rDen, g);
    }

    method MultiplyAssign(r: Rational)
      requires Valid() && r.Valid()
      modifies this
      ensures Valid()
      ensures SameRatio(num, den, old(num * r.num), old(den * r.den))
    {
      hide Quot, Gcd, Coprime, SameRatio;
      var rNum, rDen := r.num, r.den;
      CrossCancel(num, den, rNum, rDen);
      var gcd1 := Gcd(num, rDen);
      var gcd2 := Gcd(rNum, den);
      num := Quot(num, gcd1) * Quot(rNum, gcd2);
      den := Quot(den, gcd2) * Quot(rDen, gcd1);
    }

    /** `/=`; false stands for `bad_rational`. */
    method DivideAssign(r: Rational) returns (ok: bool)
      requires Valid() && r.Valid()
      modifies this
      ensures Valid() && (ok <==> old(r.num) != 0)
      ensures ok ==> SameRatio(num, den, old(num * r.den), old(den * r.num))
      ensures !ok ==> num == old(num) && den == old(den)
    {
      var rNum, rDen := r.num, r.den;
      if rNum == 0 {
        return false;
      }
      if num == 0 {
        return true;
      }
      CoprimeSymmetric(rNum, rDen);
      hide Quot, Gcd, Coprime, SameRatio;
      CrossCancel(num, den, rDen, rNum);
      var gcd1 := Gcd(num, rNum);
      var gcd2 := Gcd(rDen, den);
      num := Quot(num, gcd1) * Quot(rDen, gcd2);
      den := Quot(den, gcd2) * Quot(rNum, gcd1);
      if den < 0 {
        FlipSigns(num, den, old(num) * rDen, old(den) * rNum);
        num, den := -num, -den;
      }
      return true;
    }

    method AddInteger(i: int)
      requires Valid()
      modifies this
      ensures Valid() && den == old(den) && num == old(num) + i * old(den)
    {
      CoprimeShift(num, den, i);
      num := num + i * den;
    }

    method SubtractInteger(i: int)
      requires Valid()
      modifies this
      ensures Valid() && den == old(den) && num == old(num) - i * old(den)
    {
      CoprimeShift(num, den, -i);
      assert (-i) * den == -(i * den);
      num := num - i * den;
    }

    method MultiplyInteger(i: int)
      requires Valid()
      modifies this
      ensures Valid() && SameRatio(num, den, old(num) * i, old(den))
    {
      assert Combines(0, i, 1, 1, 1);
      GcdOfOne(num);
      hide Quot, Gcd, Coprime, SameRatio;
      CrossCancel(num, den, i, 1);
      var gcd := Gcd(i, den);
      num := num * Quot(i, gcd);
      den := Quot(den, gcd);
    }

    method DivideInteger(i: int) returns (ok: bool)
      requires Valid()
      modifies this
      ensures Valid() && (ok <==> i != 0)
      ensures ok ==> SameRatio(num, den, old(num), old(den) * i)
      ensures !ok ==> num == old(num) && den == old(den)
    {
      if i == 0 {
        return false;
      }
      if num == 0 {
        return true;
      }
      assert Combines(1, 1, 0, i, 1);
      GcdOfOne(den);
      hide Quot, Gcd, Coprime, SameRatio;
      CrossCancel(num, den, 1, i);
      var gcd := Gcd(num, i);
      num := Quot(num, gcd);
      den := den * Quot(i, gcd);
      if den < 0 {
        FlipSigns(num, den, old(num), old(den) * i);
        num, den := -num, -den;
      }
      return true;
    }

    /** `operator==` on lowest terms is equality of the numbers. */
    method Equals(r: Rational) returns (same: bool)
      requires Valid() && r.Valid()
      ensures same <==> SameRatio(num, den, r.num, r.den)
    {
      same := num == r.num && den == r.den;
      if SameRatio(num, den, r.num, r.den) {
        LowestTermsUnique(num, den, r.num, r.den);
      }
    }

    /** `operator<`: both numbers are expanded into continued fractions, one quotient at a time,
        and every reciprocal turns the comparison round. */
    method Less(r: Rational) returns (less: bool)
      requires Valid() && r.Valid()
      ensures less <==> Below(num, den, r.num, r.den)
    {
      hide Below, Coprime;
      var tn, td, tq, tr := num, den, Quot(num, den), Rem(num, den);
      var rn, rd, rq, rr := r.num, r.den, Quot(r.num, r.den), Rem(r.num, r.den);
      var reverse := false;
      RemRange(num, den);
      RemRange(r.num, r.den);
      hide Quot, Rem;
      while tr < 0
        invariant Expansion(tn, td, tq, tr) && -td < tr
        decreases -tr
      {
        NextQuotient(tn, td, tq, tr);
        tr := tr + td;
        tq := tq - 1;
      }
      while rr < 0
        invariant Expansion(rn, rd, rq, rr) && -rd < rr
        decreases -rr
      {
        NextQuotient(rn, rd, rq, rr);
        rr := rr + rd;
        rq := rq - 1;
      }
      ghost var answer := Below(num, den, r.num, r.den);
      while true
        invariant Expansion(tn, td, tq, tr) && 0 <= tr
        invariant Expansion(rn, rd, rq, rr) && 0 <= rr
        invariant answer <==> if reverse then Below(rn, rd, tn, td) else Below(tn, td, rn, rd)
        decreases td
      {
        if tq != rq {
          FirstDifference(tn, td, tq, tr, rn, rd, rq, rr);
          return if reverse then tq > rq else tq < rq;
        }
        SameQuotient(tn, td, tq, tr, rn, rd, rr);
        reverse := !reverse;
        if tr == 0 || rr == 0 {
          break;
        }
        tn, td := td, tr;
        tq, tr := tn / td, tn % td;
        rn, rd := rd, rr;
        rq, rr := rn / rd, rn % rd;
      }
      LastQuotient(td, tr, rd, rr);
      if tr == rr {
        return false;
      } else {
        return (tr != 0) != reverse;
      }
    }

    /** `operator<` against an integer: compares the floor. */
    method LessInteger(i: int) returns (less: bool)
      requires Valid()
      ensures less <==> Below(num, den, i, 1)
    {
      var q, rest := Quot(num, den), Rem(num, den);
      RemRange(num, den);
      hide Quot, Rem;
      while rest < 0
        invariant Expansion(num, den, q, rest)
        decreases -rest
      {
        NextQuotient(num, den, q, rest);
        rest := rest + den;
        q := q - 1;
      }
      FloorBelow(num, den, q, rest, i);
      return q < i;
    }
  }

  // ---------------------------------------------------------------- continued fractions

  /** `n / d < p / q`, for positive denominators. */
  ghost predicate Below(n: int, d: int, p: int, q: int) {
    n * q < p * d
  }

  /** One step of an expansion: quotient and rest of `n / d`. */
  ghost predicate Expansion(n: int, d: int, q: int, r: int) {
    d > 0 && n == q * d + r && r < d
  }

  lemma {:induction false} NextQuotient(n: int, d: int, q: int, r: int)
    requires Expansion(n, d, q, r) && r < 0
    ensures Expansion(n, d, q - 1, r + d)
  {
    assert (q - 1) * d == q * d - d;
  }

  /** With different quotients the quotients decide. */
  lemma {:induction false} FirstDifference(tn: int, td: int, tq: int, tr: int, rn: int, rd: int, rq: int, rr: int)
    requires Expansion(tn, td, tq, tr) && 0 <= tr && Expansion(rn, rd, rq, rr) && 0 <= rr
    requires tq != rq
    ensures Below(tn, td, rn, rd) <==> tq < rq
    ensures Below(rn, rd, tn, td) <==> rq < tq
  {
    if tq < rq {
      SmallerQuotient(tn, td, tq, tr, rn, rd, rq, rr);
    } else {
      SmallerQuotient(rn, rd, rq, rr, tn, td, tq, tr);
    }
  }

  lemma {:induction false} SmallerQuotient(tn: int, td: int, tq: int, tr: int, rn: int, rd: int, rq: int, rr: int)
    requires Expansion(tn, td, tq, tr) && 0 <= tr && Expansion(rn, rd, rq, rr) && 0 <= rr
    requires tq < rq
    ensures Below(tn, td, rn, rd)
  {
    assert (tq + 1) * td == tq * td + td;
    assert tn * rd < ((tq + 1) * td) * rd;
    assert (rq * rd) * td <= rn * td;
    assert ((tq + 1) * td) * rd == (tq + 1) * (td * rd);
    assert (rq * rd) * td == rq * (td * rd);
    assert (rq - (tq + 1)) * (td * rd) >= 0;
  }

  /** With equal quotients the rests decide, and their reciprocals the other way round. */
  lemma {:induction false} SameQuotient(tn: int, td: int, q: int, tr: int, rn: int, rd: int, rr: int)
    requires tn == q * td + tr && rn == q * rd + rr
    ensures Below(tn, td, rn, rd) <==> Below(rd, rr, td, tr)
    ensures Below(rn, rd, tn, td) <==> Below(td, tr, rd, rr)
  {
    assert tn * rd == q * (td * rd) + tr * rd;
    assert rn * td == q * (td * rd) + rr * td;
  }

  /** An expansion that has ended counts as having an infinite next quotient. */
  lemma {:induction false} LastQuotient(td: int, tr: int, rd: int, rr: int)
    requires 0 <= tr < td && 0 <= rr < rd && (tr == 0 || rr == 0)
    ensures Below(rd, rr, td, tr) <==> tr == 0 && rr != 0
    ensures Below(td, tr, rd, rr) <==> rr == 0 && tr != 0
  {
    SignOfProduct(rd, tr);
    SignOfProduct(td, rr);
  }

  lemma {:induction false} FloorBelow(n: int, d: int, q: int, r: int, i: int)
    requires Expansion(n, d, q, r) && 0 <= r
    ensures Below(n, d, i, 1) <==> q < i
  {
    if q < i {
      ProductMonotone(1, d, i - q, d);
      assert (i - q) * d == i * d - q * d;
    } else {
      ProductMonotone(0, d, q - i, d);
      assert (q - i) * d == q * d - i * d;
    }
  }

  lemma {:induction false} FlipSigns(n: int, d: int, p: int, q: int)
    requires Coprime(n, d) && SameRatio(n, d, p, q)
    ensures Coprime(-n, -d) && SameRatio(-n, -d, p, q)
  {
    CoprimeNegate(n, d);
    assert (-n) * q == -(n * q) && p * (-d) == -(p * d);
  }

  lemma {:induction false} GcdOfOne(n: int)
    ensures Gcd(n, 1) == 1 && Gcd(1, n) == 1 && Quot(n, 1) == n && Quot(1, 1) == 1
  {
    assert Combines(0, n, 1, 1, 1) && Combines(1, 1, 0, n, 1);
    CoprimeIffGcd(n, 1);
    CoprimeIffGcd(1, n);
    ExactQuot(n, 1);
  }
}
