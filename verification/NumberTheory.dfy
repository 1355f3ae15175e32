/** Greatest common divisors, coprimality, and C++ integer division. */
module NumberTheory {

  import opened Arith

  function Abs(x: int): nat {
    if x < 0 then -x else x
  }

  /** `/` and `%` as C++ defines them: the quotient is cut off toward zero. */
  function Quot(a: int, b: int): int
    requires b != 0
  {
    var q := Abs(a) / Abs(b);
    if (a < 0) == (b < 0) then q else -q
  }

  function Rem(a: int, b: int): int
    requires b != 0
  {
    a - Quot(a, b) * b
  }

  /** `integer::gcd`, never negative. */
  function Gcd(a: int, b: int): nat
    decreases Abs(b)
  {
    if b == 0 then Abs(a) else Gcd(b, a % Abs(b))
  }

  // ---------------------------------------------------------------- divisibility

  ghost predicate Combines(u: int, a: int, v: int, b: int, g: int) {
    u * a + v * b == g
  }

  ghost predicate Coprime(a: int, b: int) {
    exists u, v :: Combines(u, a, v, b, 1)
  }

  /** The gcd divides both arguments. */
  lemma {:induction false} GcdDivides(a: int, b: int) returns (x: int, y: int)
    ensures a == x * Gcd(a, b) && b == y * Gcd(a, b)
    ensures a != 0 || b != 0 ==> Gcd(a, b) > 0
    decreases Abs(b)
  {
    if b == 0 {
      x, y := if a < 0 then -1 else 1, 0;
    } else {
      var q, r := GcdDivides(b, a % Abs(b));
      var g := Gcd(b, a % Abs(b));
      assert g == Gcd(a, b);
      hide Gcd;
      var s := EuclidStep(a, b);
      Distribute(s, q, r, g);
      x, y := s * q + r, q;
    }
  }

  lemma {:induction false} EuclidStep(a: int, b: int) returns (s: int)
    requires b != 0
    ensures a == s * b + a % Abs(b)
  {
    var m := Abs(b);
    s := if b < 0 then -(a / m) else a / m;
    assert s * b == a / m * m;
  }

  /** The gcd is an integer combination of its arguments. */
  lemma {:induction false} Bezout(a: int, b: int) returns (u: int, v: int)
    ensures Combines(u, a, v, b, Gcd(a, b))
    decreases Abs(b)
  {
    if b == 0 {
      u, v := if a < 0 then -1 else 1, 0;
    } else {
      var x, y := Bezout(b, a % Abs(b));
      var g := Gcd(b, a % Abs(b));
      assert g == Gcd(a, b);
      hide Gcd, Combines;
      var s := EuclidStep(a, b);
      CombineStep(a, b, s, a % Abs(b), x, y, g);
      u, v := y, x - y * s;
    }
  }

  lemma {:induction false} CombineStep(a: int, b: int, s: int, r: int, x: int, y: int, g: int)
    requires a == s * b + r && Combines(x, b, y, r, g)
    ensures Combines(y, a, x - y * s, b, g)
  {
    assert y * (s * b + r) == (y * s) * b + y * r;
    assert (x - y * s) * b == x * b - (y * s) * b;
  }

  /** Any common divisor divides the gcd, so the gcd is the greatest one. */
  lemma {:induction false} GcdGreatest(a: int, b: int, x: int, y: int, d: int) returns (k: int)
    requires a == x * d && b == y * d
    ensures Gcd(a, b) == k * d
  {
    hide Gcd;
    var u, v := Bezout(a, b);
    k := u * x + v * y;
    assert u * a == (u * x) * d && v * b == (v * y) * d;
  }

  lemma {:induction false} UnitFactor(x: int, g: int)
    requires x * g == 1 && g >= 0
    ensures g == 1
  {
    if g >= 2 {
      SmallMultiple(x, g);
    }
  }

  lemma {:induction false} CoprimeIffGcd(a: int, b: int)
    ensures Coprime(a, b) <==> Gcd(a, b) == 1
  {
    hide Gcd;
    if Coprime(a, b) {
      var u, v :| Combines(u, a, v, b, 1);
      var x, y := GcdDivides(a, b);
      var g := Gcd(a, b);
      assert (u * x + v * y) * g == u * (x * g) + v * (y * g);
      UnitFactor(u * x + v * y, g);
    }
    var u, v := Bezout(a, b);
  }

  // ---------------------------------------------------------------- coprime numbers

  lemma CoprimeSymmetric(a: int, b: int)
    requires Coprime(a, b)
    ensures Coprime(b, a)
  {
    var u, v :| Combines(u, a, v, b, 1);
    assert Combines(v, b, u, a, 1);
  }

  /** A number coprime to both factors is coprime to their product. */
  lemma {:induction false} CoprimeProduct(n: int, x: int, y: int)
    requires Coprime(n, x) && Coprime(n, y)
    ensures Coprime(n, x * y)
  {
    var u, v :| Combines(u, n, v, x, 1);
    var s, t :| Combines(s, n, t, y, 1);
    calc {
      1;
      (u * n + v * x) * (s * n + t * y);
      (u * n) * (s * n + t * y) + (v * x) * (s * n) + (v * x) * (t * y);
      { assert (u * n) * (s * n + t * y) == (u * (s * n + t * y)) * n; }
      { assert (v * x) * (s * n) == (v * x * s) * n; }
      { assert (v * x) * (t * y) == (v * t) * (x * y); }
      (u * (s * n + t * y)) * n + (v * x * s) * n + (v * t) * (x * y);
      (u * (s * n + t * y) + v * x * s) * n + (v * t) * (x * y);
    }
    assert Combines(u * (s * n + t * y) + v * x * s, n, v * t, x * y, 1);
  }

  /** Factors of a number inherit what it is coprime to. */
  lemma {:induction false} CoprimeFactor(n: int, x: int, y: int)
    requires Coprime(n, x * y)
    ensures Coprime(n, x) && Coprime(n, y)
  {
    var u, v :| Combines(u, n, v, x * y, 1);
    assert v * (x * y) == (v * y) * x == (v * x) * y;
    assert Combines(u, n, v * y, x, 1) && Combines(u, n, v * x, y, 1);
  }

  /** Adding multiples of one number does not change coprimality to it. */
  lemma {:induction false} CoprimeShift(n: int, b: int, k: int)
    requires Coprime(n, b)
    ensures Coprime(n + k * b, b)
  {
    var u, v :| Combines(u, n, v, b, 1);
    assert u * (n + k * b) == u * n + (u * k) * b;
    assert (v - u * k) * b == v * b - (u * k) * b;
    assert Combines(u, n + k * b, v - u * k, b, 1);
  }

  lemma {:induction false} CoprimeNegate(a: int, b: int)
    requires Coprime(a, b)
    ensures Coprime(-a, b) && Coprime(a, -b) && Coprime(-a, -b)
  {
    var u, v :| Combines(u, a, v, b, 1);
    assert u * a == (-u) * (-a) && v * b == (-v) * (-b);
    assert Combines(-u, -a, v, b, 1) && Combines(u, a, -v, -b, 1) && Combines(-u, -a, -v, -b, 1);
  }

  /** Dividing two numbers by their gcd leaves coprime quotients. */
  lemma {:induction false} Reduce(a: int, b: int) returns (x: int, y: int)
    requires a != 0 || b != 0
    ensures Gcd(a, b) > 0
    ensures a == x * Gcd(a, b) && b == y * Gcd(a, b) && Coprime(x, y)
    ensures x == Quot(a, Gcd(a, b)) && y == Quot(b, Gcd(a, b))
  {
    hide Gcd, Quot;
    x, y := GcdDivides(a, b);
    var g := Gcd(a, b);
    var u, v := Bezout(a, b);
    assert (u * x + v * y) * g == u * (x * g) + v * (y * g) == g;
    assert (u * x + v * y - 1) * g == 0;
    SmallMultiple(u * x + v * y - 1, g);
    assert Combines(u, x, v, y, 1);
    ExactQuot(x, g);
    ExactQuot(y, g);
  }

  /** C++ division is exact on multiples. */
  lemma {:induction false} ExactQuot(k: int, g: int)
    requires g != 0
    ensures Quot(k * g, g) == k && Rem(k * g, g) == 0
  {
    AbsProduct(k, g);
    QuotientUnique(Abs(k * g), Abs(g), Abs(k));
    SignOfProduct(k, g);
  }

  lemma {:induction false} AbsProduct(k: int, g: int)
    ensures Abs(k * g) == Abs(k) * Abs(g)
  {
    SignOfProduct(k, g);
  }

  lemma {:induction false} SignOfProduct(k: int, g: int)
    ensures k == 0 || g == 0 ==> k * g == 0
    ensures k > 0 && g > 0 ==> k * g > 0
    ensures k < 0 && g < 0 ==> k * g > 0
    ensures k < 0 && g > 0 ==> k * g < 0
    ensures k > 0 && g < 0 ==> k * g < 0
  {
    if k < 0 && g < 0 {
      assert k * g == (-k) * (-g);
    }
  }
}
