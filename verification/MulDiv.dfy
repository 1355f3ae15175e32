/** 64x64/64 multiply-divide on machine words: the word-only branch of
    `muldiv64` against its 128-bit one-line form. */
module MulDiv {

  import opened Arith

  const BASE: int := 0x1_0000_0000
  const WORD: int := 0x1_0000_0000_0000_0000
  const MAXDIV: int := WORD - 1

  /** A std::uint64_t. */
  type Word = x: int | 0 <= x < WORD

  // Unsigned machine arithmetic: every sum, difference and product is taken modulo 2^64.
  function Add(x: Word, y: Word): Word { (x + y) % WORD }

  function Sub(x: Word, y: Word): Word { (x - y) % WORD }

  function Mul(x: Word, y: Word): Word { (x * y) % WORD }

  lemma {:induction false} QuotientFits(x: Word, c: Word)
    requires c > 0
    ensures 0 <= x / c < WORD && 0 <= x % c < c
  {
    QuotientAtLeast(x, c, 0);
    ProductMonotone(WORD, 1, WORD, c);
    QuotientBelow(x, c, WORD);
  }

  function Div(x: Word, y: Word): (q: Word)
    requires y > 0
    ensures q == x / y
  {
    QuotientFits(x, y);
    x / y
  }

  function Mod(x: Word, y: Word): (r: Word)
    requires y > 0
    ensures r == x % y && r < y
  {
    QuotientFits(x, y);
    x % y
  }

  /** The 128-bit branch: an exact product and quotient, then the cast back to 64 bits. */
  function Wide(a: Word, b: Word, c: Word): Word
    requires c > 0
  {
    (a * b / c) % WORD
  }

  /** Splitting off the whole multiples of `c` leaves a quotient of the two remainders. */
  lemma {:induction false} SplitProduct(a: int, b: int, c: int)
    requires c > 0
    ensures a * b / c == (a / c) * b + (a % c) * (b / c) + (a % c) * (b % c) / c
  {
    var qa, ra, qb, rb := a / c, a % c, b / c, b % c;
    var u, v := qa * b, ra * qb;
    Distribute(qa, c, ra, b);
    Distribute(qb, c, rb, ra);
    assert a * b == ra * rb + (u + v) * c;
    ModShift(ra * rb, u + v, c);
  }

  /** Scaling by `maxdiv / c` brings the divisor's top bit to the top of the word. */
  lemma {:induction false} Normalised(c: int)
    requires 0 < c < WORD
    ensures var n := MAXDIV / c; 1 <= n && WORD / 2 <= c * n < WORD
  {
    var n := MAXDIV / c;
    QuotientAtLeast(MAXDIV, c, 1);
    assert c * n == n * c;
    assert MAXDIV - c < n * c <= MAXDIV;
    if n >= 2 {
      ProductMonotone(2, c, n, c);
    }
  }

  lemma {:induction false} ScaledQuotient(x: int, c: int, n: int)
    requires c > 0 && n > 0
    ensures (x * n) / (c * n) == x / c
  {
    var q := x / c;
    assert q * (c * n) == (q * c) * n;
    assert (q * c) * n <= x * n;
    assert x * n < (q * c + c) * n;
    assert (q * c + c) * n == q * (c * n) + c * n;
    QuotientUnique(x * n, c * n, q);
  }

  /** The digit estimated from the leading divisor digit is never below the true one. */
  lemma {:induction false} EstimateNotBelow(hi: int, lo: int, ch: int, cl: int)
    requires 0 < ch && 0 <= cl && 0 <= lo < BASE && 0 <= hi
    ensures (hi * BASE + lo) / (ch * BASE + cl) <= hi / ch
  {
    var e := hi / ch;
    assert (e + 1) * (ch * BASE + cl) == (e + 1) * ch * BASE + (e + 1) * cl;
    ProductMonotone(0, 0, e + 1, cl);
    assert hi + 1 <= (e + 1) * ch;
    QuotientBelow(hi * BASE + lo, ch * BASE + cl, e + 1);
  }

  /** Knuth's bound: with a normalised divisor the estimate is at most two too large. */
  lemma {:induction false} EstimateWithinTwo(hi: int, lo: int, ch: int, cl: int)
    requires BASE / 2 <= ch < BASE && 0 <= cl < BASE && 0 <= lo
    requires 0 <= hi < ch * BASE + cl
    ensures hi / ch <= (hi * BASE + lo) / (ch * BASE + cl) + 2
  {
    var e := hi / ch;
    assert e * ch <= hi;
    assert hi < (BASE + 2) * ch;
    QuotientBelow(hi, ch, BASE + 2);
    if e >= 2 {
      ProductMonotone(e - 2, cl, BASE - 1, BASE - 1);
      assert (e - 2) * (ch * BASE + cl) == (e * ch) * BASE - 2 * ch * BASE + (e - 2) * cl;
      QuotientAtLeast(hi * BASE + lo, ch * BASE + cl, e - 2);
    } else {
      QuotientAtLeast(hi * BASE + lo, ch * BASE + cl, 0);
    }
  }

  lemma {:induction false} DigitRange(hi: int, lo: int, c: int)
    requires 0 <= hi < c && 0 <= lo < BASE
    ensures 0 <= (hi * BASE + lo) / c < BASE
  {
    QuotientBelow(hi * BASE + lo, c, BASE);
    QuotientAtLeast(hi * BASE + lo, c, 0);
  }

  /** The comparison the correction loop makes is exact. */
  lemma {:induction false} CorrectionTest(hi: int, lo: int, ch: int, cl: int, q: int, rhat: int)
    requires 0 < ch && 0 <= cl && 0 <= lo && hi == q * ch + rhat
    ensures q * cl > rhat * BASE + lo <==> (hi * BASE + lo) / (ch * BASE + cl) < q
  {
    var c := ch * BASE + cl;
    assert q * c == (hi - rhat) * BASE + q * cl;
    if q * cl > rhat * BASE + lo {
      QuotientBelow(hi * BASE + lo, c, q);
    } else {
      QuotientAtLeast(hi * BASE + lo, c, q);
    }
  }

  /** The products and the sum of the loop test fit in 64 bits. */
  lemma {:induction false} TestFits(q: Word, cl: Word, rhat: Word, lo: Word)
    requires q < BASE && cl < BASE && rhat < BASE && lo < BASE
    ensures Mul(q, cl) == q * cl
    ensures Add(Mul(rhat, BASE), lo) == rhat * BASE + lo
  {
    ProductMonotone(q, cl, BASE - 1, BASE - 1);
  }

  /** A correction step neither borrows nor overflows. */
  lemma {:induction false} StepDown(q: Word, rhat: Word, ch: Word)
    requires 1 <= q && ch < BASE && rhat < 4 * BASE
    ensures Sub(q, 1) == q - 1 && Add(rhat, ch) == rhat + ch
    ensures (q - 1) * ch + (rhat + ch) == q * ch + rhat
  {
  }

  /** The test of the two correction loops. */
  predicate TooLarge(q: Word, rhat: Word, cl: Word, lo: Word) {
    q >= BASE || (rhat < BASE && Mul(q, cl) > Add(Mul(rhat, BASE), lo))
  }

  ghost predicate IsDigit(q: int, hi: int, lo: int, ch: int, cl: int) {
    q * (ch * BASE + cl) <= hi * BASE + lo < (q + 1) * (ch * BASE + cl)
  }

  /** The loop test holds exactly while the estimate is above the true digit. */
  lemma {:induction false} TooLargeExact(hi: Word, lo: Word, ch: Word, cl: Word, q: Word, rhat: Word, exact: int)
    requires 0 < ch && cl < BASE && lo < BASE && hi < ch * BASE + cl
    requires hi == q * ch + rhat && IsDigit(exact, hi, lo, ch, cl)
    ensures TooLarge(q, rhat, cl, lo) <==> exact < q
  {
    DigitIsQuotient(exact, hi, lo, ch, cl);
    DigitRange(hi, lo, ch * BASE + cl);
    CorrectionTest(hi, lo, ch, cl, q, rhat);
    if q < BASE {
      ProductMonotone(q, cl, BASE - 1, BASE - 1);
      if rhat < BASE {
        TestFits(q, cl, rhat, lo);
      }
    }
  }

  lemma {:induction false} DigitIsQuotient(q: int, hi: int, lo: int, ch: int, cl: int)
    requires ch * BASE + cl > 0 && IsDigit(q, hi, lo, ch, cl)
    ensures q == (hi * BASE + lo) / (ch * BASE + cl)
  {
    QuotientUnique(hi * BASE + lo, ch * BASE + cl, q);
  }

  /** The true digit `exact`, and how far above it the first estimate can lie. */
  lemma {:induction false} EstimateBounds(hi: Word, lo: Word, ch: Word, cl: Word) returns (exact: int)
    requires BASE / 2 <= ch < BASE && cl < BASE && lo < BASE && hi < ch * BASE + cl
    ensures IsDigit(exact, hi, lo, ch, cl) && 0 <= exact < BASE
    ensures exact <= Div(hi, ch) <= exact + 2
    ensures hi == Div(hi, ch) * ch + Mod(hi, ch)
  {
    exact := (hi * BASE + lo) / (ch * BASE + cl);
    EstimateNotBelow(hi, lo, ch, cl);
    EstimateWithinTwo(hi, lo, ch, cl);
    DigitRange(hi, lo, ch * BASE + cl);
  }

  /** One quotient digit in base 2^32: estimate from the leading digits, then correct.
      `steps` counts the passes of the correction loop. */
  method QuotientDigit(hi: Word, lo: Word, ch: Word, cl: Word) returns (q: Word, ghost steps: nat)
    requires BASE / 2 <= ch < BASE && cl < BASE && lo < BASE
    requires hi < ch * BASE + cl
    ensures q == (hi * BASE + lo) / (ch * BASE + cl)
    ensures q < BASE
    ensures steps <= 2
  {
    hide TooLarge, IsDigit, Add, Sub;
    ghost var exact := EstimateBounds(hi, lo, ch, cl);
    q := Div(hi, ch);
    var rhat := Mod(hi, ch);
    steps := 0;
    TooLargeExact(hi, lo, ch, cl, q, rhat, exact);
    while TooLarge(q, rhat, cl, lo)
      invariant 0 <= q <= BASE + 1 && 0 <= rhat < 4 * BASE
      invariant exact <= q <= exact + 2 - steps
      invariant rhat < (steps + 1) * BASE
      invariant hi == q * ch + rhat
      invariant TooLarge(q, rhat, cl, lo) <==> exact < q
      decreases q
    {
      StepDown(q, rhat, ch);
      q := Sub(q, 1);
      rhat := Add(rhat, ch);
      steps := steps + 1;
      TooLargeExact(hi, lo, ch, cl, q, rhat, exact);
    }
    DigitIsQuotient(q, hi, lo, ch, cl);
  }

  /** One column of the schoolbook product: a digit product plus a carry fits in a word. */
  lemma {:induction false} ColumnFits(x: Word, y: Word, carry: Word)
    requires x < BASE && y < BASE && carry < BASE
    ensures Mul(x, y) == x * y && Add(carry, Mul(x, y)) == carry + x * y
  {
    ProductMonotone(x, y, BASE - 1, BASE - 1);
  }

  /** The 128-bit product as two words: `p2` above, `p1 * BASE + p0` below. */
  method Product(a: Word, b: Word) returns (p2: Word, p1: Word, p0: Word)
    ensures p2 * WORD + p1 * BASE + p0 == a * b
    ensures p1 < BASE && p0 < BASE
  {
    hide Mul, Add;
    var ah: Word, al: Word := a / BASE, a % BASE;
    var bh: Word, bl: Word := b / BASE, b % BASE;
    ColumnFits(al, bl, 0);
    p0 := Mul(al, bl);
    ColumnFits(al, bh, p0 / BASE);
    p1 := Add(p0 / BASE, Mul(al, bh));
    p0 := p0 % BASE;
    ColumnFits(ah, bh, p1 / BASE);
    p2 := Add(p1 / BASE, Mul(ah, bh));
    ColumnFits(ah, bl, p1 % BASE);
    p1 := Add(p1 % BASE, Mul(ah, bl));
    ProductDigits(a, b, ah, al, bh, bl);
    ProductFits(a, b, p2 + p1 / BASE, p1 % BASE * BASE + p0);
    p2 := Add(p2, p1 / BASE);
    p1 := p1 % BASE;
  }

  lemma {:induction false} ProductDigits(a: int, b: int, ah: int, al: int, bh: int, bl: int)
    requires a == ah * BASE + al && b == bh * BASE + bl
    ensures a * b == ah * bh * WORD + ah * bl * BASE + al * bh * BASE + al * bl
  {
    Distribute(ah, BASE, al, b);
    Distribute(bh, BASE, bl, ah);
    Distribute(bh, BASE, bl, al);
  }

  /** The carries added so far cannot push the high word out of 64 bits. */
  lemma {:induction false} ProductFits(a: Word, b: Word, high: int, low: int)
    requires high * WORD + low == a * b && 0 <= low && 0 <= high
    ensures high < WORD
    ensures forall x: Word, y: Word :: x + y == high ==> Add(x, y) == high
  {
    ProductMonotone(a, b, WORD - 1, WORD - 1);
  }

  /** What the deliberately wrapping subtraction leaves in its two words. */
  lemma {:induction false} WrappedDigits(exact: int, h: int, y: int, d0: int, low: Word, high: Word)
    requires 0 <= exact < WORD
    requires exact == h * WORD - y * BASE + d0
    requires low == d0 % WORD && high == (h * BASE + low / BASE - y) % WORD
    ensures low % BASE + high % BASE * BASE == exact
  {
    var k := d0 / WORD;
    assert d0 == low + k * WORD;
    var t := h * BASE - y + low / BASE + k * BASE;
    assert exact == t * BASE + low % BASE;
    QuotientUnique(exact, BASE, t);
    var j := (h * BASE + low / BASE - y) / WORD;
    assert high == t + (-k - j * BASE) * BASE;
    ModShift(t, -k - j * BASE, BASE);
  }

  /** Subtracting the two digit products `y * BASE + x`, word by word and with wrap-around. */
  function Remainder(p2: Word, p1: Word, x: Word, y: Word): Word {
    var low := Sub(Add(Mul(p2 % BASE, BASE), p1), x);
    var high := Sub(Add(Mul(p2 / BASE, BASE), low / BASE), y);
    Add(low % BASE, Mul(high % BASE, BASE))
  }

  /** The wrapped words still hold the exact difference, whenever it fits in one word. */
  lemma {:induction false} RemainderExact(p2: Word, p1: Word, x: Word, y: Word)
    requires p1 < BASE
    requires 0 <= p2 * BASE + p1 - (y * BASE + x) < WORD
    ensures Remainder(p2, p1, x, y) == p2 * BASE + p1 - (y * BASE + x)
  {
    var low := Sub(Add(Mul(p2 % BASE, BASE), p1), x);
    var high := Sub(Add(Mul(p2 / BASE, BASE), low / BASE), y);
    TwoDigits(p2 % BASE, p1);
    TwoDigits(p2 / BASE, low / BASE);
    WrappedDigits(p2 * BASE + p1 - (y * BASE + x), p2 / BASE, y, p2 % BASE * BASE + p1 - x, low, high);
    TwoDigits(high % BASE, low % BASE);
  }

  lemma {:induction false} TwoDigits(d1: Word, d0: Word)
    requires d1 < BASE && d0 < BASE
    ensures Mul(d1, BASE) == d1 * BASE
    ensures Add(Mul(d1, BASE), d0) == Add(d0, Mul(d1, BASE)) == d1 * BASE + d0
  {
  }

  /** Dividing the top three digits first and the remainder with the last digit next
      divides all four. */
  lemma {:induction false} LongDivision(n: int, c: int, p2: int, p1: int, p0: int, q1: int, rest: int, q0: int)
    requires c > 0 && n == p2 * WORD + p1 * BASE + p0
    requires q1 == (p2 * BASE + p1) / c && rest == (p2 * BASE + p1) % c
    requires q0 == (rest * BASE + p0) / c
    ensures q1 * BASE + q0 == n / c
  {
    assert p2 * BASE + p1 == q1 * c + rest;
    assert n == rest * BASE + p0 + (q1 * BASE) * c;
    ModShift(rest * BASE + p0, q1 * BASE, c);
  }

  /** Subtracting the true digit's multiple leaves the exact remainder, below the divisor. */
  lemma {:induction false} DigitRemainder(p2: Word, p1: Word, q1: Word, ch: Word, cl: Word)
    requires 0 < ch < BASE && cl < BASE && q1 < BASE && p1 < BASE
    requires q1 == (p2 * BASE + p1) / (ch * BASE + cl)
    ensures Remainder(p2, p1, Mul(q1, cl), Mul(q1, ch)) == (p2 * BASE + p1) % (ch * BASE + cl)
  {
    var x: Word, y: Word := Mul(q1, cl), Mul(q1, ch);
    assert y * BASE + x == q1 * (ch * BASE + cl) by {
      ColumnFits(q1, cl, 0);
      ColumnFits(q1, ch, 0);
      assert q1 * (ch * BASE + cl) == q1 * ch * BASE + q1 * cl;
    }
    DivMod(p2 * BASE + p1, ch * BASE + cl);
    RemainderExact(p2, p1, x, y);
  }

  /** A product below `c * 2^64` has a high word below `c`. */
  lemma {:induction false} HighWordBelow(a: Word, b: Word, c: int, p2: int, low: int)
    requires a < c && p2 * WORD + low == a * b && 0 <= low
    ensures p2 < c
  {
    ProductMonotone(a, b, c - 1, WORD);
    LessCancel(p2, c, WORD);
  }

  lemma {:induction false} SmallMod(x: Word, c: Word)
    requires x < c
    ensures Mod(x, c) == x
  {
    QuotientUnique(x, c, 0);
  }

  /** The two digits of the quotient of a full product by a normalised divisor. */
  method LongDivide(a: Word, b: Word, c: Word) returns (q1: Word, q0: Word)
    requires a < c && WORD / 2 <= c
    ensures q1 < BASE && q0 < BASE
    ensures q1 * BASE + q0 == a * b / c
  {
    var ch, cl := c / BASE, c % BASE;
    var p2, p1, p0 := Product(a, b);
    HighWordBelow(a, b, c, p2, p1 * BASE + p0);
    SmallMod(p2, c);
    p2 := Mod(p2, c);
    assert c == ch * BASE + cl;
    ghost var steps;
    q1, steps := QuotientDigit(p2, p1, ch, cl);
    DigitRemainder(p2, p1, q1, ch, cl);
    var rest := Remainder(p2, p1, Mul(q1, cl), Mul(q1, ch));
    q0, steps := QuotientDigit(rest, p0, ch, cl);
    LongDivision(a * b, c, p2, p1, p0, q1, rest, q0);
  }

  lemma {:induction false} ScaledOperands(a: Word, b: Word, c: Word, norm: Word)
    requires a < c && 1 <= norm && c * norm < WORD
    ensures Mul(c, norm) == c * norm && Mul(a, norm) < Mul(c, norm)
    ensures Mul(a, norm) * b / Mul(c, norm) == a * b / c
  {
    ProductMonotone(a, norm, c, norm);
    assert (c - a) * norm == c * norm - a * norm;
    ProductMonotone(1, 1, c - a, norm);
    assert (a * norm) * b == (a * b) * norm;
    ScaledQuotient(a * b, c, norm);
  }

  /** Everything after the easy cases: `a * b / c` for `a, b < c` and a divisor of two digits. */
  method DivideProduct(a: Word, b: Word, c: Word) returns (q: Word)
    requires a < c && BASE <= c
    ensures q == a * b / c
  {
    var norm := Div(MAXDIV, c);
    Normalised(c);
    ScaledOperands(a, b, c, norm);
    var q1, q0 := LongDivide(Mul(a, norm), b, Mul(c, norm));
    TwoDigits(q1, q0);
    q := Add(q0, Mul(q1, BASE));
  }

  lemma {:induction false} WrapSum(x: int, y: int, z: int)
    ensures ((x % WORD + y % WORD) % WORD + z) % WORD == (x + y + z) % WORD
  {
    var s := x % WORD + y % WORD;
    assert x + y + z == s % WORD + z + (s / WORD + x / WORD + y / WORD) * WORD;
    ModShift(s % WORD + z, s / WORD + x / WORD + y / WORD, WORD);
  }

  /** The whole multiples of the divisor contribute this much, modulo 2^64. */
  function EasyPart(a: Word, b: Word, c: Word): Word
    requires c > 0
  {
    Add(Mul(Div(a, c), b), Mul(Mod(a, c), Div(b, c)))
  }

  lemma {:induction false} EasyPartPlusTail(a: Word, b: Word, c: Word, ra: Word, rb: Word, tail: Word)
    requires c > 0 && ra == Mod(a, c) && rb == Mod(b, c) && tail == ra * rb / c
    ensures Add(EasyPart(a, b, c), tail) == Wide(a, b, c)
  {
    var u, v := Div(a, c) * b, ra * Div(b, c);
    assert a * b / c == u + v + tail by {
      SplitProduct(a, b, c);
    }
    WrapSum(u, v, tail);
  }

  lemma {:induction false} ZeroTail(ra: Word, rb: Word, c: Word)
    requires c > 0 && (ra == 0 || rb == 0)
    ensures ra * rb / c == 0
  {
  }

  /** With a one-digit divisor the product of the remainders fits in a word. */
  lemma {:induction false} ShortTail(ra: Word, rb: Word, c: Word)
    requires 0 < c < BASE && ra < c && rb < c
    ensures Div(Mul(ra, rb), c) == ra * rb / c
  {
    ColumnFits(ra, rb, 0);
  }

  lemma WideMeans(a: Word, b: Word, c: Word)
    requires c > 0
    ensures Wide(a, b, c) == (a * b / c) % 0x1_0000_0000_0000_0000
  {
  }

  /** `muldiv64`: the word-only branch returns what the 128-bit branch returns, on all inputs. */
  method MulDiv64(a: Word, b: Word, c: Word) returns (r: Word)
    requires c > 0
    ensures r == Wide(a, b, c) == (a * b / c) % 0x1_0000_0000_0000_0000
  {
    hide EasyPart, Wide;
    var res := EasyPart(a, b, c);
    var ra, rb := Mod(a, c), Mod(b, c);
    if ra == 0 || rb == 0 {
      ZeroTail(ra, rb, c);
      EasyPartPlusTail(a, b, c, ra, rb, 0);
      WideMeans(a, b, c);
      return res;
    }
    if c < BASE {
      ShortTail(ra, rb, c);
      EasyPartPlusTail(a, b, c, ra, rb, Div(Mul(ra, rb), c));
      WideMeans(a, b, c);
      return Add(res, Div(Mul(ra, rb), c));
    }
    var q := DivideProduct(ra, rb, c);
    EasyPartPlusTail(a, b, c, ra, rb, q);
    WideMeans(a, b, c);
    return Add(res, q);
  }
}
