/** The bit-serial CRC computer, the table-driven one, and the augmented-message form. */
module Crc {

  import opened Bits
  import opened Polynomials

  /** The template parameters of a CRC: a remainder of `width` bits, kept in words of
      `word` bits whose upper bits may hold anything. */
  datatype Params = Params(width: nat, word: nat, poly: Word, init: Word, xorOut: Word,
                           reflectIn: bool, reflectOut: bool)
  {
    ghost predicate Valid() {
      && 1 <= width <= word && 8 <= word
      && |poly| == |init| == |xorOut| == word
    }
  }

  // ---------------------------------------------------------------- bit-serial division

  /** One bit of polynomial division on a word whose top significant bit is `w - 1`. */
  function Step(rem: Word, bit: bool, poly: Word, w: nat): (r: Word)
    requires 1 <= w <= |rem| == |poly|
    ensures |r| == |rem|
  {
    var divide := rem[w - 1] != bit;
    var shifted := Shl(rem[w - 1 := divide], 1);
    if divide then Xor(shifted, poly) else shifted
  }

  function Steps(rem: Word, bits: seq<bool>, poly: Word, w: nat): (r: Word)
    requires 1 <= w <= |rem| == |poly|
    ensures |r| == |rem| && (bits == [] ==> r == rem)
    decreases |bits|
  {
    if bits == [] then rem else Steps(Step(rem, bits[0], poly, w), bits[1..], poly, w)
  }

  /** The bits of a byte in the order they are divided, top bit first (of the reflected
      byte when the input is reflected). */
  function BitOrder(x: Byte, reflectIn: bool): (bits: seq<bool>)
    ensures |bits| == 8
  {
    Reverse(if reflectIn then Reverse(x) else x)
  }

  lemma {:induction false} StepsFrom(rem: Word, bits: seq<bool>, i: nat, poly: Word, w: nat)
    requires 1 <= w <= |rem| == |poly| && i < |bits|
    ensures Steps(rem, bits[i..], poly, w) == Steps(Step(rem, bits[i], poly, w), bits[i + 1..], poly, w)
  {
    assert bits[i..][1..] == bits[i + 1..];
  }

  function Serial(rem: Word, bytes: seq<Byte>, p: Params): (r: Word)
    requires p.Valid() && |rem| == p.word
    ensures |r| == p.word
    decreases |bytes|
  {
    if bytes == [] then rem
    else Serial(Steps(rem, BitOrder(bytes[0], p.reflectIn), p.poly, p.width), bytes[1..], p)
  }

  function Finish(rem: Word, reflect: bool, p: Params): Word
    requires p.Valid() && |rem| == p.word
  {
    Mask(Xor(if reflect then Reflect(rem, p.width) else rem, p.xorOut), p.width)
  }

  /** What the bit-at-a-time computer reports for a message. */
  function SerialChecksum(bytes: seq<Byte>, p: Params): Word
    requires p.Valid()
  {
    Finish(Serial(p.init, bytes, p), p.reflectOut, p)
  }

  // ---------------------------------------------------------------- what is divided by what

  /** The low `w` bits of a word as a polynomial. */
  ghost function Significant(x: Word, w: nat): Terms
    requires w <= |x|
  {
    iset e: nat | e < w && x[e]
  }

  /** The generator: the truncated polynomial with its leading term put back. */
  ghost function Generator(poly: Word, w: nat): Terms
    requires w <= |poly|
  {
    iset e: nat | e == w || (e < w && poly[e])
  }

  /** The message as a polynomial, first byte on top; in each byte the high bit is on top, or the low one
      when the input is reflected. */
  ghost function MessageTerms(bytes: seq<Byte>, reflectIn: bool): Terms {
    iset e: nat | e < 8 * |bytes| && bytes[|bytes| - 1 - e / 8][if reflectIn then 7 - e % 8 else e % 8]
  }

  /** Bits, top one first. */
  ghost function BitTerms(bits: seq<bool>): Terms {
    iset e: nat | BitAt(bits, e)
  }

  ghost predicate BitAt(bits: seq<bool>, e: nat) {
    e < |bits| && bits[|bits| - 1 - e]
  }

  /** The bit entering at exponent `w`. */
  ghost function Entering(bit: bool, w: nat): Terms {
    Scale(bit, iset{w})
  }

  /** One step multiplies by `x`, lets the bit in at `x^w`, and takes the generator off when the top term
      is there. */
  lemma {:induction false} StepDivides(rem: Word, bit: bool, poly: Word, w: nat)
    requires 1 <= w <= |rem| == |poly|
    ensures Plus(TimesPower(Significant(rem, w), 1), Entering(bit, w))
         == Plus(Scale(rem[w - 1] != bit, Generator(poly, w)), Significant(Step(rem, bit, poly, w), w))
  {
    var left := Plus(TimesPower(Significant(rem, w), 1), Entering(bit, w));
    var right := Plus(Scale(rem[w - 1] != bit, Generator(poly, w)), Significant(Step(rem, bit, poly, w), w));
    forall e: nat
      ensures e in left <==> e in right
    {
      assert e in TimesPower(Significant(rem, w), 1) <==> 1 <= e <= w && rem[e - 1];
      assert e in Entering(bit, w) <==> e == w && bit;
    }
  }

  lemma {:induction false} DividendStep(rem: Word, bits: seq<bool>, w: nat)
    requires w <= |rem| && bits != []
    ensures Plus(TimesPower(BitTerms(bits), w), TimesPower(Significant(rem, w), |bits|))
         == Plus(TimesPower(BitTerms(bits[1..]), w),
                 TimesPower(Plus(TimesPower(Significant(rem, w), 1), Entering(bits[0], w)), |bits| - 1))
  {
    var n, r := |bits| - 1, Significant(rem, w);
    PowerOfSum(TimesPower(r, 1), Entering(bits[0], w), n);
    PowerTwice(r, 1, n);
    BitTermsStep(bits);
    hide BitTerms, Significant, Plus;
    PowerOfSum(BitTerms(bits[1..]), Entering(bits[0], n), w);
    EnteringMoves(bits[0], n, w);
    PlusLaws(TimesPower(BitTerms(bits[1..]), w), Entering(bits[0], n + w), TimesPower(r, n + 1));
    PlusLaws(Entering(bits[0], n + w), TimesPower(r, n + 1), ZERO);
  }

  lemma {:induction false} BitTermsStep(bits: seq<bool>)
    requires bits != []
    ensures BitTerms(bits) == Plus(BitTerms(bits[1..]), Entering(bits[0], |bits| - 1))
  {
    var sum := Plus(BitTerms(bits[1..]), Entering(bits[0], |bits| - 1));
    forall e: nat
      ensures e in BitTerms(bits) <==> e in sum
    {
    }
  }

  lemma EnteringMoves(bit: bool, n: nat, w: nat)
    ensures TimesPower(Entering(bit, n), w) == TimesPower(Entering(bit, w), n) == Entering(bit, n + w)
  {
    assert forall e: nat :: e in TimesPower(Entering(bit, n), w) <==> e in Entering(bit, n + w);
    assert forall e: nat :: e in TimesPower(Entering(bit, w), n) <==> e in Entering(bit, n + w);
  }

  /** Any number of steps leave a remainder of the bits moved up by `w`, and of what was there moved up
      by their number. */
  lemma {:induction false} StepsDivide(rem: Word, bits: seq<bool>, poly: Word, w: nat)
    requires 1 <= w <= |rem| == |poly|
    ensures Leaves(Plus(TimesPower(BitTerms(bits), w), TimesPower(Significant(rem, w), |bits|)),
                   Generator(poly, w), |bits|, Significant(Steps(rem, bits, poly, w), w))
    decreases |bits|
  {
    var r := Significant(rem, w);
    if bits == [] {
      assert BitTerms(bits) == ZERO;
      ZeroPower(w);
      PowerTwice(r, 0, 0);
      PlusLaws(r, r, r);
      assert Product([], Generator(poly, w)) == ZERO;
      var q: seq<bool> := [];
      assert |q| == 0 && Plus(ZERO, r) == Plus(Product(q, Generator(poly, w)), r);
    } else {
      hide Step, Significant, Generator, Plus, TimesPower, BitTerms, Leaves;
      var next := Step(rem, bits[0], poly, w);
      StepDivides(rem, bits[0], poly, w);
      StepsDivide(next, bits[1..], poly, w);
      DividendStep(rem, bits, w);
      LeavesOnTop(rem[w - 1] != bits[0], Generator(poly, w), |bits| - 1,
                  Plus(TimesPower(r, 1), Entering(bits[0], w)), Significant(next, w),
                  TimesPower(BitTerms(bits[1..]), w), Significant(Steps(rem, bits, poly, w), w));
    }
  }

  function AllBits(bytes: seq<Byte>, reflectIn: bool): (bits: seq<bool>)
    ensures |bits| == 8 * |bytes|
  {
    if bytes == [] then [] else BitOrder(bytes[0], reflectIn) + AllBits(bytes[1..], reflectIn)
  }

  lemma {:induction false} StepsJoin(rem: Word, a: seq<bool>, b: seq<bool>, poly: Word, w: nat)
    requires 1 <= w <= |rem| == |poly|
    ensures Steps(rem, a + b, poly, w) == Steps(Steps(rem, a, poly, w), b, poly, w)
    decreases |a|
  {
    hide Step;
    if a == [] {
      assert [] + b == b;
    } else {
      assert (a + b)[1..] == a[1..] + b;
      StepsJoin(Step(rem, a[0], poly, w), a[1..], b, poly, w);
    }
  }

  lemma {:induction false} SerialIsSteps(rem: Word, bytes: seq<Byte>, p: Params)
    requires p.Valid() && |rem| == p.word
    ensures Serial(rem, bytes, p) == Steps(rem, AllBits(bytes, p.reflectIn), p.poly, p.width)
    decreases |bytes|
  {
    if bytes != [] {
      hide Step, BitOrder;
      var first := BitOrder(bytes[0], p.reflectIn);
      StepsJoin(rem, first, AllBits(bytes[1..], p.reflectIn), p.poly, p.width);
      hide Steps;
      SerialIsSteps(Steps(rem, first, p.poly, p.width), bytes[1..], p);
    }
  }

  lemma {:induction false} AllBitsAt(bytes: seq<Byte>, reflectIn: bool, i: nat)
    requires i < 8 * |bytes|
    ensures AllBits(bytes, reflectIn)[i] == bytes[i / 8][if reflectIn then i % 8 else 7 - i % 8]
    decreases |bytes|
  {
    if i >= 8 {
      AllBitsAt(bytes[1..], reflectIn, i - 8);
    } else {
      ReverseTwice(bytes[0]);
    }
  }

  lemma {:induction false} MessageIsBits(bytes: seq<Byte>, reflectIn: bool)
    ensures MessageTerms(bytes, reflectIn) == BitTerms(AllBits(bytes, reflectIn))
  {
    forall e: nat
      ensures e in MessageTerms(bytes, reflectIn) <==> e in BitTerms(AllBits(bytes, reflectIn))
    {
      if e < 8 * |bytes| {
        AllBitsAt(bytes, reflectIn, 8 * |bytes| - 1 - e);
        assert (8 * |bytes| - 1 - e) / 8 == |bytes| - 1 - e / 8 && (8 * |bytes| - 1 - e) % 8 == 7 - e % 8;
      }
    }
  }

  /** What a checksum is taken of: the message moved up by the width, and the initial value moved up by
      the length of the message. */
  ghost function Dividend(bytes: seq<Byte>, p: Params): Terms
    requires p.Valid()
  {
    Plus(TimesPower(MessageTerms(bytes, p.reflectIn), p.width),
         TimesPower(Significant(p.init, p.width), 8 * |bytes|))
  }

  /** The bits reported for a remainder: reflected on request, xored, and nothing above the width. */
  ghost predicate Reports(sum: Word, r: Terms, p: Params)
    requires p.Valid()
  {
    && |sum| == p.word
    && forall i :: 0 <= i < p.word ==>
         sum[i] == (i < p.width && ((if p.reflectOut then p.width - 1 - i else i) in r) != p.xorOut[i])
  }

  /** The checksum of a message: the bits of the remainder that the dividend leaves. */
  ghost predicate IsChecksum(sum: Word, bytes: seq<Byte>, p: Params)
    requires p.Valid()
  {
    exists r: Terms :: Below(r, p.width)
                       && Leaves(Dividend(bytes, p), Generator(p.poly, p.width), 8 * |bytes|, r)
                       && Reports(sum, r, p)
  }

  lemma {:induction false} SerialLeaves(bytes: seq<Byte>, p: Params)
    requires p.Valid()
    ensures Leaves(Dividend(bytes, p), Generator(p.poly, p.width), 8 * |bytes|,
                   Significant(Serial(p.init, bytes, p), p.width))
  {
    hide Significant, Generator, Leaves, Plus, TimesPower, BitTerms, MessageTerms, AllBits, Steps;
    SerialIsSteps(p.init, bytes, p);
    MessageIsBits(bytes, p.reflectIn);
    StepsDivide(p.init, AllBits(bytes, p.reflectIn), p.poly, p.width);
  }

  lemma {:induction false} FinishReports(rem: Word, p: Params)
    requires p.Valid() && |rem| == p.word
    ensures Reports(Finish(rem, p.reflectOut, p), Significant(rem, p.width), p)
  {
  }

  lemma {:induction false} ReportUnique(a: Word, b: Word, r: Terms, p: Params)
    requires p.Valid() && Reports(a, r, p) && Reports(b, r, p)
    ensures a == b
  {
  }

  /** The bit-at-a-time computer reports the remainder of polynomial division, and nothing else does. */
  lemma {:induction false} SerialIsDivision(sum: Word, bytes: seq<Byte>, p: Params)
    requires p.Valid()
    ensures IsChecksum(sum, bytes, p) <==> sum == SerialChecksum(bytes, p)
  {
    var w, rem := p.width, Serial(p.init, bytes, p);
    var g, r := Generator(p.poly, w), Significant(rem, w);
    assert Below(r, w) && Degree(g, w);
    hide Serial, Significant, Generator, Dividend, Leaves, Finish, Reports;
    SerialLeaves(bytes, p);
    FinishReports(rem, p);
    if IsChecksum(sum, bytes, p) {
      var s: Terms :| Below(s, w) && Leaves(Dividend(bytes, p), g, 8 * |bytes|, s) && Reports(sum, s, p);
      RemainderUnique(Dividend(bytes, p), g, w, 8 * |bytes|, r, s);
      ReportUnique(sum, SerialChecksum(bytes, p), r, p);
    }
  }

  // ---------------------------------------------------------------- linearity over GF(2)

  lemma {:induction false} StepLinear(x: Word, y: Word, a: bool, b: bool, poly: Word)
    requires 1 <= |x| == |y| == |poly|
    ensures Step(Xor(x, y), a != b, poly, |x|) == Xor(Step(x, a, poly, |x|), Step(y, b, poly, |x|))
  {
  }

  lemma {:induction false} StepsLinear(x: Word, y: Word, a: seq<bool>, b: seq<bool>, poly: Word)
    requires 1 <= |x| == |y| == |poly| && |a| == |b|
    ensures Steps(Xor(x, y), Xor(a, b), poly, |x|) == Xor(Steps(x, a, poly, |x|), Steps(y, b, poly, |x|))
    decreases |a|
  {
    if a != [] {
      hide Step;
      StepLinear(x, y, a[0], b[0], poly);
      StepsLinear(Step(x, a[0], poly, |x|), Step(y, b[0], poly, |x|), a[1..], b[1..], poly);
      XorTail(a, b);
    }
  }

  lemma XorTail(a: seq<bool>, b: seq<bool>)
    requires |a| == |b| > 0
    ensures Xor(a, b)[1..] == Xor(a[1..], b[1..]) && Xor(a, b)[0] == (a[0] != b[0])
  {
  }

  /** The top `k` bits of a remainder, top first, with zeros after its last bit. */
  function Top(x: Word, k: nat): seq<bool> {
    seq(k, j requires 0 <= j < k => j < |x| && x[|x| - 1 - j])
  }

  /** Feeding a remainder its own top bits cancels them: only the shift is left. */
  lemma {:induction false} StepsCancel(x: Word, k: nat, poly: Word)
    requires 1 <= |x| == |poly|
    ensures Steps(x, Top(x, k), poly, |x|) == Shl(x, k)
    decreases k
  {
    hide Step;
    if k == 0 {
      assert Shl(x, 0) == x;
    } else {
      CancelOne(x, poly);
      assert Top(x, k)[1..] == Top(Shl(x, 1), k - 1);
      StepsCancel(Shl(x, 1), k - 1, poly);
      ShlTwice(x, 1, k - 1);
    }
  }

  lemma {:induction false} ShlTwice(x: Word, j: nat, k: nat)
    ensures Shl(Shl(x, j), k) == Shl(x, j + k)
  {
  }

  lemma {:induction false} CancelOne(x: Word, poly: Word)
    requires 1 <= |x| == |poly|
    ensures Step(x, x[|x| - 1], poly, |x|) == Shl(x, 1)
  {
  }

  /** Dividing several bits at once: shift, and add what the cancelled bits leave. */
  lemma {:induction false} StepsByTable(x: Word, bits: seq<bool>, poly: Word)
    requires 1 <= |x| == |poly|
    ensures Steps(x, bits, poly, |x|)
         == Xor(Shl(x, |bits|), Steps(Zeros(|x|), Xor(bits, Top(x, |bits|)), poly, |x|))
  {
    var top := Top(x, |bits|);
    StepsCancel(x, |bits|, poly);
    StepsLinear(x, Zeros(|x|), top, Xor(bits, top), poly);
    assert Xor(x, Zeros(|x|)) == x;
    assert Xor(top, Xor(bits, top)) == bits;
  }

  // ---------------------------------------------------------------- bits above the width

  lemma {:induction false} StepLow(rem: Word, bit: bool, poly: Word, w: nat)
    requires 1 <= w <= |rem| == |poly|
    ensures Step(rem, bit, poly, w)[..w] == Step(rem[..w], bit, poly[..w], w)
  {
  }

  /** What lies above the width never reaches the significant bits. */
  lemma {:induction false} StepsLow(rem: Word, bits: seq<bool>, poly: Word, w: nat)
    requires 1 <= w <= |rem| == |poly|
    ensures Steps(rem, bits, poly, w)[..w] == Steps(rem[..w], bits, poly[..w], w)
    decreases |bits|
  {
    if bits != [] {
      StepLow(rem, bits[0], poly, w);
      StepsLow(Step(rem, bits[0], poly, w), bits[1..], poly, w);
    }
  }

  // ---------------------------------------------------------------- the table-driven computer

  /** `crc_helper::reflect`. */
  function MaybeReflect(x: Word, p: Params, w: nat): (r: Word)
    requires w <= |x|
    ensures |r| == |x|
  {
    if p.reflectIn then Reflect(x, w) else x
  }

  /** The table's entry for an index byte. */
  function Entry(index: Byte, p: Params): (e: Word)
    requires p.Valid()
    ensures |e| == p.word
  {
    var dividend := MaybeReflect(index, p, 8);
    MaybeReflect(Steps(Zeros(p.word), Reverse(dividend), p.poly, p.width), p, p.width)
  }

  /** The top byte of the remainder, cast to an unsigned char. */
  function TopByte(rem: Word, w: nat): Byte {
    Cast(if w > 8 then Shr(rem, w - 8) else Shl(rem, 8 - w), 8)
  }

  /** `crc_helper::index`. */
  function Index(rem: Word, x: Byte, p: Params): Byte
    requires p.Valid() && |rem| == p.word
  {
    Xor(x, if p.reflectIn then Cast(rem, 8) else TopByte(rem, p.width))
  }

  /** One byte of the table-driven computer. */
  function TableStep(rem: Word, x: Byte, p: Params): (r: Word)
    requires p.Valid() && |rem| == p.word
    ensures |r| == p.word
  {
    Xor(if p.reflectIn then Shr(rem, 8) else Shl(rem, 8), Entry(Index(rem, x, p), p))
  }

  function Tabled(rem: Word, bytes: seq<Byte>, p: Params): (r: Word)
    requires p.Valid() && |rem| == p.word
    ensures |r| == p.word
    decreases |bytes|
  {
    if bytes == [] then rem else Tabled(TableStep(rem, bytes[0], p), bytes[1..], p)
  }

  /** What the table-driven computer reports for a message. */
  function TableChecksum(bytes: seq<Byte>, p: Params): Word
    requires p.Valid()
  {
    Finish(Tabled(MaybeReflect(p.init, p, p.width), bytes, p), p.reflectOut != p.reflectIn, p)
  }

  // ---------------------------------------------------------------- fast refines slow

  /** How the table-driven remainder represents the bit-serial one: the same significant bits,
      or their mirror image with nothing above it. */
  ghost predicate Mirrors(fast: Word, slow: Word, p: Params)
    requires p.Valid()
  {
    && |fast| == |slow| == p.word
    && if p.reflectIn then fast == Reflect(slow, p.width) else fast[..p.width] == slow[..p.width]
  }

  /** The low bits after one table step from the low bits before it. */
  lemma {:induction false} EntryLow(bits: seq<bool>, p: Params)
    requires p.Valid()
    ensures Steps(Zeros(p.word), bits, p.poly, p.width)[..p.width]
         == Steps(Zeros(p.width), bits, p.poly[..p.width], p.width)
  {
    StepsLow(Zeros(p.word), bits, p.poly, p.width);
    assert Zeros(p.word)[..p.width] == Zeros(p.width);
  }

  lemma {:induction false} PlainStepMirrors(fast: Word, slow: Word, x: Byte, p: Params)
    requires p.Valid() && Mirrors(fast, slow, p) && !p.reflectIn
    ensures Mirrors(TableStep(fast, x, p), Steps(slow, BitOrder(x, false), p.poly, p.width), p)
  {
    hide Steps, Entry;
    var w, low := p.width, slow[..p.width];
    var bits := BitOrder(x, false);
    StepsLow(slow, bits, p.poly, w);
    StepsByTable(low, bits, p.poly[..w]);
    var index := Index(fast, x, p);
    PlainIndexBits(fast, slow, x, p);
    EntryLow(Reverse(index), p);
    PlainEntry(index, p);
    PlainSum(fast, Steps(Zeros(p.word), Reverse(index), p.poly, w), w);
  }

  lemma {:induction false} PlainIndexBits(fast: Word, slow: Word, x: Byte, p: Params)
    requires p.Valid() && Mirrors(fast, slow, p) && !p.reflectIn
    ensures Reverse(Index(fast, x, p)) == Xor(BitOrder(x, false), Top(slow[..p.width], 8))
  {
    hide Top, TopByte, Xor, Reverse;
    TopByteBits(fast, p.width);
    XorReversed(x, TopByte(fast, p.width));
  }

  lemma XorReversed(x: Byte, y: Byte)
    ensures Reverse(Xor(x, y)) == Xor(Reverse(x), Reverse(y))
  {
  }

  lemma {:induction false} TopByteBits(rem: Word, w: nat)
    requires 1 <= w <= |rem| && 8 <= |rem|
    ensures Reverse(TopByte(rem, w)) == Top(rem[..w], 8)
  {
    var top := TopByte(rem, w);
    if w > 8 {
      assert top == rem[w - 8..w];
    } else {
      assert top == Zeros(8 - w) + rem[..w];
    }
  }

  lemma {:induction false} PlainEntry(index: Byte, p: Params)
    requires p.Valid() && !p.reflectIn
    ensures Entry(index, p) == Steps(Zeros(p.word), Reverse(index), p.poly, p.width)
  {
  }

  lemma {:induction false} PlainSum(fast: Word, entry: Word, w: nat)
    requires w <= |fast| == |entry|
    ensures Xor(Shl(fast, 8), entry)[..w] == Xor(Shl(fast[..w], 8), entry[..w])
  {
  }

  lemma {:induction false} ReflectedStepMirrors(fast: Word, slow: Word, x: Byte, p: Params)
    requires p.Valid() && Mirrors(fast, slow, p) && p.reflectIn
    ensures Mirrors(TableStep(fast, x, p), Steps(slow, BitOrder(x, true), p.poly, p.width), p)
  {
    hide Steps, Entry;
    var w, low := p.width, slow[..p.width];
    var bits := BitOrder(x, true);
    StepsLow(slow, bits, p.poly, w);
    StepsByTable(low, bits, p.poly[..w]);
    var index := Index(fast, x, p);
    ReflectedIndexBits(fast, slow, x, p);
    var entry := Steps(Zeros(p.word), index, p.poly, w);
    EntryLow(index, p);
    ReflectedEntry(index, p);
    ReflectedSum(fast, slow, Steps(slow, bits, p.poly, w), entry, w);
  }

  lemma {:induction false} ReflectedIndexBits(fast: Word, slow: Word, x: Byte, p: Params)
    requires p.Valid() && Mirrors(fast, slow, p) && p.reflectIn
    ensures Index(fast, x, p) == Xor(BitOrder(x, true), Top(slow[..p.width], 8))
  {
    ReverseTwice(x);
    assert Cast(fast, 8) == Top(slow[..p.width], 8);
  }

  lemma {:induction false} ReflectedEntry(index: Byte, p: Params)
    requires p.Valid() && p.reflectIn
    ensures Entry(index, p) == Reflect(Steps(Zeros(p.word), index, p.poly, p.width), p.width)
  {
    ReverseTwice(index);
  }

  /** Shifting right mirrors shifting left. */
  lemma {:induction false} ReflectedSum(fast: Word, slow: Word, next: Word, entry: Word, w: nat)
    requires w <= |fast| == |slow| == |next| == |entry| && fast == Reflect(slow, w)
    requires next[..w] == Xor(Shl(slow[..w], 8), entry[..w])
    ensures Reflect(next, w) == Xor(Shr(fast, 8), Reflect(entry, w))
  {
    assert forall i :: 0 <= i < w ==> next[..w][i] == ((i >= 8 && slow[i - 8]) != entry[i]);
    assert forall i :: 0 <= i < w ==> next[i] == ((i >= 8 && slow[i - 8]) != entry[i]);
  }

  lemma {:induction false} Refines(fast: Word, slow: Word, bytes: seq<Byte>, p: Params)
    requires p.Valid() && |fast| == |slow| == p.word
    requires Mirrors(fast, slow, p)
    ensures Mirrors(Tabled(fast, bytes, p), Serial(slow, bytes, p), p)
    decreases |bytes|
  {
    hide TableStep, Steps, BitOrder, Mirrors;
    if bytes != [] {
      if p.reflectIn {
        ReflectedStepMirrors(fast, slow, bytes[0], p);
      } else {
        PlainStepMirrors(fast, slow, bytes[0], p);
      }
      Refines(TableStep(fast, bytes[0], p), Steps(slow, BitOrder(bytes[0], p.reflectIn), p.poly, p.width),
              bytes[1..], p);
    }
  }

  /** Table-driven and bit-serial computation agree on every message, for every width,
      polynomial, initial value, final mask and pair of reflection flags. */
  lemma {:induction false} TableEqualsSerial(bytes: seq<Byte>, p: Params)
    requires p.Valid()
    ensures TableChecksum(bytes, p) == SerialChecksum(bytes, p)
  {
    hide Tabled, Serial;
    var fast, slow := Tabled(MaybeReflect(p.init, p, p.width), bytes, p), Serial(p.init, bytes, p);
    Refines(MaybeReflect(p.init, p, p.width), p.init, bytes, p);
    FinishAgrees(fast, slow, p);
  }

  lemma {:induction false} FinishAgrees(fast: Word, slow: Word, p: Params)
    requires p.Valid() && Mirrors(fast, slow, p)
    ensures Finish(fast, p.reflectOut != p.reflectIn, p) == Finish(slow, p.reflectOut, p)
  {
    var w := p.width;
    var a := if p.reflectOut != p.reflectIn then Reflect(fast, w) else fast;
    var b := if p.reflectOut then Reflect(slow, w) else slow;
    if !p.reflectIn {
      assert forall i :: 0 <= i < w ==> fast[i] == fast[..w][i] == slow[..w][i] == slow[i];
    }
    assert forall i :: 0 <= i < w ==> a[i] == b[i];
  }

  // ---------------------------------------------------------------- the computers

  /** `crc_basic`: the remainder is a field that each bit updates. */
  class CrcBasic {
    const p: Params
    var rem: Word

    ghost predicate Valid()
      reads this
    {
      p.Valid() && |rem| == p.word
    }

    constructor (p: Params)
      requires p.Valid()
      ensures Valid() && this.p == p && rem == p.init
    {
      this.p := p;
      rem := p.init;
    }

    method ProcessBit(bit: bool)
      requires Valid()
      modifies this
      ensures Valid() && rem == Step(old(rem), bit, p.poly, p.width)
      ensures Plus(TimesPower(Significant(old(rem), p.width), 1), Entering(bit, p.width))
           == Plus(Scale(old(rem)[p.width - 1] != bit, Generator(p.poly, p.width)), Significant(rem, p.width))
    {
      StepDivides(rem, bit, p.poly, p.width);
      var high := p.width - 1;
      if bit {
        rem := rem[high := !rem[high]];
      }
      var doPolyDiv := rem[high];
      rem := Shl(rem, 1);
      if doPolyDiv {
        rem := Xor(rem, p.poly);
      }
    }

    /** Only the low `count` bits are taken, upper ones first. */
    method ProcessBits(byte: Byte, count: nat)
      requires Valid() && count <= 8
      modifies this
      ensures Valid() && rem == Steps(old(rem), Reverse(byte[..count]), p.poly, p.width)
    {
      hide Step, Steps;
      ghost var order := Reverse(byte[..count]);
      var bits := Shl(byte, 8 - count);
      var i := count;
      while i > 0
        invariant 0 <= i <= count && Valid() && bits == Shl(byte, 8 - i)
        invariant Steps(rem, order[count - i..], p.poly, p.width) == Steps(old(rem), order, p.poly, p.width)
      {
        assert bits[7] == order[count - i];
        StepsFrom(rem, order, count - i, p.poly, p.width);
        ProcessBit(bits[7]);
        ShlTwice(byte, 8 - i, 1);
        i := i - 1;
        bits := Shl(bits, 1);
      }
    }

    method ProcessByte(byte: Byte)
      requires Valid()
      modifies this
      ensures Valid() && rem == Steps(old(rem), BitOrder(byte, p.reflectIn), p.poly, p.width)
    {
      var bits: Byte := byte;
      if p.reflectIn {
        bits := ReflectLoop(byte, 8);
      }
      assert bits[..8] == bits;
      ProcessBits(bits, 8);
    }

    method ProcessBlock(bytes: seq<Byte>)
      requires Valid()
      modifies this
      ensures Valid() && rem == Serial(old(rem), bytes, p)
    {
      for i := 0 to |bytes|
        invariant Valid() && Serial(rem, bytes[i..], p) == Serial(old(rem), bytes, p)
      {
        assert bytes[i..][0] == bytes[i] && bytes[i..][1..] == bytes[i + 1..];
        ProcessByte(bytes[i]);
      }
    }

    method Checksum() returns (sum: Word)
      requires Valid()
      ensures sum == Finish(rem, p.reflectOut, p)
    {
      var value := rem;
      if p.reflectOut {
        value := ReflectLoop(rem, p.width);
      }
      sum := Mask(Xor(value, p.xorOut), p.width);
    }
  }

  /** The table position of a byte. */
  function Position(b: Byte): (n: nat)
    ensures n < 256 && FromNat(n, 8) == b
  {
    ToNatRange(b);
    assert Pow2(8) == 256;
    FromToNat(b);
    ToNat(b)
  }

  ghost predicate Filled(table: seq<Word>, p: Params)
    requires p.Valid()
  {
    |table| == 256 && forall b: Byte :: table[Position(b)] == Entry(b, p)
  }

  lemma {:induction false} ByteLeaves(dividend: Byte, p: Params)
    requires p.Valid()
    ensures Leaves(TimesPower(Significant(dividend, 8), p.width), Generator(p.poly, p.width), 8,
                   Significant(Steps(Zeros(p.word), Reverse(dividend), p.poly, p.width), p.width))
  {
    assert BitTerms(Reverse(dividend)) == Significant(dividend, 8);
    assert Significant(Zeros(p.word), p.width) == ZERO;
    hide Significant, BitTerms, Steps, Leaves, TimesPower, Plus, Generator;
    StepsDivide(Zeros(p.word), Reverse(dividend), p.poly, p.width);
    ZeroPower(8);
    PlusLaws(TimesPower(Significant(dividend, 8), p.width), ZERO, ZERO);
  }

  /** The inner loop of `init_table`: divide one byte, starting from a zero remainder. */
  method DivideByte(dividend: Byte, p: Params) returns (remainder: Word)
    requires p.Valid()
    ensures remainder == Steps(Zeros(p.word), Reverse(dividend), p.poly, p.width)
    ensures Leaves(TimesPower(Significant(dividend, 8), p.width), Generator(p.poly, p.width), 8,
                   Significant(remainder, p.width))
  {
    hide Steps;
    ByteLeaves(dividend, p);
    var high := p.width - 1;
    remainder := Zeros(p.word);
    ghost var order := Reverse(dividend);
    var mask := 8;
    while mask > 0
      invariant 0 <= mask <= 8 && |remainder| == p.word
      invariant Steps(remainder, order[8 - mask..], p.poly, p.width)
             == Steps(Zeros(p.word), order, p.poly, p.width)
    {
      ghost var before := remainder;
      StepsFrom(remainder, order, 8 - mask, p.poly, p.width);
      if dividend[mask - 1] {
        remainder := remainder[high := !remainder[high]];
      }
      if remainder[high] {
        remainder := Xor(Shl(remainder, 1), p.poly);
      } else {
        remainder := Shl(remainder, 1);
      }
      assert remainder == Step(before, order[8 - mask], p.poly, p.width);
      mask := mask - 1;
    }
  }

  /** `init_table`: one entry for every possible dividend, at the reflected place and
      reflected itself when the input is. */
  method InitTable(table: array<Word>, p: Params)
    requires p.Valid() && table.Length == 256
    modifies table
    ensures Filled(table[..], p)
  {
    hide Entry, Position, Steps, Reflect, HasEntry;
    for n := 0 to 256
      invariant forall k :: 0 <= k < n ==> HasEntry(table[..], MaybeReflect(FromNat(k, 8), p, 8), p)
    {
      var dividend: Byte := FromNat(n, 8);
      var remainder := DivideByte(dividend, p);
      var place: Byte, value := dividend, remainder;
      if p.reflectIn {
        place := ReflectLoop(dividend, 8);
        value := ReflectLoop(remainder, p.width);
      }
      EntryOf(dividend, p);
      ghost var before := table[..];
      table[Position(place)] := value;
      KeepsEntries(before, table[..], place, value, p);
    }
    AllPlaces(table[..], p);
  }

  ghost predicate HasEntry(table: seq<Word>, b: Byte, p: Params)
    requires p.Valid() && |table| == 256
  {
    table[Position(b)] == Entry(b, p)
  }

  /** Writing one byte's entry leaves every other byte's entry alone. */
  lemma {:induction false} KeepsEntries(before: seq<Word>, after: seq<Word>, place: Byte, value: Word, p: Params)
    requires p.Valid() && |before| == 256 && value == Entry(place, p)
    requires after == before[Position(place) := value]
    ensures HasEntry(after, place, p)
    ensures forall b: Byte :: HasEntry(before, b, p) ==> HasEntry(after, b, p)
  {
    forall b: Byte | HasEntry(before, b, p)
      ensures HasEntry(after, b, p)
    {
      if Position(b) == Position(place) {
        assert b == FromNat(Position(b), 8) == place;
      }
    }
  }

  lemma {:induction false} EntryOf(dividend: Byte, p: Params)
    requires p.Valid()
    ensures Entry(MaybeReflect(dividend, p, 8), p)
         == MaybeReflect(Steps(Zeros(p.word), Reverse(dividend), p.poly, p.width), p, p.width)
  {
    ReverseTwice(dividend);
  }

  /** Every byte is the place of some dividend. */
  lemma {:induction false} AllPlaces(table: seq<Word>, p: Params)
    requires p.Valid() && |table| == 256
    requires forall k :: 0 <= k < 256 ==> HasEntry(table, MaybeReflect(FromNat(k, 8), p, 8), p)
    ensures Filled(table, p)
  {
    forall b: Byte
      ensures table[Position(b)] == Entry(b, p)
    {
      var k := Position(MaybeReflect(b, p, 8));
      ReverseTwice(b);
      assert HasEntry(table, MaybeReflect(FromNat(k, 8), p, 8), p);
    }
  }

  /** `crc_optimal`: the table is filled on construction and each byte costs one lookup. */
  class CrcOptimal {
    const p: Params
    const table: array<Word>
    var rem: Word

    ghost predicate Valid()
      reads this, table
    {
      p.Valid() && |rem| == p.word && Filled(table[..], p)
    }

    constructor (p: Params)
      requires p.Valid()
      ensures Valid() && fresh(table) && this.p == p && rem == MaybeReflect(p.init, p, p.width)
    {
      this.p := p;
      rem := p.init;
      table := new Word[256](_ => Zeros(p.word));
      new;
      InitTable(table, p);
      if p.reflectIn {
        rem := ReflectLoop(p.init, p.width);
      }
    }

    method ProcessBlock(bytes: seq<Byte>)
      requires Valid()
      modifies this`rem
      ensures Valid() && rem == Tabled(old(rem), bytes, p)
    {
      for i := 0 to |bytes|
        invariant Valid() && Tabled(rem, bytes[i..], p) == Tabled(old(rem), bytes, p)
      {
        assert bytes[i..][0] == bytes[i] && bytes[i..][1..] == bytes[i + 1..];
        var byteIndex := Index(rem, bytes[i], p);
        assert table[..][Position(byteIndex)] == Entry(byteIndex, p);
        rem := Xor(if p.reflectIn then Shr(rem, 8) else Shl(rem, 8), table[Position(byteIndex)]);
      }
    }

    method Checksum() returns (sum: Word)
      requires Valid()
      ensures sum == Finish(rem, p.reflectOut != p.reflectIn, p)
    {
      var value := rem;
      if p.reflectOut != p.reflectIn {
        value := ReflectLoop(rem, p.width);
      }
      sum := Mask(Xor(value, p.xorOut), p.width);
    }
  }

  /** `crc`: the table-driven computer, from construction to checksum, reports what the
      bit-serial one would. */
  method CrcOf(bytes: seq<Byte>, p: Params) returns (sum: Word)
    requires p.Valid()
    ensures sum == SerialChecksum(bytes, p) && IsChecksum(sum, bytes, p)
  {
    hide IsChecksum;
    var computer := new CrcOptimal(p);
    computer.ProcessBlock(bytes);
    sum := computer.Checksum();
    TableEqualsSerial(bytes, p);
    SerialIsDivision(sum, bytes, p);
  }

  // ---------------------------------------------------------------- augmented messages

  /** One byte of `augmented_crc`: the byte enters at the bottom, the top byte is divided. */
  function AugmentedStep(rem: Word, x: Byte, p: Params): (r: Word)
    requires p.Valid() && |rem| == p.word && 8 <= p.width
    ensures |r| == p.word
  {
    Xor(Or(Shl(rem, 8), Cast(x, p.word)), Entry(TopByte(rem, p.width), p.(reflectIn := false)))
  }

  function Augmented(rem: Word, bytes: seq<Byte>, p: Params): (r: Word)
    requires p.Valid() && |rem| == p.word && 8 <= p.width
    ensures |r| == p.word
    decreases |bytes|
  {
    if bytes == [] then rem else Augmented(AugmentedStep(rem, bytes[0], p), bytes[1..], p)
  }

  lemma {:induction false} WideTopByte(rem: Word, w: nat)
    requires 8 <= w <= |rem|
    ensures Cast(Shr(rem, w - 8), 8) == TopByte(rem, w)
  {
  }

  /** `augmented_crc` */
  method AugmentedCrc(bytes: seq<Byte>, initial: Word, p: Params) returns (sum: Word)
    requires p.Valid() && |initial| == p.word && 8 <= p.width
    ensures sum == Mask(Augmented(initial, bytes, p), p.width)
  {
    hide Entry, TopByte, Position, Or;
    var plain := p.(reflectIn := false);
    var table := new Word[256](_ => Zeros(p.word));
    InitTable(table, plain);
    var rem := initial;
    for i := 0 to |bytes|
      invariant Filled(table[..], plain)
      invariant |rem| == p.word && Augmented(rem, bytes[i..], p) == Augmented(initial, bytes, p)
    {
      assert bytes[i..][0] == bytes[i] && bytes[i..][1..] == bytes[i + 1..];
      var byteIndex: Byte := Cast(Shr(rem, p.width - 8), 8);
      WideTopByte(rem, p.width);
      assert table[..][Position(byteIndex)] == Entry(byteIndex, plain);
      rem := Shl(rem, 8);
      rem := Or(rem, Cast(bytes[i], p.word));
      rem := Xor(rem, table[Position(byteIndex)]);
    }
    sum := Mask(rem, p.width);
  }

  lemma {:induction false} StepsAppend(x: Word, a: seq<bool>, b: seq<bool>, poly: Word)
    requires 1 <= |x| == |poly|
    ensures Steps(x, a + b, poly, |x|) == Steps(Steps(x, a, poly, |x|), b, poly, |x|)
    decreases |a|
  {
    if a == [] {
      assert [] + b == b;
    } else {
      assert (a + b)[1..] == a[1..] + b;
      StepsAppend(Step(x, a[0], poly, |x|), a[1..], b, poly);
    }
  }

  /** Dividing zero bits commutes with dividing zero bits. */
  lemma {:induction false} ZerosCommute(x: Word, j: nat, k: nat, poly: Word)
    requires 1 <= |x| == |poly|
    ensures Steps(Steps(x, Zeros(j), poly, |x|), Zeros(k), poly, |x|)
         == Steps(Steps(x, Zeros(k), poly, |x|), Zeros(j), poly, |x|)
         == Steps(x, Zeros(j + k), poly, |x|)
  {
    StepsAppend(x, Zeros(j), Zeros(k), poly);
    StepsAppend(x, Zeros(k), Zeros(j), poly);
    assert Zeros(j) + Zeros(k) == Zeros(j + k) == Zeros(k) + Zeros(j);
  }

  /** A byte that entered at the bottom has, `width` zero bits later, become the byte that the
      other machine takes in at the top. */
  lemma {:induction false} EnterBelow(x: Byte, poly: Word)
    requires 8 <= |poly|
    ensures Steps(Cast(x, |poly|), Zeros(|poly|), poly, |poly|)
         == Steps(Zeros(|poly|), BitOrder(x, false), poly, |poly|)
  {
    hide Steps, Step;
    var w := |poly|;
    var y := Cast(x, w);
    assert Zeros(w - 8) == Top(y, w - 8);
    StepsCancel(y, w - 8, poly);
    assert Zeros(w - 8) + Zeros(8) == Zeros(w);
    StepsAppend(y, Zeros(w - 8), Zeros(8), poly);
    var high := Shl(y, w - 8);
    StepsByTable(high, Zeros(8), poly);
    assert Xor(Zeros(8), Top(high, 8)) == BitOrder(x, false);
    assert Shl(high, 8) == Zeros(w);
    var rest := Steps(Zeros(w), BitOrder(x, false), poly, w);
    assert Xor(Zeros(w), rest) == rest;
  }

  /** On the significant bits an augmented step divides eight zero bits and adds the byte. */
  lemma {:induction false} AugmentedStepLow(rem: Word, x: Byte, p: Params)
    requires p.Valid() && |rem| == p.word && 8 <= p.width
    ensures AugmentedStep(rem, x, p)[..p.width]
         == Xor(Steps(rem[..p.width], Zeros(8), p.poly[..p.width], p.width), Cast(x, p.width))
  {
    hide Steps, Entry;
    var w, low := p.width, rem[..p.width];
    var index := TopByte(rem, w);
    PlainEntry(index, p.(reflectIn := false));
    EntryLow(Reverse(index), p);
    StepsByTable(low, Zeros(8), p.poly[..w]);
    TopByteBits(rem, w);
    assert Xor(Zeros(8), Top(low, 8)) == Reverse(index);
  }

  /** The augmented machine runs `width` zero bits behind the bit-serial one. */
  lemma {:induction false} AugmentedLags(rem: Word, slow: Word, bytes: seq<Byte>, p: Params)
    requires p.Valid() && |rem| == |slow| == p.word && 8 <= p.width && !p.reflectIn
    requires Steps(rem[..p.width], Zeros(p.width), p.poly[..p.width], p.width) == slow[..p.width]
    ensures Steps(Augmented(rem, bytes, p)[..p.width], Zeros(p.width), p.poly[..p.width], p.width)
         == Serial(slow, bytes, p)[..p.width]
    decreases |bytes|
  {
    if bytes != [] {
      hide Steps, AugmentedStep, BitOrder;
      var bits := BitOrder(bytes[0], false);
      AugmentedStepLow(rem, bytes[0], p);
      StepsLow(slow, bits, p.poly, p.width);
      LagStep(rem[..p.width], slow[..p.width], bytes[0], p.poly[..p.width]);
      AugmentedLags(AugmentedStep(rem, bytes[0], p), Steps(slow, bits, p.poly, p.width), bytes[1..], p);
    }
  }

  lemma {:induction false} LagStep(a: Word, c: Word, x: Byte, poly: Word)
    requires 8 <= |a| == |c| == |poly|
    requires Steps(a, Zeros(|a|), poly, |a|) == c
    ensures Steps(Xor(Steps(a, Zeros(8), poly, |a|), Cast(x, |a|)), Zeros(|a|), poly, |a|)
         == Steps(c, BitOrder(x, false), poly, |a|)
  {
    hide Steps, BitOrder;
    var w := |a|;
    var bits := BitOrder(x, false);
    var a8 := Steps(a, Zeros(8), poly, w);
    StepsLinear(a8, Cast(x, w), Zeros(w), Zeros(w), poly);
    assert Xor(Zeros(w), Zeros(w)) == Zeros(w);
    ZerosCommute(a, 8, w, poly);
    EnterBelow(x, poly);
    StepsLinear(c, Zeros(w), Zeros(8), bits, poly);
    assert Xor(c, Zeros(w)) == c && Xor(Zeros(8), bits) == bits;
  }

  function ZeroBytes(n: nat): seq<Byte> {
    seq(n, _ => Zeros(8))
  }

  /** Feeding zero bytes divides as many zero bits. */
  lemma {:induction false} AugmentedZeros(rem: Word, n: nat, p: Params)
    requires p.Valid() && |rem| == p.word && 8 <= p.width
    ensures Augmented(rem, ZeroBytes(n), p)[..p.width]
         == Steps(rem[..p.width], Zeros(8 * n), p.poly[..p.width], p.width)
    decreases n
  {
    hide Steps, AugmentedStep;
    var w, low := p.width, rem[..p.width];
    if n > 0 {
      assert ZeroBytes(n)[1..] == ZeroBytes(n - 1);
      var next := AugmentedStep(rem, ZeroBytes(n)[0], p);
      AugmentedZeros(next, n - 1, p);
      AugmentedStepLow(rem, Zeros(8), p);
      var low8 := Steps(low, Zeros(8), p.poly[..w], w);
      assert Xor(low8, Cast(Zeros(8), w)) == low8;
      ZerosCommute(low, 8, 8 * (n - 1), p.poly[..w]);
    }
  }

  lemma {:induction false} AugmentedAppend(rem: Word, a: seq<Byte>, b: seq<Byte>, p: Params)
    requires p.Valid() && |rem| == p.word && 8 <= p.width
    ensures Augmented(rem, a + b, p) == Augmented(Augmented(rem, a, p), b, p)
    decreases |a|
  {
    if a == [] {
      assert [] + b == b;
    } else {
      hide AugmentedStep;
      assert (a + b)[1..] == a[1..] + b;
      AugmentedAppend(AugmentedStep(rem, a[0], p), a[1..], b, p);
    }
  }

  /** For byte-sized widths, `augmented_crc` of a message followed by `width / 8` zero bytes is the
      plain CRC of the message, started from what `width` zero bits leave of the start value. */
  lemma {:induction false} AugmentedEqualsSerial(bytes: seq<Byte>, initial: Word, p: Params)
    requires p.Valid() && |initial| == p.word && p.width % 8 == 0
    requires !p.reflectIn && !p.reflectOut && p.xorOut == Zeros(p.word)
    requires p.init == Steps(initial, Zeros(p.width), p.poly, p.width)
    ensures Mask(Augmented(initial, bytes + ZeroBytes(p.width / 8), p), p.width) == SerialChecksum(bytes, p)
  {
    hide Steps, Augmented, Serial;
    var w := p.width;
    var mid := Augmented(initial, bytes, p);
    StepsLow(initial, Zeros(w), p.poly, w);
    AugmentedAppend(initial, bytes, ZeroBytes(w / 8), p);
    AugmentedZeros(mid, w / 8, p);
    AugmentedLags(initial, p.init, bytes, p);
    var fast := Augmented(initial, bytes + ZeroBytes(w / 8), p);
    var slow := Serial(p.init, bytes, p);
    assert forall i :: 0 <= i < w ==> fast[i] == fast[..w][i] == slow[..w][i] == slow[i];
  }

  /** With a zero start the two agree with zero initial value. */
  lemma {:induction false} AugmentedFromZero(bytes: seq<Byte>, p: Params)
    requires p.Valid() && p.width % 8 == 0
    requires !p.reflectIn && !p.reflectOut && p.xorOut == Zeros(p.word) == p.init
    ensures Mask(Augmented(Zeros(p.word), bytes + ZeroBytes(p.width / 8), p), p.width)
         == TableChecksum(bytes, p)
  {
    ZeroStaysZero(p.width, p);
    AugmentedEqualsSerial(bytes, Zeros(p.word), p);
    TableEqualsSerial(bytes, p);
  }

  lemma {:induction false} ZeroStaysZero(n: nat, p: Params)
    requires p.Valid()
    ensures Steps(Zeros(p.word), Zeros(n), p.poly, p.width) == Zeros(p.word)
    decreases n
  {
    if n > 0 {
      assert Step(Zeros(p.word), Zeros(n)[0], p.poly, p.width) == Zeros(p.word);
      assert Zeros(n)[1..] == Zeros(n - 1);
      ZeroStaysZero(n - 1, p);
    }
  }
}
