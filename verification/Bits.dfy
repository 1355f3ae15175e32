/** Machine words as bit strings, least significant bit first. */
module Bits {

  type Word = seq<bool>

  /** An unsigned char. */
  type Byte = b: Word | |b| == 8 witness Zeros(8)

  function Zeros(n: nat): Word {
    seq(n, i => false)
  }

  function Xor(x: Word, y: Word): Word
    requires |x| == |y|
  {
    seq(|x|, i requires 0 <= i < |x| => x[i] != y[i])
  }

  function Or(x: Word, y: Word): (r: Word)
    requires |x| == |y|
    ensures |r| == |x|
  {
    seq(|x|, i requires 0 <= i < |x| => x[i] || y[i])
  }

  function Shl(x: Word, k: nat): Word {
    seq(|x|, i requires 0 <= i < |x| => i >= k && x[i - k])
  }

  function Shr(x: Word, k: nat): Word {
    seq(|x|, i requires 0 <= i < |x| => i + k < |x| && x[i + k])
  }

  /** Conversion to a type of `n` bits: cut or filled with zeros at the top. */
  function Cast(x: Word, n: nat): Word {
    seq(n, i requires 0 <= i < n => i < |x| && x[i])
  }

  /** The low `w` bits of `x` in opposite order, in a word of the same size. */
  function Reflect(x: Word, w: nat): (r: Word)
    requires w <= |x|
    ensures |r| == |x|
  {
    seq(|x|, i requires 0 <= i < |x| => i < w && x[w - 1 - i])
  }

  /** `x & sig_bits`. */
  function Mask(x: Word, w: nat): Word {
    seq(|x|, i requires 0 <= i < |x| => i < w && x[i])
  }

  function Reverse(x: Word): Word {
    Reflect(x, |x|)
  }

  /** The number a word denotes. */
  function ToNat(x: Word): nat {
    if x == [] then 0 else (if x[0] then 1 else 0) + 2 * ToNat(x[1..])
  }

  function FromNat(n: nat, k: nat): (x: Word)
    ensures |x| == k
  {
    if k == 0 then [] else [n % 2 == 1] + FromNat(n / 2, k - 1)
  }

  function Pow2(k: nat): nat {
    if k == 0 then 1 else 2 * Pow2(k - 1)
  }

  lemma {:induction false} ToNatRange(x: Word)
    ensures ToNat(x) < Pow2(|x|)
  {
    if x != [] {
      ToNatRange(x[1..]);
    }
  }

  lemma {:induction false} FromToNat(x: Word)
    ensures FromNat(ToNat(x), |x|) == x
  {
    if x != [] {
      FromToNat(x[1..]);
      assert ToNat(x) / 2 == ToNat(x[1..]);
      assert x == [x[0]] + x[1..];
    }
  }

  lemma ReverseTwice(x: Word)
    ensures Reverse(Reverse(x)) == x
  {
  }

  /** `reflector::reflect`: walks up the word and sets the mirrored bits. */
  method ReflectLoop(x0: Word, w: nat) returns (reflection: Word)
    requires w <= |x0|
    ensures reflection == Reflect(x0, w)
  {
    var x := x0;
    reflection := Zeros(|x0|);
    for i := 0 to w
      invariant |x| == |reflection| == |x0|
      invariant x == Shr(x0, i)
      invariant forall j :: 0 <= j < |x0| ==> reflection[j] == (w - i <= j < w && x0[w - 1 - j])
    {
      if x[0] {
        reflection := reflection[w - 1 - i := true];
      }
      x := Shr(x, 1);
    }
  }
}
