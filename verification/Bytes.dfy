/** Unsigned integers as bytes, in both orders. */
module Bytes {

  import opened Arith

  type byte = x: int | 0 <= x < 256

  function Pow256(n: nat): int {
    if n == 0 then 1 else 256 * Pow256(n - 1)
  }

  /** Little-endian, `n` bytes. */
  function LE(v: nat, n: nat): (s: seq<byte>)
    ensures |s| == n
  {
    if n == 0 then [] else [v % 256] + LE(v / 256, n - 1)
  }

  function FromLE(s: seq<byte>): nat {
    if s == [] then 0 else s[0] + 256 * FromLE(s[1..])
  }

  /** Big-endian, `n` bytes. */
  function BE(v: nat, n: nat): (s: seq<byte>)
    ensures |s| == n
  {
    if n == 0 then [] else BE(v / 256, n - 1) + [v % 256]
  }

  function FromBE(s: seq<byte>): nat {
    if s == [] then 0 else FromBE(s[..|s| - 1]) * 256 + s[|s| - 1]
  }

  function Reversed(s: seq<byte>): seq<byte> {
    seq(|s|, i requires 0 <= i < |s| => s[|s| - 1 - i])
  }

  lemma {:induction false} FromLEOfLE(v: nat, n: nat)
    requires v < Pow256(n)
    ensures FromLE(LE(v, n)) == v
  {
    if n > 0 {
      FromLEOfLE(v / 256, n - 1);
      assert LE(v, n)[1..] == LE(v / 256, n - 1);
    }
  }

  lemma {:induction false} FromBEOfBE(v: nat, n: nat)
    requires v < Pow256(n)
    ensures FromBE(BE(v, n)) == v
  {
    if n > 0 {
      FromBEOfBE(v / 256, n - 1);
      assert BE(v, n)[..n - 1] == BE(v / 256, n - 1);
    }
  }

  lemma {:induction false} FromLERange(s: seq<byte>)
    ensures FromLE(s) < Pow256(|s|)
  {
    if s != [] {
      FromLERange(s[1..]);
    }
  }

  lemma {:induction false} FromBERange(s: seq<byte>)
    ensures FromBE(s) < Pow256(|s|)
  {
    if s != [] {
      FromBERange(s[..|s| - 1]);
    }
  }

  lemma {:induction false} BEOfFromBE(s: seq<byte>)
    ensures BE(FromBE(s), |s|) == s
  {
    if s != [] {
      BEOfFromBE(s[..|s| - 1]);
      assert FromBE(s) / 256 == FromBE(s[..|s| - 1]);
      assert s == s[..|s| - 1] + [s[|s| - 1]];
    }
  }

  /** Reading backwards changes the byte order. */
  lemma {:induction false} FromLEReversed(s: seq<byte>)
    ensures FromLE(Reversed(s)) == FromBE(s)
  {
    if s != [] {
      assert Reversed(s)[1..] == Reversed(s[..|s| - 1]);
      FromLEReversed(s[..|s| - 1]);
    }
  }

  /** Byte `i` of a little-endian number counts multiples of `256^i`. */
  lemma {:induction false} LEAt(v: nat, n: nat, i: nat)
    requires i < n
    ensures Pow256(i) > 0 && LE(v, n)[i] == v / Pow256(i) % 256
  {
    if i > 0 {
      LEAt(v / 256, n - 1, i - 1);
      DivTwice(v, 256, Pow256(i - 1));
    }
  }

  lemma {:induction false} DivTwice(v: nat, a: nat, b: nat)
    requires a > 0 && b > 0
    ensures a * b > 0 && v / a / b == v / (a * b)
  {
    ProductMonotone(1, 1, a, b);
    var q := v / a / b;
    var r := v / a - q * b;
    assert v == (v / a) * a + v % a;
    assert (v / a) * a == q * (a * b) + r * a by {
      Distribute(q, b, r, a);
    }
    ProductMonotone(r, a, b - 1, a);
    assert (b - 1) * a == a * b - a;
    QuotientUnique(v, a * b, q);
  }

  /** The first byte of a big-endian number counts most. */
  lemma {:induction false} FromBEFirst(s: seq<byte>)
    requires s != []
    ensures FromBE(s) == s[0] * Pow256(|s| - 1) + FromBE(s[1..])
  {
    if |s| == 1 {
      assert s[..0] == [];
    } else {
      var n := |s| - 1;
      var x, y := FromBE(s[..n]), FromBE(s[1..][..n - 1]);
      FromBEFirst(s[..n]);
      assert s[1..][..n - 1] == s[..n][1..] && s[1..][n - 1] == s[n];
      assert x == s[0] * Pow256(n - 1) + y && FromBE(s) == x * 256 + s[n] && FromBE(s[1..]) == y * 256 + s[n];
      assert Pow256(n) == 256 * Pow256(n - 1);
      hide Pow256, FromBE;
      assert s[0] * (256 * Pow256(n - 1)) == (s[0] * Pow256(n - 1)) * 256;
    }
  }

  lemma Powers()
    ensures Pow256(1) == 0x100 && Pow256(2) == 0x1_0000 && Pow256(4) == 0x1_0000_0000
    ensures Pow256(6) == 0x1_0000_0000_0000 && Pow256(8) == 0x1_0000_0000_0000_0000
  {
    assert Pow256(3) == 0x100_0000;
    assert Pow256(5) == 0x100_0000_0000;
    assert Pow256(7) == 0x100_0000_0000_0000;
  }
}
