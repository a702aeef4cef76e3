/**
 * Machine words as sequences of bits, least significant bit first. Bitwise
 * operations on `u64` values are modelled here, pointwise, so that their
 * arithmetic meaning can be proved by induction over the integers.
 */
module Bits {
  import opened Common

  /** The `w` low bits of `n`, least significant first. */
  function ToBits(n: nat, w: nat): (b: seq<bool>)
    ensures |b| == w
  {
    if w == 0 then [] else [n % 2 == 1] + ToBits(n / 2, w - 1)
  }

  /** The number a sequence of bits denotes. */
  function FromBits(b: seq<bool>): nat
  {
    if b == [] then 0 else (if b[0] then 1 else 0) + 2 * FromBits(b[1..])
  }

  lemma {:induction false} FromToBits(n: nat, w: nat)
    requires n < Pow2(w)
    ensures FromBits(ToBits(n, w)) == n
  {
    if w > 0 {
      FromToBits(n / 2, w - 1);
      assert ToBits(n, w)[1..] == ToBits(n / 2, w - 1);
    }
  }

  lemma {:induction false} ToFromBits(b: seq<bool>)
    ensures ToBits(FromBits(b), |b|) == b
  {
    if b != [] {
      var n := FromBits(b);
      assert n % 2 == (if b[0] then 1 else 0) && n / 2 == FromBits(b[1..]);
      ToFromBits(b[1..]);
    }
  }

  /** Bit `i` of `ToBits(n, w)` is the `i`-th binary digit of `n`. */
  lemma {:induction false} ToBitsDigit(n: nat, w: nat, i: nat)
    requires i < w
    ensures ToBits(n, w)[i] == ((n / Pow2(i)) % 2 == 1)
  {
    if i > 0 {
      ToBitsDigit(n / 2, w - 1, i - 1);
      DivDiv(n, 2, Pow2(i - 1));
    }
  }

  lemma DivDiv(n: nat, a: nat, b: nat)
    requires a > 0 && b > 0
    ensures n / a / b == n / (a * b)
  {
    var q, r := n / a, n % a;
    var q2, r2 := q / b, q % b;
    assert n == q2 * (a * b) + (r2 * a + r) by {
      assert n == q * a + r;
      assert q == q2 * b + r2;
    }
    assert r2 * a + r < a * b by {
      assert r2 * a <= (b - 1) * a;
    }
    DivModUnique(n, a * b, q2, r2 * a + r);
  }

  /** The number of significant bits of `n`: zero for zero. */
  function BitLength(n: nat): (len: nat)
    ensures len <= n
  {
    if n == 0 then 0 else 1 + BitLength(n / 2)
  }

  /** `n` has exactly `BitLength(n)` significant bits. */
  lemma {:induction false} BitLengthBounds(n: nat)
    ensures (BitLength(n) == 0) == (n == 0)
    ensures n < Pow2(BitLength(n))
    ensures n > 0 ==> Pow2(BitLength(n) - 1) <= n
  {
    if n > 0 {
      BitLengthBounds(n / 2);
    }
  }

  /** The set bits of `n` are exactly below its bit length, and its top bit is set. */
  lemma {:induction false} BitsOfLength(n: nat, w: nat, i: nat)
    requires i < w
    ensures i >= BitLength(n) ==> !ToBits(n, w)[i]
    ensures n > 0 && i == BitLength(n) - 1 ==> ToBits(n, w)[i]
  {
    if i > 0 {
      BitsOfLength(n / 2, w - 1, i - 1);
    } else if n > 0 && BitLength(n) == 1 {
      assert BitLength(n / 2) == 0;
      assert n / 2 == 0;
    }
  }

  /** `BitLength(n)` ones followed by zeros, up to width `w`. */
  function LowMask(len: nat, w: nat): (b: seq<bool>)
    requires len <= w
    ensures |b| == w
    ensures forall i :: 0 <= i < w ==> b[i] == (i < len)
  {
    if w == 0 then [] else [0 < len] + LowMask(if len == 0 then 0 else len - 1, w - 1)
  }

  lemma {:induction false} LowMaskValue(len: nat, w: nat)
    requires len <= w
    ensures FromBits(LowMask(len, w)) == Pow2(len) - 1
  {
    if w > 0 {
      var rest := LowMask(if len == 0 then 0 else len - 1, w - 1);
      assert LowMask(len, w)[1..] == rest;
      LowMaskValue(if len == 0 then 0 else len - 1, w - 1);
    }
  }

  /** `x | y` on equal-width words. */
  function Or(a: seq<bool>, b: seq<bool>): (c: seq<bool>)
    requires |a| == |b|
    ensures |c| == |a| && forall i :: 0 <= i < |a| ==> c[i] == (a[i] || b[i])
  {
    seq(|a|, i requires 0 <= i < |a| => a[i] || b[i])
  }

  /** `x >> s` for a shift smaller than the width: zeros come in at the top. */
  function ShiftRight(a: seq<bool>, s: nat): (c: seq<bool>)
    requires s < |a|
    ensures |c| == |a| && forall i :: 0 <= i < |a| ==> c[i] == (i + s < |a| && a[i + s])
  {
    seq(|a|, i requires 0 <= i < |a| => i + s < |a| && a[i + s])
  }
}
