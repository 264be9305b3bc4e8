/** Bit vectors as sequences of booleans, index 0 being the least significant bit. */
module Bits {
  import Modulo

  type byte = x: nat | x < 256

  /** The low `w` bits of `n`. */
  function ToBits(n: nat, w: nat): (b: seq<bool>)
    ensures |b| == w
  {
    if w == 0 then [] else [n % 2 == 1] + ToBits(n / 2, w - 1)
  }

  function FromBits(b: seq<bool>): nat {
    if b == [] then 0 else (if b[0] then 1 else 0) + 2 * FromBits(b[1..])
  }

  function Pow2(n: nat): (r: nat)
    ensures r >= 1
  {
    if n == 0 then 1 else 2 * Pow2(n - 1)
  }

  lemma {:induction false} FromBitsBound(b: seq<bool>)
    ensures FromBits(b) < Pow2(|b|)
  {
    if b != [] {
      FromBitsBound(b[1..]);
    }
  }

  lemma {:induction false} ToFromBits(b: seq<bool>)
    ensures ToBits(FromBits(b), |b|) == b
  {
    if b != [] {
      ToFromBits(b[1..]);
      assert b == [b[0]] + b[1..];
    }
  }

  lemma {:induction false} FromToBits(n: nat, w: nat)
    requires n < Pow2(w)
    ensures FromBits(ToBits(n, w)) == n
  {
    if w > 0 {
      FromToBits(n / 2, w - 1);
      assert ToBits(n, w)[1..] == ToBits(n / 2, w - 1);
    }
  }

  /** Bit `i` is the digit of weight 2^i. */
  lemma {:induction false} DigitAt(n: nat, w: nat, i: nat)
    requires i < w
    ensures ToBits(n, w)[i] <==> n / Pow2(i) % 2 == 1
  {
    if i > 0 {
      DigitAt(n / 2, w - 1, i - 1);
      Modulo.HalfThenDivide(n, Pow2(i - 1));
    }
  }

  /** Bitwise exclusive or. */
  function Xor(a: seq<bool>, b: seq<bool>): (r: seq<bool>)
    requires |a| == |b|
    ensures |r| == |a|
  {
    seq(|a|, i requires 0 <= i < |a| => a[i] != b[i])
  }

  function Const(w: nat, v: bool): (r: seq<bool>)
    ensures |r| == w && forall i | 0 <= i < w :: r[i] == v
  {
    seq(w, _ => v)
  }

  /** Most significant bit first instead of least significant bit first. */
  function Reverse(a: seq<bool>): (r: seq<bool>)
    ensures |r| == |a| && forall i | 0 <= i < |a| :: r[i] == a[|a| - 1 - i]
  {
    seq(|a|, i requires 0 <= i < |a| => a[|a| - 1 - i])
  }

  function Not(a: seq<bool>): (r: seq<bool>)
    ensures |r| == |a| && forall i | 0 <= i < |a| :: r[i] == !a[i]
  {
    seq(|a|, i requires 0 <= i < |a| => !a[i])
  }

  lemma XorZero(a: seq<bool>)
    ensures Xor(a, Const(|a|, false)) == a == Xor(Const(|a|, false), a)
  {}

  lemma NotIsXor(a: seq<bool>)
    ensures Not(a) == Xor(a, Const(|a|, true))
  {}
}
