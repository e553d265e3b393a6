/** Bitwise operations of C's unsigned integers, on natural numbers. */
module Bits {

  function Xor(a: nat, b: nat): nat
    decreases a + b
  {
    if a == 0 && b == 0 then 0 else (a % 2 + b % 2) % 2 + 2 * Xor(a / 2, b / 2)
  }

  function And(a: nat, b: nat): nat
    decreases a + b
  {
    if a == 0 && b == 0 then 0 else a % 2 * (b % 2) + 2 * And(a / 2, b / 2)
  }

  function Or(a: nat, b: nat): nat
    decreases a + b
  {
    if a == 0 && b == 0 then 0 else (if a % 2 + b % 2 == 0 then 0 else 1) + 2 * Or(a / 2, b / 2)
  }

  function Pow2(n: nat): (r: nat)
    ensures r >= 1
  {
    if n == 0 then 1 else 2 * Pow2(n - 1)
  }

  lemma QuotientNatural(x: nat, d: nat)
    requires d > 0
    ensures x / d >= 0
  {
  }

  /** `x >> n`. */
  function Shr(x: nat, n: nat): nat {
    QuotientNatural(x, Pow2(n));
    x / Pow2(n)
  }

  lemma {:induction false} XorZero(a: nat)
    ensures Xor(a, 0) == a
  {
    if a != 0 { XorZero(a / 2); }
  }

  lemma {:induction false} XorCancels(a: nat, b: nat)
    ensures Xor(Xor(a, b), b) == a
    decreases a + b
  {
    if a != 0 || b != 0 {
      hide Xor;
      var low, high := (a % 2 + b % 2) % 2, Xor(a / 2, b / 2);
      XorUnfold(a, b);
      XorOfParts(low, high, b);
      XorCancels(a / 2, b / 2);
      Parity(a % 2, b % 2);
    }
  }

  lemma XorOfParts(low: nat, high: nat, b: nat)
    requires low < 2
    ensures Xor(low + 2 * high, b) == (low + b % 2) % 2 + 2 * Xor(high, b / 2)
  {
    hide Xor;
    XorUnfold(low + 2 * high, b);
    LowAndHigh(low, high);
  }

  lemma LowAndHigh(low: nat, high: nat)
    requires low < 2
    ensures (low + 2 * high) / 2 == high && (low + 2 * high) % 2 == low
  {
  }

  lemma Parity(x: nat, y: nat)
    requires x < 2 && y < 2
    ensures ((x + y) % 2 + y) % 2 == x
  {
  }

  lemma {:induction false} XorBound(a: nat, b: nat, n: nat)
    requires a < Pow2(n) && b < Pow2(n)
    ensures Xor(a, b) < Pow2(n)
  {
    if n > 0 {
      XorBound(a / 2, b / 2, n - 1);
    }
  }

  /** Xor of numbers put together from a low part of `n` bits and a high part. */
  lemma {:induction false} XorSplit(a: nat, b: nat, a': nat, b': nat, n: nat)
    requires a < Pow2(n) && b < Pow2(n)
    ensures Xor(a + Pow2(n) * a', b + Pow2(n) * b') == Xor(a, b) + Pow2(n) * Xor(a', b')
  {
    hide Xor;
    var x, y := a + Pow2(n) * a', b + Pow2(n) * b';
    if n == 0 {
      assert x == a' && y == b' && a == 0 && b == 0;
      XorZero(0);
    } else {
      var h := Pow2(n - 1);
      HalfSplit(a, a', Pow2(n), h);
      HalfSplit(b, b', Pow2(n), h);
      XorUnfold(x, y);
      XorUnfold(a, b);
      XorSplit(a / 2, b / 2, a', b', n - 1);
      DoubleProduct(h, Xor(a', b'));
    }
  }

  lemma DoubleProduct(h: nat, z: nat)
    ensures 2 * (h * z) == (2 * h) * z
  {
  }

  lemma XorUnfold(a: nat, b: nat)
    ensures Xor(a, b) == (a % 2 + b % 2) % 2 + 2 * Xor(a / 2, b / 2)
  {
  }

  lemma HalfSplit(a: nat, a': nat, n: nat, h: nat)
    requires n == 2 * h
    ensures (a + n * a') % 2 == a % 2 && (a + n * a') / 2 == a / 2 + h * a'
  {
    var k := h * a';
    assert n * a' == 2 * k;
  }

  lemma OrUnfold(a: nat, b: nat)
    ensures Or(a, b) == (if a % 2 + b % 2 == 0 then 0 else 1) + 2 * Or(a / 2, b / 2)
  {
  }

  lemma {:induction false} OrZero(b: nat)
    ensures Or(0, b) == b
  {
    if b != 0 { OrZero(b / 2); }
  }

  /** Or of numbers without common bits is their sum. */
  lemma {:induction false} OrDisjoint(a: nat, b: nat, n: nat)
    requires a < Pow2(n)
    ensures Or(a, Pow2(n) * b) == a + Pow2(n) * b
  {
    if n == 0 {
      OrZero(b);
    } else {
      hide Or;
      var h := Pow2(n - 1);
      DoubleProduct(h, b);
      OrUnfold(a, Pow2(n) * b);
      LowAndHigh(0, h * b);
      OrDisjoint(a / 2, b, n - 1);
    }
  }

  lemma AndUnfold(a: nat, b: nat)
    ensures And(a, b) == a % 2 * (b % 2) + 2 * And(a / 2, b / 2)
  {
  }

  lemma {:induction false} AndZero(a: nat)
    ensures And(a, 0) == 0 && And(0, a) == 0
  {
    if a != 0 { AndZero(a / 2); }
  }

  /** And of numbers put together from a low part of `n` bits and a high part. */
  lemma {:induction false} AndSplit(a: nat, b: nat, a': nat, b': nat, n: nat)
    requires a < Pow2(n) && b < Pow2(n)
    ensures And(a + Pow2(n) * a', b + Pow2(n) * b') == And(a, b) + Pow2(n) * And(a', b')
  {
    hide And;
    var x, y := a + Pow2(n) * a', b + Pow2(n) * b';
    if n == 0 {
      assert x == a' && y == b' && a == 0 && b == 0;
      AndZero(0);
    } else {
      var h := Pow2(n - 1);
      HalfSplit(a, a', Pow2(n), h);
      HalfSplit(b, b', Pow2(n), h);
      AndUnfold(x, y);
      AndUnfold(a, b);
      AndSplit(a / 2, b / 2, a', b', n - 1);
      DoubleProduct(h, And(a', b'));
    }
  }
}
