/** Bitwise exclusive or on the natural numbers, and words of a given width. */
module Bits {
  import opened Arith

  function Xor(a: nat, b: nat): nat
    decreases a + b
  {
    if a == 0 && b == 0 then 0 else 2 * Xor(a / 2, b / 2) + (a + b) % 2
  }

  function TwoTo(bits: nat): (p: nat)
    ensures p > 0
  {
    if bits == 0 then 1 else 2 * TwoTo(bits - 1)
  }

  lemma XorHalves(a: nat, b: nat)
    ensures Xor(a, b) / 2 == Xor(a / 2, b / 2) && Xor(a, b) % 2 == (a + b) % 2
  {
    if a == 0 && b == 0 { assert Xor(0, 0) == 0; }
  }

  lemma {:induction false} XorCancels(a: nat, b: nat)
    ensures Xor(Xor(a, b), b) == a
    decreases a + b
  {
    hide Xor;
    if a == 0 && b == 0 {
      XorZero();
    } else {
      var y := Xor(a, b);
      var x := Xor(y, b);
      XorHalves(a, b);
      XorHalves(y, b);
      XorCancels(a / 2, b / 2);
      ParityCancels(a, b, y, x);
      SameNumber(x, a);
    }
  }

  lemma XorZero()
    ensures Xor(0, 0) == 0
  {
  }

  lemma ParityCancels(a: nat, b: nat, y: nat, x: nat)
    requires y % 2 == (a + b) % 2 && x % 2 == (y + b) % 2
    ensures x % 2 == a % 2
  {
  }

  lemma SameNumber(x: nat, a: nat)
    requires x / 2 == a / 2 && x % 2 == a % 2
    ensures x == a
  {
  }

  lemma {:induction false} XorCommutes(a: nat, b: nat)
    ensures Xor(a, b) == Xor(b, a)
    decreases a + b
  {
    if a != 0 || b != 0 { XorCommutes(a / 2, b / 2); }
  }

  lemma XorInjective(a: nat, b: nat, c: nat)
    requires Xor(a, b) == Xor(a, c)
    ensures b == c
  {
    XorCommutes(a, b);
    XorCommutes(a, c);
    XorCancels(b, a);
    XorCancels(c, a);
  }

  lemma HalfOfLow(x: nat, p: nat)
    requires p > 0
    ensures x % (2 * p) == 2 * (x / 2 % p) + x % 2
    ensures x % (2 * p) / 2 == x / 2 % p && x % (2 * p) % 2 == x % 2
  {
    DivDiv(x, 2, p);
  }

  /** The low bits of the result come from the low bits of the arguments. */
  lemma {:induction false} XorOfLow(a: nat, b: nat, bits: nat)
    ensures Xor(a, b) % TwoTo(bits) == Xor(a % TwoTo(bits), b % TwoTo(bits))
    decreases bits
  {
    if bits == 0 {
      assert Xor(0, 0) == 0;
    } else {
      hide Xor;
      var p := TwoTo(bits - 1);
      XorOfLow(a / 2, b / 2, bits - 1);
      XorHalves(a, b);
      HalfOfLow(Xor(a, b), p);
      HalfOfLow(a, p);
      HalfOfLow(b, p);
      var x, y := a % (2 * p), b % (2 * p);
      XorHalves(x, y);
      SameParity(a, b, x, y);
      assert Xor(x, y) == 2 * (Xor(x, y) / 2) + Xor(x, y) % 2;
    }
  }

  lemma SameParity(a: nat, b: nat, x: nat, y: nat)
    requires a % 2 == x % 2 && b % 2 == y % 2
    ensures (a + b) % 2 == (x + y) % 2
  {
  }

  lemma XorFits(a: nat, b: nat, bits: nat)
    requires a < TwoTo(bits) && b < TwoTo(bits)
    ensures Xor(a, b) < TwoTo(bits)
  {
    XorOfLow(a, b, bits);
  }

  /** A factor with an inverse modulo `m` loses nothing. */
  lemma FactorUndone(x: nat, factor: nat, inverse: nat, m: nat)
    requires m > 0 && factor * inverse % m == 1
    ensures x * factor % m * inverse % m == x % m
  {
    var q, k := x * factor / m, factor * inverse / m;
    var low := x * factor % m;
    assert low == x * factor - q * m;
    assert factor * inverse == k * m + 1;
    TimesInverse(x, factor, inverse, q, k, m);
    AddMultiple(x, x * k - q * inverse, m);
  }

  lemma TimesInverse(x: int, factor: int, inverse: int, q: int, k: int, m: int)
    requires factor * inverse == k * m + 1
    ensures (x * factor - q * m) * inverse == x + (x * k - q * inverse) * m
  {
    assert x * factor * inverse == x * (k * m + 1);
  }
}
