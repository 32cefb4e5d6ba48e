/** The noise functions (src/lib/hash.cpp:277-310).  Every step is a permutation of
    the machine words, with its inverse written out below; so the 32-bit function
    is one in its index and the 64-bit function is one in its seed.  The first
    multiplier of the 64-bit function is even, so in its index it is not. */
module Noise {
  import opened Arith
  import opened Bits

  // ----- powers of two -----

  lemma {:induction false} TwoToAdds(a: nat, b: nat)
    ensures TwoTo(a + b) == TwoTo(a) * TwoTo(b)
  {
    if a > 0 {
      TwoToAdds(a - 1, b);
      Doubles(TwoTo(a - 1), TwoTo(b));
    }
  }

  lemma Doubles(x: int, y: int)
    ensures 2 * (x * y) == 2 * x * y
  {
  }

  function Bytes(k: nat): (p: nat)
    ensures p > 0
  {
    TwoTo(8 * k)
  }

  lemma BytesNext(k: nat)
    ensures Bytes(k + 1) == 256 * Bytes(k)
  {
    TwoToAdds(8, 8 * k);
    assert TwoTo(8) == 256 by { assert TwoTo(4) == 16; }
  }

  lemma WordSizes()
    ensures Bytes(0) == 1 && Bytes(4) == 0x1_0000_0000 && Bytes(8) == 0x1_0000_0000_0000_0000
  {
    hide Bytes;
    assert Bytes(0) == 1 by { BytesZero(); }
    BytesNext(0);
    BytesNext(1);
    BytesNext(2);
    BytesNext(3);
    BytesNext(4);
    BytesNext(5);
    BytesNext(6);
    BytesNext(7);
  }

  lemma BytesZero()
    ensures Bytes(0) == 1
  {
  }

  lemma Small(r: int, m: int)
    requires 0 <= r < m
    ensures r % m == r
  {
    DivModUnique(r, 0, r, m);
  }

  /** A longer remainder keeps the shorter one. */
  lemma RemainderOfRemainder(x: nat, k: nat, n: nat)
    requires k <= n
    ensures x % Bytes(n) % Bytes(k) == x % Bytes(k)
  {
    TwoToAdds(8 * k, 8 * (n - k));
    RemainderOfProduct(x, Bytes(k), TwoTo(8 * (n - k)));
  }

  lemma RemainderOfProduct(x: nat, p: nat, c: nat)
    requires p > 0 && c > 0
    ensures p * c > 0 && x % (p * c) % p == x % p
  {
    DivDiv(x, p, c);
    AddMultiple(x % p, x / p % c, p);
    DivModUnique(x % p, 0, x % p, p);
  }

  lemma Regrouped(q: int, c: int, p: int)
    ensures q * (p * c) == q * c * p
  {
  }

  lemma TimesByte(x: nat, k: nat)
    ensures x * 256 % Bytes(k + 1) == 256 * (x % Bytes(k))
  {
    BytesNext(k);
    var p := Bytes(k);
    var q := x / p;
    Regrouped(q, 256, p);
    DivModUnique(x * 256, q, 256 * (x % p), 256 * p);
  }

  // ----- r ^= (r >> 8) -----

  function Right(r: nat): nat {
    Xor(r, r / 256)
  }

  function UnRight(x: nat): nat {
    if x == 0 then 0 else Xor(x, UnRight(x / 256))
  }

  lemma XorShifted(a: nat, b: nat)
    ensures Xor(a, b) / 256 == Xor(a / 256, b / 256)
  {
    hide Xor;
    XorHalved(a, b, 8);
    assert TwoTo(8) == 256 by { assert TwoTo(4) == 16; }
  }

  lemma {:induction false} XorHalved(a: nat, b: nat, bits: nat)
    ensures a / TwoTo(bits) >= 0 && b / TwoTo(bits) >= 0
    ensures Xor(a, b) / TwoTo(bits) == Xor(a / TwoTo(bits), b / TwoTo(bits))
    decreases bits
  {
    hide Xor;
    QuotientNonNegative(a, TwoTo(bits));
    QuotientNonNegative(b, TwoTo(bits));
    if bits > 0 {
      XorHalves(a, b);
      XorHalved(a / 2, b / 2, bits - 1);
      DivDiv(Xor(a, b), 2, TwoTo(bits - 1));
      DivDiv(a, 2, TwoTo(bits - 1));
      DivDiv(b, 2, TwoTo(bits - 1));
    }
  }

  lemma XorNothing(a: nat)
    ensures Xor(a, 0) == a && Xor(0, 0) == 0
  {
    XorCancels(a, 0);
    XorAgain(a);
  }

  lemma {:induction false} XorAgain(a: nat)
    ensures Xor(a, 0) == a
  {
    if a != 0 { XorAgain(a / 2); }
  }

  lemma {:induction false} RightUndone(r: nat)
    ensures UnRight(Right(r)) == r
    decreases r
  {
    if r == 0 {
      XorNothing(0);
    } else {
      hide Xor;
      var x := Right(r);
      XorShifted(r, r / 256);
      assert x / 256 == Right(r / 256);
      RightUndone(r / 256);
      XorCancels(r, r / 256);
      XorNothing(r);
    }
  }

  lemma {:induction false} RightRedone(x: nat)
    ensures Right(UnRight(x)) == x && UnRight(x) / 256 == UnRight(x / 256)
    decreases x
  {
    if x == 0 {
      XorNothing(0);
    } else {
      hide Xor;
      var v := UnRight(x / 256);
      RightRedone(x / 256);
      XorShifted(x, v);
      if x / 256 == 0 {
        XorNothing(0);
        assert v == 0;
      } else {
        assert v == Xor(x / 256, UnRight(x / 256 / 256));
      }
      assert UnRight(x) / 256 == v;
      XorCancels(x, v);
    }
  }

  lemma RightFits(r: nat, n: nat)
    requires r < Bytes(n)
    ensures Right(r) < Bytes(n)
  {
    XorFits(r, r / 256, 8 * n);
  }

  lemma {:induction false} UnRightFits(x: nat, n: nat)
    requires x < Bytes(n)
    ensures UnRight(x) < Bytes(n)
    decreases x
  {
    if x > 0 {
      UnRightFits(x / 256, n);
      XorFits(x, UnRight(x / 256), 8 * n);
    }
  }

  // ----- r ^= (r << 8) -----

  function Left(r: nat, n: nat): nat {
    Xor(r, r * 256 % Bytes(n))
  }

  /** The low `k` bytes of what `Left` made `x` of. */
  function UnLeft(x: nat, k: nat): nat {
    if k == 0 then 0 else Xor(x, UnLeft(x, k - 1) * 256) % Bytes(k)
  }

  lemma LeftFits(r: nat, n: nat)
    requires r < Bytes(n)
    ensures Left(r, n) < Bytes(n)
  {
    XorFits(r, r * 256 % Bytes(n), 8 * n);
  }

  lemma UnLeftFits(x: nat, k: nat)
    ensures UnLeft(x, k) < Bytes(k)
  {
    BytesZero();
  }

  lemma {:induction false} LeftUndoneLow(r: nat, k: nat, n: nat)
    requires k <= n
    ensures UnLeft(Left(r, n), k) == r % Bytes(k)
  {
    hide Xor, Bytes;
    if k == 0 {
      BytesZero();
    } else {
      var x, u, w := Left(r, n), r % Bytes(k - 1), 256 * (r % Bytes(k - 1));
      LeftUndoneLow(r, k - 1, n);
      XorLow(x, u * 256, k);
      XorLow(r, r * 256 % Bytes(n), k);
      RemainderOfRemainder(r * 256, k, n);
      TimesByte(r, k - 1);
      TimesByte(u, k - 1);
      Twice(r, k - 1);
      XorCancels(r % Bytes(k), w);
    }
  }

  lemma Twice(r: nat, k: nat)
    ensures r % Bytes(k) % Bytes(k) == r % Bytes(k)
  {
    RemainderOfRemainder(r, k, k);
  }

  lemma XorLow(a: nat, b: nat, k: nat)
    ensures Xor(a, b) % Bytes(k) == Xor(a % Bytes(k), b % Bytes(k))
  {
    XorOfLow(a, b, 8 * k);
  }

  lemma LeftUndone(r: nat, n: nat)
    requires r < Bytes(n)
    ensures UnLeft(Left(r, n), n) == r
  {
    hide Bytes, UnLeft, Left;
    LeftUndoneLow(r, n, n);
    Small(r, Bytes(n));
  }

  /** Reading fewer bytes reads the low part of what more bytes give. */
  lemma {:induction false} UnLeftGrows(x: nat, k: nat)
    ensures UnLeft(x, k + 1) % Bytes(k) == UnLeft(x, k)
  {
    hide Xor, Bytes, UnLeft;
    UnLeftNext(x, k);
    if k == 0 {
      BytesZero();
      UnLeftZero(x);
    } else {
      UnLeftNext(x, k - 1);
      UnLeftGrows(x, k - 1);
      var u, v := UnLeft(x, k), UnLeft(x, k - 1);
      RemainderOfRemainder(Xor(x, u * 256), k, k + 1);
      UnLeftFits(x, k - 1);
      SameLow(x, u, v, k - 1);
    }
  }

  lemma UnLeftZero(x: nat)
    ensures UnLeft(x, 0) == 0
  {
  }

  lemma UnLeftNext(x: nat, k: nat)
    ensures UnLeft(x, k + 1) == Xor(x, UnLeft(x, k) * 256) % Bytes(k + 1)
  {
    hide Xor, Bytes;
  }

  lemma SameLow(x: nat, u: nat, v: nat, k: nat)
    requires u % Bytes(k) == v && v < Bytes(k)
    ensures Xor(x, u * 256) % Bytes(k + 1) == Xor(x, v * 256) % Bytes(k + 1)
  {
    hide Xor, Bytes;
    XorLow(x, u * 256, k + 1);
    XorLow(x, v * 256, k + 1);
    TimesByte(u, k);
    TimesByte(v, k);
    Small(v, Bytes(k));
  }

  lemma LeftRedone(x: nat, n: nat)
    requires 0 < n && x < Bytes(n)
    ensures Left(UnLeft(x, n), n) == x
  {
    hide Xor, UnLeft, Bytes;
    var u, v := UnLeft(x, n), UnLeft(x, n - 1);
    UnLeftGrows(x, n - 1);
    UnLeftNext(x, n - 1);
    UnLeftFits(x, n - 1);
    TimesByte(u, n - 1);
    BytesNext(n - 1);
    XorFitsBytes(x, v * 256, n);
    Small(Xor(x, v * 256), Bytes(n));
    XorCancels(x, v * 256);
  }

  lemma XorFitsBytes(a: nat, b: nat, n: nat)
    requires a < Bytes(n) && b < Bytes(n)
    ensures Xor(a, b) < Bytes(n)
  {
    XorFits(a, b, 8 * n);
  }

  // ----- the functions -----

  function Plus(r: nat, s: nat, m: nat): nat
    requires m > 0
  {
    (r + s) % m
  }

  function Minus(r: nat, s: nat, m: nat): nat
    requires m > 0
  {
    (r - s) % m
  }

  lemma PlusUndone(r: nat, s: nat, m: nat)
    requires r < m
    ensures Minus(Plus(r, s, m), s, m) == r && Plus(Minus(r, s, m), s, m) == r
  {
    var q := (r + s) / m;
    BackTo(r, (r + s) % m - s, -q, m);
    var k := (r - s) / m;
    BackTo(r, (r - s) % m + s, -k, m);
  }

  lemma BackTo(r: int, t: int, q: int, m: int)
    requires 0 <= r < m && t == r + q * m
    ensures t % m == r
  {
    AddMultiple(r, q, m);
    Small(r, m);
  }

  /** The steps behind the first multiplication and the seed, on words of `n`
      bytes. */
  function Stir(r: nat, n: nat, addend: nat, factor: nat): nat {
    Right(Left(Plus(Right(r), addend, Bytes(n)), n) * factor % Bytes(n))
  }

  function Unstir(out: nat, n: nat, addend: nat, inverse: nat): nat {
    UnRight(Minus(UnLeft(UnRight(out) * inverse % Bytes(n), n), addend, Bytes(n)))
  }

  lemma FactorUndoneHere(r: nat, factor: nat, inverse: nat, m: nat)
    requires r < m && factor * inverse % m == 1
    ensures r * factor % m * inverse % m == r && r * inverse % m * factor % m == r
  {
    Small(r, m);
    FactorUndone(r, factor, inverse, m);
    Swapped(factor, inverse);
    FactorUndone(r, inverse, factor, m);
  }

  lemma Swapped(a: int, b: int)
    ensures a * b == b * a
  {
  }

  lemma StirUndone(r: nat, n: nat, addend: nat, factor: nat, inverse: nat)
    requires 0 < n && r < Bytes(n) && factor * inverse % Bytes(n) == 1
    ensures Stir(r, n, addend, factor) < Bytes(n) && Unstir(Stir(r, n, addend, factor), n, addend, inverse) == r
  {
    hide Right, UnRight, Left, UnLeft, Plus, Minus, Bytes;
    var m := Bytes(n);
    RightFits(r, n);
    RightUndone(r);
    PlusFits(Right(r), addend, m);
    PlusUndone(Right(r), addend, m);
    var r4 := Plus(Right(r), addend, m);
    LeftFits(r4, n);
    LeftUndone(r4, n);
    FactorUndoneHere(Left(r4, n), factor, inverse, m);
    var r6 := Left(r4, n) * factor % m;
    RightFits(r6, n);
    RightUndone(r6);
  }

  lemma PlusFits(r: nat, s: nat, m: nat)
    requires m > 0
    ensures Plus(r, s, m) < m && Minus(r, s, m) < m
  {
  }

  lemma StirRedone(out: nat, n: nat, addend: nat, factor: nat, inverse: nat)
    requires 0 < n && out < Bytes(n) && factor * inverse % Bytes(n) == 1
    ensures Unstir(out, n, addend, inverse) < Bytes(n)
        && Stir(Unstir(out, n, addend, inverse), n, addend, factor) == out
  {
    hide Right, UnRight, Left, UnLeft, Plus, Minus, Bytes;
    var m := Bytes(n);
    UnRightFits(out, n);
    RightRedone(out);
    FactorUndoneHere(UnRight(out), factor, inverse, m);
    var r5 := UnRight(out) * inverse % m;
    UnLeftFits(r5, n);
    LeftRedone(r5, n);
    var r4 := UnLeft(r5, n);
    PlusFits(r4, addend, m);
    PlusUndone(r4, addend, m);
    UnRightFits(Minus(r4, addend, m), n);
    RightRedone(Minus(r4, addend, m));
  }

  // ----- 32 bits -----

  const M32 := 0x1_0000_0000

  /** `gen_noise32` */
  function Noise32(index: nat, seed: nat): nat {
    Stir(Plus(index * 0xB5297A4D % M32, seed, M32), 4, 0x68E31DA4, 0x1B56C4E9)
  }

  /** The index that yields `out` under `seed`. */
  function Index32(out: nat, seed: nat): nat {
    Minus(Unstir(out, 4, 0x68E31DA4, 0xAE4E5359), seed, M32) * 0xEEF04E85 % M32
  }

  /** For each seed `gen_noise32` permutes the 32-bit integers: each output comes
      from exactly one index. */
  lemma Noise32Permutes(seed: nat, out: nat, index: nat)
    requires out < M32 && index < M32
    ensures Noise32(index, seed) < M32 && Index32(out, seed) < M32
    ensures Noise32(index, seed) == out <==> index == Index32(out, seed)
  {
    hide Stir, Unstir, Plus, Minus, Bytes;
    WordSizes();
    var r1 := index * 0xB5297A4D % M32;
    var r2 := Plus(r1, seed, M32);
    PlusFits(r1, seed, M32);
    FactorUndoneHere(index, 0xB5297A4D, 0xEEF04E85, M32);
    PlusUndone(r1, seed, M32);
    StirUndone(r2, 4, 0x68E31DA4, 0x1B56C4E9, 0xAE4E5359);
    StirRedone(out, 4, 0x68E31DA4, 0x1B56C4E9, 0xAE4E5359);
    var s2 := Unstir(out, 4, 0x68E31DA4, 0xAE4E5359);
    PlusFits(s2, seed, M32);
    PlusUndone(s2, seed, M32);
    FactorUndoneHere(Minus(s2, seed, M32), 0xB5297A4D, 0xEEF04E85, M32);
  }

  // ----- 64 bits -----

  const M64 := 0x1_0000_0000_0000_0000
  const FIRST64 := 0x5134811636F8CC8A

  /** `gen_noise64` */
  function Noise64(index: nat, seed: nat): nat {
    Stir(Plus(seed, index * FIRST64 % M64, M64), 8, 0xB8E31DA41B56C4E9, 0x18CD227AAA1168C1)
  }

  /** The seed that yields `out` at `index`. */
  function Seed64(out: nat, index: nat): nat {
    Minus(Unstir(out, 8, 0xB8E31DA41B56C4E9, 0xE60AD5FC0B5F2741), index * FIRST64 % M64, M64)
  }

  /** For each index `gen_noise64` permutes the 64-bit integers in its seed. */
  lemma Noise64PermutesSeeds(index: nat, out: nat, seed: nat)
    requires out < M64 && seed < M64
    ensures Noise64(index, seed) < M64 && Seed64(out, index) < M64
    ensures Noise64(index, seed) == out <==> seed == Seed64(out, index)
  {
    hide Stir, Unstir, Plus, Minus, Bytes;
    WordSizes();
    var k := index * FIRST64 % M64;
    var r2 := Plus(seed, k, M64);
    PlusFits(seed, k, M64);
    PlusUndone(seed, k, M64);
    StirUndone(r2, 8, 0xB8E31DA41B56C4E9, 0x18CD227AAA1168C1, 0xE60AD5FC0B5F2741);
    StirRedone(out, 8, 0xB8E31DA41B56C4E9, 0x18CD227AAA1168C1, 0xE60AD5FC0B5F2741);
    var s2 := Unstir(out, 8, 0xB8E31DA41B56C4E9, 0xE60AD5FC0B5F2741);
    PlusFits(s2, k, M64);
    PlusUndone(s2, k, M64);
  }

  lemma StirMeets(x: nat, y: nat)
    requires x < M64 && y < M64
    ensures Stir(x, 8, 0xB8E31DA41B56C4E9, 0x18CD227AAA1168C1) == Stir(y, 8, 0xB8E31DA41B56C4E9, 0x18CD227AAA1168C1) ==>
      x == y
  {
    hide Stir, Unstir, Bytes;
    WordSizes();
    StirUndone(x, 8, 0xB8E31DA41B56C4E9, 0x18CD227AAA1168C1, 0xE60AD5FC0B5F2741);
    StirUndone(y, 8, 0xB8E31DA41B56C4E9, 0x18CD227AAA1168C1, 0xE60AD5FC0B5F2741);
  }

  /** In its index it does not: two indices meet if and only if they are equal or
      half the range apart. */
  lemma Noise64MeetsIff(i: nat, j: nat, seed: nat)
    requires i < M64 && j < M64 && seed < M64
    ensures Noise64(i, seed) == Noise64(j, seed) <==> i == j || i == (j + M64 / 2) % M64
  {
    hide Stir, Plus;
    var a, b := First(i), First(j);
    PlusFits(seed, a, M64);
    PlusFits(seed, b, M64);
    StirMeets(Plus(seed, a, M64), Plus(seed, b, M64));
    PlusCancels(seed, a, b);
    FirstMeetsIff(i, j);
  }

  lemma PlusCancels(s: nat, a: nat, b: nat)
    requires a < M64 && b < M64
    ensures Plus(s, a, M64) == Plus(s, b, M64) ==> a == b
  {
    PlusUndone(a, s, M64);
    PlusUndone(b, s, M64);
    assert s + a == a + s && s + b == b + s;
  }

  const HALF := FIRST64 / 2
  const HALF_INVERSE := 0x446656217E6DBC8D

  function First(x: nat): nat { x * FIRST64 % M64 }
  function Double(x: nat): nat { 2 * x % M64 }
  function TimesHalf(x: nat): nat { x * HALF % M64 }
  function UntimesHalf(x: nat): nat { x * HALF_INVERSE % M64 }

  /** The multiplier is twice an odd number, whose inverse is the other factor. */
  lemma FirstMeetsIff(i: nat, j: nat)
    requires i < M64 && j < M64
    ensures First(i) == First(j) <==> i == j || i == (j + M64 / 2) % M64
  {
    hide First, Double, TimesHalf, UntimesHalf;
    Halved(i);
    Halved(j);
    DoubleMeetsIff(i, j);
  }

  lemma Halved(x: nat)
    ensures TimesHalf(Double(x)) == First(x) && UntimesHalf(First(x)) == Double(x)
  {
    FactorUndone(2 * x % M64, HALF, HALF_INVERSE, M64);
    var q, r := 2 * x / M64, 2 * x % M64;
    AddMultiple(r * HALF, q * HALF, M64);
    HalvedProduct(x, q, r, M64, HALF);
  }

  lemma HalvedProduct(x: int, q: int, r: int, m: int, half: int)
    requires 2 * x == q * m + r
    ensures r * half + q * half * m == x * (2 * half)
  {
    Distribute(2 * x, q * m, half);
    Regrouped(q, half, m);
    assert q * m * half == q * (m * half);
    assert 2 * x * half == x * (2 * half);
  }

  lemma DoubleMeetsIff(i: nat, j: nat)
    requires i < M64 && j < M64
    ensures Double(i) == Double(j) <==> i == j || i == (j + M64 / 2) % M64
  {
    DoubleIs(i);
    DoubleIs(j);
  }

  /** Doubling forgets the top bit and nothing else. */
  lemma DoubleIs(x: nat)
    requires x < M64
    ensures Double(x) == if x < M64 / 2 then 2 * x else 2 * x - M64
  {
  }
}
