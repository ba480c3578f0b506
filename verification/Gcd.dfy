// Greatest common divisors, and the binary algorithm that TimelineRate uses to
// keep its ratios reduced.

module Gcd {

  function ShiftLeft(n: nat, k: nat): nat
    decreases k
  {
    if k == 0 then n else ShiftLeft(2 * n, k - 1)
  }

  ghost predicate Divides(d: nat, n: nat) {
    exists k: nat :: Times(d, k) == n
  }

  function Times(d: nat, k: nat): nat {
    d * k
  }

  /** g is a common divisor of a and b that every common divisor divides. */
  ghost predicate IsGcd(g: nat, a: nat, b: nat) {
    && Divides(g, a)
    && Divides(g, b)
    && forall d: nat :: Divides(d, a) && Divides(d, b) ==> Divides(d, g)
  }

  /** Euclid's algorithm, the reference definition. */
  function Of(a: nat, b: nat): nat
    decreases b
  {
    if b == 0 then a else Of(b, a % b)
  }

  // ----- divisibility

  lemma DividesIntro(d: nat, k: nat, n: nat)
    requires n == d * k
    ensures Divides(d, n)
  {
    assert Times(d, k) == n;
  }

  lemma Quotient(d: nat, n: nat) returns (k: nat)
    requires Divides(d, n)
    ensures n == d * k
  {
    k :| Times(d, k) == n;
  }

  lemma Regroup(c: int, d: int, i: int)
    ensures c * (d * i) == d * (c * i) == (c * d) * i == (d * c) * i
  {
  }

  lemma DividesCombination(d: nat, x: nat, y: nat, c: nat)
    requires Divides(d, x) && Divides(d, y)
    ensures Divides(d, c * x + y)
  {
    var i := Quotient(d, x);
    var j := Quotient(d, y);
    Regroup(c, d, i);
    DividesIntro(d, c * i + j, c * x + y);
  }

  lemma DividesDifference(d: nat, x: nat, y: nat, c: nat)
    requires Divides(d, x) && Divides(d, y) && c * y <= x
    ensures Divides(d, x - c * y)
  {
    var i := Quotient(d, x);
    var j := Quotient(d, y);
    Regroup(c, d, j);
    Difference(d, i, c * j, x - c * y);
  }

  lemma Difference(d: nat, i: nat, j: nat, n: nat)
    requires n == d * i - d * j
    ensures Divides(d, n)
  {
    if i >= j {
      DividesIntro(d, i - j, n);
    } else {
      assert n == 0 by {
        assert d * (j - i) >= 0;
      }
      DividesIntro(d, 0, n);
    }
  }

  lemma DividesAntisymmetric(a: nat, b: nat)
    requires Divides(a, b) && Divides(b, a)
    ensures a == b
  {
    DividesAtMost(a, b);
    DividesAtMost(b, a);
  }

  lemma DividesAtMost(a: nat, b: nat)
    requires Divides(a, b)
    ensures b == 0 || a <= b
    ensures a == 0 ==> b == 0
  {
    var k := Quotient(a, b);
    if k == 0 {
      assert b == 0;
    } else {
      assert b == a + a * (k - 1);
    }
  }

  // ----- Euclid's algorithm computes the greatest common divisor

  lemma {:induction false} OfIsGcd(a: nat, b: nat)
    ensures IsGcd(Of(a, b), a, b)
    decreases b
  {
    if b == 0 {
      DividesIntro(a, 1, a);
      DividesIntro(a, 0, 0);
    } else {
      var g, q, r := Of(a, b), a / b, a % b;
      OfIsGcd(b, r);
      assert a == q * b + r;
      DividesCombination(g, b, r, q);
      forall d: nat | Divides(d, a) && Divides(d, b)
        ensures Divides(d, g)
      {
        DividesDifference(d, a, b, q);
      }
    }
  }

  lemma Unique(g: nat, a: nat, b: nat)
    requires IsGcd(g, a, b)
    ensures g == Of(a, b)
  {
    OfIsGcd(a, b);
    DividesAntisymmetric(g, Of(a, b));
  }

  lemma Symmetric(a: nat, b: nat)
    ensures Of(a, b) == Of(b, a)
  {
    OfIsGcd(a, b);
    Unique(Of(a, b), b, a);
  }

  // ----- the four rules of the binary algorithm

  lemma BothEven(a: nat, b: nat)
    ensures Of(2 * a, 2 * b) == 2 * Of(a, b)
  {
    var g := Of(a, b);
    OfIsGcd(a, b);
    DoubleDivides(g, a);
    DoubleDivides(g, b);
    forall d: nat | Divides(d, 2 * a) && Divides(d, 2 * b)
      ensures Divides(d, 2 * g)
    {
      if d % 2 == 0 {
        HalfDivides(d / 2, a);
        HalfDivides(d / 2, b);
        DoubleDivides(d / 2, g);
      } else {
        OddDivides(d, a);
        OddDivides(d, b);
        DividesIntro(d, 0, 0);
        DividesCombination(d, g, 0, 2);
      }
    }
    Unique(2 * g, 2 * a, 2 * b);
  }

  lemma DoubleDivides(e: nat, a: nat)
    requires Divides(e, a)
    ensures Divides(2 * e, 2 * a)
  {
    var k := Quotient(e, a);
    Regroup(2, e, k);
    DividesIntro(2 * e, k, 2 * a);
  }

  lemma HalfDivides(e: nat, a: nat)
    requires Divides(2 * e, 2 * a)
    ensures Divides(e, a)
  {
    var k := Quotient(2 * e, 2 * a);
    Regroup(2, e, k);
    DividesIntro(e, k, a);
  }

  lemma OddDivides(d: nat, a: nat)
    requires d % 2 == 1 && Divides(d, 2 * a)
    ensures Divides(d, a)
  {
    var k := Quotient(d, 2 * a);
    Parity(d, k);
    Regroup(2, d, k / 2);
    DividesIntro(d, k / 2, a);
  }

  lemma Parity(d: nat, k: nat)
    ensures (d * k) % 2 == (d % 2) * (k % 2)
  {
    var i, j := d / 2, k / 2;
    var p, q := d % 2, k % 2;
    Expand(i, p, j, q);
    DropDouble(2 * (i * j) + i * q + p * j, p * q);
    assert p == 0 || p == 1;
  }

  lemma DropDouble(x: nat, y: nat)
    ensures (2 * x + y) % 2 == y % 2
  {
  }

  lemma Expand(i: nat, p: nat, j: nat, q: nat)
    ensures (2 * i + p) * (2 * j + q) == 2 * (2 * (i * j) + i * q + p * j) + p * q
  {
  }

  lemma OddFactor(d: nat, b: nat)
    requires b % 2 == 1 && Divides(d, b)
    ensures d % 2 == 1
  {
    var k := Quotient(d, b);
    Parity(d, k);
  }

  lemma OneEven(a: nat, b: nat)
    requires b % 2 == 1
    ensures Of(2 * a, b) == Of(a, b)
  {
    var g := Of(a, b);
    OfIsGcd(a, b);
    DividesIntro(g, 0, 0);
    DividesCombination(g, a, 0, 2);
    forall d: nat | Divides(d, 2 * a) && Divides(d, b)
      ensures Divides(d, g)
    {
      OddFactor(d, b);
      OddDivides(d, a);
    }
    Unique(g, 2 * a, b);
  }

  lemma Subtract(a: nat, b: nat)
    requires a <= b
    ensures Of(a, b - a) == Of(a, b)
  {
    var g := Of(a, b - a);
    OfIsGcd(a, b - a);
    DividesCombination(g, a, b - a, 1);
    forall d: nat | Divides(d, a) && Divides(d, b)
      ensures Divides(d, g)
    {
      DividesDifference(d, b, a, 1);
    }
    Unique(g, a, b);
  }

  // ----- scaling and Euclid's lemma

  lemma {:induction false} Scaled(k: nat, a: nat, b: nat)
    ensures Of(k * a, k * b) == k * Of(a, b)
    decreases b
  {
    if k == 0 || b == 0 {
      assert k * b == 0;
    } else {
      Scaled(k, b, a % b);
      ScaledRemainder(k, a, b);
      assert k * b > 0;
    }
  }

  lemma ScaledRemainder(k: nat, a: nat, b: nat)
    requires k > 0 && b > 0
    ensures k * b > 0 && (k * a) % (k * b) == k * (a % b)
  {
    var q, r := a / b, a % b;
    calc {
      k * a;
      k * (q * b + r);
      q * (k * b) + k * r;
    }
    assert k * r < k * b;
    RemainderIs(k * a, k * b, q, k * r);
  }

  lemma RemainderIs(n: int, d: int, q: int, r: int)
    requires 0 <= r < d && n == q * d + r
    ensures n % d == r && n / d == q
  {
    var e := n / d - q;
    assert n == (n / d) * d + n % d;
    assert e * d == r - n % d;
    Multiple(e, d);
  }

  lemma Multiple(e: int, d: int)
    requires d > 0
    ensures e >= 1 ==> e * d >= d
    ensures e <= -1 ==> e * d <= -d
  {
    assert e * d == d + (e - 1) * d == (e + 1) * d - d;
  }

  lemma Cancel(g: int, x: int, y: int)
    requires g > 0 && g * x == g * y
    ensures x == y
  {
    assert (x - y) * g == 0;
    Multiple(x - y, g);
  }

  lemma CommonDivides(d: nat, x: nat, y: nat, g: nat)
    requires Divides(d, x) && Divides(d, y) && Of(x, y) == g
    ensures Divides(d, g)
  {
    OfIsGcd(x, y);
  }

  /** Euclid's lemma: b is prime to a and divides x, which is d times a. */
  lemma CoprimeDivides(a: nat, b: nat, d: nat, x: nat)
    requires Of(a, b) == 1 && x == d * a && Divides(b, x)
    ensures Divides(b, d)
  {
    var y, g := ScaledPair(d, a, b, x);
    CommonDivides(b, x, y, g);
  }

  lemma ScaledPair(d: nat, a: nat, b: nat, x: nat) returns (y: nat, g: nat)
    requires Of(a, b) == 1 && x == d * a
    ensures Divides(b, y) && Of(x, y) == g == d
  {
    y, g := d * b, d;
    Scaled(d, a, b);
    TimesOne(d, Of(a, b));
    DividesProduct(d, b);
  }

  lemma TimesOne(d: nat, g: nat)
    requires g == 1
    ensures d * g == d
  {
  }

  lemma DividesProduct(d: nat, b: nat)
    ensures Divides(b, d * b)
  {
    DividesIntro(b, d, b * d);
  }

  // ----- the algorithm

  /** The shift-and-subtract algorithm: no division, only halving and subtraction. */
  method BinaryGcd(a0: nat, b0: nat) returns (g: nat)
    ensures IsGcd(g, a0, b0)
    ensures g == Of(a0, b0)
  {
    OfIsGcd(a0, b0);
    if a0 == 0 {
      Symmetric(a0, b0);
      return b0;
    }
    if b0 == 0 {
      return a0;
    }
    var a, b := a0, b0;

    // Remove and count the common factors of 2.
    var twos := 0;
    while a % 2 == 0 && b % 2 == 0
      invariant a > 0 && b > 0
      invariant Of(a0, b0) == ShiftLeft(Of(a, b), twos)
      decreases a
    {
      BothEven(a / 2, b / 2);
      a, b, twos := a / 2, b / 2, twos + 1;
    }

    // Remove the factors of 2 that only a has.
    while a % 2 == 0
      invariant a > 0 && b > 0
      invariant a % 2 == 1 || b % 2 == 1
      invariant Of(a0, b0) == ShiftLeft(Of(a, b), twos)
      decreases a
    {
      OneEven(a / 2, b);
      a := a / 2;
    }

    while true
      invariant a > 0 && b > 0 && a % 2 == 1
      invariant Of(a0, b0) == ShiftLeft(Of(a, b), twos)
      decreases a + b
    {
      // Remove the factors of 2 that only b has.
      ghost var limit := b;
      while b % 2 == 0
        invariant 0 < b <= limit
        invariant Of(a0, b0) == ShiftLeft(Of(a, b), twos)
        decreases b
      {
        Symmetric(a, b);
        OneEven(b / 2, a);
        Symmetric(a, b / 2);
        b := b / 2;
      }
      if a > b {
        Symmetric(a, b);
        a, b := b, a;
      }
      Subtract(a, b);
      b := b - a;
      if b == 0 {
        break;
      }
    }

    // Multiply in the common factors of 2.
    g := ShiftLeft(a, twos);
  }

}
