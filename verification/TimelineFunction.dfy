// Linear functions between timelines: application, inversion, composition, and
// how far rounding takes each from the ideal.

module TimelineFunctions {
  import opened TimelineRates
  import opened TimelineScale
  import Gcd

  datatype TimelineFunction = TimelineFunction(referenceTime: int64, subjectTime: int64, rate: TimelineRate)

  /** The sum is not an int64 when the source's signed addition overflows. */
  function Apply(f: TimelineFunction, input: int64): int
    requires IsInt64(input - f.referenceTime)
  {
    var delta: int64 := input - f.referenceTime;
    Scale(delta, f.rate.subject, f.rate.reference) + f.subjectTime
  }

  function InverseOf(f: TimelineFunction): TimelineFunction
    requires f.rate.subject != 0
  {
    TimelineFunction(f.subjectTime, f.referenceTime, Inverse(f.rate))
  }

  function ApplyInverse(f: TimelineFunction, input: int64): int
    requires f.rate.subject != 0 && IsInt64(input - f.subjectTime)
  {
    Apply(InverseOf(f), input)
  }

  /** The function a -> c obtained from b -> c and a -> b. */
  function Compose(bc: TimelineFunction, ab: TimelineFunction): TimelineFunction
    requires InRange(bc, ab.subjectTime)
  {
    InRangeApply(bc, ab.subjectTime);
    TimelineFunction(ab.referenceTime, Apply(bc, ab.subjectTime), Product(ab.rate, bc.rate))
  }

  /** The value of the function at input, before any limit of the representation. */
  function Value(f: TimelineFunction, input: int): int {
    Floor(input - f.referenceTime, f.rate.subject, f.rate.reference) + f.subjectTime
  }

  /** Applying f to input overflows nowhere. */
  predicate InRange(f: TimelineFunction, input: int64) {
    var delta := input - f.referenceTime;
    var value := Value(f, input);
    IsInt64(delta) && IsInt64(value) && -TWO_63 < value - f.subjectTime < TWO_63
  }

  lemma InRangeApply(f: TimelineFunction, input: int64)
    requires InRange(f, input)
    ensures Apply(f, input) == Value(f, input)
  {
    ScaleInRange(input - f.referenceTime, f.rate.subject, f.rate.reference);
  }

  /** What the header promises of Apply: the value, or OVERFLOW if that is not an int64. */
  function Promised(f: TimelineFunction, input: int64): int64 {
    if IsInt64(Value(f, input)) then Value(f, input) else OVERFLOW
  }

  /** The promise is kept: the signed subtraction does not overflow and the result is the promised one. */
  predicate KeepsPromise(f: TimelineFunction, input: int64) {
    IsInt64(input - f.referenceTime) && Apply(f, input) == Promised(f, input)
  }

  /**
   * Apply subtracts the reference time first and adds the subject time to whatever Scale returns,
   * OVERFLOW included. So the promise is kept exactly when the difference is in range and either the
   * scaled time and the sum are in range, or the scaled time is out of range and the subject time is zero.
   * The two quotients that Scale misrounds are the exceptions: there the promise is broken,
   * unless Scale returns zero for an overflow and the subject time happens to be OVERFLOW.
   */
  lemma ApplyKeepsPromise(f: TimelineFunction, input: int64)
    ensures KeepsPromise(f, input) <==>
              var (delta, s, r) := (input - f.referenceTime, f.rate.subject, f.rate.reference);
              && IsInt64(delta)
              && var scaled := Floor(delta, s, r);
                 if Misrounds(delta, s, r) then !IsInt64(scaled) && f.subjectTime == OVERFLOW
                 else if IsInt64(scaled) then IsInt64(scaled + f.subjectTime)
                 else f.subjectTime == 0
  {
    var (delta, s, r) := (input - f.referenceTime, f.rate.subject, f.rate.reference);
    if IsInt64(delta) {
      ScaleCorrect(delta, s, r);
      if Misrounds(delta, s, r) {
        MisroundedValue(delta, s, r);
        FloorOfNegative(Magnitude(delta), s, r);
      }
    }
  }

  /**
   * Twice 2^62 is no int64, and a subject time of -1 turns the overflow that Scale reports into
   * an ordinary time; with a reference time of -1 the largest input is too far away to begin with.
   */
  lemma PromiseBroken()
    ensures IsReduced(Ratio(2, 1))
    ensures var f := TimelineFunction(0, -1, Ratio(2, 1));
            !KeepsPromise(f, TWO_63 / 2) && Apply(f, TWO_63 / 2) == OVERFLOW - 1 && Promised(f, TWO_63 / 2) == OVERFLOW
    ensures !KeepsPromise(TimelineFunction(-1, 0, Ratio(2, 1)), OVERFLOW)
  {
    assert Gcd.Of(2, 1) == 1 by {
      assert Gcd.Of(1, 0) == 1;
    }
    ScaleCorrect(TWO_63 / 2, 2, 1);
  }

  // ----- floors

  function Ceiling(n: int, d: nat): int
    requires d != 0
  {
    (n + d - 1) / d
  }

  lemma FloorMonotone(a: int, b: int, d: nat)
    requires d != 0 && a <= b
    ensures a / d <= b / d
  {
    var e := a / d - b / d;
    assert a == a / d * d + a % d && b == b / d * d + b % d;
    assert e * d == a - b - a % d + b % d;
    Gcd.Multiple(e, d);
  }

  lemma FloorOfSum(a: int, b: int, d: nat)
    requires d != 0
    ensures a / d + b / d <= (a + b) / d <= a / d + b / d + 1
  {
    var q, r := a / d + b / d, a % d + b % d;
    assert a + b == q * d + r by {
      assert a == a / d * d + a % d && b == b / d * d + b % d;
      assert q * d == a / d * d + b / d * d;
    }
    if r < d {
      Gcd.RemainderIs(a + b, d, q, r);
    } else {
      assert (q + 1) * d == q * d + d;
      Gcd.RemainderIs(a + b, d, q + 1, r - d);
    }
  }

  lemma FloorWithCeiling(a: int, b: nat, d: nat)
    requires d != 0
    ensures (a + b) / d <= a / d + Ceiling(b, d)
  {
    var c := Ceiling(b, d);
    assert b <= c * d by {
      assert b + d - 1 == c * d + (b + d - 1) % d;
    }
    FloorMonotone(a + b, a + c * d, d);
    assert a == a / d * d + a % d;
    assert (a / d + c) * d == a / d * d + c * d;
    Gcd.RemainderIs(a + c * d, d, a / d + c, a % d);
  }

  lemma CancelFactor(k: nat, n: int, d: nat)
    requires k != 0 && d != 0
    ensures k * d != 0 && k * n / (k * d) == n / d
  {
    var q, r := n / d, n % d;
    assert n == q * d + r;
    Gcd.Regroup(q, k, d);
    assert k * n == k * (q * d) + k * r;
    MulLess(k, r, d);
    assert k * r >= 0;
    Gcd.RemainderIs(k * n, k * d, q, k * r);
  }

  // ----- inversion

  /** Scaling by s/r and back by r/s loses the remainder, rounded up. */
  lemma ScaleBack(delta: int, s: nat, r: nat)
    requires s != 0 && r != 0
    ensures var loss := delta - Floor(Floor(delta, s, r), r, s);
            && 0 <= loss <= Ceiling(r - 1, s)
            && (r == 1 ==> loss == 0)
  {
    var u, e := delta * s / r, delta * s % r;
    var c := Ceiling(e, s);
    var slack := (e + s - 1) % s;
    assert e + s - 1 == c * s + slack;
    assert delta * s == u * r + e;
    assert (delta - c) * s == delta * s - c * s;
    Gcd.RemainderIs(u * r, s, delta - c, s - 1 - slack);
    FloorMonotone(e + s - 1, r - 1 + s - 1, s);
    FloorMonotone(s - 1, e + s - 1, s);
    Gcd.RemainderIs(s - 1, s, 0, s - 1);
  }

  /**
   * Going there and back never overshoots, falls short by no more than the time one
   * reference tick takes, and is exact when the rate is a whole number.
   */
  lemma InverseRoundTrip(f: TimelineFunction, input: int64)
    ensures ReturnsInRange(f, input) ==>
              var back := ApplyInverse(f, Apply(f, input));
              && 0 <= input - back <= Ceiling(f.rate.reference - 1, f.rate.subject)
              && (f.rate.reference == 1 ==> back == input)
  {
    if ReturnsInRange(f, input) {
      InRangeApply(f, input);
      InRangeApply(InverseOf(f), Value(f, input));
      ValueRoundTrip(f, input, Value(f, input));
    }
  }

  /** The function can be applied and its inverse after it, and neither overflows. */
  predicate ReturnsInRange(f: TimelineFunction, input: int64)
    ensures ReturnsInRange(f, input) ==> InRange(f, input) && Apply(f, input) == Value(f, input)
  {
    && f.rate.subject != 0 && InRange(f, input)
    && (InRangeApply(f, input); InRange(InverseOf(f), Value(f, input)))
  }

  lemma ValueRoundTrip(f: TimelineFunction, input: int, output: int)
    requires f.rate.subject != 0 && output == Value(f, input)
    ensures 0 <= input - Value(InverseOf(f), output) <= Ceiling(f.rate.reference - 1, f.rate.subject)
    ensures f.rate.reference == 1 ==> Value(InverseOf(f), output) == input
  {
    ScaleBack(input - f.referenceTime, f.rate.subject, f.rate.reference);
  }

  lemma InverseOfInverse(f: TimelineFunction)
    requires f.rate.subject != 0
    ensures InverseOf(f).rate.subject != 0
    ensures InverseOf(InverseOf(f)) == f
  {
  }

  // ----- composition

  /** Equal ratios scale equally. */
  lemma FloorSameValue(delta: int, a: Ratio, b: Ratio)
    requires a.reference > 0 && b.reference > 0 && SameValue(a, b)
    ensures Floor(delta, a.subject, a.reference) == Floor(delta, b.subject, b.reference)
  {
    CancelFactor(b.reference, delta * a.subject, a.reference);
    CancelFactor(a.reference, delta * b.subject, b.reference);
    CrossScale(delta, a.subject, b.reference, b.subject, a.reference);
  }

  lemma CrossScale(delta: int, s: int, r: int, s': int, r': int)
    requires s * r == s' * r'
    ensures r * (delta * s) == r' * (delta * s')
    ensures r * r' == r' * r
  {
    Gcd.Regroup(r, delta, s);
    Gcd.Regroup(r', delta, s');
    assert r * (delta * s) == delta * (s * r);
    assert r' * (delta * s') == delta * (s' * r');
  }

  /** Two floors in a row against one: the inner rounding costs at most the outer rate. */
  lemma NestedFloors(p: int, r: nat, s': nat, r': nat)
    requires r != 0 && r' != 0
    ensures r * r' != 0
    ensures p / r * s' / r' <= p * s' / (r * r') <= p / r * s' / r' + Ceiling(s', r')
  {
    var u, e := p / r, p % r;
    var lower, upper := u * s', (u + 1) * s';
    assert p == u * r + e;
    CancelFactor(r, lower, r');
    CancelFactor(r, upper, r');
    Between(u, r, e, s');
    FloorMonotone(r * lower, p * s', r * r');
    FloorMonotone(p * s', r * upper, r * r');
    assert upper == lower + s';
    FloorWithCeiling(lower, s', r');
  }

  lemma Between(u: int, r: nat, e: int, s: nat)
    requires 0 <= e < r
    ensures r * (u * s) <= (u * r + e) * s <= r * ((u + 1) * s)
  {
    var k := u * s;
    Gcd.Regroup(r, u, s);
    assert (u * r + e) * s == r * k + e * s;
    assert r * ((u + 1) * s) == r * k + r * s;
    MulAtMost(s, e, r);
    assert s * e == e * s && s * r == r * s && e * s >= 0;
  }

  /** The arithmetic of composing: apply twice against one application of the product rate. */
  lemma ComposeBound(delta: int, y: int, s: nat, r: nat, s': nat, r': nat)
    requires r != 0 && r' != 0
    ensures r * r' != 0
    ensures -Ceiling(s', r')
            <= Floor(Floor(delta, s, r) + y, s', r') - Floor(delta, s * s', r * r') - Floor(y, s', r')
            <= 1
  {
    var u := Floor(delta, s, r);
    NestedFloors(delta * s, r, s', r');
    Gcd.Regroup(delta, s, s');
    assert delta * s * s' == delta * (s * s');
    FloorOfSum(u * s', y * s', r');
    assert (u + y) * s' == u * s' + y * s';
  }

  /**
   * Composition agrees with applying in sequence up to rounding: at most one tick
   * below, at most one rounded-up tick of the outer rate above.
   */
  lemma ComposeCorrect(bc: TimelineFunction, ab: TimelineFunction, input: int64)
    ensures FitsUInt32(ExactProduct(ab.rate, bc.rate)) && ComposesInRange(bc, ab, input) ==>
              -Ceiling(bc.rate.subject, bc.rate.reference)
              <= Apply(bc, Apply(ab, input)) - Apply(Compose(bc, ab), input)
              <= 1
  {
    if FitsUInt32(ExactProduct(ab.rate, bc.rate)) && ComposesInRange(bc, ab, input) {
      InRangeApply(bc, Value(ab, input));
      InRangeApply(bc, ab.subjectTime);
      InRangeApply(Compose(bc, ab), input);
      ValueComposed(bc, ab, Compose(bc, ab), input);
    }
  }

  /** Neither applying the two in sequence nor applying their composition overflows. */
  predicate ComposesInRange(bc: TimelineFunction, ab: TimelineFunction, input: int64)
    ensures ComposesInRange(bc, ab, input) ==> InRange(ab, input) && Apply(ab, input) == Value(ab, input)
  {
    && InRange(ab, input)
    && (InRangeApply(ab, input); InRange(bc, Value(ab, input)))
    && InRange(bc, ab.subjectTime) && InRange(Compose(bc, ab), input)
  }

  lemma ValueComposed(bc: TimelineFunction, ab: TimelineFunction, ac: TimelineFunction, input: int)
    requires ac.referenceTime == ab.referenceTime && ac.subjectTime == Value(bc, ab.subjectTime)
    requires ac.rate == Product(ab.rate, bc.rate)
    ensures FitsUInt32(ExactProduct(ab.rate, bc.rate)) ==>
              -Ceiling(bc.rate.subject, bc.rate.reference)
              <= Value(bc, Value(ab, input)) - Value(ac, input)
              <= 1
  {
    var a, b := ab.rate, bc.rate;
    var delta, y := input - ab.referenceTime, ab.subjectTime - bc.referenceTime;
    ComposeBound(delta, y, a.subject, a.reference, b.subject, b.reference);
    ProductFloor(a, b, delta, a.subject * b.subject, a.reference * b.reference);
  }

  lemma ProductFloor(a: TimelineRate, b: TimelineRate, delta: int, s: nat, r: nat)
    requires s == a.subject * b.subject && r == a.reference * b.reference
    ensures r > 0
    ensures FitsUInt32(ExactProduct(a, b)) ==>
              Floor(delta, Product(a, b).subject, Product(a, b).reference) == Floor(delta, s, r)
  {
    Gcd.Multiple(a.reference, b.reference);
    if FitsUInt32(ExactProduct(a, b)) {
      ProductValue(a, b);
      ValueFloor(delta, Product(a, b), s, r);
    }
  }

  lemma ValueFloor(delta: int, p: Ratio, s: nat, r: nat)
    requires p.reference > 0 && r > 0 && SameValue(p, Ratio(s, r))
    ensures Floor(delta, p.subject, p.reference) == Floor(delta, s, r)
  {
    FloorSameValue(delta, p, Ratio(s, r));
  }

  lemma ProductValue(a: TimelineRate, b: TimelineRate)
    ensures FitsUInt32(ExactProduct(a, b)) ==>
              SameValue(Product(a, b), Ratio(a.subject * b.subject, a.reference * b.reference))
  {
    ProductCorrect(a, b);
    ExactProductValue(a, b);
    if FitsUInt32(ExactProduct(a, b)) {
      ReducedTwice(ExactProduct(a, b));
    }
  }

}
