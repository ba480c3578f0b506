// Scaling a 64-bit time by a ratio of 32-bit deltas, in 64-bit arithmetic.

module TimelineScale {
  import opened TimelineRates
  import Gcd

  datatype Scaled = Scaled(value: uint64, overflow: bool)

  /** Unsigned 64-bit arithmetic. */
  function Wrap64(x: int): uint64 {
    x % 0x1_0000_0000_0000_0000
  }

  /** The high part of the product of a value and a delta, the low part's carry included. */
  function ProductHigh(value: uint64, subject: uint32): uint64 {
    Wrap64(Wrap64(subject * (value / TWO_32)) + Wrap64(subject * (value % TWO_32)) / TWO_32)
  }

  function ProductLow(value: uint64, subject: uint32): uint32 {
    Wrap64(subject * (value % TWO_32)) % 0x1_0000_0000
  }

  /** The dividend that is left once the high part is divided: its remainder above the low part. */
  function Carried(high: uint64, low: uint32, reference: uint32): uint64
    requires reference != 0
  {
    Wrap64(high % reference * TWO_32 + low)
  }

  /** Joins the quotients of the two halves, rounding up if told to. */
  function Join(high: nat, low: nat, up: bool): Scaled {
    if high / TWO_32 != 0 then Scaled(0, true)
    else
      var result := Wrap64(high * TWO_32 + low);
      if !up then Scaled(result, false)
      else if result == TWO_63 - 1 then Scaled(0, true)
      else Scaled(Wrap64(result + 1), false)
  }

  function ScaleUInt64(value: uint64, subject: uint32, reference: uint32, roundUp: bool): Scaled
    requires reference != 0
  {
    var high := ProductHigh(value, subject);
    var low := Carried(high, ProductLow(value, subject), reference);
    Join(high / reference, low / reference, roundUp && low % reference != 0)
  }

  function Magnitude(value: int64): uint64 {
    if value >= 0 then value else -(value as int)
  }

  /** Chooses the sign of a scaled magnitude, or OVERFLOW where that leaves int64. */
  function Signed(scaled: Scaled, negative: bool): int64 {
    if scaled.overflow then OVERFLOW
    else if scaled.value > TWO_63 - 1 then
      if negative && scaled.value == TWO_63 then -TWO_63 else OVERFLOW
    else if negative then -(scaled.value as int)
    else scaled.value
  }

  /** Time scaled by a rate; OVERFLOW when the source says so. */
  function Scale(value: int64, subject: uint32, reference: uint32): int64
    requires reference != 0
  {
    Signed(ScaleUInt64(Magnitude(value), subject, reference, value < 0), value < 0)
  }

  // ----- the split computation is the division of the whole product

  lemma ProductBound(a: nat, b: nat)
    requires a < TWO_32 && b < TWO_32
    ensures 0 <= a * b <= (TWO_32 - 1) * (TWO_32 - 1)
  {
    MulAtMost(a, b, TWO_32 - 1);
    MulAtMost(TWO_32 - 1, a, TWO_32 - 1);
  }

  lemma Distribute(s: int, h: int, l: int)
    ensures (h * TWO_32 + l) * s == s * h * TWO_32 + s * l
  {
    Gcd.Regroup(s, h, TWO_32);
  }

  /** No 64-bit step of the multiplication overflows. */
  lemma SplitProduct(value: uint64, s: uint32)
    ensures value * s == ProductHigh(value, s) * TWO_32 + ProductLow(value, s)
  {
    var h, l := s * (value / TWO_32), s * (value % TWO_32);
    ProductBound(s, value / TWO_32);
    ProductBound(s, value % TWO_32);
    Distribute(s, value / TWO_32, value % TWO_32);
  }

  lemma SmallQuotient(low: nat, r: nat)
    requires 0 < r && low < r * TWO_32
    ensures low / r < TWO_32
  {
    var q := low / r;
    assert low == q * r + low % r;
    Gcd.Multiple(q - TWO_32 + 1, r);
    assert (q - TWO_32 + 1) * r == q * r - TWO_32 * r + r;
  }

  lemma SplitDivision(product: nat, high: uint64, low: uint32, r: uint32)
    requires r != 0 && product == high * TWO_32 + low
    ensures Carried(high, low, r) / r < TWO_32
    ensures product / r == high / r * TWO_32 + Carried(high, low, r) / r
    ensures product % r == Carried(high, low, r) % r
  {
    var q, m := high / r, high % r;
    var carried := m * TWO_32 + low;
    assert carried < r * TWO_32;
    SmallQuotient(carried, r);
    assert high == q * r + m;
    assert carried == carried / r * r + carried % r;
    Distribute(r, q, carried / r);
    Gcd.RemainderIs(product, r, q * TWO_32 + carried / r, carried % r);
  }

  /**
   * The quotient, plus one when rounding up, as the source delivers it: a quotient
   * of 2^63-1 that is rounded up is reported as overflow and one of 2^64-1 wraps to zero.
   */
  ghost predicate Delivers(scaled: Scaled, quotient: int, up: bool) {
    && scaled.overflow == (quotient >= TWO_64 || (up && quotient == TWO_63 - 1))
    && (!scaled.overflow ==> scaled.value == if up then (quotient + 1) % TWO_64 else quotient)
  }

  lemma JoinCorrect(high: nat, low: nat, up: bool)
    requires low < TWO_32
    ensures Delivers(Join(high, low, up), high * TWO_32 + low, up)
  {
  }

  /** The 64-bit computation delivers the quotient of the whole product. */
  lemma ScaleUInt64Correct(value: uint64, s: uint32, r: uint32, roundUp: bool)
    requires r != 0
    ensures Delivers(ScaleUInt64(value, s, r, roundUp), value * s / r, roundUp && value * s % r != 0)
  {
    var product := value * s;
    SplitProduct(value, s);
    var high, low := ProductHigh(value, s), ProductLow(value, s);
    SplitDivision(product, high, low, r);
    var carried := Carried(high, low, r);
    QuotientNonNegative(high, r);
    QuotientNonNegative(carried, r);
    JoinCorrect(high / r, carried / r, roundUp && carried % r != 0);
  }

  lemma QuotientNonNegative(p: int, r: nat)
    requires r != 0
    ensures p >= 0 ==> p / r >= 0
  {
  }

  // ----- the floor of the scaled value

  /** The mathematical value: the scaled time rounded toward minus infinity. */
  function Floor(value: int, subject: nat, reference: nat): int
    requires reference != 0
  {
    value * subject / reference
  }

  /** What the operation promises: the floor, or OVERFLOW if that is not an int64. */
  function Ideal(value: int64, subject: uint32, reference: uint32): int64
    requires reference != 0
  {
    var f := Floor(value, subject, reference);
    if IsInt64(f) then f else OVERFLOW
  }

  lemma FloorOfNegative(m: int, s: nat, r: nat)
    requires r != 0
    ensures Floor(-m, s, r) == if m * s % r == 0 then -(m * s / r) else -(m * s / r) - 1
  {
    var p := m * s;
    assert -m * s == -p;
    NegatedQuotient(p, r);
  }

  lemma NegatedQuotient(p: int, r: nat)
    requires r != 0
    ensures -p / r == if p % r == 0 then -(p / r) else -(p / r) - 1
  {
    var q, rem := p / r, p % r;
    assert p == q * r + rem;
    if rem == 0 {
      assert -q * r == -(q * r);
      Gcd.RemainderIs(-p, r, -q, 0);
    } else {
      assert (-q - 1) * r == -(q * r) - r;
      Gcd.RemainderIs(-p, r, -q - 1, r - rem);
    }
  }

  /** The two rounded-up magnitudes that the source gets wrong. */
  predicate Misrounds(value: int64, subject: uint32, reference: uint32)
    requires reference != 0
  {
    var product := Magnitude(value) * subject;
    value < 0 && product % reference != 0 && product / reference in {TWO_63 - 1, TWO_64 - 1}
  }

  lemma SignedCorrect(scaled: Scaled, q: nat, inexact: bool, negative: bool, f: int)
    requires Delivers(scaled, q, negative && inexact)
    requires f == if !negative then q else if inexact then -(q as int) - 1 else -(q as int)
    ensures Signed(scaled, negative) == (if IsInt64(f) then f else OVERFLOW)
            <==> !(negative && inexact && q in {TWO_63 - 1, TWO_64 - 1})
  {
  }

  /** Scale meets its promise for every input except exactly the misrounded ones. */
  lemma ScaleCorrect(value: int64, subject: uint32, reference: uint32)
    requires reference != 0
    ensures Scale(value, subject, reference) == Ideal(value, subject, reference)
            <==> !Misrounds(value, subject, reference)
  {
    var m := Magnitude(value);
    var product := m * subject;
    var f := Floor(value, subject, reference);
    ScaleUInt64Correct(m, subject, reference, value < 0);
    QuotientNonNegative(product, reference);
    if value < 0 {
      FloorOfNegative(m, subject, reference);
    }
    SignedCorrect(ScaleUInt64(m, subject, reference, value < 0),
                  product / reference, product % reference != 0, value < 0, f);
  }

  /** What a misrounded input delivers: overflow instead of -2^63, or zero instead of overflow. */
  lemma MisroundedValue(value: int64, subject: uint32, reference: uint32)
    requires reference != 0 && Misrounds(value, subject, reference)
    ensures var top := Magnitude(value) * subject / reference == TWO_63 - 1;
            && Ideal(value, subject, reference) == (if top then -TWO_63 else OVERFLOW)
            && Scale(value, subject, reference) == (if top then OVERFLOW else 0)
  {
    ScaleUInt64Correct(Magnitude(value), subject, reference, true);
    FloorOfNegative(Magnitude(value), subject, reference);
  }

  lemma MisroundedInputsExist()
    ensures Misrounds(-6148914691236517205, 3, 2)
    ensures Misrounds(-1190112520884487201, 31, 2)
  {
    assert Magnitude(-6148914691236517205) * 3 == 2 * (TWO_63 - 1) + 1;
    assert Magnitude(-1190112520884487201) * 31 == 2 * (TWO_64 - 1) + 1;
  }

  /** A floor strictly inside int64 is always delivered. */
  lemma ScaleInRange(value: int64, subject: uint32, reference: uint32)
    requires reference != 0
    requires -TWO_63 < Floor(value, subject, reference) < TWO_63
    ensures Scale(value, subject, reference) == Floor(value, subject, reference)
  {
    ScaleCorrect(value, subject, reference);
    if value < 0 {
      FloorOfNegative(Magnitude(value), subject, reference);
    }
  }

}
