// Rates of timelines as reduced ratios of 32-bit numbers, and the exact 64-bit
// scaling by such a ratio.

module TimelineRates {
  import Gcd

  const TWO_32: int := 0x1_0000_0000
  const TWO_63: int := 0x8000_0000_0000_0000
  const TWO_64: int := 0x1_0000_0000_0000_0000
  const OVERFLOW: int := 0x7fff_ffff_ffff_ffff

  type uint32 = x: int | 0 <= x < 0x1_0000_0000
  type uint64 = x: int | 0 <= x < 0x1_0000_0000_0000_0000
  type int64 = x: int | -0x8000_0000_0000_0000 <= x < 0x8000_0000_0000_0000

  predicate IsInt64(x: int) {
    -TWO_63 <= x < TWO_63
  }

  datatype Ratio = Ratio(subject: nat, reference: nat)

  predicate FitsUInt32(r: Ratio) {
    r.subject < TWO_32 && r.reference < TWO_32
  }

  predicate IsReduced(r: Ratio) {
    r.reference > 0 && Gcd.Of(r.subject, r.reference) == 1
  }

  /** A rate is always reduced and never has a zero reference delta. */
  type TimelineRate = r: Ratio | IsReduced(r) && FitsUInt32(r) witness Ratio(0, 1)

  // ----- reduction

  function Reduced(r: Ratio): Ratio
    requires r.reference > 0
  {
    var g := Gcd.Of(r.subject, r.reference);
    assert g > 0 by { GcdPositive(r.subject, r.reference); }
    Ratio(r.subject / g, r.reference / g)
  }

  lemma GcdPositive(a: nat, b: nat)
    requires b > 0
    ensures Gcd.Of(a, b) > 0
  {
    Gcd.OfIsGcd(a, b);
    var k := Gcd.Quotient(Gcd.Of(a, b), b);
  }

  ghost predicate SameValue(r: Ratio, q: Ratio) {
    r.subject * q.reference == q.subject * r.reference
  }

  /** Reducing keeps the value and leaves no common factor. */
  lemma ReducedCorrect(r: Ratio)
    requires r.reference > 0
    ensures IsReduced(Reduced(r))
    ensures SameValue(Reduced(r), r)
    ensures Reduced(r).subject <= r.subject && Reduced(r).reference <= r.reference
  {
    var g, i, j := Factors(r);
    FactorsCoprime(g, i, j);
    Gcd.Regroup(i, g, j);
    FactorAtMost(g, i);
    FactorAtMost(g, j);
  }

  lemma FactorsCoprime(g: nat, i: nat, j: nat)
    requires g > 0 && g == Gcd.Of(g * i, g * j)
    ensures Gcd.Of(i, j) == 1
  {
    Gcd.Scaled(g, i, j);
    Gcd.Cancel(g, Gcd.Of(i, j), 1);
  }

  lemma FactorAtMost(g: nat, i: nat)
    requires g > 0
    ensures i <= g * i
  {
    assert g * i == i + (g - 1) * i;
  }

  lemma Factors(r: Ratio) returns (g: nat, i: nat, j: nat)
    requires r.reference > 0
    ensures g > 0 && g == Gcd.Of(r.subject, r.reference)
    ensures r.subject == g * i && r.reference == g * j && j > 0
    ensures Reduced(r) == Ratio(i, j)
  {
    g := Gcd.Of(r.subject, r.reference);
    GcdPositive(r.subject, r.reference);
    Gcd.OfIsGcd(r.subject, r.reference);
    i := Gcd.Quotient(g, r.subject);
    j := Gcd.Quotient(g, r.reference);
    Gcd.RemainderIs(r.subject, g, i, 0);
    Gcd.RemainderIs(r.reference, g, j, 0);
    assert j > 0 by {
      assert r.reference == 0 || j != 0;
    }
  }

  /** A reduced ratio is determined by its value. */
  lemma ReducedUnique(r: Ratio, q: Ratio)
    requires IsReduced(r) && IsReduced(q) && SameValue(r, q)
    ensures r == q
  {
    SameReferenceDivides(r, q);
    SameReferenceDivides(q, r);
    Gcd.DividesAntisymmetric(r.reference, q.reference);
    Gcd.Cancel(r.reference, r.subject, q.subject);
  }

  lemma SameReferenceDivides(r: Ratio, q: Ratio)
    requires IsReduced(r) && SameValue(r, q)
    ensures Gcd.Divides(r.reference, q.reference)
  {
    Gcd.DividesIntro(r.reference, q.subject, q.reference * r.subject);
    Gcd.CoprimeDivides(r.subject, r.reference, q.reference, q.reference * r.subject);
  }

  /**
   * Reduces a ratio in place in the source; 0/0 becomes 0/1.
   */
  method ReduceRatio(numerator: nat, denominator: nat) returns (n: nat, d: nat)
    ensures denominator > 0 ==> Ratio(n, d) == Reduced(Ratio(numerator, denominator))
    ensures denominator > 0 ==> IsReduced(Ratio(n, d)) && SameValue(Ratio(n, d), Ratio(numerator, denominator))
    ensures denominator == 0 ==> (n, d) == if numerator == 0 then (0, 1) else (1, 0)
  {
    n, d := numerator, denominator;
    var gcd := Gcd.BinaryGcd(n, d);
    if denominator > 0 {
      ReducedCorrect(Ratio(numerator, denominator));
    }
    if gcd == 0 {
      return 0, 1;
    }
    if gcd == 1 {
      return;
    }
    n, d := n / gcd, d / gcd;
  }

  // ----- rates

  function Rate(subject: uint32, reference: uint32): TimelineRate
    requires reference != 0
  {
    ReducedCorrect(Ratio(subject, reference));
    Reduced(Ratio(subject, reference))
  }

  function Inverse(rate: TimelineRate): TimelineRate
    requires rate.subject != 0
  {
    Gcd.Symmetric(rate.subject, rate.reference);
    Ratio(rate.reference, rate.subject)
  }

  // ----- products

  /** The product of two ratios in lowest terms, of unbounded size. */
  function ExactProduct(a: Ratio, b: Ratio): Ratio
    requires a.reference > 0 && b.reference > 0
  {
    assert a.reference * b.reference > 0;
    Reduced(Ratio(a.subject * b.subject, a.reference * b.reference))
  }

  /** Drops low bits of both terms until both fit in 32 bits. */
  function ShiftDown(r: Ratio): Ratio
    decreases r.subject + r.reference
  {
    if FitsUInt32(r) then r else ShiftDown(Ratio(r.subject / 2, r.reference / 2))
  }

  /** What Product delivers: the exact product if it fits, else an approximation. */
  function RawProduct(a: Ratio, b: Ratio): Ratio
    requires a.reference > 0 && b.reference > 0
  {
    var p := ShiftDown(ExactProduct(a, b));
    if p.reference == 0 then Ratio(TWO_32 - 1, 1) else p
  }

  method ProductDeltas(aSubject: uint32, aReference: uint32, bSubject: uint32, bReference: uint32)
    returns (subject: uint32, reference: uint32)
    requires aReference != 0 && bReference != 0
    ensures Ratio(subject, reference) == RawProduct(Ratio(aSubject, aReference), Ratio(bSubject, bReference))
  {
    ghost var a, b := Ratio(aSubject, aReference), Ratio(bSubject, bReference);
    assert aReference * bReference > 0;
    var s, r := ReduceRatio(aSubject * bSubject, aReference * bReference);
    ReducedCorrect(Ratio(aSubject * bSubject, aReference * bReference));
    if s >= TWO_32 || r >= TWO_32 {
      s, r := s / 2, r / 2;
      while s >= TWO_32 || r >= TWO_32
        invariant s >= 0 && r >= 0
        invariant ShiftDown(Ratio(s, r)) == ShiftDown(ExactProduct(a, b))
        decreases s + r
      {
        s, r := s / 2, r / 2;
      }
      if r == 0 {
        return TWO_32 - 1, 1;
      }
    }
    return s, r;
  }

  /** p is r with the low bits of both terms lost: p = floor(r / unit) term by term. */
  ghost predicate Truncates(p: Ratio, r: Ratio, unit: nat) {
    && p.subject * unit <= r.subject < (p.subject + 1) * unit
    && p.reference * unit <= r.reference < (p.reference + 1) * unit
  }

  lemma {:induction false} ShiftDownTruncates(r: Ratio) returns (unit: nat)
    ensures FitsUInt32(ShiftDown(r))
    ensures unit > 0 && Truncates(ShiftDown(r), r, unit)
    ensures FitsUInt32(r) <==> unit == 1
    ensures !FitsUInt32(r) ==> 2 * r.subject >= TWO_32 * unit || 2 * r.reference >= TWO_32 * unit
    decreases r.subject + r.reference
  {
    if FitsUInt32(r) {
      unit := 1;
    } else {
      var h := Ratio(r.subject / 2, r.reference / 2);
      var u := ShiftDownTruncates(h);
      unit := 2 * u;
      var p := ShiftDown(h);
      Doubling(p.subject, u, h.subject, r.subject);
      Doubling(p.reference, u, h.reference, r.reference);
    }
  }

  lemma Doubling(p: nat, u: nat, h: nat, r: nat)
    requires p * u <= h < (p + 1) * u && h == r / 2
    ensures p * (2 * u) <= r < (p + 1) * (2 * u)
  {
    assert p * (2 * u) == 2 * (p * u) && (p + 1) * (2 * u) == 2 * ((p + 1) * u);
  }

  lemma TruncationError(p: Ratio, r: Ratio, unit: nat)
    requires unit > 0 && r.subject > 0 && r.reference > 0 && Truncates(p, r, unit)
    ensures -(r.reference as int) < p.subject * r.reference - r.subject * p.reference < r.subject
  {
    TruncationUpper(p.subject, p.reference, r.subject, r.reference, unit);
    TruncationUpper(p.reference, p.subject, r.reference, r.subject, unit);
  }

  lemma TruncationUpper(s: nat, r: nat, S: nat, R: nat, unit: nat)
    requires S > 0 && R < (r + 1) * unit && s * unit <= S
    ensures s * R - S * r < S
  {
    if s > 0 {
      MulLess(s, R, (r + 1) * unit);
      Gcd.Regroup(s, r + 1, unit);
      MulAtMost(r + 1, s * unit, S);
      assert (r + 1) * (s * unit) == s * ((r + 1) * unit);
      assert s * R < (r + 1) * S;
      assert (r + 1) * S == S * r + S;
    } else {
      assert s * R == 0 && S * r >= 0;
    }
  }

  lemma MulLess(c: nat, x: int, y: int)
    requires c > 0 && x < y
    ensures c * x < c * y
  {
  }

  lemma MulAtMost(c: nat, x: int, y: int)
    requires x <= y
    ensures c * x <= c * y
  {
  }

  /** The smallest power of two above n. */
  function PowerAbove(n: nat): nat {
    if n == 0 then 1 else 2 * PowerAbove(n / 2)
  }

  lemma {:induction false} PowerAboveCorrect(n: nat)
    ensures n < PowerAbove(n)
    ensures n > 0 ==> PowerAbove(n) <= 2 * n
  {
    if n > 0 {
      PowerAboveCorrect(n / 2);
    }
  }

  /** The reference is lost exactly if the subject has 32 bits more than it, or there was none. */
  lemma {:induction false} ReferenceLost(r: Ratio)
    ensures ShiftDown(r).reference == 0 <==> r.reference == 0 || r.subject >= TWO_32 / 2 * PowerAbove(r.reference)
    decreases r.subject + r.reference
  {
    PowerAboveCorrect(r.reference);
    if !FitsUInt32(r) {
      ReferenceLost(Ratio(r.subject / 2, r.reference / 2));
    }
  }

  /** A ratio ends up at the largest rate exactly if it is at least about half the power of two above its reference. */
  lemma {:induction false} LargestReached(r: Ratio)
    requires r.reference > 0
    ensures ShiftDown(r).reference == 0 || ShiftDown(r) == Ratio(TWO_32 - 1, 1)
            <==> 2 * r.subject >= (TWO_32 - 1) * PowerAbove(r.reference)
    decreases r.subject + r.reference
  {
    PowerAboveCorrect(r.reference);
    if !FitsUInt32(r) {
      var h := Ratio(r.subject / 2, r.reference / 2);
      if h.reference == 0 {
        ReferenceLost(h);
      } else {
        LargestReached(h);
      }
    }
  }

  predicate LargerThanAnyRate(e: Ratio) {
    e.subject > (TWO_32 - 1) * e.reference
  }

  /** The subject is at least 2^31 times the power of two above the reference. */
  predicate Saturates(e: Ratio) {
    e.subject >= TWO_32 / 2 * PowerAbove(e.reference)
  }

  /**
   * The product saturates exactly if S >= 2^31 P for the reduced product S/R and the power of two P
   * above R. That is documented to mean that the product is larger than any rate, and does so except
   * exactly when 2^31 P <= S <= (2^32 - 1) R. Products larger than any rate all become the largest rate,
   * and altogether exactly those do for which (2^32 - 1) P / 2 <= S.
   */
  lemma SaturationCorrect(a: Ratio, b: Ratio)
    requires a.reference > 0 && b.reference > 0
    ensures var (e, p) := (ExactProduct(a, b), RawProduct(a, b));
            && (ShiftDown(e).reference == 0 <==> Saturates(e))
            && ((ShiftDown(e).reference == 0 ==> LargerThanAnyRate(e)) <==>
                  !(TWO_32 / 2 * PowerAbove(e.reference) <= e.subject <= (TWO_32 - 1) * e.reference))
            && (LargerThanAnyRate(e) ==> p == Ratio(TWO_32 - 1, 1))
            && (p == Ratio(TWO_32 - 1, 1) <==> 2 * e.subject >= (TWO_32 - 1) * PowerAbove(e.reference))
  {
    ExactProductValue(a, b);
    Largest(ExactProduct(a, b), RawProduct(a, b));
  }

  lemma Largest(e: Ratio, p: Ratio)
    requires e.reference > 0 && p == if ShiftDown(e).reference == 0 then Ratio(TWO_32 - 1, 1) else ShiftDown(e)
    ensures ShiftDown(e).reference == 0 <==> Saturates(e)
    ensures LargerThanAnyRate(e) ==> p == Ratio(TWO_32 - 1, 1)
    ensures p == Ratio(TWO_32 - 1, 1) <==> 2 * e.subject >= (TWO_32 - 1) * PowerAbove(e.reference)
  {
    ReferenceLost(e);
    LargestReached(e);
    PowerAboveCorrect(e.reference);
  }

  /**
   * The product is the exact one precisely when that fits in 32 bits. Otherwise it
   * saturates, or its cross error is below one unit of either term.
   */
  lemma ProductCorrect(a: Ratio, b: Ratio)
    requires a.reference > 0 && b.reference > 0
    ensures var e, p := ExactProduct(a, b), RawProduct(a, b);
            && FitsUInt32(p) && p.reference > 0
            && (SameValue(p, e) <==> FitsUInt32(e))
            && (FitsUInt32(e) ==> p == e)
            && (!FitsUInt32(e) ==>
                  if Saturates(e)
                  then p == Ratio(TWO_32 - 1, 1)
                  else -(e.reference as int) < p.subject * e.reference - e.subject * p.reference < e.subject)
  {
    var e, p := ExactProduct(a, b), RawProduct(a, b);
    assert IsReduced(e) by {
      assert a.reference * b.reference > 0;
      ReducedCorrect(Ratio(a.subject * b.subject, a.reference * b.reference));
    }
    var unit := ShiftDownTruncates(e);
    ReferenceLost(e);
    if !FitsUInt32(e) {
      ReducedZero(e);
      TruncationError(ShiftDown(e), e, unit);
      if SameValue(p, e) {
        SmallerIsDifferent(p, e);
      }
    }
  }

  /** The reduced product has the value of the plain one. */
  lemma ExactProductValue(a: Ratio, b: Ratio)
    requires a.reference > 0 && b.reference > 0
    ensures IsReduced(ExactProduct(a, b))
    ensures SameValue(ExactProduct(a, b), Ratio(a.subject * b.subject, a.reference * b.reference))
  {
    assert a.reference * b.reference > 0;
    ReducedCorrect(Ratio(a.subject * b.subject, a.reference * b.reference));
  }

  lemma ReducedZero(e: Ratio)
    requires IsReduced(e) && !FitsUInt32(e)
    ensures e.subject > 0
  {
    if e.subject == 0 {
      Gcd.Symmetric(0, e.reference);
    }
  }

  lemma SameValueTrans(p: Ratio, w: Ratio, e: Ratio)
    requires SameValue(p, w) && SameValue(e, w) && w.reference > 0
    ensures SameValue(p, e)
  {
    var ps, pr, ws, wr, es, er := p.subject, p.reference, w.subject, w.reference, e.subject, e.reference;
    calc {
      wr * (ps * er);
      { Regroup3(wr, ps, er); }
      (ps * wr) * er;
      (ws * pr) * er;
      { Regroup3(ws, pr, er); }
      (ws * er) * pr;
      (es * wr) * pr;
      { Regroup3(wr, es, pr); }
      wr * (es * pr);
    }
    Gcd.Cancel(wr, ps * er, es * pr);
  }

  lemma Regroup3(x: int, y: int, z: int)
    ensures x * (y * z) == (x * y) * z == (y * x) * z == (x * z) * y
  {
  }

  lemma SmallerIsDifferent(p: Ratio, e: Ratio)
    requires IsReduced(e) && p.reference > 0 && SameValue(p, e)
    ensures p.subject >= e.subject && p.reference >= e.reference
  {
    var q := Reduced(p);
    ReducedCorrect(p);
    SameValueTrans(q, p, e);
    ReducedUnique(q, e);
  }

  /** The value-returning product, reduced once more because truncation can leave a common factor. */
  function Product(a: TimelineRate, b: TimelineRate): TimelineRate {
    ProductCorrect(a, b);
    var p := RawProduct(a, b);
    Rate(p.subject, p.reference)
  }

  /**
   * The value-returning product is the exact one if that fits in 32 bits, never has its value otherwise,
   * and is then the largest rate or has a cross error below one unit of either term of the exact product.
   */
  lemma ProductBounded(a: TimelineRate, b: TimelineRate)
    ensures var (e, p) := (ExactProduct(a, b), Product(a, b));
            if FitsUInt32(e) then p == e
            else
              && !SameValue(p, e)
              && if Saturates(e) then p == Ratio(TWO_32 - 1, 1)
                 else -(e.reference as int) < p.subject * e.reference - e.subject * p.reference < e.subject
  {
    var e := ExactProduct(a, b);
    ProductCorrect(a, b);
    ExactProductValue(a, b);
    if FitsUInt32(e) {
      ReducedTwice(e);
    } else {
      if SameValue(Product(a, b), e) {
        ReducedUnique(Product(a, b), e);
        assert false;
      }
      if Saturates(e) {
        LargestReduced();
      } else {
        ReducedWithin(RawProduct(a, b), e.subject, e.reference);
      }
    }
  }

  lemma LargestReduced()
    ensures Reduced(Ratio(TWO_32 - 1, 1)) == Ratio(TWO_32 - 1, 1)
  {
    assert Gcd.Of(TWO_32 - 1, 1) == 1 by {
      assert Gcd.Of(1, 0) == 1;
    }
  }

  /** Reducing a ratio does not take it further from another. */
  lemma ReducedWithin(p: Ratio, s: int, r: int)
    requires p.reference > 0 && -r < p.subject * r - s * p.reference < s
    ensures -r < Reduced(p).subject * r - s * Reduced(p).reference < s
  {
    var g, i, j := Factors(p);
    CommonFactor(g, i, j, s, r);
    Shrinks(g, i * r - s * j);
  }

  lemma CommonFactor(g: int, i: int, j: int, s: int, r: int)
    ensures g * i * r - s * (g * j) == g * (i * r - s * j)
  {
    Regroup3(g, i, r);
    Regroup3(s, g, j);
    Regroup3(g, s, j);
  }

  lemma Shrinks(g: int, x: int)
    requires g > 0
    ensures if x >= 0 then x <= g * x else g * x <= x
  {
    MulAtMost(if x >= 0 then x else -x, 1, g);
  }

  /** Dividing by a rate undoes multiplying by it, when the product was exact. */
  lemma QuotientUndoesProduct(a: TimelineRate, b: TimelineRate)
    requires b.subject != 0
    ensures FitsUInt32(ExactProduct(a, b)) ==> Product(Product(a, b), Inverse(b)) == a
  {
    ProductCorrect(a, b);
    ExactProductValue(a, b);
    if FitsUInt32(ExactProduct(a, b)) {
      ReducedTwice(ExactProduct(a, b));
      var p, i := Product(a, b), Inverse(b);
      assert p == ExactProduct(a, b);
      ExactProductValue(p, i);
      var v := Ratio(p.subject * i.subject, p.reference * i.reference);
      assert v.reference > 0 by {
        Gcd.Multiple(p.reference, i.reference);
      }
      CrossCancel(p.subject, p.reference, a.subject, a.reference, b.subject, b.reference);
      SameValueTrans(a, v, ExactProduct(p, i));
      ReducedUnique(ExactProduct(p, i), a);
      ProductCorrect(p, i);
      ReducedTwice(a);
    }
  }

  lemma CrossCancel(ps: int, pr: int, as_: int, ar: int, bs: int, br: int)
    requires ps * (ar * br) == (as_ * bs) * pr
    ensures as_ * (pr * bs) == (ps * br) * ar
  {
    Regroup3(as_, pr, bs);
    Regroup3(ps, ar, br);
    Regroup3(as_, bs, pr);
  }

  lemma ReducedTwice(e: Ratio)
    requires IsReduced(e)
    ensures Reduced(e) == e
  {
    ReducedCorrect(e);
    ReducedUnique(Reduced(e), e);
  }

  /** (1282/3) * (6700417/1) is about 2863311531, well inside the range, and saturates all the same. */
  lemma SaturationBelowRange()
    ensures var (a, b) := (Ratio(1282, 3), Ratio(6700417, 1));
            && ExactProduct(a, b) == Ratio(8589934594, 3) && Saturates(ExactProduct(a, b))
            && !LargerThanAnyRate(ExactProduct(a, b))
            && RawProduct(a, b) == Ratio(TWO_32 - 1, 1)
  {
    assert Gcd.Of(8589934594, 3) == 1 by {
      assert Gcd.Of(3, 1) == 1 by {
        assert Gcd.Of(1, 0) == 1;
      }
    }
    assert ExactProduct(Ratio(1282, 3), Ratio(6700417, 1)) == Ratio(8589934594, 3);
    assert PowerAbove(3) == 4 by {
      assert PowerAbove(1) == 2;
    }
    SaturationCorrect(Ratio(1282, 3), Ratio(6700417, 1));
  }
}
