/**
 Binary floating-point numbers (section 3.4 of IEEE 754-2008) and rounding to an integer
 toward positive infinity (roundToIntegralTowardPositive, section 5.9), stated over the
 reals and on the encoding.
 */
module Ieee754 {
  import opened Bits

  /** A binary interchange format: p fraction bits below w exponent bits. */
  datatype Format = Format(p: nat, w: nat) {
    ghost predicate Valid() { w >= 2 && 1 <= p <= Bias() }

    function Bias(): nat
      requires w >= 1
    {
      Pow2(w - 1) - 1
    }

    /** The encodings of the largest exponent are the infinities and NaNs. */
    function Special(): nat { Pow2(w) - 1 }
  }

  const DOUBLE := Format(52, 11)
  const SINGLE := Format(23, 8)

  /** A number: its sign bit, and the exponent and fraction fields as one integer. */
  datatype Float = Float(neg: bool, mag: nat)

  function ExpOf(f: Format, mag: nat): nat {
    DivMod(mag, Pow2(f.p));
    mag / Pow2(f.p)
  }

  function Exp(f: Format, x: Float): nat { ExpOf(f, x.mag) }

  function Frac(f: Format, x: Float): nat { x.mag % Pow2(f.p) }

  predicate IsFinite(f: Format, x: Float) { Exp(f, x) < f.Special() }

  predicate IsNaN(f: Format, x: Float) { Exp(f, x) == f.Special() && Frac(f, x) != 0 }

  /** The magnitude of a finite number in units of the smallest subnormal. */
  function Scaled(f: Format, mag: nat): nat {
    var e := ExpOf(f, mag);
    if e == 0 then mag else (Pow2(f.p) + mag % Pow2(f.p)) * Pow2(e - 1)
  }

  /** How many smallest subnormals make 1.0. */
  function Unit(f: Format): nat
    requires f.Valid()
  {
    Pow2(f.Bias() - 1 + f.p)
  }

  /** The real number a finite encoding denotes. */
  function Value(f: Format, x: Float): real
    requires f.Valid()
  {
    var n: int := Scaled(f, x.mag);
    (if x.neg then -n else n) as real / Unit(f) as real
  }

  /** The least integer not below v. */
  function Ceiling(v: real): (n: int)
    ensures n as real - 1.0 < v <= n as real
  {
    -((-v).Floor)
  }

  /** Rounding up on the encoding: one carry out of the fraction may run into the exponent. */
  function RoundUp(f: Format, x: Float): Float
    requires f.Valid()
  {
    var e := Exp(f, x);
    if e < f.Bias() then
      if x.neg then Float(true, 0)
      else if x.mag == 0 then x
      else Float(false, f.Bias() * Pow2(f.p))
    else if e >= f.Bias() + f.p then
      x
    else
      var k := f.Bias() + f.p - e;
      LowBound(x.mag, k);
      if Low(x.mag, k) == 0 then x
      else Float(x.neg, x.mag - Low(x.mag, k) + if x.neg then 0 else Pow2(k))
  }

  // ---------- the encoding denotes what it should ----------

  lemma RealMul(x: real, y: real, u: real)
    requires u > 0.0
    ensures x * u <= y * u <==> x <= y
  {
    assert (y - x) * u == y * u - x * u;
    if x <= y {
      assert (y - x) * u >= 0.0;
    } else {
      assert (y - x) * u < 0.0;
    }
  }

  lemma QuotientBound(a: real, u: real, q: real)
    requires u > 0.0
    ensures a / u <= q <==> a <= q * u
  {
    assert a / u * u == a;
    RealMul(a / u, q, u);
  }

  lemma IntMulReal(a: int, b: int)
    ensures (a * b) as real == a as real * b as real
  {
  }

  lemma CeilingOfQuotient(n: int, u: nat, q: int)
    requires u > 0 && q * u - u < n <= q * u
    ensures Ceiling(n as real / u as real) == q
    ensures (q * u) as real / u as real == q as real
  {
    var ur, qr := u as real, q as real;
    IntMulReal(q, u);
    assert (qr - 1.0) * ur == qr * ur - ur;
    QuotientBound(n as real, ur, qr);
    QuotientBound(n as real, ur, qr - 1.0);
    assert (qr * ur) / ur == qr;
  }

  /** The case below 1.0 in magnitude. */
  lemma SmallScaled(f: Format, mag: nat)
    requires f.Valid() && ExpOf(f, mag) < f.Bias()
    ensures Scaled(f, mag) < Unit(f)
    ensures Scaled(f, mag) == 0 <==> mag == 0
  {
    var P, e := Pow2(f.p), ExpOf(f, mag);
    if e == 0 {
      DivMod(mag, P);
      Pow2Monotone(f.p, f.Bias() - 1 + f.p);
    } else {
      var sig, T := P + mag % P, Pow2(e - 1);
      MulLess(sig, 2 * P, T);
      Pow2Add(f.p + 1, e - 1);
      Pow2Monotone(f.p + 1 + (e - 1), f.Bias() - 1 + f.p);
      MulLess(0, sig, T);
    }
  }

  lemma OneScaled(f: Format)
    requires f.Valid()
    ensures Scaled(f, f.Bias() * Pow2(f.p)) == Unit(f)
    ensures ExpOf(f, f.Bias() * Pow2(f.p)) == f.Bias()
  {
    DivModUnique(f.Bias() * Pow2(f.p), Pow2(f.p), f.Bias(), 0);
    Pow2Add(f.p, f.Bias() - 1);
  }

  /** From 2^p on, every encoding is an integer. */
  lemma LargeScaled(f: Format, mag: nat) returns (q: nat)
    requires f.Valid() && ExpOf(f, mag) >= f.Bias() + f.p
    ensures Scaled(f, mag) == q * Unit(f)
  {
    var e, u := ExpOf(f, mag), f.Bias() - 1 + f.p;
    Pow2Add(e - 1 - u, u);
    DivMod(mag, Pow2(f.p));
    var sig := Pow2(f.p) + mag % Pow2(f.p);
    MulAtMost(0, sig, Pow2(e - 1 - u));
    q := sig * Pow2(e - 1 - u);
    Associate(sig, Pow2(e - 1 - u), Pow2(u));
  }

  /** Cutting an encoding at the exponent (2^p) and at the unit place (2^k). */
  lemma SplitMag(mag: nat, P: nat, K: nat, R: nat) returns (e: nat, a: nat, r: nat)
    requires K > 0 && R > 0 && P == R * K
    ensures P > 0
    ensures e == mag / P && mag % P == a * K + r && r == mag % K
    ensures a < R && r < K && a * K + K <= P
    ensures (P + mag % P) == (R + a) * K + r
    ensures mag == e * P + (a * K + r)
  {
    MulLess(0, R, K);
    DivMod(mag, P);
    e := mag / P;
    var fr := mag % P;
    DivMod(fr, K);
    a, r := fr / K, fr % K;
    if a >= R {
      MulAtMost(R, a, K);
    }
    MulAtMost(a + 1, R, K);
    Distribute(a, 1, K);
    Distribute(R, a, K);
    Distribute(e * R, a, K);
    Associate(e, R, K);
    DivModUnique(mag, K, e * R + a, r);
  }

  /** Stepping an encoding that is clear below 2^k. */
  lemma StepScaled(f: Format, mag: nat, e: nat, a: nat, K: nat, R: nat, T: nat)
    requires e >= 1 && T == Pow2(e - 1) && K > 0 && R > 0 && Pow2(f.p) == R * K && a <= R
    requires mag == e * Pow2(f.p) + a * K
    ensures Scaled(f, mag) == (R + a) * (K * T)
    ensures mag / Pow2(f.p) == if a < R then e else e + 1
  {
    var P := Pow2(f.p);
    if a < R {
      MulLess(a, R, K);
      MulAtMost(0, a, K);
      DivModUnique(mag, P, e, a * K);
      Distribute(R, a, K);
      Associate(R + a, K, T);
    } else {
      Distribute(e, 1, P);
      DivModUnique(mag, P, e + 1, 0);
      assert Pow2(e) == 2 * T;
      Distribute(R, R, K * T);
      Associate(R, K, T);
      Distribute(T, T, P);
    }
  }

  lemma BothSteps(f: Format, mag: nat, e: nat, a: nat, K: nat, R: nat, T: nat)
    requires e >= 1 && T == Pow2(e - 1) && K > 0 && R > 0 && Pow2(f.p) == R * K && a < R
    requires mag == e * Pow2(f.p) + a * K
    ensures Scaled(f, mag) == (R + a) * (K * T) && ExpOf(f, mag) == e
    ensures Scaled(f, mag + K) == (R + a + 1) * (K * T) && ExpOf(f, mag + K) <= e + 1
  {
    StepScaled(f, mag, e, a, K, R, T);
    Distribute(a, 1, K);
    StepScaled(f, mag + K, e, a + 1, K, R, T);
  }

  /**
   The encodings whose low k fraction bits are clear are the integers of their binade, and
   stepping by 2^k, carry included, steps the integer by one.
   */
  lemma MidScaled(f: Format, mag: nat) returns (q: nat, rem: nat, K: nat, T: nat)
    requires f.Valid() && f.Bias() <= ExpOf(f, mag) < f.Bias() + f.p
    ensures K == Pow2(f.Bias() + f.p - ExpOf(f, mag)) && T >= 1 && Unit(f) == K * T
    ensures rem == Low(mag, f.Bias() + f.p - ExpOf(f, mag)) && rem < K
    ensures Scaled(f, mag) == q * Unit(f) + rem * T
    ensures mag - rem >= 0
    ensures Scaled(f, mag - rem) == q * Unit(f)
    ensures ExpOf(f, mag - rem) == ExpOf(f, mag)
    ensures Scaled(f, mag - rem + K) == (q + 1) * Unit(f)
    ensures ExpOf(f, mag - rem + K) <= ExpOf(f, mag) + 1
  {
    var P, e := Pow2(f.p), ExpOf(f, mag);
    var k := f.Bias() + f.p - e;
    K, T := Pow2(k), Pow2(e - 1);
    var R := Pow2(f.p - k);
    Pow2Add(k, e - 1);
    Pow2Add(f.p - k, k);
    var e1, a, r := SplitMag(mag, P, K, R);
    q, rem := R + a, r;
    assert rem == Low(mag, k) by {
      LowIsMod(mag, k);
    }
    assert Scaled(f, mag) == q * (K * T) + rem * T by {
      Distribute(q * K, r, T);
      Associate(q, K, T);
    }
    MulAtMost(0, e, P);
    MulAtMost(0, a, K);
    BothSteps(f, mag - r, e, a, K, R, T);
  }

  lemma SignedMultiple(f: Format, x: Float, q: int)
    requires f.Valid() && q >= 0 && Scaled(f, x.mag) == q * Unit(f)
    ensures Value(f, x) == (if x.neg then -q else q) as real
    ensures Ceiling(Value(f, x)) == if x.neg then -q else q
  {
    var s: int := if x.neg then -q else q;
    Distribute(-q, q, Unit(f));
    CeilingOfQuotient(s * Unit(f), Unit(f), s);
  }

  lemma RoundUpSmall(f: Format, x: Float)
    requires f.Valid() && Exp(f, x) < f.Bias()
    ensures var r := RoundUp(f, x);
      && Exp(f, r) <= f.Bias() && r.neg == x.neg
      && Value(f, r) == Ceiling(Value(f, x)) as real
  {
    var U, n: int := Unit(f), Scaled(f, x.mag);
    SmallScaled(f, x.mag);
    SmallScaled(f, 0);
    OneScaled(f);
    var q: int := if x.neg || x.mag == 0 then 0 else 1;
    CeilingOfQuotient(if x.neg then -n else n, U, q);
    SignedMultiple(f, RoundUp(f, x), q);
  }

  lemma RoundUpMid(f: Format, x: Float)
    requires f.Valid() && f.Bias() <= Exp(f, x) < f.Bias() + f.p
    ensures var r := RoundUp(f, x);
      && Exp(f, r) <= Exp(f, x) + 1 && r.neg == x.neg
      && Value(f, r) == Ceiling(Value(f, x)) as real
  {
    var U, n: int := Unit(f), Scaled(f, x.mag);
    var q0, rem, K, T := MidScaled(f, x.mag);
    var q: int := q0;
    if rem == 0 {
      SignedMultiple(f, x, q);
    } else {
      MulLess(0, rem, T);
      MulLess(rem, K, T);
      Distribute(q, 1, U);
      Distribute(-q, q, U);
      if x.neg {
        CeilingOfQuotient(-n, U, -q);
        SignedMultiple(f, RoundUp(f, x), q);
      } else {
        CeilingOfQuotient(n, U, q + 1);
        SignedMultiple(f, RoundUp(f, x), q + 1);
      }
    }
  }

  /**
   The meaning of RoundUp: on every finite number it gives the least integer not below the
   number, as a finite number of the same sign (so a negative fraction becomes -0).
   */
  lemma RoundUpIsCeiling(f: Format, x: Float)
    requires f.Valid() && IsFinite(f, x)
    ensures var r := RoundUp(f, x);
      && IsFinite(f, r) && r.neg == x.neg
      && Value(f, r) == Ceiling(Value(f, x)) as real
  {
    var e := Exp(f, x);
    assert Pow2(f.w) == 2 * Pow2(f.w - 1);
    if e < f.Bias() {
      RoundUpSmall(f, x);
    } else if e < f.Bias() + f.p {
      RoundUpMid(f, x);
    } else {
      var q := LargeScaled(f, x.mag);
      SignedMultiple(f, x, q);
    }
  }

  // ---------- conversion between formats ----------

  /** y is x converted exactly: same sign, same number. */
  ghost predicate Converts(f: Format, x: Float, g: Format, y: Float)
    requires f.Valid() && g.Valid()
  {
    IsFinite(f, x) && IsFinite(g, y) && x.neg == y.neg && Value(f, x) == Value(g, y)
  }

  /** Rounding up commutes with exact conversion. */
  lemma RoundUpConverts(f: Format, x: Float, g: Format, y: Float)
    requires f.Valid() && g.Valid() && Converts(f, x, g, y)
    ensures Converts(f, RoundUp(f, x), g, RoundUp(g, y))
  {
    RoundUpIsCeiling(f, x);
    RoundUpIsCeiling(g, y);
  }

  lemma ScaledStep(f: Format, mag: nat)
    ensures Scaled(f, mag) < Scaled(f, mag + 1)
  {
    var P, e := Pow2(f.p), ExpOf(f, mag);
    DivMod(mag, P);
    if mag % P + 1 < P {
      DivModUnique(mag + 1, P, e, mag % P + 1);
      if e > 0 {
        Distribute(P + mag % P, 1, Pow2(e - 1));
      }
    } else {
      Distribute(e, 1, P);
      DivModUnique(mag + 1, P, e + 1, 0);
      if e > 0 {
        MulLess(2 * P - 1, 2 * P, Pow2(e - 1));
        Associate(P, 2, Pow2(e - 1));
      }
    }
  }

  lemma {:induction false} ScaledIncreasing(f: Format, a: nat, b: nat)
    requires a < b
    ensures Scaled(f, a) < Scaled(f, b)
    decreases b
  {
    ScaledStep(f, b - 1);
    if a < b - 1 {
      ScaledIncreasing(f, a, b - 1);
    }
  }

  lemma RealCancel(a: real, b: real, u: real)
    requires u > 0.0 && a / u == b / u
    ensures a == b
  {
    assert a / u * u == a;
    assert b / u * u == b;
  }

  /** A sign and a real number have at most one encoding in a format. */
  lemma EncodingUnique(f: Format, x: Float, y: Float)
    requires f.Valid() && x.neg == y.neg && Value(f, x) == Value(f, y)
    ensures x == y
  {
    var u := Unit(f) as real;
    var a: int, b: int := Scaled(f, x.mag), Scaled(f, y.mag);
    if x.neg {
      a, b := -a, -b;
    }
    RealCancel(a as real, b as real, u);
    if x.mag < y.mag {
      ScaledIncreasing(f, x.mag, y.mag);
    } else if y.mag < x.mag {
      ScaledIncreasing(f, y.mag, x.mag);
    }
  }
}
