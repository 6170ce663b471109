// roundTiesToEven (IEEE 754-2008, section 4.3.1) to 53 bits with an unbounded
// exponent, defined by nearness and shown to be a function of the value.
module Rounding {
  import opened Powers

  const TWO52: int := 0x10_0000_0000_0000
  const TWO53: int := 0x20_0000_0000_0000

  // The value mant * 2^exp.
  datatype Float = Float(mant: int, exp: int)
  {
    ghost function Value(): real { mant as real * RPow(2.0, exp) }
    predicate Normal() { TWO52 <= mant < TWO53 }
  }

  function Abs(x: real): real { if x < 0.0 then -x else x }

  // The integer nearest to x, ties to even.
  function RoundHalfEven(x: real): int {
    var f := x.Floor;
    var d := x - f as real;
    if d < 0.5 || (d == 0.5 && f % 2 == 0) then f else f + 1
  }

  // g is the 53-bit float nearest to x: no other 53-bit float is nearer, and
  // one that is as near forces g to be the even one.
  ghost predicate IsNearest(x: real, g: Float) {
    && g.Normal()
    && forall h: Float :: h.Normal() ==>
         && Abs(x - g.Value()) <= Abs(x - h.Value())
         && (Abs(x - g.Value()) == Abs(x - h.Value()) && h.Value() != g.Value() ==> g.mant % 2 == 0)
  }

  // A rounded significand, with its carry out of the top bit put back.
  function Renormalise(m: int, k: int): Float {
    if m == TWO53 then Float(TWO52, k + 1) else Float(m, k)
  }

  // ---- nearest integers ----

  // RoundHalfEven is the nearest integer, and the even one of two as near.
  lemma RoundHalfEvenIsNearest(x: real, j: int)
    ensures Abs(x - RoundHalfEven(x) as real) <= 0.5
    ensures Abs(x - RoundHalfEven(x) as real) <= Abs(x - j as real)
    ensures Abs(x - RoundHalfEven(x) as real) == Abs(x - j as real) && j != RoundHalfEven(x)
            ==> RoundHalfEven(x) % 2 == 0 && (j == RoundHalfEven(x) + 1 || j == RoundHalfEven(x) - 1)
  {
    var f := x.Floor;
    assert j <= f || j >= f + 1;
  }

  lemma RoundHalfEvenUnique(x: real, m: int)
    requires Abs(x - m as real) < 0.5 || (Abs(x - m as real) == 0.5 && m % 2 == 0)
    ensures RoundHalfEven(x) == m
  {
    RoundHalfEvenIsNearest(x, m);
    var r := RoundHalfEven(x);
    assert r as real - 1.0 <= m as real <= r as real + 1.0;
  }

  // ---- floats on one scale ----

  lemma ShiftedValue(h: Float, k: int)
    ensures h.Value() == (h.mant as real * RPow(2.0, h.exp - k)) * RPow(2.0, k)
  {
    hide RPow;
    RPowAdd(2.0, h.exp - k, k);
    Associate(h.mant as real, RPow(2.0, h.exp - k), RPow(2.0, k), RPow(2.0, h.exp));
  }

  lemma Associate(a: real, b: real, c: real, bc: real)
    requires bc == b * c
    ensures a * bc == (a * b) * c
  {}

  // A normal float seen from scale k: an integer from its own scale, an even
  // integer from a finer one, and below 2^52 from a coarser one.
  lemma OnScale(h: Float, k: int) returns (y: real)
    requires h.Normal()
    ensures h.Value() == y * RPow(2.0, k)
    ensures h.exp == k ==> y == h.mant as real
    ensures h.exp > k ==> y == y.Floor as real && y.Floor % 2 == 0 && y.Floor >= TWO53
    ensures h.exp < k ==> y < TWO52 as real
  {
    hide RPow, Float.Value;
    var r := RPow(2.0, h.exp - k);
    y := h.mant as real * r;
    ShiftedValue(h, k);
    if h.exp > k {
      CoarserMultiple(h.mant, h.exp - k, y);
    } else if h.exp < k {
      FinerMultiple(h.mant, h.exp - k, y);
    } else {
      assert r == 1.0 by { RPowZero(2.0); }
    }
  }

  lemma CoarserMultiple(m: int, j: int, y: real)
    requires m >= TWO52 && j > 0 && y == m as real * RPow(2.0, j)
    ensures y == y.Floor as real && y.Floor % 2 == 0 && y.Floor >= TWO53
  {
    RPowOfNat(2, j);
    EvenMultiple(m, Pow(2, j - 1));
    assert Pow(2, j) == 2 * Pow(2, j - 1);
    assert y == (m * Pow(2, j)) as real;
  }

  lemma RPowMinusOne()
    ensures RPow(2.0, -1) == 0.5
  {
    assert NatRPow(2.0, 1) == 2.0 * NatRPow(2.0, 0);
  }

  lemma HalfBound(c: real, r: real, y: real)
    requires 0.0 <= c < TWO53 as real && 0.0 < r <= 0.5 && y == c * r
    ensures y < TWO52 as real
  {
    ScaleLe(c, 0.0, 0.5 - r);
    assert c * (0.5 - r) == 0.5 * c - y;
  }

  lemma FinerMultiple(m: int, j: int, y: real)
    requires 0 <= m < TWO53 && j < 0 && y == m as real * RPow(2.0, j)
    ensures y < TWO52 as real
  {
    hide RPow;
    RPowMono(2.0, j, -1);
    RPowMinusOne();
    HalfBound(m as real, RPow(2.0, j), y);
  }

  lemma EvenMultiple(m: int, p: int)
    requires m >= TWO52 && p >= 1
    ensures (m * (2 * p)) % 2 == 0 && m * (2 * p) >= 2 * m
  {
    assert m * (2 * p) == 2 * (m * p);
    assert m * (p - 1) >= 0;
  }

  lemma RenormaliseValue(m: int, k: int)
    requires TWO52 <= m <= TWO53
    ensures Renormalise(m, k).Normal()
    ensures Renormalise(m, k).Value() == m as real * RPow(2.0, k)
  {
    if m == TWO53 {
      RPowStep(2.0, k + 1);
      assert k + 1 - 1 == k;
    }
  }

  // A normal float is determined by its value.
  lemma ValueInjective(g: Float, h: Float)
    requires g.Normal() && h.Normal() && g.Value() == h.Value()
    ensures g == h
  {
    hide RPow, Float.Value;
    var y := OnScale(h, g.exp);
    assert g.Value() == g.mant as real * RPow(2.0, g.exp) by { var _ := OnScale(g, g.exp); }
    CancelLeft(RPow(2.0, g.exp), g.mant as real, y);
  }

  // ---- the window rounds correctly ----

  lemma WindowInteger(f: real)
    requires TWO52 as real <= f < TWO53 as real
    ensures TWO52 <= RoundHalfEven(f) <= TWO53
  {}

  lemma DistanceOnScale(x: real, f: real, y: real, p: real, yv: real)
    requires p > 0.0 && x == f * p && yv == y * p
    ensures Abs(x - yv) == Abs(f - y) * p
  {
    assert x - yv == (f - y) * p;
    if f - y < 0.0 { ScaleLt(p, f - y, 0.0); } else { ScaleLe(p, 0.0, f - y); }
  }

  lemma CompareOnScale(a: real, b: real, p: real)
    requires p > 0.0
    ensures a <= b <==> a * p <= b * p
    ensures a == b <==> a * p == b * p
  {
    if a < b { ScaleLt(p, a, b); } else if b < a { ScaleLt(p, b, a); }
  }

  // The comparison on the scale where the result is an integer.
  lemma AgainstScaled(f: real, h: Float, k: int, y: real)
    requires TWO52 as real <= f < TWO53 as real
    requires h.exp == k ==> y == h.mant as real
    requires h.exp > k ==> y == y.Floor as real && y.Floor % 2 == 0 && y.Floor >= TWO53
    requires h.exp < k ==> y < TWO52 as real
    ensures var m := RoundHalfEven(f);
            && Abs(f - m as real) <= Abs(f - y)
            && (Abs(f - m as real) == Abs(f - y) && y != m as real ==>
                  h.exp == k && m % 2 == 0 && (h.mant == m + 1 || h.mant == m - 1))
  {
    RoundHalfEvenIsNearest(f, TWO52);
    RoundHalfEvenIsNearest(f, TWO53);
    RoundHalfEvenIsNearest(f, y.Floor);
  }

  // How a competitor h stands against the rounded g.
  lemma AgainstCompetitor(x: real, f: real, k: int, h: Float)
    requires TWO52 as real <= f < TWO53 as real
    requires x == f * RPow(2.0, k)
    requires h.Normal()
    ensures var g := Renormalise(RoundHalfEven(f), k);
            && Abs(x - g.Value()) <= Abs(x - h.Value())
            && (Abs(x - g.Value()) == Abs(x - h.Value()) && h.Value() != g.Value() ==>
                  g.mant % 2 == 0 && h.mant % 2 != 0)
  {
    hide *;
    var m := RoundHalfEven(f);
    var g := Renormalise(m, k);
    var p := RPow(2.0, k);
    WindowInteger(f);
    RenormaliseValue(m, k);
    var y := OnScale(h, k);
    AgainstScaled(f, h, k, y);
    CompareScaled(x, f, m as real, y, p, g.Value(), h.Value());
    RenormaliseParity(m, k);
  }

  lemma RenormaliseParity(m: int, k: int)
    ensures m % 2 == 0 ==> Renormalise(m, k).mant % 2 == 0
  {}

  lemma CompareScaled(x: real, f: real, m: real, y: real, p: real, gv: real, hv: real)
    requires p > 0.0 && x == f * p && gv == m * p && hv == y * p
    ensures Abs(x - gv) <= Abs(x - hv) <==> Abs(f - m) <= Abs(f - y)
    ensures Abs(x - gv) == Abs(x - hv) <==> Abs(f - m) == Abs(f - y)
    ensures gv == hv <==> m == y
  {
    hide *;
    DistanceOnScale(x, f, m, p, gv);
    DistanceOnScale(x, f, y, p, hv);
    CompareOnScale(Abs(f - m), Abs(f - y), p);
    CompareOnScale(m, y, p);
  }

  // Rounding the scaled value to an integer gives the nearest 53-bit float.
  lemma WindowIsNearest(x: real, f: real, k: int)
    requires TWO52 as real <= f < TWO53 as real
    requires x == f * RPow(2.0, k)
    ensures IsNearest(x, Renormalise(RoundHalfEven(f), k))
  {
    WindowInteger(f);
    RenormaliseValue(RoundHalfEven(f), k);
    forall h: Float | h.Normal()
      ensures var g := Renormalise(RoundHalfEven(f), k);
              && Abs(x - g.Value()) <= Abs(x - h.Value())
              && (Abs(x - g.Value()) == Abs(x - h.Value()) && h.Value() != g.Value() ==> g.mant % 2 == 0)
    {
      AgainstCompetitor(x, f, k, h);
    }
  }

  // And no other float is nearest.
  lemma WindowIsOnlyNearest(x: real, f: real, k: int, h: Float)
    requires TWO52 as real <= f < TWO53 as real
    requires x == f * RPow(2.0, k)
    requires IsNearest(x, h)
    ensures h == Renormalise(RoundHalfEven(f), k)
  {
    var g := Renormalise(RoundHalfEven(f), k);
    WindowIsNearest(x, f, k);
    AgainstCompetitor(x, f, k, h);
    assert g.Normal();
    assert h.Value() == g.Value();
    ValueInjective(g, h);
  }

  // ---- every positive value has a window ----

  lemma DoubledInWindow(x: real, f: real, k: int, p: real, q: real)
    requires 2.0 * x == f * p && p == 2.0 * q
    ensures x == f * q
  {}

  lemma {:induction false} WindowAbove(x: real, inv: real) returns (f: real, k: int)
    requires 0.0 < x < TWO53 as real && x * inv == TWO52 as real
    ensures TWO52 as real <= f < TWO53 as real && x == f * RPow(2.0, k)
    decreases inv.Floor
  {
    hide RPow;
    if x >= TWO52 as real {
      f, k := x, 0;
      RPowZero(2.0);
    } else {
      assert inv > 1.0 by { if inv <= 1.0 { ScaleLe(x, inv, 1.0); } }
      assert (2.0 * x) * (inv / 2.0) == TWO52 as real;
      f, k := WindowAbove(2.0 * x, inv / 2.0);
      RPowStep(2.0, k);
      DoubledInWindow(x, f, k, RPow(2.0, k), RPow(2.0, k - 1));
      k := k - 1;
    }
  }

  lemma HalvedInWindow(x: real, f: real, p: real, q: real)
    requires x / 2.0 == f * q && p == 2.0 * q
    ensures x == f * p
  {}

  lemma {:induction false} WindowExists(x: real) returns (f: real, k: int)
    requires x > 0.0
    ensures TWO52 as real <= f < TWO53 as real && x == f * RPow(2.0, k)
    decreases x.Floor
  {
    hide RPow;
    if x < TWO53 as real {
      var inv := TWO52 as real / x;
      assert x * inv == TWO52 as real;
      f, k := WindowAbove(x, inv);
    } else {
      f, k := WindowExists(x / 2.0);
      RPowStep(2.0, k + 1);
      HalvedInWindow(x, f, RPow(2.0, k + 1), RPow(2.0, k));
      k := k + 1;
    }
  }

  lemma NearestExists(x: real)
    requires x > 0.0
    ensures exists g: Float :: IsNearest(x, g)
  {
    var f, k := WindowExists(x);
    WindowIsNearest(x, f, k);
  }

  // The 53-bit float nearest to x.
  ghost function Round53(x: real): (g: Float)
    requires x > 0.0
    ensures g.Normal() && IsNearest(x, g)
  {
    NearestExists(x);
    var g :| IsNearest(x, g);
    g
  }

  // It is the only one, so "correctly rounded" determines the result.
  lemma NearestIsRound53(x: real, h: Float)
    requires x > 0.0 && IsNearest(x, h)
    ensures h == Round53(x)
  {
    var f, k := WindowExists(x);
    WindowIsOnlyNearest(x, f, k, h);
    WindowIsOnlyNearest(x, f, k, Round53(x));
  }

  // Any window computes it.
  lemma Round53InWindow(x: real, f: real, k: int)
    requires TWO52 as real <= f < TWO53 as real && x == f * RPow(2.0, k)
    ensures x > 0.0 && Round53(x) == Renormalise(RoundHalfEven(f), k)
  {
    WindowIsNearest(x, f, k);
    ScaleLt(RPow(2.0, k), 0.0, f);
    NearestIsRound53(x, Renormalise(RoundHalfEven(f), k));
  }

  // ---- binary64 ----

  // A binary64 datum by its fields; field 2047 with frac 0 is an infinity.
  datatype Double = Double(neg: bool, field: int, frac: int)
  {
    predicate Valid() { 0 <= field <= 2047 && 0 <= frac < TWO52 }
    predicate Finite() { Valid() && field < 2047 }
    predicate Zero() { field == 0 && frac == 0 }

    // Significand and exponent of the magnitude of a finite datum.
    function Mantissa(): int { if field == 0 then frac else TWO52 + frac }
    function Exponent(): int { if field == 0 then -1074 else field - 1075 }
    ghost function Magnitude(): real { Mantissa() as real * RPow(2.0, Exponent()) }
  }

  // What the fields of a finite datum say: frac / 2^52, with a one in front of
  // it unless the exponent field is zero, times a power of two.
  lemma DatumValue(d: Double)
    requires d.Finite()
    ensures d.field > 0 ==> d.Magnitude() * RPow(2.0, 52) == (0x10_0000_0000_0000 + d.frac) as real * RPow(2.0, d.field - 1023)
    ensures d.field == 0 ==> d.Magnitude() * RPow(2.0, 1074) == d.frac as real
  {
    hide RPow;
    RPowAdd(2.0, d.field - 1075, 52);
    RPowInverse(2.0, 1074);
    Associate(d.Mantissa() as real, RPow(2.0, d.Exponent()), if d.field > 0 then RPow(2.0, 52) else RPow(2.0, 1074),
      if d.field > 0 then RPow(2.0, d.field - 1023) else 1.0);
  }

  function Infinity(neg: bool): Double { Double(neg, 2047, 0) }

  // C's ldexp on a 53-bit significand: exact for a normal result, an infinity
  // above, and a second rounding to the subnormal grid below.
  function Ldexp(neg: bool, g: Float): Double {
    var field := g.exp + 1075;
    if field >= 2047 then Infinity(neg)
    else if field >= 1 then Double(neg, field, g.mant - TWO52)
    else SubnormalResult(neg, RoundHalfEven(g.mant as real / Pow(2, 1 - field) as real))
  }

  // A number of units 2^-1074 as a datum; 2^52 units are the least normal.
  function SubnormalResult(neg: bool, r: int): Double {
    Double(neg, r / TWO52, r % TWO52)
  }

  lemma SubnormalQuotient(m: real, p: real)
    requires 0.0 <= m < TWO53 as real && p >= 2.0
    ensures 0.0 <= m / p < TWO52 as real
  {
    var y := m / p;
    assert y * p == m;
    assert y < 0.0 ==> y * p < 0.0;
    assert y >= 0.0 ==> y * (p - 2.0) >= 0.0;
  }

  lemma LdexpValid(neg: bool, g: Float)
    requires g.Normal()
    ensures Ldexp(neg, g).Valid()
  {
    var field := g.exp + 1075;
    if field < 1 {
      assert Pow(2, 1 - field) == 2 * Pow(2, -field);
      SubnormalQuotient(g.mant as real, Pow(2, 1 - field) as real);
    }
  }

  // A normal result keeps the value.
  lemma LdexpExact(neg: bool, g: Float)
    requires g.Normal() && 1 <= g.exp + 1075 < 2047
    ensures Ldexp(neg, g).Magnitude() == g.Value()
  {}
}
