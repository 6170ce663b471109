// When the parser's result is the binary64 datum nearest to the text: always,
// except where ldexp rounds a subnormal a second time from a tie that the
// first rounding made.
module CorrectRounding {
  import opened Powers
  import opened Rounding
  import opened Decimal
  import opened Layout
  import opened DoubleParser
  import opened DoublePrinter

  // d is the datum nearest to x > 0: no finite one is nearer, and one that is
  // as near forces d to be the even one.
  ghost predicate IsNearestDatum(x: real, d: Double) {
    && d.Finite() && !d.neg
    && forall h: Double :: h.Finite() && !h.neg ==> NoNearer(x, d, h)
  }

  ghost predicate NoNearer(x: real, d: Double, h: Double) {
    && Abs(x - d.Magnitude()) <= Abs(x - h.Magnitude())
    && (Abs(x - d.Magnitude()) == Abs(x - h.Magnitude()) && h.Magnitude() != d.Magnitude() ==> d.Mantissa() % 2 == 0)
  }

  // The rounding IEEE 754-2008, section 4.3.1, asks for: infinity where the
  // nearest float of unbounded exponent is too large, the nearest datum
  // otherwise.
  ghost predicate IsCorrect(x: real, d: Double)
    requires x > 0.0
  {
    if Round53(x).Value() >= RPow(2.0, 1024) then d == Double(false, 2047, 0) else IsNearestDatum(x, d)
  }

  // x lies next to the odd multiple k of 2^-1075, a tie of the subnormal grid,
  // on the side that tie is not rounded to, and no further from it than half a
  // unit of 53 bits.
  ghost predicate SlipsAt(x: real, k: nat) {
    var X := x * RPow(2.0, 1075);
    k % 2 == 1 && k < TWO53 && WrongSide(X, k) && WithinHalfUnit(X, k)
  }

  predicate WrongSide(X: real, k: nat) { if k % 4 == 1 then X > k as real else X < k as real }

  ghost predicate WithinHalfUnit(X: real, k: nat) {
    var half := RPow(2.0, BitLength(k) - 54);
    Abs(X - k as real) < half || (Abs(X - k as real) == half && k < TWO52)
  }

  ghost predicate Slips(x: real) { exists k: nat :: SlipsAt(x, k) }

  // ---- floats on a grid ----

  lemma ScaledPower(m: int, s: nat, e: int)
    ensures (m * Pow(2, s)) as real * RPow(2.0, e - s) == m as real * RPow(2.0, e)
  {
    hide Pow, RPow;
    RPowOfNat(2, s);
    RPowAdd(2.0, e - s, s);
    CastProduct(m, Pow(2, s));
    Regroup(m as real, Pow(2, s) as real, RPow(2.0, e - s), RPow(2.0, e));
  }

  lemma Regroup(m: real, p: real, q: real, pq: real)
    requires pq == q * p
    ensures m * p * q == m * pq
  {}

  // A positive integer of at most 53 bits, at any scale, is a float.
  lemma Representable(m: int, e: int) returns (f: Float)
    requires 0 < m <= TWO53
    ensures f.Normal() && f.Value() == m as real * RPow(2.0, e)
    ensures m < TWO53 ==> BitLength(m) <= 53 && f == Float(m * Pow(2, 53 - BitLength(m)), e - (53 - BitLength(m)))
  {
    hide RPow, Pow, BitLength;
    if m == TWO53 {
      RenormaliseValue(TWO53, e);
      f := Renormalise(TWO53, e);
    } else {
      hide Float.Value;
      var s := 53 - BitLength(m);
      FiftyThreeBits(m);
      f := Float(m * Pow(2, s), e - s);
      FloatValue(f);
      ScaledPower(m, s, e);
    }
  }

  lemma FloatValue(f: Float)
    ensures f.Value() == f.mant as real * RPow(2.0, f.exp)
  {}

  lemma FiftyThreeBits(m: nat)
    requires 0 < m < TWO53
    ensures BitLength(m) <= 53 && TWO52 <= m * Pow(2, 53 - BitLength(m)) < TWO53
  {
    hide Pow, BitLength;
    var L := BitLength(m);
    BitLengthBounds(m);
    Pow52();
    if L > 53 { PowMono(2, 53, L - 1); }
    PowAdd(2, L - 1, 53 - L);
    PowAdd(2, L, 53 - L);
    ProductBounds(m, Pow(2, L - 1), Pow(2, L), Pow(2, 53 - L));
  }

  lemma ProductBounds(m: int, lo: int, hi: int, p: int)
    requires lo <= m < hi && p > 0
    ensures lo * p <= m * p < hi * p
  {
    assert (m - lo) * p >= 0 && (hi - m) * p > 0;
  }

  lemma Scales()
    ensures RPow(2.0, -1075) * RPow(2.0, 1075) == 1.0 && RPow(2.0, -1074) * RPow(2.0, 1074) == 1.0
    ensures RPow(2.0, 1075) == 2.0 * RPow(2.0, 1074) && RPow(2.0, -1074) == 2.0 * RPow(2.0, -1075)
  {
    RPowInverse(2.0, 1075);
    RPowInverse(2.0, 1074);
    RPowStep(2.0, 1075);
    RPowStep(2.0, -1074);
  }

  // Rounding to 53 bits does not cross an integer number of units.
  lemma Uncrossed(x: real, m: int)
    requires x > 0.0 && 0 < m <= TWO53
    ensures x * RPow(2.0, 1075) >= m as real ==> Round53(x).Value() * RPow(2.0, 1075) >= m as real
    ensures x * RPow(2.0, 1075) <= m as real ==> Round53(x).Value() * RPow(2.0, 1075) <= m as real
  {
    hide *;
    Scales();
    var h := Representable(m, -1075);
    RoundsBeside(x, h);
    var u, U := RPow(2.0, -1075), RPow(2.0, 1075);
    UnitOrder(x, m as real, h.Value(), u, U);
    UnitOrder(Round53(x).Value(), m as real, h.Value(), u, U);
  }

  lemma RoundsBeside(x: real, h: Float)
    requires x > 0.0 && h.Normal()
    ensures x >= h.Value() ==> Round53(x).Value() >= h.Value()
    ensures x <= h.Value() ==> Round53(x).Value() <= h.Value()
  {
    hide Float.Value, Round53;
    if x >= h.Value() { RoundsAtLeast(x, h); }
    if x <= h.Value() { RoundsAtMost(x, h); }
  }

  lemma UnitOrder(x: real, m: real, h: real, u: real, U: real)
    requires u > 0.0 && U > 0.0 && u * U == 1.0 && h == m * u
    ensures x * U >= m <==> x >= h
    ensures x * U <= m <==> x <= h
  {
    assert h * U == m * (u * U);
    assert (x - h) * U == x * U - m;
    assert x > h ==> (x - h) * U > 0.0;
    assert x < h ==> (x - h) * U < 0.0;
  }

  // ---- where the two roundings differ ----

  // X and Z are the value and its first rounding in units of 2^-1075, half a
  // unit of the grid.
  lemma TwoRoundings(x: real, X: real, Z: real)
    requires x > 0.0 && X == x * RPow(2.0, 1075) && Z == Round53(x).Value() * RPow(2.0, 1075)
    requires X > 0.0 && 0.0 < Z < TWO53 as real
    ensures RoundHalfEven(Z / 2.0) != RoundHalfEven(X / 2.0) <==>
            exists k: nat :: k % 2 == 1 && Z == k as real && WrongSide(X, k)
  {
    hide RPow, Round53, Float.Value;
    var k := Z.Floor;
    if Z == k as real && k % 2 == 1 {
      if k > 1 { Uncrossed(x, k - 1); }
      Uncrossed(x, k + 1);
      TieRounds(X, k);
    } else {
      var r := RoundHalfEven(Z / 2.0);
      NotTie(Z, r);
      if r > 0 { Uncrossed(x, 2 * r - 1); }
      Uncrossed(x, if 2 * r + 1 <= TWO53 then 2 * r + 1 else TWO53);
      RoundHalfEvenUnique(X / 2.0, r);
    }
  }

  // Half of the odd k rounds to the even one of its neighbours j and j + 1,
  // half of a value beside k to the one on its own side.
  lemma TieRounds(X: real, k: nat)
    requires k % 2 == 1 && (k - 1) as real < X < (k + 1) as real
    ensures RoundHalfEven(k as real / 2.0) != RoundHalfEven(X / 2.0) <==> WrongSide(X, k)
  {
    hide RoundHalfEven;
    var j := k / 2;
    TieParity(k, j);
    TieGoes(k as real / 2.0, j);
    BesideGoes(X, j);
  }

  lemma TieParity(k: nat, j: nat)
    requires k % 2 == 1 && j == k / 2
    ensures k == 2 * j + 1 && (k % 4 == 1 <==> j % 2 == 0)
  {
    hide *;
    OddCases(k);
    assert k % 4 == 1 ==> j == 2 * (k / 4);
    assert k % 4 == 3 ==> j == 2 * (k / 4) + 1;
  }

  lemma TieGoes(y: real, j: nat)
    requires y == j as real + 0.5
    ensures RoundHalfEven(y) == if j % 2 == 0 then j else j + 1
  {
    assert y.Floor == j;
  }

  lemma BesideGoes(X: real, j: nat)
    requires (2 * j) as real < X < (2 * j + 2) as real
    ensures X < (2 * j + 1) as real ==> RoundHalfEven(X / 2.0) == j
    ensures X > (2 * j + 1) as real ==> RoundHalfEven(X / 2.0) == j + 1
  {
    hide RoundHalfEven;
    if X < (2 * j + 1) as real { RoundHalfEvenUnique(X / 2.0, j); }
    if X > (2 * j + 1) as real { RoundHalfEvenUnique(X / 2.0, j + 1); }
  }

  lemma NotTie(Z: real, r: int)
    requires r == RoundHalfEven(Z / 2.0) && Z > 0.0 && !(Z == Z.Floor as real && Z.Floor % 2 == 1)
    ensures r >= 0 && (2 * r - 1) as real < Z < (2 * r + 1) as real
  {
    var n := (Z / 2.0).Floor;
    OddFloor(Z, n);
    NotHalf(Z / 2.0, n, r);
  }

  lemma NotHalf(y: real, n: int, r: int)
    requires r == RoundHalfEven(y) && n == y.Floor && y > 0.0 && y - n as real != 0.5
    ensures r >= 0 && r as real - 0.5 < y < r as real + 0.5
  {}

  lemma OddFloor(Z: real, n: int)
    ensures Z / 2.0 - n as real == 0.5 ==> Z == Z.Floor as real && Z.Floor % 2 == 1
  {
    hide *;
    if Z / 2.0 - n as real == 0.5 { assert Z == (2 * n + 1) as real; }
  }

  // The first rounding ends on the tie k exactly within half its own unit.
  lemma LandsExactly(x: real, k: nat)
    requires x > 0.0 && k % 2 == 1 && k < TWO53 && WrongSide(x * RPow(2.0, 1075), k)
    ensures Round53(x).Value() * RPow(2.0, 1075) == k as real <==> SlipsAt(x, k)
  {
    hide *;
    Scales();
    var t := Representable(k, -1075);
    SameFloat(x, t, k as real, RPow(2.0, -1075), RPow(2.0, 1075));
    LandsOn(x, k, x * RPow(2.0, 1075), t);
    SlipsAtIs(x, k, x * RPow(2.0, 1075));
  }

  lemma SlipsAtIs(x: real, k: nat, X: real)
    requires X == x * RPow(2.0, 1075)
    ensures SlipsAt(x, k) <==> k % 2 == 1 && k < TWO53 && WrongSide(X, k) && WithinHalfUnit(X, k)
  {}

  lemma LandsOn(x: real, k: nat, X: real, t: Float)
    requires x > 0.0 && X == x * RPow(2.0, 1075) && k % 2 == 1 && k < TWO53 && WrongSide(X, k)
    requires BitLength(k) <= 53 && t == Float(k * Pow(2, 53 - BitLength(k)), -1075 - (53 - BitLength(k)))
    ensures Round53(x) == t <==> WithinHalfUnit(X, k)
  {
    hide *;
    FiftyThreeBits(k);
    var s := 53 - BitLength(k);
    var M, e := k * Pow(2, s), -1075 - s;
    var F := InWindow(x, X, k, s, M);
    TieShape(k, M, s);
    assert -e == 1075 + s;
    OddCases(k);
    WindowSide(X, F, k, M);
    LandsInWindow(x, F, M, e, k, s, t);
    HalfUnitIs(X, k);
  }

  lemma HalfUnitIs(X: real, k: nat)
    ensures WithinHalfUnit(X, k) <==>
            Abs(X - k as real) < RPow(2.0, BitLength(k) - 54) || (Abs(X - k as real) == RPow(2.0, BitLength(k) - 54) && k < TWO52)
  {}

  lemma OddCases(k: nat)
    requires k % 2 == 1
    ensures k % 4 == 1 || k % 4 == 3
  {
    hide *;
    var q, r := k / 4, k % 4;
    assert k == 2 * (2 * q) + r;
    assert r == 0 ==> k == 2 * (2 * q);
    assert r == 2 ==> k == 2 * (2 * q + 1);
  }

  lemma WindowSide(X: real, F: real, k: nat, M: int)
    requires WrongSide(X, k)
    requires (X > k as real <==> F > M as real) && (X < k as real <==> F < M as real)
    requires k % 4 == 1 || M > TWO52
    ensures if k % 4 == 1 then F > M as real else F < M as real && M > TWO52
  {}

  // k and x seen from the window of k's own 53 bits.
  lemma InWindow(x: real, X: real, k: nat, s: int, M: int) returns (F: real)
    requires 0 < k < TWO53 && s == 53 - BitLength(k) >= 0 && M == k * Pow(2, s) && X == x * RPow(2.0, 1075)
    ensures F == x * RPow(2.0, 1075 + s)
    ensures (X > k as real <==> F > M as real) && (X < k as real <==> F < M as real)
    ensures Abs(X - k as real) < RPow(2.0, BitLength(k) - 54) <==> Abs(F - M as real) < 0.5
    ensures Abs(X - k as real) == RPow(2.0, BitLength(k) - 54) <==> Abs(F - M as real) == 0.5
  {
    hide *;
    F := x * RPow(2.0, 1075 + s);
    RPowOfNat(2, s);
    RPowAdd(2.0, 1075, s);
    HalfUnit(k);
    CastProduct(k, Pow(2, s));
    Magnify(x, X, F, k as real, M as real, RPow(2.0, 1075), Pow(2, s) as real, RPow(2.0, 1075 + s), RPow(2.0, BitLength(k) - 54));
  }

  // Half a unit of k's own 53 bits, seen from its window.
  lemma HalfUnit(k: nat)
    requires 0 < k < TWO53
    ensures BitLength(k) <= 53 && RPow(2.0, BitLength(k) - 54) * Pow(2, 53 - BitLength(k)) as real == 0.5
  {
    hide RPow, BitLength, Pow;
    FiftyThreeBits(k);
    var s := 53 - BitLength(k);
    RPowOfNat(2, s);
    RPowAdd(2.0, BitLength(k) - 54, s);
    RPowStep(2.0, 0);
    RPowZero(2.0);
  }

  lemma Magnify(x: real, X: real, F: real, k: real, M: real, U: real, p: real, Up: real, half: real)
    requires X == x * U && F == x * Up && Up == U * p && M == k * p && p > 0.0 && half * p == 0.5
    ensures F == X * p
    ensures X > k <==> F > M
    ensures X < k <==> F < M
    ensures Abs(X - k) < half <==> Abs(F - M) < 0.5
    ensures Abs(X - k) == half <==> Abs(F - M) == 0.5
  {
    assert F == X * p;
    ScaleSign(X - k, p, F - M);
    var a := Abs(X - k);
    assert a * p == Abs(F - M);
    ScaleSign(a - half, p, Abs(F - M) - 0.5);
  }

  lemma ScaleSign(a: real, p: real, b: real)
    requires p > 0.0 && b == a * p
    ensures (a > 0.0 <==> b > 0.0) && (a < 0.0 <==> b < 0.0)
  {}

  lemma SameFloat(x: real, t: Float, k: real, u: real, U: real)
    requires x > 0.0 && t.Normal() && t.Value() == k * u && u * U == 1.0 && U > 0.0 && u > 0.0
    ensures Round53(x).Value() * U == k <==> Round53(x) == t
  {
    hide Float.Value;
    var v := Round53(x).Value();
    assert t.Value() * U == k * (u * U);
    assert v * U == k ==> (v - t.Value()) * U == 0.0;
    if v == t.Value() { ValueInjective(Round53(x), t); }
  }

  // An odd k fills the window with an even number unless it has 53 bits, and
  // leaves it room below unless it is one.
  lemma TieShape(k: nat, M: int, s: nat)
    requires k % 2 == 1 && k < TWO53 && s == 53 - BitLength(k) && M == k * Pow(2, s)
    ensures (s == 0 <==> k >= TWO52) && (M % 2 == 0 <==> s > 0)
    ensures k > 1 ==> M > TWO52
  {
    hide BitLength, Pow;
    BitLength53(k);
    if s > 0 {
      PowStep(2, s);
      EvenProduct(k, Pow(2, s - 1));
    } else {
      PowZero(2);
    }
    if k > 1 { RoomBelow(k, BitLength(k), s); }
  }

  // An odd number above one is no power of two.
  lemma RoomBelow(k: nat, L: nat, s: nat)
    requires k % 2 == 1 && 1 < k && L == BitLength(k) && s == 53 - L
    ensures k * Pow(2, s) > TWO52
  {
    hide BitLength, Pow;
    BitLengthBounds(k);
    Pow52();
    PowZero(2);
    PowStep(2, 1);
    assert L > 1;
    PowStep(2, L - 1);
    PowAdd(2, L - 1, s);
    assert k != Pow(2, L - 1);
    AboveLower(k, Pow(2, L - 1), Pow(2, s), TWO52);
  }

  lemma AboveLower(k: int, p: int, q: int, n: int)
    requires k > p && q > 0 && n == p * q
    ensures k * q > n
  {
    assert (k - p) * q > 0;
  }

  lemma EvenProduct(k: int, p: int)
    ensures k * (2 * p) % 2 == 0
  {
    assert k * (2 * p) == 2 * (k * p);
  }

  lemma LandsInWindow(x: real, F: real, M: int, e: int, k: nat, s: nat, t: Float)
    requires x > 0.0 && TWO52 <= M < TWO53 && t == Float(M, e) && F == x * RPow(2.0, -e)
    requires if k % 4 == 1 then F > M as real else F < M as real && M > TWO52
    requires (s == 0 <==> k >= TWO52) && (M % 2 == 0 <==> s > 0)
    ensures Round53(x) == t <==> Abs(F - M as real) < 0.5 || (Abs(F - M as real) == 0.5 && k < TWO52)
  {
    hide *;
    RPowInverse(2.0, -e);
    Unscaled(x, F, RPow(2.0, -e), RPow(2.0, e));
    if Abs(F - M as real) < 0.5 || (Abs(F - M as real) == 0.5 && M % 2 == 0) {
      RoundHalfEvenUnique(F, M);
      InsideWindow(F, M);
      Round53InWindow(x, F, e);
      RenormaliseIs(M, e);
    }
    if Round53(x) == t {
      NoFurther(x, F, M, if F > M as real then M + 1 else M - 1, e, t);
    }
  }

  lemma InsideWindow(F: real, M: int)
    requires TWO52 <= M < TWO53 && Abs(F - M as real) <= 0.5 && (M == TWO52 ==> F >= M as real)
    ensures TWO52 as real <= F < TWO53 as real
  {}

  lemma NoFurther(x: real, F: real, M: int, m: int, e: int, t: Float)
    requires x > 0.0 && x == F * RPow(2.0, e) && t == Float(M, e) && Round53(x) == t
    requires TWO52 <= M < TWO53 && TWO52 <= m <= TWO53
    requires (m == M + 1 && F > M as real) || (m == M - 1 && F < M as real)
    ensures Abs(F - M as real) < 0.5 || (Abs(F - M as real) == 0.5 && M % 2 == 0)
  {
    hide *;
    RenormaliseValue(m, e);
    FloatValue(t);
    NearerThan(x, t, Renormalise(m, e));
    BesideNeighbour(x, F, M as real, m as real, RPow(2.0, e), t.Value(), Renormalise(m, e).Value());
  }

  lemma Unscaled(x: real, F: real, p: real, q: real)
    requires F == x * p && q * p == 1.0
    ensures x == F * q
  {}

  lemma NearerThan(x: real, g: Float, h: Float)
    requires x > 0.0 && g == Round53(x) && h.Normal()
    ensures Abs(x - g.Value()) <= Abs(x - h.Value())
    ensures Abs(x - g.Value()) == Abs(x - h.Value()) && h.Value() != g.Value() ==> g.mant % 2 == 0
  {}

  lemma BesideNeighbour(x: real, F: real, M: real, m: real, q: real, t: real, h: real)
    requires q > 0.0 && x == F * q && t == M * q && h == m * q && ((m == M + 1.0 && F > M) || (m == M - 1.0 && F < M))
    requires Abs(x - t) <= Abs(x - h)
    ensures h != t && Abs(F - M) <= 0.5 && (Abs(F - M) == 0.5 ==> Abs(x - t) == Abs(x - h))
  {
    var a, b := F - M, F - m;
    assert x - t == a * q && x - h == b * q;
    AbsScaled(a, q, x - t);
    AbsScaled(b, q, x - h);
    ScaleSign(Abs(b) - Abs(a), q, Abs(b) * q - Abs(a) * q);
    ScaleSign(m - M, q, h - t);
  }

  lemma AbsScaled(a: real, q: real, b: real)
    requires q > 0.0 && b == a * q
    ensures Abs(b) == Abs(a) * q
  {
    ScaleSign(a, q, b);
  }

  // ---- the three ranges of the result ----

  // A finite datum is a whole number of units 2^-1074.
  lemma OnGrid(d: Double) returns (n: nat)
    requires d.Finite()
    ensures d.Magnitude() == n as real * RPow(2.0, -1074)
  {
    hide RPow, Pow;
    var s := d.Exponent() + 1074;
    n := d.Mantissa() * Pow(2, s);
    ScaledPower(d.Mantissa(), s, d.Exponent());
    assert d.Exponent() - s == -1074;
  }

  // And its magnitude is a float unless it is zero.
  lemma DatumFloat(d: Double) returns (f: Float)
    requires d.Finite() && !d.Zero()
    ensures f.Normal() && f.Value() == d.Magnitude()
  {
    hide RPow, Pow, BitLength;
    f := Representable(d.Mantissa(), d.Exponent());
  }

  lemma NearerThanZero(x: real)
    requires x > 0.0
    ensures Abs(x - Round53(x).Value()) < x
  {
    hide RPow, Round53, Float.Value;
    var g := Round53(x);
    var h := Float(TWO52, g.exp - 1);
    NearerThan(x, g, h);
    RPowStep(2.0, g.exp);
    FloatValue(g);
    FloatValue(h);
    HalfAtMost(g.mant as real, RPow(2.0, g.exp - 1), g.Value());
  }

  lemma HalfAtMost(m: real, p: real, v: real)
    requires m >= TWO52 as real && p > 0.0 && v == m * (2.0 * p)
    ensures 0.0 < TWO52 as real * p < v
  {
    assert (m - TWO52 as real) * p >= 0.0;
    assert v == 2.0 * (m * p);
  }

  lemma NormalIsNearest(x: real)
    requires x > 0.0 && -1074 <= Round53(x).exp < 972
    ensures IsNearestDatum(x, Ldexp(false, Round53(x)))
  {
    hide RPow, Pow, Round53, Float.Value, RoundHalfEven;
    var g := Round53(x);
    var d := Ldexp(false, g);
    FloatValue(g);
    forall h: Double | h.Finite() && !h.neg
      ensures NoNearer(x, d, h)
    {
      if h.Zero() {
        NearerThanZero(x);
        ZeroMagnitude(h);
      } else {
        var f := DatumFloat(h);
        NearerThan(x, g, f);
      }
    }
  }

  lemma ZeroMagnitude(h: Double)
    requires h.Zero()
    ensures h.Magnitude() == 0.0
  {}

  lemma SubnormalIs(r: int)
    requires 0 <= r <= TWO52
    ensures var d := SubnormalResult(false, r);
            d.Finite() && !d.neg && d.Mantissa() == r && d.Magnitude() == r as real * RPow(2.0, -1074)
  {
    hide RPow;
  }

  // Below 2^-1022 the nearest datum is the nearest number of units.
  lemma GridNearest(x: real, Y: real, r: int)
    requires Y == x * RPow(2.0, 1074) && 0.0 <= Y <= TWO52 as real && 0 <= r <= TWO52
    ensures IsNearestDatum(x, SubnormalResult(false, r)) <==> r == RoundHalfEven(Y)
  {
    hide RPow, IsNearestDatum, NoNearer, SubnormalResult, Double.Magnitude, Double.Mantissa, Double.Exponent, RoundHalfEven;
    Scales();
    var p := RPow(2.0, -1074);
    Unscaled(x, Y, RPow(2.0, 1074), p);
    var d := SubnormalResult(false, r);
    SubnormalIs(r);
    var q := RoundHalfEven(Y);
    if r == q {
      forall h: Double | h.Finite() && !h.neg
        ensures NoNearer(x, d, h)
      {
        var n := OnGrid(h);
        CompareScaled(x, Y, r as real, n as real, p, d.Magnitude(), h.Magnitude());
        RoundHalfEvenIsNearest(Y, n);
        NoNearerIs(x, d, h);
      }
      NearestIs(x, d);
    } else if IsNearestDatum(x, d) {
      RoundedRange(Y);
      var h := SubnormalResult(false, q);
      SubnormalIs(q);
      NoNearerThan(x, d, h);
      CompareScaled(x, Y, r as real, q as real, p, d.Magnitude(), h.Magnitude());
      RoundHalfEvenIsNearest(Y, r);
      NoNearerIs(x, d, h);
    }
  }

  lemma RoundedRange(Y: real)
    requires 0.0 <= Y <= TWO52 as real
    ensures 0 <= RoundHalfEven(Y) <= TWO52
  {}

  lemma NoNearerIs(x: real, d: Double, h: Double)
    ensures NoNearer(x, d, h) <==>
            && Abs(x - d.Magnitude()) <= Abs(x - h.Magnitude())
            && (Abs(x - d.Magnitude()) == Abs(x - h.Magnitude()) && h.Magnitude() != d.Magnitude() ==> d.Mantissa() % 2 == 0)
  {
    hide RPow;
  }

  lemma NearestIs(x: real, d: Double)
    requires d.Finite() && !d.neg
    requires forall h: Double :: h.Finite() && !h.neg ==> NoNearer(x, d, h)
    ensures IsNearestDatum(x, d)
  {
    hide NoNearer;
  }

  lemma NoNearerThan(x: real, d: Double, h: Double)
    requires IsNearestDatum(x, d) && h.Finite() && !h.neg
    ensures NoNearer(x, d, h)
  {
    hide NoNearer;
  }

  // The exponent of a float against the least normal one.
  lemma UnitsBelow(g: Float) returns (y: real)
    requires g.Normal()
    ensures y == g.mant as real * RPow(2.0, g.exp + 1074) && g.Value() * RPow(2.0, 1075) == 2.0 * y
    ensures y < TWO52 as real <==> g.exp < -1074
  {
    hide RPow, Float.Value;
    y := g.mant as real * RPow(2.0, g.exp + 1074);
    FloatValue(g);
    Scales();
    RPowAdd(2.0, g.exp, 1074);
    Regrouped(g.mant as real, RPow(2.0, g.exp), RPow(2.0, 1074), RPow(2.0, g.exp + 1074), RPow(2.0, 1075));
    if g.exp < -1074 {
      FinerMultiple(g.mant, g.exp + 1074, y);
    } else {
      RPowZero(2.0);
      RPowMono(2.0, 0, g.exp + 1074);
      ScaleLe(g.mant as real, 1.0, RPow(2.0, g.exp + 1074));
    }
  }

  lemma Regrouped(m: real, p: real, q: real, pq: real, q2: real)
    requires pq == p * q && q2 == 2.0 * q
    ensures m * p * q2 == 2.0 * (m * pq)
  {
    assert m * p * q2 == 2.0 * (m * p * q);
  }

  lemma SubnormalExactly(x: real, X: real, Z: real)
    requires x > 0.0 && Round53(x).exp < -1074
    requires X == x * RPow(2.0, 1075) && Z == Round53(x).Value() * RPow(2.0, 1075)
    ensures X > 0.0 && 0.0 < Z < TWO53 as real
    ensures IsNearestDatum(x, Ldexp(false, Round53(x))) <==> RoundHalfEven(Z / 2.0) == RoundHalfEven(X / 2.0)
  {
    hide RPow, IsNearestDatum, Round53, Float.Value, Ldexp, SubnormalResult, RoundHalfEven;
    var g := Round53(x);
    var y := UnitsBelow(g);
    SubnormalLdexpIs(g, y);
    ScaleLt(RPow(2.0, g.exp + 1074), 0.0, g.mant as real);
    ScaleLt(RPow(2.0, 1075), 0.0, x);
    Uncrossed(x, TWO53);
    Scales();
    Halved(x, RPow(2.0, 1074), RPow(2.0, 1075));
    RoundedRange(y);
    GridNearest(x, X / 2.0, RoundHalfEven(y));
    assert Z / 2.0 == y;
  }

  lemma Halved(x: real, p: real, p2: real)
    requires p2 == 2.0 * p
    ensures x * p2 / 2.0 == x * p
  {}

  lemma SubnormalLdexpIs(g: Float, y: real)
    requires g.Normal() && g.exp < -1074 && y == g.mant as real * RPow(2.0, g.exp + 1074)
    ensures Ldexp(false, g) == SubnormalResult(false, RoundHalfEven(y))
  {
    hide RPow, Pow, RoundHalfEven;
    RenormaliseIs(g.mant, g.exp);
    SecondRounding(g, g.mant, g.exp, y);
    assert 1 - (g.exp + 1075) == -1074 - g.exp;
  }

  lemma OverflowsExactly(g: Float)
    requires g.Normal()
    ensures g.Value() >= RPow(2.0, 1024) <==> g.exp >= 972
  {
    hide RPow, Float.Value;
    PowerValue(972);
    if g.Value() >= RPow(2.0, 1024) { LargeExponent(g, 972); }
    if g.exp >= 972 {
      FloatValue(g);
      FloatValue(Float(TWO52, 972));
      RPowMono(2.0, 972, g.exp);
      ProductMono(TWO52 as real, g.mant as real, RPow(2.0, 972), RPow(2.0, g.exp));
    }
  }

  // ---- the exact condition ----

  // A slip shows in the first rounding, which ends on the tie.
  lemma SlipShows(x: real, k: nat)
    requires x > 0.0 && SlipsAt(x, k)
    ensures k % 2 == 1 && WrongSide(x * RPow(2.0, 1075), k)
    ensures Round53(x).Value() * RPow(2.0, 1075) == k as real && Round53(x).exp < -1074
  {
    hide RPow, Round53, Float.Value, SlipsAt, WrongSide, WithinHalfUnit;
    SlipsAtIs(x, k, x * RPow(2.0, 1075));
    LandsExactly(x, k);
    var y := UnitsBelow(Round53(x));
  }

  // ldexp of the nearest 53-bit float is what a single rounding gives if and
  // only if the value lies on no such side of a tie.
  lemma CorrectExactly(x: real)
    requires x > 0.0
    ensures IsCorrect(x, Ldexp(false, Round53(x))) <==> !Slips(x)
  {
    hide RPow, Round53, Float.Value, Ldexp, IsNearestDatum, SlipsAt, RoundHalfEven;
    var g := Round53(x);
    OverflowsExactly(g);
    if g.exp >= 972 {
      LdexpHuge(false, g);
    } else if g.exp >= -1074 {
      NormalIsNearest(x);
    } else {
      var X, Z := x * RPow(2.0, 1075), g.Value() * RPow(2.0, 1075);
      SubnormalExactly(x, X, Z);
      TwoRoundings(x, X, Z);
      TiesAreSlips(x);
    }
    NoSlip(x);
  }

  lemma NoSlip(x: real)
    requires x > 0.0
    ensures Slips(x) ==> Round53(x).exp < -1074
  {
    hide *;
    if Slips(x) {
      var k := SlipWitness(x);
      SlipShows(x, k);
    }
  }

  lemma SlipWitness(x: real) returns (k: nat)
    requires Slips(x)
    ensures SlipsAt(x, k)
  {
    hide SlipsAt;
    k :| SlipsAt(x, k);
  }

  lemma TiesAreSlips(x: real)
    requires x > 0.0 && 0.0 < Round53(x).Value() * RPow(2.0, 1075) < TWO53 as real
    ensures Slips(x) <==>
            exists k: nat :: k % 2 == 1 && Round53(x).Value() * RPow(2.0, 1075) == k as real && WrongSide(x * RPow(2.0, 1075), k)
  {
    hide RPow, Round53, Float.Value, SlipsAt, WrongSide;
    if Slips(x) {
      var k := SlipWitness(x);
      SlipShows(x, k);
    }
    if k: nat :| k % 2 == 1 && Round53(x).Value() * RPow(2.0, 1075) == k as real && WrongSide(x * RPow(2.0, 1075), k) {
      LandsExactly(x, k);
    }
  }

  // No value from 2^-1022 up is affected.
  lemma NormalsAreCorrect(x: real)
    requires x >= RPow(2.0, -1022)
    ensures x > 0.0 && IsCorrect(x, Ldexp(false, Round53(x)))
  {
    hide *;
    PowerValue(-1074);
    RoundsBeside(x, Float(TWO52, -1074));
    LargeExponent(Round53(x), -1074);
    NoSlip(x);
    CorrectExactly(x);
  }

  // Nor is any integer.
  lemma IntegersAreCorrect(n: nat)
    requires n > 0
    ensures n as real > 0.0 && IsCorrect(n as real, Ldexp(false, Round53(n as real)))
  {
    hide *;
    RPowMono(2.0, -1022, 0);
    RPowZero(2.0);
    NormalsAreCorrect(n as real);
  }

  // ---- the texts ----

  predicate IsZeroLiteral(l: Literal) { l.number.NoMantissa? || l.number.sig == 0 }

  // The datum a reader that rounds once gives a literal.
  ghost predicate CorrectlyRead(l: Literal, d: Double) {
    if IsZeroLiteral(l) then d == Double(l.neg, 0, 0)
    else
      DenotedPositive(l.number);
      d.neg == l.neg && IsCorrect(Denoted(l.number), d.(neg := false))
  }

  // Every text is read correctly if and only if its decimal does not slip.
  lemma MeaningCorrectExactly(l: Literal)
    ensures CorrectlyRead(l, Meaning(l)) <==> IsZeroLiteral(l) || !Slips(Denoted(l.number))
  {
    hide Denoted, Slips, IsCorrect, Round53, Ldexp, Meaning;
    MeaningCases(l);
    if !IsZeroLiteral(l) {
      var x := Denoted(l.number);
      CorrectExactly(x);
      LdexpSign(Round53(x));
      LdexpNeg(false, Round53(x));
    }
  }

  // ---- a text that is read wrong ----

  const SLIPPING := "2.4703282292062328e-324"
  const SLIPPING_DIGITS := "24703282292062328"
  const SLIPPING_SIG: nat := 24703282292062328

  lemma OneDigit(t: string, c: char)
    ensures Numeral(t + [c]) == 10 * Numeral(t) + DigitValue(c)
  {
    assert (t + [c])[..|t|] == t;
  }

  lemma FourDigits(t: string, n: int, a: char, b: char, c: char, d: char, m: int)
    requires Numeral(t) == n
    requires m == 10000 * n + 1000 * DigitValue(a) + 100 * DigitValue(b) + 10 * DigitValue(c) + DigitValue(d)
    ensures Numeral(t + [a, b, c, d]) == m
  {
    hide Numeral;
    OneDigit(t, a);
    OneDigit(t + [a], b);
    OneDigit(t + [a] + [b], c);
    OneDigit(t + [a] + [b] + [c], d);
    assert t + [a, b, c, d] == t + [a] + [b] + [c] + [d];
  }

  lemma SlippingNumeral()
    ensures Numeral(SLIPPING_DIGITS) == SLIPPING_SIG
  {
    hide Numeral;
    NumeralEmpty();
    FourDigits("", 0, '2', '4', '7', '0', 2470);
    var t := "" + ['2', '4', '7', '0'];
    FourDigits(t, 2470, '3', '2', '8', '2', 24703282);
    var t2 := t + ['3', '2', '8', '2'];
    FourDigits(t2, 24703282, '2', '9', '2', '0', 247032822920);
    var t3 := t2 + ['2', '9', '2', '0'];
    FourDigits(t3, 247032822920, '6', '2', '3', '2', 2470328229206232);
    var t4 := t3 + ['6', '2', '3', '2'];
    OneDigit(t4, '8');
    assert SLIPPING_DIGITS == t4 + ['8'];
  }

  lemma SlippingRead()
    ensures Read(SLIPPING) == Literal(false, Scanned(|SLIPPING|, SLIPPING_SIG, -340))
  {
    hide *;
    SlippingNumeral();
    SlippingText();
    ScanScientific(SLIPPING_DIGITS, -323);
    ReadPlain(SLIPPING);
  }

  lemma SlippingText()
    ensures SLIPPING != "" && IsDigit(SLIPPING[0]) && AllDigits(SLIPPING_DIGITS) && |SLIPPING_DIGITS| == 17
    ensures !Plain(-323) && Placed(SLIPPING_DIGITS, -323) == SLIPPING && Clamp(-324) == -324
  {
    hide Placed, IntText, NatText;
    var frac := "4703282292062328";
    assert SLIPPING_DIGITS == "2" + frac;
    PlacedLong('2', frac, -323);
    Text324();
    assert SLIPPING == "2" + "." + frac + "e" + "-324";
  }

  lemma PlacedLong(c: char, frac: string, k: int)
    requires !Plain(k) && frac != ""
    ensures Placed([c] + frac, k) == [c] + "." + frac + "e" + IntText(k - 1)
  {
    var ds := [c] + frac;
    assert ds[..1] == [c] && ds[1..] == frac;
    assert [c] + ("." + frac) == [c] + "." + frac;
  }

  lemma Text324()
    ensures IntText(-324) == "-324"
  {
    assert NatText(3) == "3";
    assert NatText(32) == "32";
    assert NatText(324) == "324";
  }

  const FIVE_TO_20: nat := 95367431640625
  const FIVE_TO_40: nat := 9094947017729282379150390625
  const FIVE_TO_80: nat := 82718061255302767487140869206996285356581211090087890625
  const FIVE_TO_160: nat := 6842277657836020854119773355907793609766904013068924666782559979930620520927053718196475529111921787261962890625
  const FIVE_TO_320: nat := 46816763546921983271558494138586765699150233387941833163371554538603832766739996494866350975392646334430537906314200196391753374199149312046122692338075289270907454151724452290906351194232914991744110011495649814605712890625
  const FIVE_TO_340: nat := 4464794497196386649280404485567738122859023417276557270371585325107939984010696076857218835391296990817121306067867297782111489696421557621586102708632973601427789130375333050814280623839656352209483147763791066608973778784275054931640625

  const TWO_TO_45: nat := 0x200000000000
  const TWO_TO_90: nat := 0x40000000000000000000000
  const TWO_TO_180: nat := 0x1000000000000000000000000000000000000000000000
  const TWO_TO_360: nat := 0x1000000000000000000000000000000000000000000000000000000000000000000000000000000000000000000
  const TWO_TO_720: nat := 0x1000000000000000000000000000000000000000000000000000000000000000000000000000000000000000000000000000000000000000000000000000000000000000000000000000000000000000000000000000000000000
  const TWO_TO_735: nat := 0x8000000000000000000000000000000000000000000000000000000000000000000000000000000000000000000000000000000000000000000000000000000000000000000000000000000000000000000000000000000000000000

  lemma PowersOfFive()
    ensures Pow(5, 340) == FIVE_TO_340
  {
    assert Pow(5, 10) == 9765625;
    hide Pow;
    PowProduct(5, 10, 10, 9765625, 9765625, FIVE_TO_20);
    PowProduct(5, 20, 20, FIVE_TO_20, FIVE_TO_20, FIVE_TO_40);
    PowProduct(5, 40, 40, FIVE_TO_40, FIVE_TO_40, FIVE_TO_80);
    PowProduct(5, 80, 80, FIVE_TO_80, FIVE_TO_80, FIVE_TO_160);
    PowProduct(5, 160, 160, FIVE_TO_160, FIVE_TO_160, FIVE_TO_320);
    PowProduct(5, 320, 20, FIVE_TO_320, FIVE_TO_20, FIVE_TO_340);
  }

  lemma PowersOfTwo()
    ensures Pow(2, 735) == TWO_TO_735
  {
    assert Pow(2, 5) == 32;
    hide Pow;
    PowProduct(2, 5, 5, 32, 32, 1024);
    PowProduct(2, 10, 5, 1024, 32, 0x8000);
    PowProduct(2, 15, 15, 0x8000, 0x8000, 0x4000_0000);
    PowProduct(2, 30, 15, 0x4000_0000, 0x8000, TWO_TO_45);
    PowProduct(2, 45, 45, TWO_TO_45, TWO_TO_45, TWO_TO_90);
    PowProduct(2, 90, 90, TWO_TO_90, TWO_TO_90, TWO_TO_180);
    PowProduct(2, 180, 180, TWO_TO_180, TWO_TO_180, TWO_TO_360);
    PowProduct(2, 360, 360, TWO_TO_360, TWO_TO_360, TWO_TO_720);
    PowProduct(2, 720, 15, TWO_TO_720, 0x8000, TWO_TO_735);
  }

  lemma PowProduct(b: nat, m: nat, n: nat, p: nat, q: nat, pq: nat)
    requires Pow(b, m) == p && Pow(b, n) == q && pq == p * q
    ensures Pow(b, m + n) == pq
  {
    hide Pow;
    PowAdd(b, m, n);
  }

  lemma JustAboveTie()
    ensures FIVE_TO_340 < SLIPPING_SIG * TWO_TO_735
    ensures (SLIPPING_SIG * TWO_TO_735 - FIVE_TO_340) * TWO53 < FIVE_TO_340
  {}

  // x = SLIPPING_SIG / 10^340 lies just above 2^-1075.
  lemma SlippingValue(x: real, X: real)
    requires x == SLIPPING_SIG as real * RPow(10.0, -340) && X == x * RPow(2.0, 1075)
    ensures X > 1.0 && (X - 1.0) * TWO53 as real < 1.0
  {
    hide RPow, Pow;
    PowersOfFive();
    PowersOfTwo();
    JustAboveTie();
    RPowOfNat(5, 340);
    RPowOfNat(2, 735);
    RPowProduct(2.0, 5.0, -340);
    RPowInverse(5.0, 340);
    RPowAdd(2.0, -340, 1075);
    var N, P, Q := SLIPPING_SIG as real, FIVE_TO_340 as real, TWO_TO_735 as real;
    assert X * P == N * Q by {
      TensCancel(x, X, N, RPow(10.0, -340), RPow(2.0, -340), RPow(5.0, -340), P, RPow(2.0, 1075), Q);
    }
    CastProduct(SLIPPING_SIG, TWO_TO_735);
    CastProduct(SLIPPING_SIG * TWO_TO_735 - FIVE_TO_340, TWO53);
    JustAbove(X, P, N * Q, TWO53 as real);
  }

  lemma TensCancel(x: real, X: real, N: real, ten: real, two: real, five: real, P: real, U: real, Q: real)
    requires x == N * ten && X == x * U && ten == two * five && five * P == 1.0 && Q == two * U
    ensures X * P == N * Q
  {
    assert X * P == N * (two * U) * (five * P);
  }

  lemma JustAbove(X: real, P: real, NQ: real, c: real)
    requires P > 0.0 && X * P == NQ && NQ > P && (NQ - P) * c < P
    ensures X > 1.0 && (X - 1.0) * c < 1.0
  {
    ScaleSign(X - 1.0, P, NQ - P);
    var d := 1.0 - (X - 1.0) * c;
    assert d * P == P - (NQ - P) * c;
    ScaleSign(d, P, d * P);
  }

  lemma SlippingSlips(x: real, X: real)
    requires x > 0.0 && X == x * RPow(2.0, 1075) && X > 1.0 && (X - 1.0) * TWO53 as real < 1.0
    ensures SlipsAt(x, 1) && RoundHalfEven(X / 2.0) == 1
  {
    hide RPow, Pow;
    RPowInverse(2.0, 53);
    RPowOfNat(2, 53);
    Pow52();
    assert BitLength(1) == 1;
    BelowReciprocal(X - 1.0, TWO53 as real, RPow(2.0, -53));
    SlipsAtIs(x, 1, X);
  }

  lemma BelowReciprocal(a: real, c: real, r: real)
    requires c > 0.0 && r > 0.0 && r * c == 1.0 && a * c < 1.0
    ensures a < r
  {
    ScaleSign(r - a, c, 1.0 - a * c);
  }

  lemma SlippingZero(g: Float)
    requires g.Normal() && g.Value() * RPow(2.0, 1075) == 1.0
    ensures Ldexp(false, g) == Double(false, 0, 0)
  {
    hide RPow, Pow, Float.Value, Ldexp;
    var y := UnitsBelow(g);
    SubnormalLdexpIs(g, y);
    RoundHalfEvenUnique(y, 0);
  }

  lemma SlippingNearest(x: real, X: real)
    requires x > 0.0 && X == x * RPow(2.0, 1075) && 0.0 <= X / 2.0 <= TWO52 as real && RoundHalfEven(X / 2.0) == 1
    requires Round53(x).exp < -1074
    ensures IsCorrect(x, Double(false, 0, 1))
  {
    hide RPow, Round53, Float.Value, RoundHalfEven, IsNearestDatum;
    Scales();
    Halved(x, RPow(2.0, 1074), RPow(2.0, 1075));
    GridNearest(x, X / 2.0, 1);
    OverflowsExactly(Round53(x));
  }

  lemma SlippingRounds(x: real)
    requires x > 0.0 && x == SLIPPING_SIG as real * RPow(10.0, -340)
    ensures Ldexp(false, Round53(x)) == Double(false, 0, 0)
    ensures IsCorrect(x, Double(false, 0, 1)) && Slips(x)
  {
    hide RPow, Round53, Float.Value, Ldexp, IsCorrect, SlipsAt, RoundHalfEven, WrongSide;
    var X := x * RPow(2.0, 1075);
    SlippingValue(x, X);
    SlippingSlips(x, X);
    SlipShows(x, 1);
    SlippingZero(Round53(x));
    SlippingNearest(x, X);
  }

  // The text lies above the tie at 2^-1075 by less than its first rounding
  // can tell: it is read as zero, and the nearest datum is 2^-1074.
  lemma FailingText()
    ensures var l := Read(SLIPPING);
            && !IsZeroLiteral(l) && Meaning(l) == Double(false, 0, 0) && !CorrectlyRead(l, Meaning(l))
            && CorrectlyRead(l, Double(false, 0, 1))
  {
    hide *;
    SlippingRead();
    FailingLiteral(Literal(false, Scanned(|SLIPPING|, SLIPPING_SIG, -340)));
  }

  lemma FailingLiteral(l: Literal)
    requires l == Literal(false, Scanned(|SLIPPING|, SLIPPING_SIG, -340))
    ensures !IsZeroLiteral(l) && Meaning(l) == Double(false, 0, 0) && !CorrectlyRead(l, Meaning(l))
    ensures CorrectlyRead(l, Double(false, 0, 1))
  {
    hide RPow, Round53, Ldexp, IsCorrect, Slips, Meaning;
    var x := Denoted(l.number);
    MeaningCases(l);
    SlippingRounds(x);
    MeaningCorrectExactly(l);
  }
}
