// The exact printer of numeric.c: probing 1 to 17 significant digits for a
// text that reads back as the same datum, and the proof that it finds one.
module DoublePrinter {
  import opened Powers
  import opened Rounding
  import opened Decimal
  import opened Layout
  import opened DoubleParser
  import opened DoubleTables

  const TWO54: int := 0x40_0000_0000_0000

  // ---- decimals close enough to a datum read back as it ----

  // x is within 2^-54 of X, relatively.
  ghost predicate Close(x: real, X: real) {
    Abs(x - X) * TWO54 as real < X
  }

  lemma CloseScaled(x: real, X: real, m: real, p: real, F: real)
    requires p > 0.0 && X == m * p && x == F * p && Close(x, X)
    ensures Abs(F - m) * TWO54 as real < m
  {
    DistanceOnScale(x, F, m, p, X);
    ScaledComparison(Abs(F - m), TWO54 as real, m, p, Abs(x - X));
  }

  lemma ScaledComparison(a: real, c: real, m: real, p: real, ap: real)
    requires p > 0.0 && ap == a * p && ap * c < m * p
    ensures a * c < m
  {
    var t := m - a * c;
    assert t * p == m * p - ap * c;
    assert t <= 0.0 ==> t * p <= 0.0;
  }

  // The window of a normal significand, and the one below at a power of two.
  lemma NormalRoundsBack(x: real, m: int, e: int, X: real)
    requires TWO52 <= m < TWO53 && x > 0.0 && X == m as real * RPow(2.0, e) && Close(x, X)
    ensures Round53(x) == Float(m, e)
  {
    hide *;
    var p := RPow(2.0, e);
    var F := x / p;
    assert x == F * p;
    CloseScaled(x, X, m as real, p, F);
    if F >= TWO52 as real {
      AboveWindow(F, m);
      Round53InWindow(x, F, e);
      RenormaliseIs(m, e);
    } else {
      BelowWindow(F, m);
      RPowStep(2.0, e);
      HalfScale(x, F, p, RPow(2.0, e - 1));
      Round53InWindow(x, 2.0 * F, e - 1);
      RenormaliseIs(TWO53, e - 1);
    }
  }

  lemma RenormaliseIs(m: int, k: int)
    ensures m < TWO53 ==> Renormalise(m, k) == Float(m, k)
    ensures m == TWO53 ==> Renormalise(m, k) == Float(TWO52, k + 1)
  {}

  lemma AboveWindow(F: real, m: int)
    requires TWO52 <= m < TWO53 && F >= TWO52 as real && Abs(F - m as real) * TWO54 as real < m as real
    ensures F < TWO53 as real && RoundHalfEven(F) == m
  {
    RoundHalfEvenUnique(F, m);
  }

  lemma BelowWindow(F: real, m: int)
    requires TWO52 <= m < TWO53 && F < TWO52 as real && Abs(F - m as real) * TWO54 as real < m as real
    ensures m == TWO52 && TWO52 as real <= 2.0 * F < TWO53 as real && RoundHalfEven(2.0 * F) == TWO53
  {
    RoundHalfEvenUnique(2.0 * F, TWO53);
  }

  lemma HalfScale(x: real, F: real, p: real, q: real)
    requires x == F * p && p == 2.0 * q
    ensures x == 2.0 * F * q
  {}

  // A subnormal: the second rounding of ldexp still lands on it.
  lemma SubnormalRoundsBack(x: real, r: int, X: real)
    requires 0 < r < TWO52 && x > 0.0 && X == r as real * RPow(2.0, -1074) && Close(x, X)
    ensures Ldexp(false, Round53(x)) == Double(false, 0, r)
  {
    hide *;
    var p := RPow(2.0, -1074);
    var F := x / p;
    assert x == F * p;
    CloseScaled(x, X, r as real, p, F);
    var f, k := WindowExists(x);
    Round53InWindow(x, f, k);
    var s := RPow(2.0, k + 1074);
    assert F == f * s by {
      RPowAdd(2.0, k + 1074, -1074);
      assert k + 1074 + -1074 == k;
      SameScale(x, F, f, p, s, RPow(2.0, k));
    }
    SubnormalScale(F, r, f, s, k);
    SubnormalCarry(F, r, f, k);
    SubnormalLdexp(f, k, F, r);
  }

  lemma SameScale(x: real, F: real, f: real, p: real, s: real, q: real)
    requires p > 0.0 && x == F * p && x == f * q && q == s * p
    ensures F == f * s
  {
    assert p * F == p * (f * s);
    CancelLeft(p, F, f * s);
  }

  lemma SubnormalScale(F: real, r: int, f: real, s: real, k: int)
    requires 0 < r < TWO52 && Abs(F - r as real) * TWO54 as real < r as real
    requires f >= TWO52 as real && F == f * s && s == RPow(2.0, k + 1074)
    ensures k <= -1075
  {
    hide RPow;
    if k > -1075 {
      RPowMono(2.0, 0, k + 1074);
      RPowZero(2.0);
      ScaleLe(f, 1.0, s);
    }
  }

  lemma SubnormalCarry(F: real, r: int, f: real, k: int)
    requires 0 < r < TWO52 && Abs(F - r as real) * TWO54 as real < r as real
    requires TWO52 as real <= f < TWO53 as real && F == f * RPow(2.0, k + 1074) && k <= -1075
    ensures k == -1075 ==> RoundHalfEven(f) < TWO53
  {
    if k == -1075 {
      RPowMinusOne();
      assert F == 0.5 * f;
    }
  }

  lemma SubnormalLdexp(f: real, k: int, F: real, r: int)
    requires 0 < r < TWO52 && Abs(F - r as real) * TWO54 as real < r as real
    requires TWO52 as real <= f < TWO53 as real && F == f * RPow(2.0, k + 1074) && k <= -1075
    requires k == -1075 ==> RoundHalfEven(f) < TWO53
    ensures Ldexp(false, Renormalise(RoundHalfEven(f), k)) == Double(false, 0, r)
  {
    hide *;
    var m := RoundHalfEven(f);
    var g := Renormalise(m, k);
    WindowInteger(f);
    RenormaliseIs(m, k);
    var s := RPow(2.0, k + 1074);
    var y := m as real * s;
    SecondRounding(g, m, k, y);
    RPowMono(2.0, k + 1074, -1);
    RPowMinusOne();
    RoundHalfEvenIsNearest(f, m);
    StillClose(F, r, f, m as real, s, y);
    RoundHalfEvenUnique(y, r);
    LdexpBelow(g, r, y);
  }

  lemma StillClose(F: real, r: int, f: real, m: real, s: real, ms: real)
    requires 0 < r < TWO52 && Abs(F - r as real) * TWO54 as real < r as real
    requires 0.0 < s <= 0.5 && F == f * s && ms == m * s && Abs(f - m) <= 0.5
    ensures Abs(ms - r as real) < 0.5
  {
    DistanceOnScale(F, f, m, s, ms);
    assert Abs(f - m) * s <= 0.25 by { QuarterBound(Abs(f - m), s); }
  }

  lemma QuarterBound(a: real, s: real)
    requires 0.0 <= a <= 0.5 && 0.0 < s <= 0.5
    ensures a * s <= 0.25
  {
    ScaleLe(s, 0.0, 0.5 - a);
    assert (0.5 - a) * s == 0.5 * s - a * s;
  }

  // What ldexp rounds is the value in units of 2^-1074.
  lemma SecondRounding(g: Float, m: int, k: int, y: real)
    requires TWO52 <= m <= TWO53 && g == Renormalise(m, k) && g.exp + 1075 < 1
    requires y == m as real * RPow(2.0, k + 1074)
    ensures g.mant as real / Pow(2, -1074 - g.exp) as real == y
  {
    hide RPow, Pow;
    var n := -1074 - g.exp;
    RPowOfNat(2, n);
    RPowInverse(2.0, n);
    if m == TWO53 {
      RPowStep(2.0, k + 1 + 1074);
      assert k + 1 + 1074 - 1 == k + 1074 && -n == k + 1 + 1074;
    } else {
      assert -n == k + 1074;
    }
    DivideByReciprocal(g.mant as real, RPow(2.0, n), RPow(2.0, -n));
  }

  lemma DivideByReciprocal(a: real, p: real, q: real)
    requires p > 0.0 && q * p == 1.0
    ensures a / p == a * q
  {
    assert (a / p) * p == a;
    assert p * (a * q) == a;
    CancelLeft(p, a / p, a * q);
  }

  lemma LdexpBelow(g: Float, r: int, y: real)
    requires 0 < r < TWO52 && g.exp + 1075 < 1
    requires g.mant as real / Pow(2, -1074 - g.exp) as real == y && RoundHalfEven(y) == r
    ensures Ldexp(false, g) == Double(false, 0, r)
  {
    assert 1 - (g.exp + 1075) == -1074 - g.exp;
  }

  // Every finite positive datum is what any sufficiently close value rounds to.
  lemma CloseRoundsBack(v: Double, x: real)
    requires v.Finite() && !v.neg && !v.Zero() && x > 0.0 && Close(x, v.Magnitude())
    ensures Ldexp(false, Round53(x)) == v
  {
    hide RPow, Close, Round53, RoundHalfEven;
    if v.field == 0 {
      SubnormalRoundsBack(x, v.frac, v.Magnitude());
    } else {
      NormalRoundsBack(x, v.Mantissa(), v.Exponent(), v.Magnitude());
    }
  }

  // ---- digits ----

  // v scaled by 10^q10 and rounded to an integer.
  ghost function ScaledValue(v: Double, q10: int): real { v.Magnitude() * RPow(10.0, q10) }
  ghost function ScaledDigits(v: Double, q10: int): int { RoundHalfEven(ScaledValue(v, q10)) }

  // mant * 5^q as a fraction.
  lemma FivesFraction(mant: nat, q: int)
    ensures var num := if q >= 0 then mant * Pow(5, q) else mant;
            var den := if q >= 0 then 1 else Pow(5, -q);
            mant as real * RPow(5.0, q) * den as real == num as real
  {
    hide RPow, Pow;
    if q >= 0 {
      RPowOfNat(5, q);
      CastProduct(mant, Pow(5, q));
    } else {
      RPowOfNat(5, -q);
      RPowInverse(5.0, -q);
      FivesAlgebra(mant as real, RPow(5.0, q), RPow(5.0, -q));
    }
  }

  lemma FivesAlgebra(m: real, p: real, q: real)
    requires p * q == 1.0
    ensures m * p * q == m
  {
    assert m * p * q == m * (p * q);
  }

  // mant * 2^e2 * 10^q is (mant * 5^q) * 2^(e2 + q).
  lemma TensAsFivesAndTwos(m: real, e2: int, q: int)
    ensures m * RPow(2.0, e2) * RPow(10.0, q) == m * RPow(5.0, q) * RPow(2.0, e2 + q)
  {
    hide *;
    RPowProduct(5.0, 2.0, q);
    assert 5.0 * 2.0 == 10.0;
    RPowAdd(2.0, e2, q);
    TensAlgebra(m, RPow(2.0, e2), RPow(5.0, q), RPow(2.0, q), RPow(10.0, q), RPow(2.0, e2 + q));
  }

  lemma TensAlgebra(m: real, a: real, f: real, t: real, ten: real, at: real)
    requires ten == f * t && at == a * t
    ensures m * a * ten == m * f * at
  {}

  // The division that scales v by 10^q10, rounded half to even.
  method RoundedDigits(v: Double, q10: int) returns (N: int)
    requires v.Finite() && !v.Zero()
    ensures N == ScaledDigits(v, q10) && N >= 0
  {
    hide *;
    MantissaPositive(v);
    var mant, e2 := v.Mantissa(), v.Exponent();
    var num, den := mant, 1;
    if q10 >= 0 {
      num := mant * Pow(5, q10);
      NonZeroProduct(mant, Pow(5, q10));
    } else {
      den := Pow(5, -q10);
    }
    var n, d := num, den;
    var sh := e2 + q10;
    if sh >= 0 {
      n := num * Pow(2, sh);
    } else {
      d := den * Pow(2, -sh);
      PositiveProduct(den, Pow(2, -sh));
    }
    DigitsFraction(v, q10, num, den, n, d);
    N := DivideHalfEven(n, d, ScaledValue(v, q10));
    ScaledDigitsIs(v, q10);
  }

  method DivideHalfEven(n: nat, d: nat, ghost f: real) returns (N: int)
    requires d > 0 && f * d as real == n as real
    ensures N == RoundHalfEven(f) && N >= 0
  {
    hide *;
    QuotientRounds(n, d, f);
    var q, r := n / d, n % d;
    N := q;
    if 2 * r > d || (2 * r == d && q % 2 == 1) {
      N := q + 1;
    }
  }

  lemma MantissaPositive(v: Double)
    requires v.Finite() && !v.Zero()
    ensures v.Mantissa() > 0
  {}

  lemma ScaledDigitsIs(v: Double, q10: int)
    ensures ScaledDigits(v, q10) == RoundHalfEven(ScaledValue(v, q10))
  {}

  lemma DigitsFraction(v: Double, q10: int, num: nat, den: nat, n: nat, d: nat)
    requires v.Finite() && !v.Zero()
    requires num == if q10 >= 0 then v.Mantissa() * Pow(5, q10) else v.Mantissa()
    requires den == if q10 >= 0 then 1 else Pow(5, -q10)
    requires var E := v.Exponent() + q10;
             && n == (if E >= 0 then num * Pow(2, E) else num)
             && d == (if E >= 0 then den else den * Pow(2, -E))
    requires num > 0 && den > 0 && d > 0
    ensures ScaledValue(v, q10) * d as real == n as real
  {
    hide RPow, Pow, RoundHalfEven;
    var E := v.Exponent() + q10;
    var five := v.Mantissa() as real * RPow(5.0, q10);
    FivesFraction(v.Mantissa(), q10);
    TensAsFivesAndTwos(v.Mantissa() as real, v.Exponent(), q10);
    var f := ScaledValue(v, q10);
    ScaledFraction(five, num, den, E, f, n, d);
  }

  // ---- the candidate text ----

  function StripZeros(t: string): (ds: string)
    requires t != ""
    ensures ds != "" && ds <= t
  {
    if |t| > 1 && t[|t| - 1] == '0' then StripZeros(t[..|t| - 1]) else t
  }

  lemma {:induction false} StripZerosSplits(t: string)
    requires t != "" && AllDigits(t)
    ensures AllDigits(StripZeros(t)) && t == StripZeros(t) + Zeros(|t| - |StripZeros(t)|)
  {
    if |t| > 1 && t[|t| - 1] == '0' {
      StripZerosSplits(t[..|t| - 1]);
      assert t == t[..|t| - 1] + "0";
    }
  }

  // The text of N * 10^-q10.
  function CandidateText(N: nat, q10: int): string {
    var t := NatText(N);
    var ds := StripZeros(t);
    Placed(ds, |ds| + (|t| - |ds|) - q10)
  }

  lemma PlacedStartsWithDigit(ds: string, k: int)
    requires ds != "" && AllDigits(ds)
    ensures Placed(ds, k) != "" && IsDigit(Placed(ds, k)[0])
  {}

  lemma ReadPlain(s: string)
    requires s != "" && IsDigit(s[0])
    ensures Read(s) == Literal(false, Scan(s, 0))
  {}

  // The candidate reads back as exactly N * 10^-q10.
  lemma CandidateReads(N: nat, q10: int)
    requires N > 0 && -EXPONENT_CAP <= |NatText(N)| - q10 - 1 <= EXPONENT_CAP
    ensures var l := Read(CandidateText(N, q10));
            && !l.neg && l.number.Scanned? && l.number.sig > 0
            && Denoted(l.number) == N as real * RPow(10.0, -q10)
  {
    hide *;
    var t := NatText(N);
    var ds := StripZeros(t);
    var strip := |t| - |ds|;
    NatTextDenotes(N);
    StripZerosSplits(t);
    NumeralTrailingZeros(ds, strip);
    NumeralPositive(ds, Numeral(t), Pow(10, strip));
    var k := |ds| + strip - q10;
    PrintedReadsBack(ds, k);
    PlacedStartsWithDigit(ds, k);
    ReadPlain(Placed(ds, k));
    ShiftedNumeral(Numeral(ds), -q10, strip);
    assert -q10 + strip == k - |ds|;
    CandidateTextIs(N, q10, t, ds, k);
    SigPositive(Scan(Placed(ds, k), 0), N, q10);
  }

  lemma CandidateTextIs(N: nat, q10: int, t: string, ds: string, k: int)
    requires t == NatText(N) && ds == StripZeros(t) && k == |ds| + (|t| - |ds|) - q10
    ensures CandidateText(N, q10) == Placed(ds, k)
  {}

  // ---- what a candidate looks like ----

  // Digits without a leading zero, and without a trailing one unless alone.
  ghost predicate Significant(ds: string) {
    && ds != "" && (forall i :: 0 <= i < |ds| ==> '0' <= ds[i] <= '9')
    && ds[0] != '0' && (|ds| > 1 ==> ds[|ds| - 1] != '0')
  }

  // The significant digits of N * 10^-q10 in their layout.
  ghost predicate Shows(text: string, N: int, q10: int) {
    exists ds, k :: LaidOut(text, ds, k) && Significant(ds) && SameNumber(ds, k, N, q10)
  }

  ghost predicate SameNumber(ds: string, k: int, N: int, q10: int) {
    Numeral(ds) as real * RPow(10.0, k - |ds|) == N as real * RPow(10.0, -q10)
  }

  lemma {:induction false} StripZerosEnds(t: string)
    requires t != ""
    ensures var ds := StripZeros(t); ds[0] == t[0] && (|ds| > 1 ==> ds[|ds| - 1] != '0')
  {
    if |t| > 1 && t[|t| - 1] == '0' { StripZerosEnds(t[..|t| - 1]); }
  }

  lemma CandidateShown(N: nat, q10: int)
    requires N > 0
    ensures Shows(CandidateText(N, q10), N, q10)
  {
    hide *;
    var t := NatText(N);
    var ds := StripZeros(t);
    var strip := |t| - |ds|;
    var k := |ds| + strip - q10;
    NatTextDenotes(N);
    StripZerosSplits(t);
    SignificantDigits(N);
    NumeralTrailingZeros(ds, strip);
    ShiftedNumeral(Numeral(ds), -q10, strip);
    assert -q10 + strip == k - |ds|;
    CandidateTextIs(N, q10, t, ds, k);
    PlacedLaidOut(ds, k);
    ShowsBy(Placed(ds, k), ds, k, N, q10);
  }

  lemma SignificantDigits(N: nat)
    requires N > 0
    ensures Significant(StripZeros(NatText(N)))
  {
    hide NatText, StripZeros;
    StripZerosSplits(NatText(N));
    StripZerosEnds(NatText(N));
  }

  lemma ShowsBy(text: string, ds: string, k: int, N: int, q10: int)
    requires LaidOut(text, ds, k) && Significant(ds)
    requires Numeral(ds) as real * RPow(10.0, k - |ds|) == N as real * RPow(10.0, -q10)
    ensures Shows(text, N, q10)
  {
    hide LaidOut, Significant, Numeral, RPow;
    assert SameNumber(ds, k, N, q10);
  }

  lemma ShownDigits(text: string, N: int, q10: int) returns (ds: string, k: int)
    requires Shows(text, N, q10)
    ensures LaidOut(text, ds, k) && Significant(ds)
    ensures N as real * RPow(10.0, -q10) == Numeral(ds) as real * RPow(10.0, k - |ds|)
  {
    hide LaidOut, Significant, Numeral, RPow;
    ds, k :| LaidOut(text, ds, k) && Significant(ds) && SameNumber(ds, k, N, q10);
  }

  lemma {:induction false} NumeralRange(ds: string)
    requires ds != "" && ds[0] != '0' && forall i :: 0 <= i < |ds| ==> '0' <= ds[i] <= '9'
    ensures Pow(10, |ds| - 1) <= Numeral(ds) < Pow(10, |ds|)
  {
    hide Pow;
    PowZero(10);
    PowStep(10, |ds|);
    if |ds| > 1 {
      NumeralRange(ds[..|ds| - 1]);
      PowStep(10, |ds| - 1);
    } else {
      assert ds[..0] == "";
    }
  }

  // It has an exponent exactly below 10^-6 and from 10^21 up.
  lemma ExponentRange(text: string, N: int, q10: int)
    requires N > 0 && Shows(text, N, q10)
    ensures var x := N as real * RPow(10.0, -q10); 'e' in text <==> x < RPow(10.0, -6) || x >= RPow(10.0, 21)
  {
    hide LaidOut, Numeral, RPow, Pow, Shows;
    var ds, k := ShownDigits(text, N, q10);
    ExponentShown(text, ds, k);
    var x := N as real * RPow(10.0, -q10);
    NumeralRange(ds);
    ShownBetween(|ds|, Numeral(ds), k, x);
    if k <= -6 { RPowMono(10.0, k, -6); } else { RPowMono(10.0, -6, k - 1); }
    if k > 21 { RPowMono(10.0, 21, k - 1); } else { RPowMono(10.0, k, 21); }
  }

  lemma ShownBetween(n: nat, m: int, k: int, x: real)
    requires n > 0 && Pow(10, n - 1) <= m < Pow(10, n) && x == m as real * RPow(10.0, k - n)
    ensures RPow(10.0, k - 1) <= x < RPow(10.0, k)
  {
    hide *;
    RPowOfNat(10, n - 1);
    RPowOfNat(10, n);
    RPowAdd(10.0, n - 1, k - n);
    RPowAdd(10.0, n, k - n);
    assert n - 1 + (k - n) == k - 1 && n + (k - n) == k;
    ScaledBetween(m as real, RPow(10.0, n - 1), RPow(10.0, n), RPow(10.0, k - n), x);
  }

  lemma ScaledBetween(m: real, lo: real, hi: real, p: real, x: real)
    requires lo <= m < hi && p > 0.0 && x == m * p
    ensures lo * p <= x < hi * p
  {
    assert (m - lo) * p >= 0.0 && (hi - m) * p > 0.0;
  }

  lemma NumeralPositive(ds: string, n: int, p: nat)
    requires AllDigits(ds) && n > 0 && n == Numeral(ds) * p
    ensures Numeral(ds) > 0
  {}

  lemma SigPositive(r: Scanned, N: nat, q10: int)
    requires r.Scanned? && N > 0 && Denoted(r) == N as real * RPow(10.0, -q10)
    ensures r.sig > 0
  {
    hide RPow;
    ScaleLt(RPow(10.0, -q10), 0.0, N as real);
  }

  // ---- the probing loop ----

  // What the 17-digit probe needs of the estimate of log10(v): not more than
  // about 0.045 above it.
  ghost predicate GoodEstimate(v: Double, e10: int) { ScaledValue(v, 16 - e10) > TWO53 as real }

  // The exact floor of log10(v) is one, and so is anything below it.
  lemma FloorIsGoodEstimate(v: Double, e10: int)
    requires RPow(10.0, e10) <= v.Magnitude()
    ensures GoodEstimate(v, e10)
  {
    hide RPow, Double.Magnitude;
    RPowAdd(10.0, e10, 16 - e10);
    assert e10 + (16 - e10) == 16;
    ScaleLe(RPow(10.0, 16 - e10), RPow(10.0, e10), v.Magnitude());
    TenTo16();
    LowerScaled(v.Magnitude(), RPow(10.0, e10), RPow(10.0, 16 - e10), RPow(10.0, 16), ScaledValue(v, 16 - e10));
  }

  lemma TenTo16()
    ensures RPow(10.0, 16) == 10_000_000_000_000_000.0
    ensures RPow(10.0, 2) == 100.0
  {
    RPowOfNat(10, 16);
    RPowOfNat(10, 2);
    PowAdd(10, 8, 8);
    assert Pow(10, 8) == 100_000_000;
    assert Pow(10, 2) == 100;
  }

  lemma LowerScaled(X: real, a: real, b: real, c: real, y: real)
    requires a <= X && b > 0.0 && a * b == c && y == X * b
    ensures y >= c
  {
    assert (X - a) * b >= 0.0;
  }

  // Probe p succeeds: the candidate with p digits parses to v.
  ghost predicate ReadsBack(v: Double, e10: int, p: int) {
    var N := ScaledDigits(v, p - 1 - e10);
    N > 0 && Meaning(Read(CandidateText(N, p - 1 - e10))) == v
  }

  // 17 digits are close enough.
  lemma SeventeenDigitsClose(Y: real, N: int, X: real, x: real, t: real)
    requires Y > TWO53 as real && N == RoundHalfEven(Y) && t > 0.0 && X == Y * t && x == N as real * t
    ensures N > 0 && x > 0.0 && Close(x, X)
  {
    RoundHalfEvenIsNearest(Y, N);
    ScaleLt(t, 0.0, N as real);
    DistanceOnScale(X, Y, N as real, t, x);
    CloseAlgebra(Abs(Y - N as real), Y, t, Abs(X - x), X);
    assert Abs(X - x) == Abs(x - X);
  }

  lemma CloseAlgebra(a: real, Y: real, t: real, at: real, X: real)
    requires 0.0 <= a <= 0.5 && Y > TWO53 as real && t > 0.0 && at == a * t && X == Y * t
    ensures at * TWO54 as real < X
  {
    assert (Y - a * TWO54 as real) * t > 0.0;
  }

  lemma UnscaledValue(v: Double, q10: int)
    ensures v.Magnitude() == ScaledValue(v, q10) * RPow(10.0, -q10)
  {
    hide RPow, Double.Magnitude;
    RPowInverse(10.0, q10);
    FivesAlgebra(v.Magnitude(), RPow(10.0, q10), RPow(10.0, -q10));
  }

  lemma {:induction false} NatTextLength(n: nat)
    requires n > 0
    ensures Pow(10, |NatText(n)| - 1) <= n
  {
    if n >= 10 { NatTextLength(n / 10); }
  }

  lemma MagnitudeRange(v: Double)
    requires v.Finite() && !v.Zero()
    ensures RPow(2.0, -1074) <= v.Magnitude() <= RPow(2.0, 1024)
  {
    hide RPow;
    var m, e := v.Mantissa(), v.Exponent();
    RPowMono(2.0, -1074, e);
    RPowMono(2.0, e, 971);
    PowersOf52();
    RPowAdd(2.0, 53, 971);
    MagnitudeAlgebra(m as real, RPow(2.0, e), RPow(2.0, -1074), RPow(2.0, 971), RPow(2.0, 1024), v.Magnitude());
  }

  lemma MagnitudeAlgebra(m: real, p: real, lo: real, hi: real, top: real, X: real)
    requires 1.0 <= m < TWO53 as real && 0.0 < lo <= p <= hi && top == TWO53 as real * hi && X == m * p
    ensures lo <= X <= top
  {
    assert (m - 1.0) * p >= 0.0;
    assert (TWO53 as real - m) * p >= 0.0;
    assert TWO53 as real * (hi - p) >= 0.0;
  }

  lemma {:induction false} NatTextBelow(n: nat)
    ensures n < Pow(10, |NatText(n)|)
  {
    if n >= 10 {
      NatTextBelow(n / 10);
      PowStep(10, |NatText(n)|);
    } else {
      PowStep(10, 1);
    }
  }

  // Rounding to a positive integer at most doubles, or halves.
  lemma RoundedWithinTwo(Y: real, N: int)
    requires N == RoundHalfEven(Y) && N > 0
    ensures Y <= 2.0 * N as real && N as real <= 2.0 * Y
  {}

  // Whatever the estimate, a candidate of digits is about as large as v, so its
  // exponent has at most three digits.
  lemma CandidateRange(v: Double, q10: int, N: nat)
    requires v.Finite() && !v.Zero() && N == ScaledDigits(v, q10) && N > 0
    ensures -800 <= |NatText(N)| - q10 - 1 <= 800
  {
    hide *;
    var L := |NatText(N)|;
    var X, Y, t := v.Magnitude(), ScaledValue(v, q10), RPow(10.0, -q10);
    ScaledDigitsIs(v, q10);
    RoundedWithinTwo(Y, N);
    UnscaledValue(v, q10);
    MagnitudeRange(v);
    NatTextLength(N);
    NatTextBelow(N);
    TextNonEmpty(N);
    RPowOfNat(10, L);
    RPowOfNat(10, L - 1);
    RPowAdd(10.0, L, -q10);
    RPowAdd(10.0, L - 1, -q10);
    BetweenPowers(X, Y, N as real, t, RPow(10.0, L - 1), RPow(10.0, L), RPow(10.0, L - 1 - q10), RPow(10.0, L - q10));
    FarPowers();
    if L - q10 - 1 > 800 { RPowMono(10.0, 700, L - 1 - q10); }
    if L - q10 - 1 < -800 { RPowMono(10.0, L - q10, -700); }
  }

  lemma BetweenPowers(X: real, Y: real, N: real, t: real, a: real, b: real, at: real, bt: real)
    requires t > 0.0 && X == Y * t && Y <= 2.0 * N && N <= 2.0 * Y && a <= N <= b && at == a * t && bt == b * t
    ensures at <= 2.0 * X && X <= 2.0 * bt
  {
    assert (2.0 * Y - a) * t >= 0.0;
    assert (2.0 * b - Y) * t >= 0.0;
  }

  // Powers of ten beyond every finite magnitude.
  lemma FarPowers()
    ensures RPow(10.0, 700) > 2.0 * RPow(2.0, 1024)
    ensures 2.0 * RPow(10.0, -700) < RPow(2.0, -1074)
  {
    hide *;
    SevenDigits(100);
    RPowStep(2.0, 1025);
    RPowStep(2.0, -2299);
    RPowStrict(2.0, 1025, 2300);
    RPowStrict(2.0, -2299, -1074);
  }

  // 17 significant digits always read back, for subnormals too.
  lemma SeventeenDigitsReadBack(v: Double, e10: int)
    requires v.Finite() && !v.neg && !v.Zero() && GoodEstimate(v, e10)
    ensures ReadsBack(v, e10, 17)
  {
    hide *;
    var q10 := 16 - e10;
    var N := ScaledDigits(v, q10);
    var x := N as real * RPow(10.0, -q10);
    UnscaledValue(v, q10);
    EstimateValue(v, e10);
    SeventeenDigitsClose(ScaledValue(v, q10), N, v.Magnitude(), x, RPow(10.0, -q10));
    CandidateRange(v, q10, N);
    TextNonEmpty(N);
    CandidateReads(N, q10);
    CloseRoundsBack(v, x);
    var l := Read(CandidateText(N, q10));
    MeaningCases(l);
    ReadsBackIs(v, e10, 17, N);
  }

  lemma TextNonEmpty(N: nat)
    ensures |NatText(N)| >= 1 && EXPONENT_CAP == 1_000_000_000
  {}

  lemma EstimateValue(v: Double, e10: int)
    requires GoodEstimate(v, e10)
    ensures ScaledValue(v, 16 - e10) > TWO53 as real
    ensures ScaledDigits(v, 16 - e10) == RoundHalfEven(ScaledValue(v, 16 - e10))
  {}

  lemma ReadsBackIs(v: Double, e10: int, p: int, N: int)
    requires N == ScaledDigits(v, p - 1 - e10)
    ensures ReadsBack(v, e10, p) <==> N > 0 && Meaning(Read(CandidateText(N, p - 1 - e10))) == v
  {}

  // Some probe succeeds.
  ghost predicate Answers(v: Double, e10: int) { exists p :: 1 <= p <= 17 && ReadsBack(v, e10, p) }

  // shortest_double, for any estimate of log10(v): the first digit count whose
  // candidate reads back as v is found, or the text is empty where none is. A
  // good estimate always has one.
  method ShortestDouble(v: Double, e10: int, slack: nat) returns (buf: string, digits: int)
    requires v.Finite() && !v.neg && !v.Zero() && slack <= 1
    ensures 0 <= digits <= 17 && (digits > 0 <==> Answers(v, e10))
    ensures digits > 0 ==> Meaning(Read(buf)) == v && ReadsBack(v, e10, digits)
    ensures digits > 0 ==> forall p :: 1 <= p < digits ==> !ReadsBack(v, e10, p)
    ensures digits > 0 ==>
              var q10 := digits - 1 - e10;
              var N := ScaledDigits(v, q10);
              var x := N as real * RPow(10.0, -q10);
              Shows(buf, N, q10) && ('e' in buf <==> x < RPow(10.0, -6) || x >= RPow(10.0, 21))
    ensures digits == 0 ==> buf == ""
    ensures GoodEstimate(v, e10) ==> digits > 0
  {
    hide *;
    buf, digits := "", 0;
    var p := 1;
    while p <= 17 && digits == 0
      invariant 1 <= p <= 18 && 0 <= digits <= 17
      invariant digits == 0 ==> buf == "" && forall i :: 1 <= i < p ==> !ReadsBack(v, e10, i)
      invariant digits > 0 ==> Meaning(Read(buf)) == v && ReadsBack(v, e10, digits)
      invariant digits > 0 ==> ScaledDigits(v, digits - 1 - e10) > 0 && Shows(buf, ScaledDigits(v, digits - 1 - e10), digits - 1 - e10)
      invariant digits > 0 ==> forall i :: 1 <= i < digits ==> !ReadsBack(v, e10, i)
      decreases 18 - p
    {
      var q10 := p - 1 - e10;
      var N := RoundedDigits(v, q10);
      ReadsBackIs(v, e10, p, N);
      if N > 0 {
        var cand := FormatCandidate(N, q10);
        var d := ParseDouble(cand, slack);
        if d == v {
          buf, digits := cand, p;
        }
      }
      p := p + 1;
    }
    if digits > 0 { ExponentRange(buf, ScaledDigits(v, digits - 1 - e10), digits - 1 - e10); }
    AnswersIs(v, e10, digits);
    if GoodEstimate(v, e10) { SeventeenDigitsReadBack(v, e10); }
  }

  lemma AnswersIs(v: Double, e10: int, digits: int)
    ensures 1 <= digits <= 17 && ReadsBack(v, e10, digits) ==> Answers(v, e10)
    ensures Answers(v, e10) ==> exists p :: 1 <= p <= 17 && ReadsBack(v, e10, p)
  {}

  // The literal of one probe: digits, trailing zeros stripped, point placed.
  method FormatCandidate(N: nat, q10: int) returns (cand: string)
    ensures cand == CandidateText(N, q10)
    ensures N > 0 ==> Shows(cand, N, q10)
  {
    hide Shows, LaidOut, Placed, NatText;
    var dstr := NatText(N);
    var L, strip := |dstr|, 0;
    assert dstr[..L] == dstr;
    while L - strip > 1 && dstr[L - 1 - strip] == '0'
      invariant 0 <= strip < L
      invariant StripZeros(dstr) == StripZeros(dstr[..L - strip])
      decreases L - strip
    {
      assert dstr[..L - strip][..L - strip - 1] == dstr[..L - (strip + 1)];
      strip := strip + 1;
    }
    var ds := dstr[..L - strip];
    var exp10 := strip - q10;
    cand := PlacePoint(ds, |ds| + exp10);
    assert cand == CandidateText(N, q10);
    hide *;
    if N > 0 { CandidateShown(N, q10); }
  }
}
