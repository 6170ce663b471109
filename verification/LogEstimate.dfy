// How far the printer's estimate of log10 may be off, and the buffers its
// candidates need.
module LogEstimate {
  import opened Powers
  import opened Rounding
  import opened Decimal
  import opened Layout
  import opened DoubleParser
  import opened DoublePrinter

  // e is the floor of log10(v).
  ghost predicate IsLog10(v: Double, e: int) { RPow(10.0, e) <= v.Magnitude() < RPow(10.0, e + 1) }

  predicate Printable(v: Double) { v.Finite() && !v.neg && !v.Zero() }

  // ---- the datum 0.30000000000000004 ----

  const MANT: int := 5404319552844596
  const SAMPLE := Double(false, 1021, MANT - TWO52)

  lemma SampleValue()
    ensures SAMPLE.Magnitude() == MANT as real * RPow(2.0, -54) && Printable(SAMPLE)
    ensures SAMPLE.Finite() && !SAMPLE.Zero()
    ensures RPow(2.0, -54) * 18014398509481984.0 == 1.0
  {
    hide RPow, Pow;
    RPowInverse(2.0, 54);
    RPowOfNat(2, 54);
    Pow52();
    PowStep(2, 54);
  }

  lemma SampleLog()
    ensures IsLog10(SAMPLE, -1) && SAMPLE.Magnitude() < 0.4
  {
    SampleValue();
    RPowStep(10.0, 0);
    RPowZero(10.0);
    hide RPow;
    SampleBounds(RPow(2.0, -54));
  }

  lemma SampleBounds(u: real)
    requires u * 18014398509481984.0 == 1.0
    ensures 0.1 <= MANT as real * u < 0.4
  {}

  // Only values within half a unit of the datum round to it.
  lemma RoundsToSample(x: real)
    requires x > 0.0 && Ldexp(false, Round53(x)) == SAMPLE
    ensures (2 * MANT - 1) as real * RPow(2.0, -54) <= 2.0 * x <= (2 * MANT + 1) as real * RPow(2.0, -54)
  {
    var g := Round53(x);
    assert g == Float(MANT, -54) by { SampleFloat(g); }
    var below, above := Float(MANT - 1, -54), Float(MANT + 1, -54);
    assert Abs(x - g.Value()) <= Abs(x - below.Value());
    assert Abs(x - g.Value()) <= Abs(x - above.Value());
    hide RPow, IsNearest;
    HalfWay(x, RPow(2.0, -54));
  }

  lemma SampleFloat(g: Float)
    requires g.Normal() && Ldexp(false, g) == SAMPLE
    ensures g == Float(MANT, -54)
  {
    if g.exp + 1075 < 1 { SubnormalField(g); }
  }

  lemma SubnormalField(g: Float)
    requires g.Normal() && g.exp + 1075 < 1
    ensures Ldexp(false, g).field <= 1
  {
    var field := g.exp + 1075;
    assert Pow(2, 1 - field) == 2 * Pow(2, -field);
    SubnormalQuotient(g.mant as real, Pow(2, 1 - field) as real);
  }

  lemma HalfWay(x: real, u: real)
    requires u > 0.0
    requires Abs(x - MANT as real * u) <= Abs(x - (MANT - 1) as real * u)
    requires Abs(x - MANT as real * u) <= Abs(x - (MANT + 1) as real * u)
    ensures (2 * MANT - 1) as real * u <= 2.0 * x <= (2 * MANT + 1) as real * u
  {}

  // No multiple of 10^-16 is that close to it.
  lemma NoSixteenDigits(J: int, x: real)
    requires x * 10_000_000_000_000_000.0 == J as real
    ensures !((2 * MANT - 1) as real * RPow(2.0, -54) <= 2.0 * x <= (2 * MANT + 1) as real * RPow(2.0, -54))
  {
    SampleValue();
    hide RPow;
    BetweenMultiples(J, x, RPow(2.0, -54));
  }

  lemma BetweenMultiples(J: int, x: real, u: real)
    requires x * 10_000_000_000_000_000.0 == J as real && u * 18014398509481984.0 == 1.0
    ensures !((2 * MANT - 1) as real * u <= 2.0 * x <= (2 * MANT + 1) as real * u)
  {
    assert u == 1.0 / 18014398509481984.0;
    assert J <= 3000000000000000 || J >= 3000000000000001;
  }

  // One too high, or more, and no probe reads back.
  lemma NoProbe(e10: int, p: int)
    requires e10 >= 0 && p <= 17
    ensures !ReadsBack(SAMPLE, e10, p)
  {
    hide *;
    var q10 := p - 1 - e10;
    var N := ScaledDigits(SAMPLE, q10);
    ReadsBackIs(SAMPLE, e10, p, N);
    if N > 0 {
      SampleValue();
      PositiveDigits(q10);
      CandidateRange(SAMPLE, q10, N);
      TextNonEmpty(N);
      CandidateReads(N, q10);
      var l := Read(CandidateText(N, q10));
      var x := Denoted(l.number);
      MeaningCases(l);
      SixteenDecimals(N, q10, x);
      NoSixteenDigits(N * Pow(10, 16 - q10), x);
      if Meaning(l) == SAMPLE { RoundsToSample(x); }
    }
  }

  lemma PositiveDigits(q10: int)
    requires ScaledDigits(SAMPLE, q10) > 0
    ensures q10 >= 1
  {
    SampleLog();
    hide RPow, Double.Magnitude;
    if q10 <= 0 {
      RPowMono(10.0, q10, 0);
      RPowZero(10.0);
      SmallProduct(SAMPLE.Magnitude(), RPow(10.0, q10), ScaledValue(SAMPLE, q10));
      BelowHalf(ScaledValue(SAMPLE, q10));
    }
  }

  lemma BelowHalf(y: real)
    requires y < 0.5
    ensures RoundHalfEven(y) <= 0
  {}

  lemma SmallProduct(X: real, t: real, y: real)
    requires X < 0.4 && 0.0 < t <= 1.0 && y == X * t
    ensures y < 0.5
  {
    assert (0.4 - X) * t > 0.0;
  }

  lemma SixteenDecimals(N: int, q10: int, x: real)
    requires q10 <= 16 && x == N as real * RPow(10.0, -q10)
    ensures x * 10_000_000_000_000_000.0 == (N * Pow(10, 16 - q10)) as real
  {
    hide RPow, Pow;
    TenTo16();
    RPowAdd(10.0, -q10, 16);
    RPowOfNat(10, 16 - q10);
    MovePoint(N as real, RPow(10.0, -q10), RPow(10.0, 16), RPow(10.0, 16 - q10));
    CastProduct(N, Pow(10, 16 - q10));
  }

  lemma MovePoint(n: real, a: real, b: real, ab: real)
    requires ab == a * b
    ensures n * a * b == n * ab
  {}

  // An estimate k above the floor of log10 gives every datum an answer exactly
  // when k is not positive.
  lemma EstimateExactly(k: int)
    ensures k <= 0 <==> forall v: Double, e10 :: Printable(v) && IsLog10(v, e10 - k) ==> Answers(v, e10)
  {
    if k <= 0 {
      forall v: Double, e10 | Printable(v) && IsLog10(v, e10 - k) ensures Answers(v, e10) {
        LowEstimateAnswers(v, e10, k);
      }
    } else {
      SampleValue();
      SampleLog();
      var e10 := k - 1;
      hide *;
      assert !Answers(SAMPLE, e10) by { NoAnswer(e10); }
      assert e10 - k == -1;
      assert Printable(SAMPLE) && IsLog10(SAMPLE, e10 - k);
    }
  }

  lemma LowEstimateAnswers(v: Double, e10: int, k: int)
    requires k <= 0 && Printable(v) && IsLog10(v, e10 - k)
    ensures Answers(v, e10)
  {
    RPowMono(10.0, e10, e10 - k);
    hide ReadsBack;
    FloorIsGoodEstimate(v, e10);
    SeventeenDigitsReadBack(v, e10);
  }

  lemma NoAnswer(e10: int)
    requires e10 >= 0
    ensures !Answers(SAMPLE, e10)
  {
    hide ReadsBack;
    forall p | 1 <= p <= 17 ensures !ReadsBack(SAMPLE, e10, p) { NoProbe(e10, p); }
  }

  // ---- the buffers ----

  // A number below 10^digits is written with no more digits than that.
  lemma NatTextShort(n: nat, digits: nat)
    requires n < Pow(10, digits) && digits >= 1
    ensures |NatText(n)| <= digits
  {
    if n > 0 {
      NatTextLength(n);
      hide Pow, NatText;
      if |NatText(n)| > digits { PowMono(10, digits, |NatText(n)| - 1); }
    }
  }

  // With an estimate no more than one below the floor, every probe's digits
  // fit the buffer of 24 with their sign and terminator.
  lemma DigitsFit(v: Double, e10: int, p: int)
    requires Printable(v) && v.Magnitude() < RPow(10.0, e10 + 2) && 1 <= p <= 17
    ensures ScaledDigits(v, p - 1 - e10) > 0 ==> |NatText(ScaledDigits(v, p - 1 - e10))| <= 19
  {
    hide RPow, NatText, Double.Magnitude, Pow;
    var q10 := p - 1 - e10;
    var Y, N := ScaledValue(v, q10), ScaledDigits(v, q10);
    RPowAdd(10.0, e10 + 2, q10);
    RPowMono(10.0, p + 1, 18);
    UpperScaled(v.Magnitude(), RPow(10.0, e10 + 2), RPow(10.0, q10), RPow(10.0, p + 1), Y);
    RPowOfNat(10, 18);
    RoundHalfEvenIsNearest(Y, N);
    PowStep(10, 19);
    if N > 0 { NatTextShort(N, 19); }
  }

  lemma UpperScaled(X: real, a: real, b: real, c: real, y: real)
    requires X < a && b > 0.0 && a * b == c && y == X * b
    ensures y < c
  {
    assert (a - X) * b > 0.0;
  }

  lemma PlacedFits(ds: string, k: int)
    requires 1 <= |ds| <= 19 && -999 <= k - 1 <= 999
    ensures |Placed(ds, k)| <= 26
  {
    hide NatText;
    assert Pow(10, 3) == 1000;
    if k - 1 >= 0 { NatTextShort(k - 1, 3); } else { NatTextShort(1 - k, 3); }
  }

  // And its text fits the 32 bytes of the result, terminator included.
  lemma CandidatesFit(v: Double, e10: int, p: int)
    requires Printable(v) && v.Magnitude() < RPow(10.0, e10 + 2) && 1 <= p <= 17
    requires ScaledDigits(v, p - 1 - e10) > 0
    ensures var N := ScaledDigits(v, p - 1 - e10);
            |NatText(N)| + 2 <= 24 && |CandidateText(N, p - 1 - e10)| + 1 <= 32
  {
    hide RPow, NatText, ScaledDigits, ScaledValue, Double.Magnitude, Placed;
    var q10 := p - 1 - e10;
    var N := ScaledDigits(v, q10);
    DigitsFit(v, e10, p);
    CandidateRange(v, q10, N);
    var t := NatText(N);
    var ds := StripZeros(t);
    CandidateTextIs(N, q10, t, ds, |t| - q10);
    PlacedFits(ds, |t| - q10);
  }
}
