// The generator of the power tables: normalised nbits-bit significands of
// base^exp, each within half a unit.
module DoubleTables {
  import opened Powers
  import opened Rounding
  import opened DoubleParser

  // M * 2^-E stands for v: normalised, and no more than half a unit away.
  ghost predicate RoundedEntry(v: real, nbits: nat, M: int, E: int) {
    && nbits >= 1
    && Pow(2, nbits - 1) <= M < Pow(2, nbits)
    && Abs(M as real - v * RPow(2.0, E)) <= 0.5
  }

  // base^exp as the fraction the generator starts from.
  lemma PowerFraction(base: nat, exp: int)
    requires base >= 2
    ensures var num := if exp >= 0 then Pow(base, exp) else 1;
            var den := if exp >= 0 then 1 else Pow(base, -exp);
            num > 0 && den > 0 && RPow(base as real, exp) * den as real == num as real
  {
    if exp >= 0 {
      RPowOfNat(base, exp);
    } else {
      RPowOfNat(base, -exp);
      RPowInverse(base as real, -exp);
    }
  }

  // ---- the scale at which v has nbits bits ----

  ghost predicate InBits(v: real, nbits: nat, E: int) {
    nbits >= 1 && RPow(2.0, nbits - 1) <= v * RPow(2.0, E) < RPow(2.0, nbits)
  }

  lemma ScaleExists(v: real, nbits: nat) returns (e: int)
    requires v > 0.0 && nbits >= 1
    ensures InBits(v, nbits, e)
  {
    var f, k := WindowExists(v);
    e := nbits - 53 - k;
    ScaleFromWindow(v, f, k, nbits, e);
  }

  lemma PowersOf52()
    ensures RPow(2.0, 52) == TWO52 as real && RPow(2.0, 53) == TWO53 as real
  {
    hide *;
    Pow52();
    RPowOfNat(2, 52);
    RPowOfNat(2, 53);
  }

  lemma ScaleFromWindow(v: real, f: real, k: int, nbits: nat, e: int)
    requires nbits >= 1 && e == nbits - 53 - k
    requires TWO52 as real <= f < TWO53 as real && v == f * RPow(2.0, k)
    ensures InBits(v, nbits, e)
  {
    hide RPow;
    var pq := RPow(2.0, nbits - 53);
    assert pq == RPow(2.0, k) * RPow(2.0, e) by { RPowAdd(2.0, k, e); }
    MovedWindow(v, f, RPow(2.0, k), RPow(2.0, e), pq);
    PowersOf52();
    assert RPow(2.0, nbits - 1) == TWO52 as real * pq by { RPowAdd(2.0, 52, nbits - 53); }
    assert RPow(2.0, nbits) == TWO53 as real * pq by { RPowAdd(2.0, 53, nbits - 53); }
  }

  lemma MovedWindow(v: real, f: real, p: real, q: real, pq: real)
    requires v == f * p && pq == p * q && pq > 0.0 && TWO52 as real <= f < TWO53 as real
    ensures TWO52 as real * pq <= v * q < TWO53 as real * pq
  {
    assert v * q == f * pq;
    ScaleLe(pq, TWO52 as real, f);
    ScaleLt(pq, f, TWO53 as real);
  }

  // Away from that scale the value has too few bits or too many.
  lemma OffScale(v: real, nbits: nat, e: int, E: int)
    requires v > 0.0 && InBits(v, nbits, e)
    ensures E < e ==> v * RPow(2.0, E) < RPow(2.0, nbits - 1)
    ensures E > e ==> v * RPow(2.0, E) >= RPow(2.0, nbits)
  {
    hide RPow;
    RPowStep(2.0, nbits);
    RPowStep(2.0, e);
    RPowStep(2.0, e + 1);
    if E < e {
      RPowMono(2.0, E, e - 1);
      ScaleLe(v, RPow(2.0, E), RPow(2.0, e - 1));
      HalfOf(v, RPow(2.0, e), RPow(2.0, e - 1));
    }
    if E > e {
      RPowMono(2.0, e + 1, E);
      ScaleLe(v, RPow(2.0, e + 1), RPow(2.0, E));
      HalfOf(v, RPow(2.0, e + 1), RPow(2.0, e));
    }
  }

  lemma HalfOf(v: real, p: real, q: real)
    requires p == 2.0 * q
    ensures v * p == 2.0 * (v * q)
  {}

  lemma EstimateAbove(v: real, num: nat, den: nat, c: int, E: int)
    requires num > 0 && den > 0 && v * den as real == num as real
    requires E == c + 1 - (BitLength(num) - BitLength(den))
    ensures v * RPow(2.0, E) > RPow(2.0, c)
  {
    hide *;
    var bn, bd := BitLength(num), BitLength(den);
    BitLengthBounds(num);
    BitLengthBounds(den);
    RPowOfNat(2, bn - 1);
    RPowOfNat(2, bd);
    assert RPow(2.0, bn - 1) * RPow(2.0, E) == RPow(2.0, c) * RPow(2.0, bd) by {
      RPowAdd(2.0, bn - 1, E);
      RPowAdd(2.0, c, bd);
      assert bn - 1 + E == c + bd;
    }
    AboveEstimate(v, num as real, den as real, RPow(2.0, bn - 1), RPow(2.0, bd), RPow(2.0, E), RPow(2.0, c));
  }

  lemma EstimateBelow(v: real, num: nat, den: nat, c: int, E: int)
    requires num > 0 && den > 0 && v * den as real == num as real
    requires E == c - 1 - (BitLength(num) - BitLength(den))
    ensures v * RPow(2.0, E) < RPow(2.0, c)
  {
    hide *;
    var bn, bd := BitLength(num), BitLength(den);
    BitLengthBounds(num);
    BitLengthBounds(den);
    RPowOfNat(2, bn);
    RPowOfNat(2, bd - 1);
    assert RPow(2.0, bn) * RPow(2.0, E) == RPow(2.0, c) * RPow(2.0, bd - 1) by {
      RPowAdd(2.0, bn, E);
      RPowAdd(2.0, c, bd - 1);
      assert bn + E == c + (bd - 1);
    }
    BelowEstimate(v, num as real, den as real, RPow(2.0, bn), RPow(2.0, bd - 1), RPow(2.0, E), RPow(2.0, c));
  }

  // The estimate from the two bit lengths is right or one too large.
  lemma EstimateWithinOne(v: real, num: nat, den: nat, nbits: nat, e: int)
    requires num > 0 && den > 0 && v * den as real == num as real && v > 0.0
    requires InBits(v, nbits, e)
    ensures e <= nbits - (BitLength(num) - BitLength(den)) <= e + 1
  {
    hide RPow, BitLength;
    var E := nbits - (BitLength(num) - BitLength(den));
    EstimateAbove(v, num, den, nbits - 1, E);
    EstimateBelow(v, num, den, nbits + 1, E);
    OffScale(v, nbits, e, E);
    OffScale(v, nbits, e, E - 1);
    RPowStep(2.0, E);
    HalfOf(v, RPow(2.0, E), RPow(2.0, E - 1));
    RPowStep(2.0, nbits + 1);
    assert nbits + 1 - 1 == nbits;
  }

  // v = n/d with n >= a, d < b and a * p == c * b puts v * p above c.
  lemma AboveEstimate(v: real, n: real, d: real, a: real, b: real, p: real, c: real)
    requires v * d == n && n >= a > 0.0 && 0.0 < d < b && p > 0.0 && c > 0.0 && a * p == c * b
    ensures v * p > c
  {
    ScaleLe(p, a, n);
    ScaleLt(c, d, b);
    ProductExceeds(v, p, c, d, n);
  }

  lemma ProductExceeds(v: real, p: real, c: real, d: real, n: real)
    requires v * d == n && d > 0.0 && n * p > c * d
    ensures v * p > c
  {
    var t := v * p - c;
    assert t * d == n * p - c * d;
    assert t <= 0.0 ==> t * d <= 0.0;
  }

  lemma BelowEstimate(v: real, n: real, d: real, a: real, b: real, p: real, c: real)
    requires v * d == n && 0.0 < n < a && d >= b > 0.0 && p > 0.0 && c > 0.0 && a * p == c * b
    ensures v * p < c
  {
    ScaleLt(p, n, a);
    ScaleLe(c, b, d);
    ProductBelow(v, p, c, d, n);
  }

  lemma ProductBelow(v: real, p: real, c: real, d: real, n: real)
    requires v * d == n && d > 0.0 && n * p < c * d
    ensures v * p < c
  {
    var t := c - v * p;
    assert t * d == c * d - n * p;
    assert t <= 0.0 ==> t * d <= 0.0;
  }

  // ---- the generator ----

  // One division at scale E: the truncated quotient and what rounding needs.
  datatype Division = Division(quotient: nat, remainder: nat, divisor: nat)

  function DivideAt(num: nat, den: nat, E: int): (r: Division)
    requires den > 0
    ensures r.divisor > 0
  {
    var n := if E >= 0 then num * Pow(2, E) else num;
    var d := if E >= 0 then den else den * Pow(2, -E);
    PositiveProduct(den, Pow(2, if E >= 0 then 0 else -E));
    Division(n / d, n % d, d)
  }

  lemma PositiveProduct(m: nat, p: nat)
    requires m > 0 && p > 0
    ensures m * p > 0
  {}

  // The quotient at scale E is the floor of f = v * 2^E.
  lemma DivideAtScale(v: real, num: nat, den: nat, E: int, f: real)
    requires num > 0 && den > 0 && v * den as real == num as real && f == v * RPow(2.0, E)
    ensures var r := DivideAt(num, den, E);
            && r.quotient as real <= f < (r.quotient + 1) as real
            && (f - r.quotient as real) * r.divisor as real == r.remainder as real
            && r.remainder < r.divisor
  {
    hide RPow, Pow;
    var n := if E >= 0 then num * Pow(2, E) else num;
    var d := if E >= 0 then den else den * Pow(2, -E);
    PositiveProduct(den, Pow(2, if E >= 0 then 0 else -E));
    ScaledFraction(v, num, den, E, f, n, d);
    QuotientIsFloor(n, d, f);
  }

  lemma ScaledFraction(v: real, num: nat, den: nat, E: int, f: real, n: nat, d: nat)
    requires num > 0 && den > 0 && v * den as real == num as real && f == v * RPow(2.0, E)
    requires n == if E >= 0 then num * Pow(2, E) else num
    requires d == if E >= 0 then den else den * Pow(2, -E)
    ensures f * d as real == n as real
  {
    hide RPow, Pow;
    if E >= 0 {
      RPowOfNat(2, E);
      CastProduct(num, Pow(2, E));
      ScaledUpFraction(v, d as real, num as real, RPow(2.0, E), f);
    } else {
      RPowOfNat(2, -E);
      RPowInverse(2.0, -E);
      CastProduct(den, Pow(2, -E));
      ScaledDownFraction(v, den as real, num as real, RPow(2.0, E), RPow(2.0, -E), f, d as real);
    }
  }

  lemma ScaledUpFraction(v: real, d: real, n: real, p: real, f: real)
    requires v * d == n && f == v * p
    ensures f * d == n * p
  {}

  lemma ScaledDownFraction(v: real, d: real, n: real, p: real, q: real, f: real, dq: real)
    requires v * d == n && p * q == 1.0 && f == v * p && dq == d * q
    ensures f * dq == n
  {
    assert f * dq == (v * d) * (p * q);
  }

  lemma HalvedError(m: int, f: real, f': real)
    requires m % 2 == 0 && f == 2.0 * f' && Abs(m as real - f) <= 0.5
    ensures Abs((m / 2) as real - f') <= 0.5
  {
    assert m as real == 2.0 * (m / 2) as real;
  }

  // Rounding the quotient in its window gives a table entry.
  lemma RoundedQuotient(v: real, nbits: nat, E: int, f: real, r: Division, M: nat, E': int)
    requires v > 0.0 && InBits(v, nbits, E) && f == v * RPow(2.0, E)
    requires r.quotient as real <= f < (r.quotient + 1) as real
    requires (f - r.quotient as real) * r.divisor as real == r.remainder as real && r.remainder < r.divisor
    requires var up := if 2 * r.remainder >= r.divisor then r.quotient + 1 else r.quotient;
             if up == Pow(2, nbits) then M == up / 2 && E' == E - 1 else M == up && E' == E
    ensures RoundedEntry(v, nbits, M, E')
  {
    hide RPow, Pow;
    var up := if 2 * r.remainder >= r.divisor then r.quotient + 1 else r.quotient;
    FractionAgainstHalf(f - r.quotient as real, r.divisor as real, r.remainder as real);
    RPowOfNat(2, nbits);
    RPowOfNat(2, nbits - 1);
    PowStep(2, nbits);
    assert Pow(2, nbits - 1) <= r.quotient < Pow(2, nbits);
    if up == Pow(2, nbits) {
      RPowStep(2.0, E);
      HalfOf(v, RPow(2.0, E), RPow(2.0, E'));
      HalvedError(up, f, v * RPow(2.0, E'));
    }
  }

  // Where f = v * 2^E stands between the powers that bound nbits bits.
  lemma PlaceOnScale(v: real, nbits: nat, e: int, E: int, f: real)
    requires v > 0.0 && InBits(v, nbits, e) && f == v * RPow(2.0, E)
    ensures nbits >= 1
    ensures E < e ==> f < Pow(2, nbits - 1) as real
    ensures E > e ==> f >= Pow(2, nbits) as real
    ensures E == e ==> Pow(2, nbits - 1) as real <= f < Pow(2, nbits) as real
  {
    hide RPow, Pow;
    OffScale(v, nbits, e, E);
    RPowOfNat(2, nbits);
    RPowOfNat(2, nbits - 1);
  }

  // Too few bits, too many, or just right: the comparisons of the loop.
  lemma QuotientBits(v: real, nbits: nat, e: int, E: int, f: real, q: nat)
    requires v > 0.0 && InBits(v, nbits, e) && f == v * RPow(2.0, E) && q as real <= f < (q + 1) as real
    ensures q == 0 || BitLength(q) < nbits ==> E < e
    ensures q > 0 && BitLength(q) > nbits ==> E > e
    ensures q > 0 && BitLength(q) == nbits ==> E == e
  {
    hide *;
    PlaceOnScale(v, nbits, e, E, f);
    PowStep(2, nbits);
    if q > 0 {
      BitLengthBounds(q);
      if BitLength(q) < nbits { PowMono(2, BitLength(q), nbits - 1); }
      if BitLength(q) > nbits { PowMono(2, nbits, BitLength(q) - 1); }
    }
  }

  function Distance(a: int, b: int): nat { if a <= b then b - a else a - b }

  // Round to nearest, ties away from zero, and put back a carry.
  method RoundEntry(r: Division, nbits: nat, E0: int, ghost v: real, ghost f: real) returns (M: nat, E: int)
    requires v > 0.0 && InBits(v, nbits, E0) && f == v * RPow(2.0, E0)
    requires r.quotient as real <= f < (r.quotient + 1) as real
    requires (f - r.quotient as real) * r.divisor as real == r.remainder as real && r.remainder < r.divisor
    ensures RoundedEntry(v, nbits, M, E)
  {
    hide *;
    M, E := r.quotient, E0;
    if 2 * r.remainder >= r.divisor {
      M := M + 1;
    }
    BitLengthCarry(v, nbits, E0, f, r.quotient, M);
    if BitLength(M) > nbits {
      M, E := M / 2, E - 1;
    }
    RoundedQuotient(v, nbits, E0, f, r, M, E);
  }

  // The open loop: it stops once the quotient has nbits bits, and the first
  // estimate of the scale is adjusted at most once.
  method NormalizeRatio(num: nat, den: nat, nbits: nat, ghost v: real)
    returns (M: nat, E: int, ghost adjustments: nat)
    requires num > 0 && den > 0 && nbits >= 1 && v > 0.0 && v * den as real == num as real
    ensures RoundedEntry(v, nbits, M, E)
    ensures adjustments <= 1
  {
    hide *;
    ghost var e := ScaleExists(v, nbits);
    E := nbits - (BitLength(num) - BitLength(den));
    ghost var E0 := E;
    adjustments := 0;
    DistanceIs(E0, e);
    while true
      invariant adjustments + Distance(E, e) == Distance(E0, e)
      decreases Distance(E, e)
    {
      DistanceIs(E, e);
      ghost var f := v * RPow(2.0, E);
      var r := DivideAt(num, den, E);
      DivideAtScale(v, num, den, E, f);
      QuotientBits(v, nbits, e, E, f, r.quotient);
      if r.quotient == 0 || BitLength(r.quotient) < nbits {
        DistanceIs(E + 1, e);
        E, adjustments := E + 1, adjustments + 1;
        continue;
      }
      if BitLength(r.quotient) > nbits {
        DistanceIs(E - 1, e);
        E, adjustments := E - 1, adjustments + 1;
        continue;
      }
      EstimateWithinOne(v, num, den, nbits, e);
      M, E := RoundEntry(r, nbits, E, v, f);
      return;
    }
  }

  lemma DistanceIs(a: int, b: int)
    ensures Distance(a, b) == if a <= b then b - a else a - b
  {}

  // compute_normalized_pow: for every base, exponent and width the entry is
  // normalised and rounded.
  method ComputeNormalizedPow(base: nat, exp: int, nbits: nat) returns (M: nat, E: int, ghost adjustments: nat)
    requires base >= 2 && nbits >= 1
    ensures RoundedEntry(RPow(base as real, exp), nbits, M, E)
    ensures adjustments <= 1
  {
    PowerFraction(base, exp);
    if exp >= 0 {
      M, E, adjustments := NormalizeRatio(Pow(base, exp), 1, nbits, RPow(base as real, exp));
    } else {
      M, E, adjustments := NormalizeRatio(1, Pow(base, -exp), nbits, RPow(base as real, exp));
    }
  }

  lemma BitLengthCarry(v: real, nbits: nat, E: int, f: real, q: nat, up: nat)
    requires v > 0.0 && InBits(v, nbits, E) && f == v * RPow(2.0, E) && q as real <= f < (q + 1) as real
    requires q <= up <= q + 1
    ensures BitLength(up) > nbits <==> up == Pow(2, nbits)
  {
    hide *;
    PlaceOnScale(v, nbits, E, E, f);
    PowStep(2, nbits);
    PowStep(2, nbits + 1);
    if up == Pow(2, nbits) {
      BitLengthIs(up, nbits + 1);
    } else {
      BitLengthIs(up, nbits);
    }
  }
}
