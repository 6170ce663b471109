// The exact parser of numeric.c: big-integer division rounded to 53 bits, and
// the text conversion built on it.
module DoubleParser {
  import opened Powers
  import opened Rounding
  import opened Decimal
  import opened Spelling

  lemma Pow52()
    ensures Pow(2, 52) == TWO52 && Pow(2, 53) == TWO53
  {
    PowAdd(2, 10, 10);
    PowAdd(2, 20, 20);
    PowAdd(2, 40, 12);
    PowAdd(2, 40, 13);
    assert Pow(2, 10) == 1024;
    assert Pow(2, 12) == 4096;
    assert Pow(2, 13) == 8192;
  }

  lemma BitLength53(q: nat)
    ensures BitLength(q) < 53 <==> q < TWO52
    ensures BitLength(q) > 53 <==> q >= TWO53
  {
    Pow52();
    if q > 0 {
      BitLengthBounds(q);
      if BitLength(q) < 53 { PowMono(2, BitLength(q), 52); }
      if BitLength(q) > 53 { PowMono(2, 53, BitLength(q) - 1); }
    }
  }

  // ---- ratio_to_double ----

  // x == (num / den) * 2^-s.
  ghost predicate Scaled(x: real, num: int, den: int, s: int) {
    den > 0 && x * den as real == num as real * RPow(2.0, -s)
  }

  lemma ScaleAlgebra(x: real, d: real, n: real, p: real, q: real)
    requires x * d == n * q && q == 2.0 * p
    ensures x * d == (2.0 * n) * p
  {}

  lemma ScaleNumerator(x: real, num: int, den: int, s: int)
    requires Scaled(x, num, den, s)
    ensures Scaled(x, 2 * num, den, s + 1)
  {
    hide RPow;
    RPowStep(2.0, -s);
    assert -s - 1 == -(s + 1);
    ScaleAlgebra(x, den as real, num as real, RPow(2.0, -(s + 1)), RPow(2.0, -s));
    assert (2 * num) as real == 2.0 * num as real;
  }

  lemma UnscaleAlgebra(x: real, d: real, n: real, p: real, q: real)
    requires x * d == n * p && q == 2.0 * p
    ensures x * (2.0 * d) == n * q
  {
    assert x * (2.0 * d) == 2.0 * (x * d);
  }

  lemma ScaleDenominator(x: real, num: int, den: int, s: int)
    requires Scaled(x, num, den, s)
    ensures Scaled(x, num, 2 * den, s - 1)
  {
    hide RPow;
    RPowStep(2.0, -s + 1);
    assert -s + 1 - 1 == -s && -s + 1 == -(s - 1);
    UnscaleAlgebra(x, den as real, num as real, RPow(2.0, -s), RPow(2.0, -(s - 1)));
    assert (2 * den) as real == 2.0 * den as real;
  }

  lemma {:induction false} ScaleNumeratorBy(x: real, num: int, den: int, s: int, j: nat)
    requires Scaled(x, num, den, s)
    ensures Scaled(x, num * Pow(2, j), den, s + j)
  {
    if j > 0 {
      hide Scaled;
      ScaleNumeratorBy(x, num, den, s, j - 1);
      ScaleNumerator(x, num * Pow(2, j - 1), den, s + (j - 1));
      DoubledFactor(num, Pow(2, j - 1), Pow(2, j));
      assert s + (j - 1) + 1 == s + j;
    }
  }

  lemma DoubledFactor(n: int, p: int, p': int)
    requires p' == 2 * p
    ensures 2 * (n * p) == n * p'
  {}

  lemma {:induction false} ScaleDenominatorBy(x: real, num: int, den: int, s: int, j: nat)
    requires Scaled(x, num, den, s)
    ensures Scaled(x, num, den * Pow(2, j), s - j)
  {
    if j > 0 {
      hide Scaled;
      ScaleDenominatorBy(x, num, den, s, j - 1);
      ScaleDenominator(x, num, den * Pow(2, j - 1), s - (j - 1));
      DoubledFactor(den, Pow(2, j - 1), Pow(2, j));
      assert s - (j - 1) - 1 == s - j;
    }
  }

  // The integer quotient is the floor, the remainder what is left of it.
  lemma QuotientIsFloor(num: nat, den: nat, f: real)
    requires den > 0 && f * den as real == num as real
    ensures (f - (num / den) as real) * den as real == (num % den) as real
    ensures (num / den) as real <= f < (num / den + 1) as real
  {
    var q, r := num / den, num % den;
    assert num == q * den + r;
    CastProduct(q, den);
    RemainderAlgebra(f, q as real, den as real, r as real, num as real);
    FractionAgainstHalf(f - q as real, den as real, r as real);
  }

  // How they decide the rounding.
  lemma QuotientRounds(num: nat, den: nat, f: real)
    requires den > 0 && f * den as real == num as real
    ensures var q, r := num / den, num % den;
            RoundHalfEven(f) == if 2 * r > den || (2 * r == den && q % 2 == 1) then q + 1 else q
  {
    var q, r := num / den, num % den;
    QuotientIsFloor(num, den, f);
    FractionAgainstHalf(f - q as real, den as real, r as real);
    assert f.Floor == q;
  }

  lemma RemainderAlgebra(f: real, q: real, d: real, r: real, n: real)
    requires f * d == n && n == q * d + r
    ensures (f - q) * d == r
  {}

  lemma FractionAgainstHalf(t: real, d: real, r: real)
    requires d > 0.0 && t * d == r && 0.0 <= r < d
    ensures 0.0 <= t < 1.0
    ensures t < 0.5 <==> 2.0 * r < d
    ensures t == 0.5 <==> 2.0 * r == d
  {
    assert t < 0.0 ==> t * d < 0.0;
    assert t >= 1.0 ==> (t - 1.0) * d >= 0.0;
    var u := t - 0.5;
    assert u * d == r - 0.5 * d;
    assert u < 0.0 ==> u * d < 0.0;
    assert u > 0.0 ==> u * d > 0.0;
  }

  lemma QuotientBetween(n: int, d: int, e: int)
    requires 0 < d < e <= 2 * d && TWO52 * e <= n < TWO53 * e
    ensures TWO52 <= n / d < 2 * TWO53
  {
    QuotientAtLeast(n, d, TWO52);
    QuotientAtLeast(n, d, 2 * TWO53);
  }

  // 2^(b-1) <= n < 2^b, scaled by 2^j.
  lemma ShiftedBounds(n: nat, b: nat, j: nat)
    requires b >= 1 && Pow(2, b - 1) <= n < Pow(2, b)
    ensures Pow(2, b - 1 + j) <= n * Pow(2, j) < Pow(2, b + j)
  {
    hide Pow;
    PowAdd(2, b - 1, j);
    PowAdd(2, b, j);
    ShiftedBoundsAlgebra(n, Pow(2, b - 1), Pow(2, b), Pow(2, j), Pow(2, b - 1 + j), Pow(2, b + j));
  }

  lemma ShiftedBoundsAlgebra(n: int, lo: int, hi: int, p: int, lop: int, hip: int)
    requires lo <= n < hi && p > 0 && lop == lo * p && hip == hi * p
    ensures lop <= n * p < hip
  {
    assert (n - lo) * p >= 0 && (hi - n) * p > 0;
  }

  // The first estimate of the scale is within one bit: never too small, so the
  // first loop has nothing to do, and at most one bit too large.
  lemma FirstEstimate(num: nat, den: nat, s: int, n: nat, d: nat)
    requires num > 0 && den > 0 && s == 53 - (BitLength(num) - BitLength(den))
    requires n == num * Pow(2, if s >= 0 then s else 0)
    requires d == den * Pow(2, if s >= 0 then 0 else -s)
    ensures d > 0 && TWO52 <= n / d < 2 * TWO53
  {
    hide BitLength, Pow;
    var bn, bd := BitLength(num), BitLength(den);
    BitLengthBounds(num);
    BitLengthBounds(den);
    Pow52();
    var i, j := if s >= 0 then s else 0, if s >= 0 then 0 else -s;
    var t := bd + j;
    ShiftedBounds(num, bn, i);
    ShiftedBounds(den, bd, j);
    assert bn - 1 + i == 52 + t && bn + i == 53 + t && bd - 1 + j == t - 1;
    PowAdd(2, 52, t);
    PowAdd(2, 53, t);
    PowStep(2, t);
    QuotientBetween(n, d, Pow(2, t));
  }

  lemma ReachesWindow(x: real, f: real, num: int, den: int, s: int)
    requires Scaled(x, num, den, s) && f * den as real == num as real
    ensures x == f * RPow(2.0, -s)
  {
    WindowAlgebra(x, f, num as real, den as real, RPow(2.0, -s));
  }

  lemma WindowAlgebra(x: real, f: real, n: real, d: real, p: real)
    requires d > 0.0 && x * d == n * p && f * d == n
    ensures x == f * p
  {
    assert d * (f * p) == n * p;
    CancelLeft(d, x, f * p);
  }

  // The quotient in the window, rounded, is the nearest float.
  lemma QuotientIsRound53(x: real, num: nat, den: nat, s: int)
    requires Scaled(x, num, den, s) && TWO52 <= num / den < TWO53
    ensures var q, r := num / den, num % den;
            var m := if 2 * r > den || (2 * r == den && q % 2 == 1) then q + 1 else q;
            x > 0.0 && Round53(x) == Renormalise(m, -s)
  {
    var f := num as real / den as real;
    assert f * den as real == num as real;
    ReachesWindow(x, f, num, den, s);
    QuotientIsFloor(num, den, f);
    QuotientRounds(num, den, f);
    Round53InWindow(x, f, -s);
  }

  lemma QuotientAlgebra(q: int, r: int, n: int, d: int, b: int)
    requires n == q * d + r && 0 <= r < d
    ensures q >= b <==> n >= b * d
  {
    var t := q - b;
    assert t * d == n - r - b * d;
    assert t >= 0 ==> t * d >= 0;
    assert t <= -1 ==> (-1 - t) * d >= 0;
  }

  lemma QuotientAtLeast(n: int, d: int, b: int)
    requires d > 0
    ensures n / d >= b <==> n >= b * d
  {
    QuotientAlgebra(n / d, n % d, n, d, b);
  }

  lemma {:induction false} PowGrows(n: nat)
    ensures Pow(2, n) >= n + 1
  {
    if n > 0 { PowGrows(n - 1); }
  }

  // Halving a quotient of at least 2^53 leaves at least 2^52.
  lemma HalvedQuotient(num: int, den: int)
    requires den > 0 && num / den >= TWO53
    ensures num / (2 * den) >= TWO52 && num > den
  {
    QuotientAtLeast(num, den, TWO53);
    QuotientAtLeast(num, 2 * den, TWO52);
  }

  // A quotient still of at least 2^53 after j halvings was at least 2^(53+j).
  lemma ManyHalvings(num: int, den: int, p: int)
    requires den > 0 && p > 0 && den * p > 0 && num / (den * p) >= TWO53
    ensures num / den >= TWO53 * p
  {
    QuotientAtLeast(num, den * p, TWO53);
    QuotientAtLeast(num, den, TWO53 * p);
    assert TWO53 * (den * p) == (TWO53 * p) * den;
  }

  // Rounding the quotient by its remainder, ties to even, and putting back a
  // carry out of the top bit.
  method RoundQuotient(q0: nat, r: nat, den: nat, s0: int) returns (g: Float)
    requires TWO52 <= q0 < TWO53
    ensures g == Renormalise(if 2 * r > den || (2 * r == den && q0 % 2 == 1) then q0 + 1 else q0, -s0)
  {
    var q, s := q0, s0;
    if 2 * r > den || (2 * r == den && q % 2 == 1) {
      q := q + 1;
      BitLength53(q);
      if BitLength(q) > 53 {
        q, s := q / 2, s - 1;
      }
    }
    g := Float(q, -s);
  }

  // The first scaling loop: too few bits, double the numerator.
  method ScaleUp(num0: nat, den: nat, s0: int, ghost x: real) returns (num: nat, s: int, ghost rounds: nat)
    requires num0 > 0 && Scaled(x, num0, den, s0)
    ensures num > 0 && Scaled(x, num, den, s) && num / den >= TWO52
    ensures rounds > 0 ==> num0 / den < TWO52
    ensures rounds == 0 ==> num == num0
  {
    num, s, rounds := num0, s0, 0;
    ScaledPositive(x, num, den, s);
    hide BitLength, RPow, Scaled;
    while BitLength(num / den) < 53
      invariant Scaled(x, num, den, s) && num > 0
      invariant rounds > 0 ==> num0 / den < TWO52
      invariant rounds == 0 ==> num == num0
      decreases TWO52 * den - num
    {
      BitLength53(num / den);
      QuotientAtLeast(num, den, TWO52);
      ScaleNumerator(x, num, den, s);
      num, s, rounds := num * 2, s + 1, rounds + 1;
    }
    BitLength53(num / den);
  }

  lemma ScaledPositive(x: real, num: int, den: int, s: int)
    requires Scaled(x, num, den, s)
    ensures den > 0
  {}

  // The second: too many bits, double the denominator.
  method ScaleDown(num: nat, den0: nat, s0: int, ghost x: real) returns (den: nat, s: int, ghost rounds: nat)
    requires num > 0 && Scaled(x, num, den0, s0) && num / den0 >= TWO52
    ensures Scaled(x, num, den, s) && TWO52 <= num / den < TWO53
    ensures rounds > 0 ==> num / den0 >= TWO53 * Pow(2, rounds - 1)
  {
    den, s, rounds := den0, s0, 0;
    PowZero(2);
    hide BitLength, Pow, RPow;
    while BitLength(num / den) > 53
      invariant Scaled(x, num, den, s) && num / den >= TWO52
      invariant den == den0 * Pow(2, rounds)
      invariant rounds > 0 ==> num / den0 >= TWO53 * Pow(2, rounds - 1)
      decreases num - den
    {
      BitLength53(num / den);
      HalvedQuotient(num, den);
      ManyHalvings(num, den0, Pow(2, rounds));
      ScaleDenominator(x, num, den, s);
      PowStep(2, rounds + 1);
      DoubledFactor(den0, Pow(2, rounds), Pow(2, rounds + 1));
      den, s, rounds := den * 2, s - 1, rounds + 1;
    }
    BitLength53(num / den);
  }

  // num / den rounded to 53 bits, then through ldexp. The first loop never
  // runs and the second at most once.
  method RatioToDouble(num: nat, den: nat, ghost x: real)
    returns (d: Double, ghost first: nat, ghost second: nat)
    requires den > 0 && x * den as real == num as real
    ensures num == 0 ==> d == Double(false, 0, 0)
    ensures num > 0 ==> x > 0.0 && d == Ldexp(false, Round53(x))
    ensures first == 0 && second <= 1
  {
    if num == 0 {
      return Double(false, 0, 0), 0, 0;
    }
    var s := 53 - (BitLength(num) - BitLength(den));
    var n := num * Pow(2, if s >= 0 then s else 0);
    var d0 := den * Pow(2, if s >= 0 then 0 else -s);
    StartScaled(x, num, den, s);
    FirstEstimate(num, den, s, n, d0);
    n, s, first := ScaleUp(n, d0, s, x);
    d0, s, second := ScaleDown(n, d0, s, x);
    PowGrows(if second > 0 then second - 1 else 0);
    QuotientIsRound53(x, n, d0, s);
    var g := RoundQuotient(n / d0, n % d0, d0, s);
    d := Ldexp(false, g);
  }

  lemma StartScaled(x: real, num: nat, den: nat, s: int)
    requires num > 0 && den > 0 && x * den as real == num as real
    ensures var n := num * Pow(2, if s >= 0 then s else 0);
            var d := den * Pow(2, if s >= 0 then 0 else -s);
            n > 0 && d > 0 && Scaled(x, n, d, s)
  {
    RPowZero(2.0);
    assert Scaled(x, num, den, 0);
    assert Pow(2, 0) == 1;
    if s >= 0 { ScaleNumeratorBy(x, num, den, 0, s); } else { ScaleDenominatorBy(x, num, den, 0, -s); }
  }

  // ---- the text conversion ----

  predicate IsSpace(c: char) { c == ' ' || '\t' <= c <= '\r' }

  function SpaceEnd(s: string, i: nat): (e: nat)
    requires i <= |s|
    ensures i <= e <= |s| && !IsSpace(At(s, e))
    decreases |s| - i
  {
    if i < |s| && IsSpace(s[i]) then SpaceEnd(s, i + 1) else i
  }

  // The sign and the scan of a text: what parse_double reads.
  datatype Literal = Literal(neg: bool, number: Scanned)

  function Read(s: string): Literal {
    var i := SpaceEnd(s, 0);
    Literal(At(s, i) == '-', Scan(s, if IsSign(At(s, i)) then i + 1 else i))
  }

  // The datum a literal stands for: the nearest 53-bit float to the decimal it
  // denotes, brought to binary64 by ldexp, with no limit on its size.
  ghost function Meaning(l: Literal): Double {
    if l.number.NoMantissa? || l.number.sig == 0 then Double(l.neg, 0, 0)
    else
      DenotedPositive(l.number);
      Ldexp(l.neg, Round53(Denoted(l.number)))
  }

  lemma DenotedPositive(r: Scanned)
    requires r.Scanned? && r.sig > 0
    ensures Denoted(r) > 0.0
  {
    ScaleLt(RPow(10.0, r.dexp), 0.0, r.sig as real);
  }

  // ---- what a text means, spelled out ----

  // d is the datum of a text that spells a number: of its sign, and zero or
  // ldexp of the float nearest to its digits times its power of ten.
  ghost predicate IsDatumOf(t: Text, d: Double) { IsDatum(t.sign == "-", t.Significand(), t.Power(), d) }

  ghost predicate IsDatum(neg: bool, sig: int, power: int, d: Double) {
    var x := sig as real * RPow(10.0, power);
    && d.neg == neg
    && (sig == 0 ==> d == Double(neg, 0, 0))
    && (sig != 0 ==> x > 0.0 && d == Ldexp(neg, Round53(x)))
  }

  // A text that has no digit where the number should be.
  predicate SpellsNone(blanks: string, sign: string, rest: string) {
    && Blank(blanks) && IsSignText(sign) && !DigitAt(rest, 0)
    && (rest != "" && rest[0] == '.' ==> !DigitAt(rest, 1))
    && (sign == "" && rest != "" ==> rest[0] != '+' && rest[0] != '-' && !IsBlank(rest[0]))
  }

  // Every spelling is read as its datum, and no number as a zero of its sign.
  ghost predicate ReadsRight(s: string, d: Double) {
    && (forall t: Text :: t.Valid() && t.All() == s ==> IsDatumOf(t, d))
    && (forall blanks, sign, rest :: SpellsNone(blanks, sign, rest) && s == blanks + (sign + rest) ==> d == Double(sign == "-", 0, 0))
  }

  lemma {:induction false} SpaceEndIs(s: string, i: nat, j: nat)
    requires i <= j <= |s| && Blank(s[i..j]) && !IsSpace(At(s, j))
    ensures SpaceEnd(s, i) == j
    decreases j - i
  {
    if i < j {
      assert s[i..j][0] == s[i];
      assert s[i + 1..j] == s[i..j][1..];
      SpaceEndIs(s, i + 1, j);
    }
  }

  // The blanks are skipped.
  lemma BlanksSkipped(s: string, blanks: string, y: string)
    requires From(s, 0, blanks + y) && Blank(blanks) && (y == "" || !IsBlank(y[0]))
    ensures SpaceEnd(s, 0) == |blanks| && From(s, |blanks|, y)
  {
    hide SpaceEnd;
    Piece(s, 0, blanks, y);
    CharAt(s, |blanks|, y, 0);
    assert s[0..|blanks|] == blanks;
    SpaceEndIs(s, 0, |blanks|);
  }

  lemma NumberStarts(t: Text)
    requires t.Valid()
    ensures DigitAt(t.Number(), 0) || (t.Number() != "" && t.Number()[0] == '.')
    ensures t.sign + t.Number() != "" && !IsBlank((t.sign + t.Number())[0])
    ensures t.All() == t.blanks + (t.sign + t.Number()) && Blank(t.blanks) && IsSignText(t.sign)
  {
    if t.whole == "" {
      assert t.frac != "";
      assert t.Number() == t.point + (t.frac + t.Exponent());
    } else {
      assert t.Number()[0] == t.whole[0];
    }
    if t.sign == "" { assert t.sign + t.Number() == t.Number(); }
  }

  lemma ReadText(s: string, t: Text)
    requires t.Valid() && t.All() == s
    ensures t.Significand() >= 0
    ensures Read(s) == Literal(t.sign == "-", Scanned(|s| - |t.rest|, t.Significand(), t.Power()))
  {
    hide *;
    NumberStarts(t);
    AllOf(s);
    BlanksSkipped(s, t.blanks, t.sign + t.Number());
    SignAt(s, |t.blanks|, t.sign, t.Number());
    ScanNumber(s, |t.blanks| + |t.sign|, t);
    SignLength(t.sign);
    ReadIs(s);
  }

  lemma AllOf(s: string)
    ensures From(s, 0, s)
  {}

  lemma SignLength(sign: string)
    requires IsSignText(sign)
    ensures |sign| == if sign == "" then 0 else 1
  {}

  lemma ReadIs(s: string)
    ensures var i := SpaceEnd(s, 0);
            Read(s) == Literal(At(s, i) == '-', Scan(s, if IsSign(At(s, i)) then i + 1 else i))
  {}

  lemma ReadNone(s: string, blanks: string, sign: string, rest: string)
    requires SpellsNone(blanks, sign, rest) && s == blanks + (sign + rest)
    ensures Read(s) == Literal(sign == "-", NoMantissa)
  {
    hide Scan, SpaceEnd, From, At;
    AllOf(s);
    NoneStarts(sign, rest);
    BlanksSkipped(s, blanks, sign + rest);
    CharAt(s, |blanks|, sign + rest, 0);
    Piece(s, |blanks|, sign, rest);
    ScanNone(s, |blanks| + |sign|, rest);
    SignLength(sign);
  }

  lemma NoneStarts(sign: string, rest: string)
    requires SpellsNone("", sign, rest)
    ensures sign + rest == "" || !IsBlank((sign + rest)[0])
    ensures (At(sign + rest, 0) == '-' <==> sign == "-") && (IsSign(At(sign + rest, 0)) <==> sign != "")
  {}

  lemma ScanNone(s: string, i: nat, rest: string)
    requires From(s, i, rest) && !DigitAt(rest, 0) && (rest != "" && rest[0] == '.' ==> !DigitAt(rest, 1))
    ensures Scan(s, i) == NoMantissa
  {
    CharAt(s, i, rest, 0);
    CharAt(s, i, rest, 1);
  }

  // And there is no other text: each spells a number or none.
  lemma EveryText(s: string) returns (number: bool, t: Text, blanks: string, sign: string, rest: string)
    ensures if number then t.Valid() && t.All() == s else SpellsNone(blanks, sign, rest) && s == blanks + (sign + rest)
  {
    var i := SpaceEnd(s, 0);
    SkippedBlank(s, 0);
    blanks := s[..i];
    assert s[0..i] == blanks;
    var p := if IsSign(At(s, i)) then i + 1 else i;
    sign, rest := s[i..p], s[p..];
    assert s == blanks + (sign + rest);
    t := Text(blanks, sign, "", "", "", "", "", "", "");
    var a := RunEnd(s, p);
    var f := if At(s, a) == '.' then a + 1 else a;
    var b := RunEnd(s, f);
    number := p < a || f < b;
    if number {
      t := NumberSpelled(s, i, p, a, f, b, blanks, sign);
    } else {
      NoneSpelled(s, i, p, blanks, sign, rest);
    }
  }

  lemma {:induction false} SkippedBlank(s: string, i: nat)
    requires i <= |s|
    ensures Blank(s[i..SpaceEnd(s, i)])
    decreases |s| - i
  {
    if i < |s| && IsSpace(s[i]) {
      SkippedBlank(s, i + 1);
      var e := SpaceEnd(s, i + 1);
      assert s[i..e] == [s[i]] + s[i + 1..e];
    }
  }

  lemma NoneSpelled(s: string, i: nat, p: nat, blanks: string, sign: string, rest: string)
    requires i == SpaceEnd(s, 0) && p == (if IsSign(At(s, i)) then i + 1 else i) && p <= |s|
    requires blanks == s[..i] && Blank(blanks) && sign == s[i..p] && rest == s[p..]
    requires RunEnd(s, p) == p && (At(s, p) == '.' ==> RunEnd(s, p + 1) == p + 1)
    ensures SpellsNone(blanks, sign, rest)
  {
    hide SpaceEnd;
    SignSlice(s, i, p);
    assert forall k :: 0 <= k < |rest| ==> rest[k] == s[p + k];
  }

  lemma SignSlice(s: string, i: nat, p: nat)
    requires p == (if IsSign(At(s, i)) then i + 1 else i) && p <= |s|
    ensures IsSignText(s[i..p]) && (s[i..p] == "" <==> i == p)
  {
    if i < p { assert s[i..p] == [s[i]]; }
  }

  lemma NumberSpelled(s: string, i: nat, p: nat, a: nat, f: nat, b: nat, blanks: string, sign: string) returns (t: Text)
    requires i <= p <= |s| && p == (if IsSign(At(s, i)) then i + 1 else i)
    requires blanks == s[..i] && Blank(blanks) && sign == s[i..p]
    requires a == RunEnd(s, p) && f == (if At(s, a) == '.' then a + 1 else a) && b == RunEnd(s, f) && (p < a || f < b)
    ensures t.Valid() && t.All() == s
  {
    hide *;
    SignSlice(s, i, p);
    RunStops(s, p);
    PointWithin(s, a);
    RunStops(s, f);
    var d := if IsSign(At(s, b + 1)) then b + 2 else b + 1;
    if IsExponentMark(At(s, b)) && IsDigit(At(s, d)) {
      t := MarkedSpelled(s, i, p, a, f, b, blanks, sign, d);
    } else {
      t := UnmarkedSpelled(s, i, p, a, f, b, blanks, sign);
    }
  }

  lemma MarkedSpelled(s: string, i: nat, p: nat, a: nat, f: nat, b: nat, blanks: string, sign: string, d: nat) returns (t: Text)
    requires i <= p <= |s| && p == (if IsSign(At(s, i)) then i + 1 else i)
    requires blanks == s[..i] && Blank(blanks) && sign == s[i..p] && IsSignText(sign)
    requires a == RunEnd(s, p) && f == (if At(s, a) == '.' then a + 1 else a) && b == RunEnd(s, f) && (p < a || f < b)
    requires p <= a <= f <= b <= |s| && Digits(s[p..a]) && Digits(s[f..b])
    requires IsExponentMark(At(s, b)) && d == (if IsSign(At(s, b + 1)) then b + 2 else b + 1) && IsDigit(At(s, d))
    ensures t.Valid() && t.All() == s
  {
    hide *;
    RunMoves(s, d);
    var e := RunEnd(s, d);
    MarkAt(s, b, d);
    t := Text(blanks, sign, s[p..a], s[a..f], s[f..b], s[b..b + 1], s[b + 1..d], s[d..e], s[e..]);
    MarkedJoin(s, i, p, a, f, b, d, e, t);
    PartsValid(s, p, a, f, b, t);
    MarkedParts(s, b, d, e, t);
  }

  lemma MarkedJoin(s: string, i: nat, p: nat, a: nat, f: nat, b: nat, d: nat, e: nat, t: Text)
    requires i <= p <= a <= f <= b < d <= e <= |s|
    requires t == Text(s[..i], s[i..p], s[p..a], s[a..f], s[f..b], s[b..b + 1], s[b + 1..d], s[d..e], s[e..])
    ensures t.All() == s
  {
    hide *;
    PiecesJoin(s, i, p, a, f, b, b + 1, d, e);
    AllIs(t);
  }

  lemma MarkedParts(s: string, b: nat, d: nat, e: nat, t: Text)
    requires Blank(t.blanks) && IsSignText(t.sign) && Digits(t.whole) && Digits(t.frac) && t.whole + t.frac != ""
    requires (t.point == "" || t.point == ".") && (t.point == "" ==> t.frac == "")
    requires d == (if IsSign(At(s, b + 1)) then b + 2 else b + 1) && b + 1 <= d < e <= |s|
    requires t.mark == s[b..b + 1] && (t.mark == "e" || t.mark == "E")
    requires t.expSign == s[b + 1..d] && t.expDigits == s[d..e] && t.rest == s[e..]
    requires Digits(s[d..e]) && s[d..e] != "" && !IsDigit(At(s, e))
    ensures t.Valid()
  {
    hide *;
    SignSlice(s, b + 1, d);
    MarkedValid(s, e, t);
  }

  lemma UnmarkedSpelled(s: string, i: nat, p: nat, a: nat, f: nat, b: nat, blanks: string, sign: string) returns (t: Text)
    requires i <= p <= |s| && p == (if IsSign(At(s, i)) then i + 1 else i)
    requires blanks == s[..i] && Blank(blanks) && sign == s[i..p] && IsSignText(sign)
    requires a == RunEnd(s, p) && f == (if At(s, a) == '.' then a + 1 else a) && b == RunEnd(s, f) && (p < a || f < b)
    requires p <= a <= f <= b <= |s| && Digits(s[p..a]) && Digits(s[f..b])
    requires !(IsExponentMark(At(s, b)) && IsDigit(At(s, if IsSign(At(s, b + 1)) then b + 2 else b + 1)))
    ensures t.Valid() && t.All() == s
  {
    hide *;
    t := Text(blanks, sign, s[p..a], s[a..f], s[f..b], "", "", "", s[b..]);
    JoinNone(s, i, p, a, f, b);
    AllIs(t);
    PartsValid(s, p, a, f, b, t);
    UnmarkedValid(s, b, t);
  }

  lemma JoinNone(s: string, i: nat, p: nat, a: nat, f: nat, b: nat)
    requires i <= p <= a <= f <= b <= |s|
    ensures s == s[..i] + (s[i..p] + (s[p..a] + (s[a..f] + (s[f..b] + ("" + ("" + ("" + s[b..])))))))
  {
    PiecesJoin(s, i, p, a, f, b, b, b, b);
    assert s[b..b] == "";
  }

  lemma PointWithin(s: string, a: nat)
    requires a <= |s|
    ensures At(s, a) == '.' ==> a < |s|
  {}

  lemma MarkAt(s: string, b: nat, d: nat)
    requires IsExponentMark(At(s, b)) && d == (if IsSign(At(s, b + 1)) then b + 2 else b + 1) && IsDigit(At(s, d))
    ensures b + 1 <= d < |s| && (s[b..b + 1] == "e" || s[b..b + 1] == "E")
  {
    assert s[b..b + 1] == [s[b]];
  }

  lemma AllIs(t: Text)
    ensures t.All() == t.blanks + (t.sign + (t.whole + (t.point + (t.frac + (t.mark + (t.expSign + (t.expDigits + t.rest)))))))
  {}

  lemma MarkedValid(s: string, e: nat, t: Text)
    requires Blank(t.blanks) && IsSignText(t.sign) && Digits(t.whole) && Digits(t.frac) && t.whole + t.frac != ""
    requires (t.point == "" || t.point == ".") && (t.point == "" ==> t.frac == "")
    requires (t.mark == "e" || t.mark == "E") && IsSignText(t.expSign) && Digits(t.expDigits) && t.expDigits != ""
    requires e <= |s| && t.rest == s[e..] && !IsDigit(At(s, e))
    ensures t.Valid()
  {
    hide Digits, Blank, IsSignText;
  }

  lemma UnmarkedValid(s: string, b: nat, t: Text)
    requires Blank(t.blanks) && IsSignText(t.sign) && Digits(t.whole) && Digits(t.frac) && t.whole + t.frac != ""
    requires (t.point == "" || t.point == ".") && (t.point == "" ==> t.frac == "")
    requires t.mark == "" && t.expSign == "" && t.expDigits == "" && b <= |s| && t.rest == s[b..]
    requires !IsDigit(At(s, b)) && (t.point == "" ==> At(s, b) != '.')
    requires !(IsExponentMark(At(s, b)) && IsDigit(At(s, if IsSign(At(s, b + 1)) then b + 2 else b + 1)))
    ensures t.Valid()
  {
    assert Digits("") && IsSignText("");
    assert forall k :: 0 <= k < |t.rest| ==> t.rest[k] == s[b + k];
    hide Digits, Blank, IsSignText;
  }

  lemma RunMoves(s: string, d: nat)
    requires IsDigit(At(s, d))
    ensures d < RunEnd(s, d) <= |s| && Digits(s[d..RunEnd(s, d)]) && s[d..RunEnd(s, d)] != "" && !IsDigit(At(s, RunEnd(s, d)))
  {}

  lemma PartsValid(s: string, p: nat, a: nat, f: nat, b: nat, t: Text)
    requires a == RunEnd(s, p) && f == (if At(s, a) == '.' then a + 1 else a) && b == RunEnd(s, f)
    requires (p < a || f < b) && p <= a <= f <= b <= |s| && t.whole == s[p..a] && t.point == s[a..f] && t.frac == s[f..b]
    ensures Digits(t.whole) && Digits(t.frac) && (t.point == "" || t.point == ".") && (t.point == "" ==> t.frac == "")
    ensures t.whole + t.frac != ""
    ensures !IsDigit(At(s, b)) && (t.point == "" ==> At(s, b) != '.')
  {
    RunStops(s, p);
    RunStops(s, f);
    hide RunEnd;
    if f == a + 1 { assert t.point == [s[a]]; }
    assert |t.whole| + |t.frac| > 0;
  }

  lemma RunStops(s: string, i: nat)
    requires i <= |s|
    ensures i <= RunEnd(s, i) <= |s| && Digits(s[i..RunEnd(s, i)]) && !IsDigit(At(s, RunEnd(s, i)))
    ensures !IsDigit(At(s, i)) ==> RunEnd(s, i) == i
  {}

  lemma PiecesJoin(s: string, i: nat, p: nat, a: nat, f: nat, b: nat, m: nat, d: nat, e: nat)
    requires i <= p <= a <= f <= b <= m <= d <= e <= |s|
    ensures s == s[..i] + (s[i..p] + (s[p..a] + (s[a..f] + (s[f..b] + (s[b..m] + (s[m..d] + (s[d..e] + s[e..])))))))
  {
    JoinAt(s, d, e);
    JoinAt(s, m, d);
    JoinAt(s, b, m);
    JoinAt(s, f, b);
    JoinAt(s, a, f);
    JoinAt(s, p, a);
    JoinAt(s, i, p);
    assert s == s[..i] + s[i..];
  }

  lemma JoinAt(s: string, i: nat, j: nat)
    requires i <= j <= |s|
    ensures s[i..] == s[i..j] + s[j..]
  {}

  lemma MeaningReadsRight(s: string)
    ensures ReadsRight(s, Meaning(Read(s)))
  {
    hide Meaning, Read, Round53, RPow, Ldexp, SpellsNone, Text.Valid, Text.All, Text.Significand, Text.Power;
    forall t: Text | t.Valid() && t.All() == s ensures IsDatumOf(t, Meaning(Read(s))) {
      DatumOfText(s, t);
    }
    forall blanks, sign, rest | SpellsNone(blanks, sign, rest) && s == blanks + (sign + rest)
      ensures Meaning(Read(s)) == Double(sign == "-", 0, 0)
    {
      ReadNone(s, blanks, sign, rest);
      MeaningCases(Read(s));
    }
  }

  lemma DatumOfText(s: string, t: Text)
    requires t.Valid() && t.All() == s
    ensures IsDatumOf(t, Meaning(Read(s)))
  {
    ReadText(s, t);
    DatumOfLiteral(Read(s));
    hide Read, Meaning, IsDatum;
  }

  lemma DatumOfLiteral(l: Literal)
    requires l.number.Scanned?
    ensures IsDatum(l.neg, l.number.sig, l.number.dexp, Meaning(l))
  {
    hide Meaning, Ldexp, RPow;
    MeaningCases(l);
    if l.number.sig != 0 {
      var x := Denoted(l.number);
      LdexpNeg(l.neg, Round53(x));
      DatumIs(l.neg, l.number.sig, l.number.dexp, x, Meaning(l));
    }
  }

  lemma DatumIs(neg: bool, sig: int, power: int, x: real, d: Double)
    requires sig != 0 && x == sig as real * RPow(10.0, power) && x > 0.0 && d == Ldexp(neg, Round53(x)) && d.neg == neg
    ensures IsDatum(neg, sig, power, d)
  {
    hide Ldexp, RPow, Round53;
  }

  lemma LdexpNeg(neg: bool, g: Float)
    ensures Ldexp(neg, g).neg == neg
  {}

  // mpz_sizeinbase(n, 10) is the number of decimal digits or one more.
  function DecimalLength(n: nat): (b: nat)
    ensures b >= 1
  {
    if n < 10 then 1 else 1 + DecimalLength(n / 10)
  }

  lemma {:induction false} DecimalLengthBounds(n: nat)
    requires n > 0
    ensures Pow(10, DecimalLength(n) - 1) <= n < Pow(10, DecimalLength(n))
  {
    if n >= 10 {
      DecimalLengthBounds(n / 10);
    } else {
      assert Pow(10, 1) == 10 * Pow(10, 0);
    }
  }

  // Rounding never crosses a float.
  lemma RoundsAtLeast(x: real, h: Float)
    requires h.Normal() && x > 0.0 && x >= h.Value()
    ensures Round53(x).Value() >= h.Value()
  {}

  lemma RoundsAtMost(x: real, h: Float)
    requires h.Normal() && x > 0.0 && x <= h.Value()
    ensures Round53(x).Value() <= h.Value()
  {}

  // ---- the shortcuts on the decimal size change nothing ----

  // 10^7 > 2^23 and 10^-7 < 2^-23.
  lemma {:induction false} SevenDigits(n: nat)
    ensures RPow(10.0, 7 * n) >= RPow(2.0, 23 * n)
    ensures RPow(10.0, -(7 * n)) <= RPow(2.0, -(23 * n))
  {
    hide *;
    RPowZero(10.0);
    RPowZero(2.0);
    if n > 0 {
      SevenDigits(n - 1);
      SevenDigitsBase();
      RPowAdd(10.0, 7 * (n - 1), 7);
      RPowAdd(2.0, 23 * (n - 1), 23);
      RPowAdd(10.0, -(7 * (n - 1)), -7);
      RPowAdd(2.0, -(23 * (n - 1)), -23);
      assert 7 * (n - 1) + 7 == 7 * n && 23 * (n - 1) + 23 == 23 * n;
      assert -(7 * (n - 1)) + -7 == -(7 * n) && -(23 * (n - 1)) + -23 == -(23 * n);
      ProductMono(RPow(2.0, 23 * (n - 1)), RPow(10.0, 7 * (n - 1)), RPow(2.0, 23), RPow(10.0, 7));
      ProductMono(RPow(10.0, -(7 * (n - 1))), RPow(2.0, -(23 * (n - 1))), RPow(10.0, -7), RPow(2.0, -23));
    }
  }

  lemma ProductMono(a: real, b: real, c: real, d: real)
    requires 0.0 < a <= b && 0.0 < c <= d
    ensures a * c <= b * d
  {
    ScaleLe(a, c, d);
    ScaleLe(d, a, b);
  }

  lemma SevenDigitsBase()
    ensures RPow(10.0, 7) >= RPow(2.0, 23)
    ensures RPow(10.0, -7) <= RPow(2.0, -23)
  {
    RPowOfNat(10, 7);
    RPowOfNat(2, 23);
    PowAdd(2, 10, 13);
    assert Pow(2, 10) == 1024;
    assert Pow(2, 13) == 8192;
    assert Pow(10, 7) == 10000000;
    RPowInverse(10.0, 7);
    RPowInverse(2.0, 23);
    SmallerReciprocal(RPow(10.0, 7), RPow(2.0, 23), RPow(10.0, -7), RPow(2.0, -23));
  }

  lemma SmallerReciprocal(a: real, b: real, a': real, b': real)
    requires a >= b > 0.0 && a' > 0.0 && b' > 0.0 && a' * a == 1.0 && b' * b == 1.0
    ensures a' <= b'
  {
    assert a' > b' ==> a' * a > b' * a >= b' * b;
  }

  // A value of at least 10^339 overflows.
  lemma HugeIsInfinite(neg: bool, x: real)
    requires x >= RPow(10.0, 339)
    ensures Ldexp(neg, Round53(x)) == Infinity(neg)
  {
    hide *;
    SevenDigits(48);
    RPowMono(10.0, 336, 339);
    RPowMono(2.0, 1024, 1104);
    var h := Float(TWO52, 972);
    PowerValue(972);
    RoundsAtLeast(x, h);
    LargeExponent(Round53(x), 972);
    LdexpHuge(neg, Round53(x));
  }

  lemma PowerValue(k: int)
    ensures Float(TWO52, k).Normal() && Float(TWO52, k).Value() == RPow(2.0, k + 52)
  {
    hide RPow, Pow;
    RPowAdd(2.0, 52, k);
    RPowOfNat(2, 52);
    Pow52();
  }

  lemma LdexpHuge(neg: bool, g: Float)
    requires g.exp >= 972
    ensures Ldexp(neg, g) == Infinity(neg)
  {}

  // A normal float of value at least 2^(k+52) has exponent at least k.
  lemma LargeExponent(g: Float, k: int)
    requires g.Normal() && g.Value() >= Float(TWO52, k).Value()
    ensures g.exp >= k
  {
    hide RPow;
    var y := OnScale(g, k);
    CompareScaledValues(TWO52 as real, y, RPow(2.0, k));
  }

  lemma CompareScaledValues(a: real, b: real, p: real)
    requires p > 0.0 && a * p <= b * p
    ensures a <= b
  {
    assert b < a ==> b * p < a * p;
  }

  // A value below 10^-340 vanishes.
  lemma TinyIsZero(neg: bool, x: real)
    requires 0.0 < x <= RPow(10.0, -340)
    ensures Ldexp(neg, Round53(x)) == Double(neg, 0, 0)
  {
    hide *;
    SevenDigits(48);
    RPowMono(10.0, -340, -336);
    var h := Float(TWO52, -1156);
    PowerValue(-1156);
    RoundsAtMost(x, h);
    SmallExponent(Round53(x), -1156);
    LdexpTiny(neg, Round53(x));
  }

  lemma SmallExponent(g: Float, k: int)
    requires g.Normal() && g.Value() <= Float(TWO52, k).Value()
    ensures g.exp <= k
  {
    hide RPow;
    var y := OnScale(g, k);
    CompareScaledValues(y, TWO52 as real, RPow(2.0, k));
  }

  lemma LdexpTiny(neg: bool, g: Float)
    requires g.Normal() && g.exp <= -1156
    ensures Ldexp(neg, g) == Double(neg, 0, 0)
  {
    hide Pow;
    var n := -1074 - g.exp;
    PowMono(2, 53 + 1, n);
    Pow52();
    PowStep(2, 54);
    TinyQuotient(g.mant as real, Pow(2, n) as real);
  }

  lemma TinyQuotient(m: real, p: real)
    requires 0.0 < m < TWO53 as real && p >= 2.0 * TWO53 as real
    ensures RoundHalfEven(m / p) == 0
  {
    var y := m / p;
    assert y * p == m;
    assert y >= 0.5 ==> (y - 0.5) * p >= 0.0;
    assert y < 0.0 ==> y * p < 0.0;
    RoundHalfEvenUnique(y, 0);
  }

  // The size parse_double computes from GMP's digit estimate.
  lemma SizeBounds(r: Scanned, mag: int, slack: int)
    requires r.Scanned? && r.sig > 0 && 0 <= slack <= 1
    requires mag == DecimalLength(r.sig) + slack + r.dexp
    ensures mag > 340 ==> Denoted(r) >= RPow(10.0, 339)
    ensures mag < -340 ==> 0.0 < Denoted(r) <= RPow(10.0, -340)
  {
    hide DecimalLength, RPow, Pow;
    var n := DecimalLength(r.sig);
    DecimalLengthBounds(r.sig);
    DenotedPositive(r);
    RPowOfNat(10, n - 1);
    RPowOfNat(10, n);
    SizeScaled(r.sig as real, RPow(10.0, n - 1), RPow(10.0, n), RPow(10.0, r.dexp), Denoted(r));
    RPowAdd(10.0, n - 1, r.dexp);
    RPowAdd(10.0, n, r.dexp);
    if mag > 340 { RPowMono(10.0, 339, n - 1 + r.dexp); }
    if mag < -340 { RPowMono(10.0, n + r.dexp, -340); }
  }

  lemma SizeScaled(m: real, lo: real, hi: real, p: real, v: real)
    requires lo <= m < hi && p > 0.0 && v == m * p
    ensures lo * p <= v <= hi * p
  {
    assert (m - lo) * p >= 0.0 && (hi - m) * p >= 0.0;
  }

  // What the shortcuts return is what the division would have.
  lemma ShortcutsAgree(l: Literal, slack: int)
    requires l.number.Scanned? && l.number.sig > 0 && 0 <= slack <= 1
    ensures var mag := DecimalLength(l.number.sig) + slack + l.number.dexp;
            && (mag > 340 ==> Meaning(l) == Infinity(l.neg))
            && (mag < -340 ==> Meaning(l) == Double(l.neg, 0, 0))
  {
    hide Denoted, RPow, Ldexp, Round53, DecimalLength;
    var mag := DecimalLength(l.number.sig) + slack + l.number.dexp;
    SizeBounds(l.number, mag, slack);
    DenotedPositive(l.number);
    if mag > 340 { HugeIsInfinite(l.neg, Denoted(l.number)); }
    if mag < -340 { TinyIsZero(l.neg, Denoted(l.number)); }
  }

  // sig * 10^dexp as the fraction handed to ratio_to_double.
  lemma DecimalFraction(r: Scanned)
    requires r.Scanned?
    ensures var num := if r.dexp >= 0 then r.sig * Pow(10, r.dexp) else r.sig;
            var den := if r.dexp >= 0 then 1 else Pow(10, -r.dexp);
            Denoted(r) * den as real == num as real
  {
    hide RPow, Pow;
    if r.dexp >= 0 {
      RPowOfNat(10, r.dexp);
      CastProduct(r.sig, Pow(10, r.dexp));
    } else {
      RPowOfNat(10, -r.dexp);
      RPowInverse(10.0, -r.dexp);
      FractionAlgebra(r.sig as real, RPow(10.0, r.dexp), RPow(10.0, -r.dexp), Denoted(r));
    }
  }

  lemma FractionAlgebra(n: real, p: real, q: real, v: real)
    requires p * q == 1.0 && v == n * p
    ensures v * q == n
  {
    assert v * q == n * (p * q);
  }

  function Negated(d: Double): Double { d.(neg := !d.neg) }

  lemma LdexpSign(g: Float)
    ensures Ldexp(true, g) == Negated(Ldexp(false, g))
  {}

  // integerToDoubleSlow: a big integer over one, rounded to nearest.
  method IntegerToDouble(n: int) returns (d: Double)
    requires n != 0
    ensures var mag := (if n < 0 then -n else n) as real;
            mag > 0.0 && d == Ldexp(n < 0, Round53(mag))
    ensures d.neg <==> n < 0
  {
    var mag := if n < 0 then -n else n;
    ghost var first, second;
    d, first, second := RatioToDouble(mag, 1, mag as real);
    LdexpSign(Round53(mag as real));
    LdexpNeg(n < 0, Round53(mag as real));
    if n < 0 {
      d := Negated(d);
    }
  }

  // The value of the scanned literal, before the sign is put back. slack is
  // how far GMP's digit count is above the exact one.
  method ConvertMagnitude(r: Scanned, slack: nat) returns (d: Double)
    requires slack <= 1
    ensures d == Meaning(Literal(false, r))
  {
    hide Meaning, RPow, Pow, Denoted, DecimalLength, Ldexp, Round53;
    MeaningCases(Literal(false, r));
    if r.NoMantissa? || r.sig == 0 {
      return Double(false, 0, 0);
    }
    var mag := DecimalLength(r.sig) + slack + r.dexp;
    ShortcutsAgree(Literal(false, r), slack);
    if mag > 340 {
      return Infinity(false);
    }
    if mag < -340 {
      return Double(false, 0, 0);
    }
    DecimalFraction(r);
    var num := if r.dexp >= 0 then r.sig * Pow(10, r.dexp) else r.sig;
    var den := if r.dexp >= 0 then 1 else Pow(10, -r.dexp);
    NonZeroProduct(r.sig, Pow(10, if r.dexp >= 0 then r.dexp else 0));
    ghost var first, second;
    d, first, second := RatioToDouble(num, den, Denoted(r));
  }

  lemma NonZeroProduct(m: nat, p: nat)
    requires m > 0 && p > 0
    ensures m * p > 0
  {}

  lemma MeaningCases(l: Literal)
    ensures l.number.NoMantissa? || l.number.sig == 0 ==> Meaning(l) == Double(l.neg, 0, 0)
    ensures l.number.Scanned? && l.number.sig > 0 ==>
              Denoted(l.number) > 0.0 && Meaning(l) == Ldexp(l.neg, Round53(Denoted(l.number)))
  {
    if l.number.Scanned? && l.number.sig > 0 { DenotedPositive(l.number); }
  }

  lemma MeaningNegated(r: Scanned)
    ensures Meaning(Literal(true, r)) == Negated(Meaning(Literal(false, r)))
  {
    MeaningCases(Literal(true, r));
    MeaningCases(Literal(false, r));
    if r.Scanned? && r.sig > 0 { LdexpSign(Round53(Denoted(r))); }
  }

  method SkipSpaces(s: string) returns (p: nat)
    ensures p == SpaceEnd(s, 0)
  {
    p := 0;
    while IsSpace(At(s, p))
      invariant p <= |s| && SpaceEnd(s, 0) == SpaceEnd(s, p)
      decreases |s| - p
    {
      p := p + 1;
    }
  }

  // parse_double: every text, whatever GMP's digit estimate, gives the datum
  // its literal stands for.
  method ParseDouble(s: string, slack: nat) returns (d: Double)
    requires slack <= 1
    ensures d == Meaning(Read(s)) && ReadsRight(s, d)
  {
    MeaningReadsRight(s);
    hide Meaning, Scan, SpaceEnd, ReadsRight;
    var p := SkipSpaces(s);
    var neg := false;
    if At(s, p) == '+' || At(s, p) == '-' {
      neg := At(s, p) == '-';
      p := p + 1;
    }
    var r := ScanDecimal(s, p);
    d := ConvertMagnitude(r, slack);
    MeaningNegated(r);
    if neg {
      d := Negated(d);
    }
  }
}
