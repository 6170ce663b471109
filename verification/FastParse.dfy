// The table-driven fast parser of Data.Double.Convert, and the proof that it
// never differs from the exact one.
module FastParse {
  import opened Powers
  import opened Rounding
  import opened Decimal
  import opened DoubleParser
  import opened DoubleTables

  const TWO63: int := 0x8000_0000_0000_0000
  const TWO64: int := 0x1_0000_0000_0000_0000
  const QMIN: int := -342
  const QMAX: int := 308
  const AMBIGUITY_DELTA: int := 0x10_0000

  predicate IsWord(x: int) { 0 <= x < TWO64 }

  // ---- the table of powers of five ----

  datatype Pow5Entry = Pow5Entry(hi: nat, lo: nat, e: int)
  {
    predicate Words() { IsWord(hi) && IsWord(lo) }
    function Significand(): nat { hi * TWO64 + lo }
  }

  ghost predicate GoodEntry(ent: Pow5Entry, q: int) {
    ent.Words() && RoundedEntry(RPow(5.0, q), 128, ent.Significand(), ent.e)
  }

  ghost predicate GoodTable(table: seq<Pow5Entry>) {
    && |table| == QMAX - QMIN + 1
    && forall i :: 0 <= i < |table| ==> GoodEntry(table[i], QMIN + i)
  }

  lemma Pow128()
    ensures Pow(2, 128) == TWO64 * TWO64 && Pow(2, 127) == TWO63 * TWO64
    ensures Pow(2, 64) == TWO64 && Pow(2, 63) == TWO63
  {
    Pow52();
    PowAdd(2, 52, 12);
    PowAdd(2, 52, 11);
    assert Pow(2, 12) == 4096;
    assert Pow(2, 11) == 2048;
    PowAdd(2, 64, 64);
    PowAdd(2, 63, 64);
  }

  // What the generator prints is a good table.
  method MakePow5Table() returns (table: seq<Pow5Entry>)
    ensures GoodTable(table) && |table| == 651
  {
    table := [];
    for q := QMIN to QMAX + 1
      invariant |table| == q - QMIN
      invariant forall i :: 0 <= i < |table| ==> GoodEntry(table[i], QMIN + i)
    {
      ghost var adjustments;
      var M, E;
      M, E, adjustments := ComputeNormalizedPow(5, q, 128);
      EntryWords(q, M, E);
      table := table + [Pow5Entry(M / TWO64, M % TWO64, E)];
    }
  }

  lemma EntryWords(q: int, M: nat, E: int)
    requires RoundedEntry(RPow(5 as real, q), 128, M, E)
    ensures GoodEntry(Pow5Entry(M / TWO64, M % TWO64, E), q)
  {
    hide RPow, Pow;
    Pow128();
    assert 5 as real == 5.0;
  }

  // ---- 64 x 128 bits ----

  function UpperProduct(a: nat, b: nat): nat { a * b / TWO64 }

  // The upper 128 bits of the 192-bit product, exactly.
  method MulHi128(a: nat, bHi: nat, bLo: nat) returns (hi: nat, lo: nat)
    requires IsWord(a) && IsWord(bHi) && IsWord(bLo)
    ensures IsWord(hi) && IsWord(lo)
    ensures hi * TWO64 + lo == UpperProduct(a, bHi * TWO64 + bLo)
  {
    var hiPart := a * bHi;
    var loCarry := a * bLo / TWO64;
    var p := hiPart + loCarry;
    HighProduct(a, bHi, bLo, p);
    hi := p / TWO64;
    lo := p % TWO64;
  }

  lemma HighProduct(a: nat, bHi: nat, bLo: nat, p: nat)
    requires IsWord(a) && IsWord(bHi) && IsWord(bLo) && p == a * bHi + a * bLo / TWO64
    ensures p == a * (bHi * TWO64 + bLo) / TWO64
    ensures p < TWO64 * TWO64
  {
    var l := a * bLo;
    var c, d := l / TWO64, l % TWO64;
    assert a * (bHi * TWO64 + bLo) == (a * bHi) * TWO64 + l;
    assert a * (bHi * TWO64 + bLo) == p * TWO64 + d;
    ProductAtMost(a, bHi, TWO64 - 1);
    ProductAtMost(a, bLo, TWO64 - 1);
  }

  lemma ProductAtMost(a: int, b: int, m: int)
    requires 0 <= a <= m && 0 <= b <= m
    ensures a * b <= m * m
  {
    assert (m - a) * b >= 0;
    assert m * (m - b) >= 0;
  }

  // ---- the arithmetic of the fast path ----

  // The normalised upper product N: bit 127 set, from a product P whose top
  // bit is 126 or 127.
  ghost predicate Normalised(P: nat, N: nat, extra: nat) {
    if P < TWO63 * TWO64 then N == 2 * P && extra == 1 else N == P && extra == 0
  }

  lemma ProductSize(wn: nat, M: nat, P: nat)
    requires TWO63 <= wn < TWO64 && TWO63 * TWO64 <= M < TWO64 * TWO64
    requires P == UpperProduct(wn, M)
    ensures TWO63 * TWO63 <= P < TWO64 * TWO64
  {
    ProductBetween(wn, M, TWO63, TWO64, TWO63 * TWO64, TWO64 * TWO64);
  }

  lemma ProductBetween(a: int, b: int, lo1: int, hi1: int, lo2: int, hi2: int)
    requires 0 < lo1 <= a < hi1 && 0 < lo2 <= b < hi2
    ensures lo1 * lo2 <= a * b < hi1 * hi2
  {
    assert (a - lo1) * b >= 0 && lo1 * (b - lo2) >= 0;
    assert (hi1 - a) * b > 0 && hi1 * (hi2 - b) > 0;
  }

  // The exact product T, from the rounded table entry, to within half of wn.
  lemma ExactProduct(wn: nat, M: nat, v: real, T: real, P: nat)
    requires 0 < wn < TWO64 && Abs(M as real - v) <= 0.5 && T == wn as real * v
    requires P == UpperProduct(wn, M)
    ensures (TWO64 * P) as real - TWO63 as real < T < (TWO64 * P) as real + TWO64 as real + TWO63 as real
  {
    CastProduct(wn, M);
    ErrorBound(wn as real, M as real, v, (wn * M) as real, T);
    assert TWO64 * P <= wn * M < TWO64 * P + TWO64;
  }

  lemma ErrorBound(c: real, m: real, v: real, cm: real, T: real)
    requires c > 0.0 && Abs(m - v) <= 0.5 && cm == c * m && T == c * v
    ensures cm - 0.5 * c <= T <= cm + 0.5 * c
  {
    var u := m - v;
    assert c * u == cm - T;
    assert c * (0.5 - u) >= 0.0;
    assert c * (u + 0.5) >= 0.0;
  }

  // The same bounds after the normalising doubling.
  lemma NormalisedBounds(P: nat, N: nat, extra: nat, T: real, t: real)
    requires Normalised(P, N, extra) && t == T * (if extra == 1 then 2.0 else 1.0)
    requires (TWO64 * P) as real - TWO63 as real < T < (TWO64 * P) as real + TWO64 as real + TWO63 as real
    ensures (TWO64 * N) as real - TWO64 as real < t < (TWO64 * N) as real + (3 * TWO64) as real
  {}

  // The window value f = T * 2^extra / 2^139 against the bits that were kept:
  // the guard keeps both ends of its range inside one half unit.
  lemma KeptBits(N: nat, t: real, f: real, hi: nat, lo: nat)
    requires N == hi * TWO64 + lo && IsWord(lo) && TWO63 <= hi < TWO64
    requires AMBIGUITY_DELTA <= lo <= TWO64 - 1 - AMBIGUITY_DELTA
    requires (TWO64 * N) as real - TWO64 as real < t < (TWO64 * N) as real + (3 * TWO64) as real
    requires f * (TWO64 * TWO64 * 2048) as real == t
    ensures var m, b := hi / 1024 / 2, hi / 1024 % 2;
            && TWO52 <= m < TWO53
            && TWO52 as real <= f < TWO53 as real
            && RoundHalfEven(f) == m + b
  {
    var m, b, low := hi / 1024 / 2, hi / 1024 % 2, hi % 1024;
    assert hi == 2048 * m + 1024 * b + low;
    var rest := low * TWO64 + lo;
    var g := f - m as real;
    assert 1 < rest < 1024 * TWO64 - 3;
    assert N == (2048 * m + 1024 * b) * TWO64 + rest;
    HalfUnits(N, m, b, rest, t, f, g);
    RoundHalfEvenUnique(f, m + b);
  }

  lemma HalfUnits(N: int, m: int, b: int, rest: int, t: real, f: real, g: real)
    requires 0 <= b <= 1 && 1 < rest < 1024 * TWO64 - 3 && N == (2048 * m + 1024 * b) * TWO64 + rest
    requires (TWO64 * N) as real - TWO64 as real < t < (TWO64 * N) as real + (3 * TWO64) as real
    requires f * (TWO64 * TWO64 * 2048) as real == t && g == f - m as real
    ensures b as real * 0.5 < g < b as real * 0.5 + 0.5
  {
    var u := TWO64 as real;
    var c, r, mr, n := b as real, rest as real, m as real, N as real;
    assert n == (2048.0 * mr + 1024.0 * c) * u + r;
    assert (TWO64 * N) as real == u * n;
  }

  lemma Pow139()
    ensures RPow(2.0, 139) == (TWO64 * TWO64 * 2048) as real
  {
    hide RPow;
    Pow128();
    PowAdd(2, 128, 11);
    assert Pow(2, 11) == 2048;
    RPowOfNat(2, 139);
  }

  // The scale on which the kept bits read the decimal w * 10^q.
  lemma DecimalOnScale(w: nat, q: int, clz: nat, e: int, extra: nat, wn: nat, x: real, T: real) returns (f: real)
    requires extra <= 1 && x == DecimalValue(w, q) && wn == w * Pow(2, clz)
    requires T == ExactValue(wn, q, e)
    ensures f * (TWO64 * TWO64 * 2048) as real == T * (if extra == 1 then 2.0 else 1.0)
    ensures x == f * RPow(2.0, 139 + q - clz - e - extra)
  {
    hide *;
    var k := 139 + q - clz - e - extra;
    var D := RPow(2.0, q - clz - e);
    ProductIsDecimal(w, q, clz, e, wn, x, T, D);
    f := T * RPow(2.0, extra - 139);
    assert RPow(2.0, extra - 139) * RPow(2.0, k) == D by {
      RPowAdd(2.0, extra - 139, k);
      assert extra - 139 + k == q - clz - e;
    }
    assert RPow(2.0, extra - 139) * RPow(2.0, 139) == RPow(2.0, extra) by { RPowAdd(2.0, extra - 139, 139); }
    Pow139();
    assert RPow(2.0, extra) == if extra == 1 then 2.0 else 1.0 by {
      RPowZero(2.0);
      RPowStep(2.0, 1);
    }
    FThenScale(T, f, RPow(2.0, extra - 139), RPow(2.0, k), RPow(2.0, 139), D, RPow(2.0, extra), x);
  }

  lemma ProductIsDecimal(w: nat, q: int, clz: nat, e: int, wn: nat, x: real, T: real, D: real)
    requires x == DecimalValue(w, q) && wn == w * Pow(2, clz)
    requires T == ExactValue(wn, q, e) && D == RPow(2.0, q - clz - e)
    ensures T * D == x
  {
    hide RPow, Pow;
    RPowOfNat(2, clz);
    CastProduct(w, Pow(2, clz));
    assert RPow(2.0, clz) * (RPow(2.0, e) * D) == RPow(2.0, q) by {
      RPowAdd(2.0, e, q - clz - e);
      assert e + (q - clz - e) == q - clz;
      RPowAdd(2.0, clz, q - clz);
      assert clz + (q - clz) == q;
    }
    RPowProduct(5.0, 2.0, q);
    assert 5.0 * 2.0 == 10.0;
    TimesD(w as real, RPow(2.0, clz), RPow(5.0, q), RPow(2.0, e), D, RPow(2.0, q), RPow(10.0, q), T, wn as real, x);
  }

  lemma TimesD(w: real, A: real, B: real, C: real, D: real, Q: real, Ten: real, T: real, wA: real, x: real)
    requires wA == w * A && T == wA * (B * C) && A * (C * D) == Q && Ten == B * Q && x == w * Ten
    ensures T * D == x
  {
    assert T * D == (w * B) * (A * (C * D));
  }

  lemma FThenScale(T: real, f: real, E: real, K: real, P: real, D: real, X: real, x: real)
    requires f == T * E && E * K == D && E * P == X && T * D == x
    ensures f * K == x && f * P == T * X
  {
    assert f * K == T * (E * K);
    assert f * P == T * (E * P);
  }

  // The value a table entry stands for, on the scale of its significand.
  ghost function EntryValue(q: int, e: int): real { RPow(5.0, q) * RPow(2.0, e) }

  ghost function ExactValue(wn: nat, q: int, e: int): real { wn as real * EntryValue(q, e) }

  // The decimal the parser is given.
  ghost function DecimalValue(w: nat, q: int): real { w as real * RPow(10.0, q) }

  // Everything the fast path computes from w, q and the table entry, when the
  // ambiguity guard lets it through, is the correctly rounded decimal.
  lemma FastIsRound53(w: nat, q: int, clz: nat, ent: Pow5Entry, wn: nat, P: nat, N: nat, extra: nat, hi: nat, lo: nat)
    requires w > 0 && wn == w * Pow(2, clz) && TWO63 <= wn < TWO64
    requires GoodEntry(ent, q) && P == UpperProduct(wn, ent.Significand())
    requires Normalised(P, N, extra) && N == hi * TWO64 + lo && IsWord(hi) && IsWord(lo)
    requires AMBIGUITY_DELTA <= lo <= TWO64 - 1 - AMBIGUITY_DELTA
    ensures var m, b := hi / 1024 / 2, hi / 1024 % 2;
            var x := DecimalValue(w, q);
            && TWO52 <= m < TWO53
            && x > 0.0 && Round53(x) == Renormalise(m + b, 139 + q - clz - ent.e - extra)
  {
    hide *;
    TopBitSet(wn, ent, q, P, N, extra, hi, lo);
    var T, f := FastScale(w, q, clz, ent, wn, P, extra);
    var t := T * (if extra == 1 then 2.0 else 1.0);
    NormalisedBounds(P, N, extra, T, t);
    KeptBits(N, t, f, hi, lo);
    Round53InWindow(DecimalValue(w, q), f, 139 + q - clz - ent.e - extra);
  }

  // The exact product and the window value behind the truncated product P.
  lemma FastScale(w: nat, q: int, clz: nat, ent: Pow5Entry, wn: nat, P: nat, extra: nat) returns (T: real, f: real)
    requires w > 0 && wn == w * Pow(2, clz) && TWO63 <= wn < TWO64
    requires GoodEntry(ent, q) && P == UpperProduct(wn, ent.Significand()) && extra <= 1
    ensures (TWO64 * P) as real - TWO63 as real < T < (TWO64 * P) as real + TWO64 as real + TWO63 as real
    ensures f * (TWO64 * TWO64 * 2048) as real == T * (if extra == 1 then 2.0 else 1.0)
    ensures DecimalValue(w, q) == f * RPow(2.0, 139 + q - clz - ent.e - extra)
  {
    hide *;
    T := ExactValue(wn, q, ent.e);
    assert (TWO64 * P) as real - TWO63 as real < T < (TWO64 * P) as real + TWO64 as real + TWO63 as real by {
      EntryBounds(ent, q);
      ExactValueIs(wn, q, ent.e);
      ExactProduct(wn, ent.Significand(), EntryValue(q, ent.e), T, P);
    }
    f := DecimalOnScale(w, q, clz, ent.e, extra, wn, DecimalValue(w, q), T);
  }

  lemma ExactValueIs(wn: nat, q: int, e: int)
    ensures ExactValue(wn, q, e) == wn as real * EntryValue(q, e)
  {}

  lemma EntryBounds(ent: Pow5Entry, q: int)
    requires GoodEntry(ent, q)
    ensures var M := ent.Significand();
            TWO63 * TWO64 <= M < TWO64 * TWO64 && Abs(M as real - EntryValue(q, ent.e)) <= 0.5
  {
    hide RPow, Pow;
    Pow128();
  }

  lemma TopBitSet(wn: nat, ent: Pow5Entry, q: int, P: nat, N: nat, extra: nat, hi: nat, lo: nat)
    requires TWO63 <= wn < TWO64 && GoodEntry(ent, q) && P == UpperProduct(wn, ent.Significand())
    requires Normalised(P, N, extra) && N == hi * TWO64 + lo && IsWord(hi) && IsWord(lo)
    ensures TWO63 <= hi < TWO64 && extra <= 1
  {
    hide RPow, Pow, RoundedEntry;
    hide EntryValue;
    EntryBounds(ent, q);
    ProductSize(wn, ent.Significand(), P);
  }

  // ---- the parser ----

  // The number of leading zeros of a nonzero word.
  function CountLeadingZeros(w: nat): int { 64 - BitLength(w) }

  lemma NormalisedWord(w: nat)
    requires 0 < w < TWO64
    ensures CountLeadingZeros(w) >= 0
    ensures TWO63 <= w * Pow(2, CountLeadingZeros(w)) < TWO64
  {
    hide Pow, BitLength;
    Pow128();
    BitLengthBounds(w);
    if BitLength(w) > 64 { PowMono(2, 64, BitLength(w) - 1); }
    ShiftedBounds(w, BitLength(w), 64 - BitLength(w));
  }

  // The digits so far and the word they accumulate to. A 20th digit only sets
  // the flag; nothing wraps before it.
  datatype Digits = Digits(w: nat, count: nat, tooMany: bool)
  {
    ghost predicate Accumulates(t: string) {
      AllDigits(t) && (!tooMany ==> w == Numeral(t) && count == |t| && count <= 19)
    }
  }

  lemma {:induction false} NumeralBelow(t: string)
    requires AllDigits(t)
    ensures 0 <= Numeral(t) < Pow(10, |t|)
  {
    if t != "" { NumeralBelow(t[..|t| - 1]); }
  }

  lemma NineteenDigits(t: string)
    requires AllDigits(t) && |t| <= 19
    ensures 0 <= Numeral(t) < TWO64
  {
    NumeralBelow(t);
    PowMono(10, |t|, 19);
    PowAdd(10, 10, 9);
    assert Pow(10, 9) == 1_000_000_000;
    assert Pow(10, 10) == 10_000_000_000;
  }

  method FastDigits(s: string, start: nat, from: Digits, ghost t: string) returns (p: nat, out: Digits)
    requires start <= |s| && from.Accumulates(t)
    ensures p == RunEnd(s, start) && out.Accumulates(t + s[start..p])
    ensures from.tooMany ==> out.tooMany
  {
    p, out := start, from;
    assert t + s[start..start] == t;
    hide Numeral, Pow;
    while IsDigit(At(s, p))
      invariant start <= p <= |s| && RunEnd(s, start) == RunEnd(s, p)
      invariant out.Accumulates(t + s[start..p])
      invariant from.tooMany ==> out.tooMany
      decreases |s| - p
    {
      NumeralSnocAfter(t, s, start, p);
      assert t + s[start..p + 1] == (t + s[start..p]) + [s[p]];
      if out.count < 19 {
        assert !out.tooMany ==> IsWord(out.w * 10 + DigitValue(s[p])) by {
          if !out.tooMany { NineteenDigits(t + s[start..p + 1]); }
        }
        out := out.(w := out.w * 10 + DigitValue(s[p]), count := out.count + 1);
      } else {
        out := out.(tooMany := true);
      }
      p := p + 1;
    }
  }

  // The mantissa: accepted only with a digit and at most 19 of them.
  method FastMantissa(s: string, start: nat) returns (ok: bool, p: nat, w: nat, frac: int)
    requires start <= |s|
    ensures p <= |s|
    ensures ok ==> IsWord(w)
    ensures ok ==> Scan(s, start) == Scanned(ScanExponent(s, p).end, w, ScanExponent(s, p).exponent - frac)
  {
    MantissaEnd(s, start);
    EmptyAccumulates();
    hide *;
    var ds;
    p, ds := FastDigits(s, start, Digits(0, 0, false), "");
    assert "" + s[start..p] == s[start..p];
    ghost var a, first := p, ds;
    var f, whole := p, ds.count;
    var any := p > start;
    f, p, ds := FastFraction(s, p, ds, s[start..p]);
    any := any || p > f;
    frac := ds.count - whole;
    ok := any && !ds.tooMany;
    w := ds.w;
    FastScanIs(s, start, a, f, p, first, ds);
  }

  // The fraction after a point, if there is one.
  method FastFraction(s: string, a: nat, first: Digits, ghost t: string) returns (f: nat, p: nat, ds: Digits)
    requires a <= |s| && !IsDigit(At(s, a)) && first.Accumulates(t)
    ensures f == (if At(s, a) == '.' then a + 1 else a) && p == RunEnd(s, f) && f <= p <= |s|
    ensures ds.Accumulates(t + s[f..p]) && (first.tooMany ==> ds.tooMany)
  {
    hide *;
    MantissaEnd(s, a);
    f, p, ds := a, a, first;
    if At(s, p) == '.' {
      f := p + 1;
      MantissaEnd(s, f);
      p, ds := FastDigits(s, f, ds, t);
    } else {
      RunEndStays(s, p);
      assert t + s[f..p] == t;
    }
  }

  lemma EmptyAccumulates()
    ensures Digits(0, 0, false).Accumulates("")
  {}

  lemma FastScanIs(s: string, start: nat, a: nat, f: nat, b: nat, first: Digits, ds: Digits)
    requires start <= |s| && a == RunEnd(s, start)
    requires f == (if At(s, a) == '.' then a + 1 else a) && b == RunEnd(s, f) && b <= |s|
    requires a <= |s| && f <= b
    requires first.Accumulates(s[start..a]) && ds.Accumulates(s[start..a] + s[f..b])
    requires first.tooMany ==> ds.tooMany
    ensures !ds.tooMany && (a > start || b > f) ==>
              && IsWord(ds.w)
              && Scan(s, start) == Scanned(ScanExponent(s, b).end, ds.w, ScanExponent(s, b).exponent - (ds.count - first.count))
  {
    hide Scan, ScanExponent, RunEnd, Numeral, At;
    if !ds.tooMany {
      AccumulatedWord(first, s[start..a]);
      AccumulatedWord(ds, s[start..a] + s[f..b]);
      ScanIs(s, start, a, f, b, ScanExponent(s, b));
    }
  }

  lemma AccumulatedWord(ds: Digits, t: string)
    requires ds.Accumulates(t) && !ds.tooMany
    ensures ds.w == Numeral(t) && ds.count == |t| && IsWord(ds.w)
  {
    NineteenDigits(t);
  }

  // The exponent: digits required after the mark, and no more than 100000.
  method FastExponent(s: string, start: nat) returns (ok: bool, p: nat, exp10: int)
    requires start <= |s|
    ensures ok ==> ScanExponent(s, start) == ExponentPart(p, exp10)
  {
    hide Numeral;
    p, exp10 := start, 0;
    if At(s, p) != 'e' && At(s, p) != 'E' {
      return true, p, 0;
    }
    p := p + 1;
    var eneg := false;
    if At(s, p) == '+' || At(s, p) == '-' {
      eneg := At(s, p) == '-';
      p := p + 1;
    }
    if !IsDigit(At(s, p)) {
      return false, p, 0;
    }
    var ev;
    ok, p, ev := FastExponentDigits(s, p);
    exp10 := if eneg then -ev else ev;
  }

  method FastExponentDigits(s: string, start: nat) returns (ok: bool, p: nat, ev: int)
    requires start <= |s|
    ensures ok ==> p == RunEnd(s, start) && ev == Numeral(s[start..p]) && ev <= 100000
  {
    p, ev := start, 0;
    assert Numeral(s[start..start]) == 0;
    hide Numeral;
    while IsDigit(At(s, p))
      invariant start <= p <= |s| && RunEnd(s, start) == RunEnd(s, p)
      invariant ev == Numeral(s[start..p]) && ev <= 100000
      decreases |s| - p
    {
      NumeralSnoc(s, start, p);
      ev := ev * 10 + DigitValue(s[p]);
      if ev > 100000 {
        return false, p, ev;
      }
      p := p + 1;
    }
    ok := true;
  }

  // The table product, normalised, and the guard on its low word.
  method FastProduct(w: nat, q: int, ent: Pow5Entry) returns (ok: bool, clz: int, extra: int, pHi: nat, pLo: nat)
    requires 0 < w < TWO64 && GoodEntry(ent, q)
    ensures ok ==> pLo >= AMBIGUITY_DELTA && TWO52 <= pHi / 1024 / 2 < TWO53
    ensures ok ==> DecimalValue(w, q) > 0.0
    ensures ok ==> Round53(DecimalValue(w, q)) ==
                   Renormalise(pHi / 1024 / 2 + pHi / 1024 % 2, 139 + q - clz - ent.e - extra)
  {
    hide *;
    NormalisedWord(w);
    EntryIsWords(ent, q);
    clz := CountLeadingZeros(w);
    var wNorm := w * Pow(2, clz);
    WordIs(wNorm);
    var hi, lo := MulHi128(wNorm, ent.hi, ent.lo);
    pHi, pLo, extra := Normalise(hi, lo);
    ok := !(pLo < AMBIGUITY_DELTA || pLo > TWO64 - 1 - AMBIGUITY_DELTA);
    if ok {
      FastIsRound53(w, q, clz, ent, wNorm, hi * TWO64 + lo, pHi * TWO64 + pLo, extra, pHi, pLo);
    }
  }

  lemma WordIs(x: int)
    ensures IsWord(x) <==> 0 <= x < TWO64
  {}

  // One doubling brings the top bit of the 128-bit product to bit 127.
  method Normalise(hi: nat, lo: nat) returns (pHi: nat, pLo: nat, extra: nat)
    requires IsWord(hi) && IsWord(lo)
    ensures IsWord(pHi) && IsWord(pLo)
    ensures Normalised(hi * TWO64 + lo, pHi * TWO64 + pLo, extra)
  {
    pHi, pLo, extra := hi, lo, 0;
    if pHi / TWO63 == 0 {
      pHi, pLo, extra := 2 * pHi + pLo / TWO63, 2 * pLo % TWO64, 1;
    }
  }

  // The rounding of the kept bits and the exponent formula.
  method FastRound(neg: bool, w: nat, q: int, ent: Pow5Entry) returns (ok: bool, d: Double)
    requires 0 < w < TWO64 && GoodEntry(ent, q)
    ensures ok ==> DecimalValue(w, q) > 0.0 && d == Ldexp(neg, Round53(DecimalValue(w, q)))
  {
    hide GoodEntry, DecimalValue, Round53, IsNearest;
    var clz, extra, pHi, pLo;
    d := Double(neg, 0, 0);
    ok, clz, extra, pHi, pLo := FastProduct(w, q, ent);
    if !ok {
      return;
    }
    var mant53, roundBit := pHi / 1024 / 2, pHi / 1024 % 2;
    // The guard already forces sticky: no tie reaches this point.
    var below, odd := pHi % 1024, mant53 % 2;
    var sticky := pLo != 0 || below != 0;
    if roundBit == 1 && (sticky || odd == 1) {
      mant53 := mant53 + 1;
    }
    var carry := 0;
    if mant53 == TWO53 {
      mant53, carry := TWO52, 1;
    }
    var binExp := 191 + q - clz - ent.e - extra + carry;
    var eField := binExp + 1023;
    if eField <= 0 || eField >= 2047 {
      return false, d;
    }
    d := Double(neg, eField, mant53 % TWO52);
  }

  lemma EntryIsWords(ent: Pow5Entry, q: int)
    requires GoodEntry(ent, q)
    ensures IsWord(ent.hi) && IsWord(ent.lo) && ent.Significand() == ent.hi * TWO64 + ent.lo
  {}

  // try_fast_parse: whatever it accepts is the literal's meaning.
  method TryFastParse(s: string, table: seq<Pow5Entry>) returns (ok: bool, d: Double)
    requires GoodTable(table)
    ensures ok ==> d == Meaning(Read(s))
  {
    hide Meaning, GoodEntry, Scan, ScanExponent;
    ok, d := false, Double(false, 0, 0);
    var p, neg := 0, false;
    if At(s, p) == '-' {
      neg, p := true, 1;
    }
    if !(IsDigit(At(s, p)) || At(s, p) == '.') {
      return;
    }
    ReadHere(s, p, neg);
    var good, b, w, frac := FastMantissa(s, p);
    if !good {
      return;
    }
    var fine, end, exp10 := FastExponent(s, b);
    if !fine || At(s, end) != '\0' {
      return;
    }
    var q := exp10 - frac;
    MeaningCases(Literal(neg, Scanned(end, w, q)));
    if w == 0 {
      return true, Double(neg, 0, 0);
    }
    if q < QMIN || q > QMAX {
      return;
    }
    DecimalIsDenoted(end, w, q);
    ok, d := FastRound(neg, w, q, table[q - QMIN]);
  }

  lemma DecimalIsDenoted(end: nat, w: nat, q: int)
    ensures Denoted(Scanned(end, w, q)) == DecimalValue(w, q)
  {}

  lemma ReadHere(s: string, p: nat, neg: bool)
    requires p == (if At(s, 0) == '-' then 1 else 0) && neg == (At(s, 0) == '-')
    requires IsDigit(At(s, p)) || At(s, p) == '.'
    ensures p <= |s| && Read(s) == Literal(neg, Scan(s, p))
  {}

  // fastParseDouble: on every text, the exact parser's answer.
  method FastParseDouble(s: string, table: seq<Pow5Entry>, slack: nat) returns (d: Double)
    requires GoodTable(table) && slack <= 1
    ensures d == Meaning(Read(s)) && ReadsRight(s, d)
  {
    MeaningReadsRight(s);
    hide ReadsRight;
    var ok;
    ok, d := TryFastParse(s, table);
    if !ok {
      d := ParseDouble(s, slack);
    }
  }
}
