// The decimal literals the runtime reads: what a text denotes, and the
// scanner of numeric.c.
module Decimal {
  import opened Powers

  // ---- text ----

  // A C string: reading at or past the end gives the terminator.
  function At(s: string, i: nat): char { if i < |s| then s[i] else '\0' }

  predicate IsDigit(c: char) { '0' <= c <= '9' }
  function DigitValue(c: char): int { c as int - '0' as int }
  predicate AllDigits(s: string) { forall i :: 0 <= i < |s| ==> IsDigit(s[i]) }

  // The end of the run of digits starting at i.
  function RunEnd(s: string, i: nat): (e: nat)
    ensures i <= e
    ensures i <= |s| ==> e <= |s| && AllDigits(s[i..e])
    ensures !IsDigit(At(s, e))
    decreases |s| - i
  {
    if i < |s| && IsDigit(s[i]) then
      var e := RunEnd(s, i + 1);
      assert s[i..e] == [s[i]] + s[i + 1..e];
      e
    else i
  }

  // The number a digit string denotes, most significant digit first.
  function Numeral(ds: string): (n: int)
    ensures AllDigits(ds) ==> n >= 0
  {
    if ds == "" then 0 else 10 * Numeral(ds[..|ds| - 1]) + DigitValue(ds[|ds| - 1])
  }

  // ---- what a literal denotes ----

  // sig * 10^dexp, the text read up to end.
  datatype Scanned = NoMantissa | Scanned(end: nat, sig: nat, dexp: int)

  const EXPONENT_CAP: int := 1_000_000_000

  function Min(a: int, b: int): int { if a <= b then a else b }

  datatype ExponentPart = ExponentPart(end: nat, exponent: int)

  predicate IsExponentMark(c: char) { c == 'e' || c == 'E' }
  predicate IsSign(c: char) { c == '+' || c == '-' }

  // [ (e|E) [+|-] digits ]; a mark with no digits is left unread.
  function ScanExponent(s: string, i: nat): (r: ExponentPart)
    requires i <= |s|
  {
    if !IsExponentMark(At(s, i)) then ExponentPart(i, 0)
    else
      var d := if IsSign(At(s, i + 1)) then i + 2 else i + 1;
      if !IsDigit(At(s, d)) then ExponentPart(i, 0)
      else
        var e := RunEnd(s, d);
        var v := Min(Numeral(s[d..e]), EXPONENT_CAP);
        ExponentPart(e, if At(s, i + 1) == '-' then -v else v)
  }

  // digits [ '.' digits ] [ (e|E) [+|-] digits ], starting at i.
  function Scan(s: string, i: nat): Scanned
    requires i <= |s|
  {
    var a := RunEnd(s, i);
    var f := if At(s, a) == '.' then a + 1 else a;
    var b := RunEnd(s, f);
    if a == i && b == f then NoMantissa
    else
      var e := ScanExponent(s, b);
      Scanned(e.end, Numeral(s[i..a] + s[f..b]), e.exponent - (b - f))
  }

  // The number a scan denotes.
  ghost function Denoted(r: Scanned): real
    requires r.Scanned?
  {
    r.sig as real * RPow(10.0, r.dexp)
  }

  // ---- the scanner ----

  lemma NumeralSnoc(s: string, i: nat, p: nat)
    requires i <= p < |s|
    ensures Numeral(s[i..p + 1]) == 10 * Numeral(s[i..p]) + DigitValue(s[p])
  {
    assert s[i..p + 1][..p - i] == s[i..p];
  }

  lemma NumeralSnocAfter(t: string, s: string, f: nat, p: nat)
    requires f <= p < |s|
    ensures Numeral(t + s[f..p + 1]) == 10 * Numeral(t + s[f..p]) + DigitValue(s[p])
  {
    var u := t + s[f..p + 1];
    assert u[..|u| - 1] == t + s[f..p];
  }

  // The exponent digits, capped digit by digit.
  method ScanExponentDigits(s: string, start: nat) returns (end: nat, ev: int)
    requires start <= |s|
    ensures end == RunEnd(s, start)
    ensures ev == Min(Numeral(s[start..end]), EXPONENT_CAP)
  {
    end, ev := start, 0;
    while IsDigit(At(s, end))
      invariant start <= end <= |s| && RunEnd(s, start) == RunEnd(s, end)
      invariant AllDigits(s[start..end])
      invariant ev == Min(Numeral(s[start..end]), EXPONENT_CAP)
      decreases |s| - end
    {
      NumeralSnoc(s, start, end);
      assert s[start..end + 1] == s[start..end] + [s[end]];
      ev := ev * 10 + DigitValue(s[end]);
      if ev > EXPONENT_CAP {
        ev := EXPONENT_CAP;
      }
      end := end + 1;
    }
  }

  // A run of mantissa digits read after the text t, and how many there are.
  method ScanMantissaDigits(s: string, start: nat, sig: int, ghost t: string) returns (p: nat, sig': int, count: int)
    requires start <= |s| && sig == Numeral(t)
    ensures p == RunEnd(s, start) && count == p - start
    ensures sig' == Numeral(t + s[start..p])
  {
    p, sig', count := start, sig, 0;
    assert t + s[start..start] == t;
    while IsDigit(At(s, p))
      invariant start <= p <= |s| && RunEnd(s, start) == RunEnd(s, p)
      invariant sig' == Numeral(t + s[start..p])
      invariant count == p - start
      decreases |s| - p
    {
      NumeralSnocAfter(t, s, start, p);
      sig' := sig' * 10 + DigitValue(s[p]);
      count := count + 1;
      p := p + 1;
    }
  }

  // The optional exponent part after the mantissa.
  method ScanExponentPart(s: string, p: nat) returns (r: ExponentPart)
    requires p <= |s|
    ensures r == ScanExponent(s, p)
  {
    r := ExponentPart(p, 0);
    if At(s, p) == 'e' || At(s, p) == 'E' {
      var ep, esign := p + 1, false;
      if At(s, ep) == '+' || At(s, ep) == '-' {
        esign := At(s, ep) == '-';
        ep := ep + 1;
      }
      if IsDigit(At(s, ep)) {
        var end, ev := ScanExponentDigits(s, ep);
        r := ExponentPart(end, if esign then -ev else ev);
      }
    }
  }

  lemma ScanIs(s: string, i: nat, a: nat, f: nat, b: nat, e: ExponentPart)
    requires i <= |s| && a == RunEnd(s, i)
    requires f == (if At(s, a) == '.' then a + 1 else a) && b == RunEnd(s, f)
    requires b <= |s| && e == ScanExponent(s, b)
    ensures f <= b
    ensures Scan(s, i) ==
            if a == i && b == f then NoMantissa
            else Scanned(e.end, Numeral(s[i..a] + s[f..b]), e.exponent - (b - f))
  {}

  lemma MantissaEnd(s: string, i: nat)
    requires i <= |s|
    ensures i <= RunEnd(s, i) <= |s| && !IsDigit(At(s, RunEnd(s, i)))
    ensures At(s, i) == '.' ==> i < |s|
  {}

  // The point and the digits after it, if there are any.
  method ScanFraction(s: string, a: nat, sig: int, ghost t: string) returns (p: nat, sig': int, count: int, ghost f: nat)
    requires a <= |s| && !IsDigit(At(s, a)) && sig == Numeral(t)
    ensures f == (if At(s, a) == '.' then a + 1 else a) && p == RunEnd(s, f)
    ensures f <= p <= |s| && count == p - f && sig' == Numeral(t + s[f..p])
  {
    hide *;
    MantissaEnd(s, a);
    p, sig', count, f := a, sig, 0, a;
    if At(s, p) == '.' {
      f := p + 1;
      MantissaEnd(s, f);
      p, sig', count := ScanMantissaDigits(s, p + 1, sig, t);
    } else {
      RunEndStays(s, p);
      assert t + s[f..p] == t;
    }
  }

  lemma NumeralEmpty()
    ensures Numeral("") == 0
  {}

  // Digits, a point, digits; then the exponent part.
  method ScanDecimal(s: string, start: nat) returns (r: Scanned)
    requires start <= |s|
    ensures r == Scan(s, start)
  {
    hide *;
    MantissaEnd(s, start);
    NumeralEmpty();
    var p, sig, whole := ScanMantissaDigits(s, start, 0, "");
    assert "" + s[start..p] == s[start..p];
    ghost var a := p;
    var frac;
    ghost var f;
    p, sig, frac, f := ScanFraction(s, p, sig, s[start..p]);
    ScanIs(s, start, a, f, p, ScanExponent(s, p));
    if whole == 0 && frac == 0 {
      return NoMantissa;
    }
    var e := ScanExponentPart(s, p);
    return Scanned(e.end, sig, e.exponent - frac);
  }

  lemma RunEndStays(s: string, i: nat)
    requires i <= |s| && !IsDigit(At(s, i))
    ensures RunEnd(s, i) == i
  {}
}
