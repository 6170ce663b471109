// How a decimal number may be spelled, and that the parser reads each spelling
// as the number it is.
module Spelling {
  import opened Powers
  import opened Decimal
  import opened Layout

  // Blanks, a sign, digits, a point and more digits, an exponent, and whatever
  // follows.
  datatype Text = Text(blanks: string, sign: string, whole: string, point: string, frac: string,
                       mark: string, expSign: string, expDigits: string, rest: string)
  {
    // The characters, a piece at a time.
    function All(): string { blanks + (sign + Number()) }
    function Number(): string { whole + (point + (frac + Exponent())) }
    function Exponent(): string { mark + (expSign + (expDigits + rest)) }

    predicate Valid() {
      && Blank(blanks) && IsSignText(sign)
      && Digits(whole) && Digits(frac) && (point == "" || point == ".") && (point == "" ==> frac == "") && whole + frac != ""
      && Digits(expDigits) && (mark == "" || mark == "e" || mark == "E") && IsSignText(expSign)
      && (mark != "" <==> expDigits != "") && (mark == "" ==> expSign == "")
      && Ends()
    }

    // What follows is not more of the number.
    predicate Ends() {
      && !DigitAt(rest, 0)
      && (mark == "" && point == "" ==> !(rest != "" && rest[0] == '.'))
      && (mark == "" && rest != "" && (rest[0] == 'e' || rest[0] == 'E') ==>
            !DigitAt(rest, 1) && !(|rest| > 1 && (rest[1] == '+' || rest[1] == '-') && DigitAt(rest, 2)))
    }

    predicate Negative() { sign == "-" }
    function Significand(): int { Value(whole + frac, 0) }

    // The exponent of ten, no further from zero than 10^9 before the point
    // is counted.
    function Power(): int {
      var e := Value(expDigits, 0);
      var c := if e > 1_000_000_000 then 1_000_000_000 else e;
      (if expSign == "-" then -c else c) - |frac|
    }
  }

  // The six characters of isspace.
  predicate IsBlank(c: char) { c as int == 32 || 9 <= c as int <= 13 }
  predicate Blank(t: string) { forall i :: 0 <= i < |t| ==> IsBlank(t[i]) }

  predicate IsSignText(t: string) { t == "" || t == "+" || t == "-" }

  predicate Digits(t: string) { forall i :: 0 <= i < |t| ==> '0' <= t[i] <= '9' }

  predicate DigitAt(t: string, i: nat) { i < |t| && '0' <= t[i] <= '9' }

  // The number the digits of t make after those of n.
  function Value(t: string, n: int): int
    decreases |t|
  {
    if t == "" then n else Value(t[1..], 10 * n + (t[0] as int - 48))
  }

  // It is the numeral of all the digits read.
  lemma {:induction false} ValueIs(t: string, n: int, u: string)
    requires n == Numeral(u)
    ensures Value(t, n) == Numeral(u + t)
    decreases |t|
  {
    if t == "" {
      assert u + t == u;
    } else {
      var u' := u + [t[0]];
      assert u'[..|u|] == u;
      assert u' + t[1..] == u + t;
      ValueIs(t[1..], 10 * n + (t[0] as int - 48), u');
    }
  }

  lemma ValueIsNumeral(t: string)
    ensures Value(t, 0) == Numeral(t)
  {
    ValueIs(t, 0, "");
    assert "" + t == t;
  }

  // ---- positions ----

  // s goes on with y at i, and has the piece x there.
  ghost predicate From(s: string, i: nat, y: string) { i <= |s| && s[i..] == y }
  ghost predicate Has(s: string, i: nat, x: string) { i + |x| <= |s| && s[i..i + |x|] == x }

  lemma Piece(s: string, i: nat, x: string, y: string)
    requires From(s, i, x + y)
    ensures Has(s, i, x) && From(s, i + |x|, y)
  {
    assert s[i..][..|x|] == x && s[i..][|x|..] == y;
    assert s[i..i + |x|] == s[i..][..|x|];
    assert s[i + |x|..] == s[i..][|x|..];
  }

  lemma CharAt(s: string, i: nat, y: string, k: nat)
    requires From(s, i, y)
    ensures At(s, i + k) == At(y, k)
  {
    if k < |y| { assert s[i..][k] == s[i + k]; }
  }

  lemma EndOf(s: string, i: nat, y: string)
    requires From(s, i, y)
    ensures i == |s| - |y|
  {}

  // A run of digits and its end.
  lemma DigitRun(s: string, i: nat, x: string, y: string)
    requires From(s, i, x + y) && Digits(x) && !DigitAt(y, 0)
    ensures RunEnd(s, i) == i + |x| && Has(s, i, x) && From(s, i + |x|, y)
  {
    Piece(s, i, x, y);
    CharAt(s, i + |x|, y, 0);
    RunEndIs(s, i, i + |x|);
  }

  // A sign, before something that is none.
  lemma SignAt(s: string, i: nat, sign: string, y: string)
    requires From(s, i, sign + y) && IsSignText(sign) && (DigitAt(y, 0) || (y != "" && y[0] == '.'))
    ensures (IsSign(At(s, i)) <==> sign != "") && (At(s, i) == '-' <==> sign == "-")
    ensures From(s, i + |sign|, y)
  {
    Piece(s, i, sign, y);
    CharAt(s, i, sign + y, 0);
  }

  // ---- the exponent ----

  // Without a mark, or with a mark that no digits follow.
  lemma NoExponent(s: string, b: nat, t: Text)
    requires t.Valid() && From(s, b, t.Exponent()) && t.mark == ""
    ensures ScanExponent(s, b) == ExponentPart(b, 0)
  {
    assert t.Exponent() == t.rest;
    CharAt(s, b, t.rest, 0);
    CharAt(s, b, t.rest, 1);
    CharAt(s, b, t.rest, 2);
  }

  lemma FirstDigit(digits: string, rest: string)
    requires Digits(digits) && digits != ""
    ensures IsDigit(At(digits + rest, 0)) && DigitAt(digits + rest, 0)
  {}

  lemma MarkPiece(s: string, b: nat, mark: string, y: string)
    requires From(s, b, mark + y) && (mark == "e" || mark == "E")
    ensures IsExponentMark(At(s, b)) && From(s, b + 1, y)
  {
    Piece(s, b, mark, y);
    CharAt(s, b, mark + y, 0);
  }

  lemma ExponentPieces(s: string, b: nat, mark: string, sign: string, digits: string, rest: string)
    requires From(s, b, mark + (sign + (digits + rest))) && (mark == "e" || mark == "E") && IsSignText(sign)
    requires Digits(digits) && digits != "" && !DigitAt(rest, 0)
    ensures IsExponentMark(At(s, b)) && (IsSign(At(s, b + 1)) <==> sign != "") && (At(s, b + 1) == '-' <==> sign == "-")
    ensures var d := b + 1 + |sign|;
            IsDigit(At(s, d)) && RunEnd(s, d) == d + |digits| == |s| - |rest| && Has(s, d, digits)
  {
    hide *;
    FirstDigit(digits, rest);
    MarkPiece(s, b, mark, sign + (digits + rest));
    SignAt(s, b + 1, sign, digits + rest);
    CharAt(s, b + 1 + |sign|, digits + rest, 0);
    DigitRun(s, b + 1 + |sign|, digits, rest);
    EndOf(s, b + 1 + |sign| + |digits|, rest);
  }

  lemma WithExponent(s: string, b: nat, t: Text)
    requires t.Valid() && From(s, b, t.Exponent()) && t.mark != ""
    ensures ScanExponent(s, b) == ExponentPart(|s| - |t.rest|, t.Power() + |t.frac|)
  {
    ExponentPieces(s, b, t.mark, t.expSign, t.expDigits, t.rest);
    ValueIsNumeral(t.expDigits);
    hide Numeral, Value, RunEnd, IsSign, IsExponentMark, Digits, Blank, DigitAt, From;
  }

  // ---- the number ----

  // What comes after the digits is neither a digit nor a point of theirs.
  lemma AfterDigits(t: Text)
    requires t.Valid()
    ensures Digits(t.whole) && Digits(t.frac)
    ensures !DigitAt(t.Exponent(), 0) && !DigitAt(t.point + (t.frac + t.Exponent()), 0)
    ensures At(t.point + (t.frac + t.Exponent()), 0) == '.' <==> t.point == "."
    ensures t.Number() == t.whole + (t.point + (t.frac + t.Exponent()))
  {
    if t.mark == "" {
      assert t.Exponent() == t.rest;
    } else {
      assert t.Exponent()[0] == t.mark[0];
    }
    if t.point == "" { assert t.point + (t.frac + t.Exponent()) == t.Exponent(); }
  }

  lemma ScanNumber(s: string, i: nat, t: Text)
    requires t.Valid() && From(s, i, t.Number())
    ensures t.Significand() >= 0
    ensures Scan(s, i) == Scanned(|s| - |t.rest|, t.Significand(), t.Power())
  {
    hide *;
    AfterDigits(t);
    var a := i + |t.whole|;
    var y := t.point + (t.frac + t.Exponent());
    DigitRun(s, i, t.whole, y);
    CharAt(s, a, y, 0);
    Piece(s, a, t.point, t.frac + t.Exponent());
    DigitRun(s, a + |t.point|, t.frac, t.Exponent());
    NumberScanned(s, i, t, a, a + |t.point|, a + |t.point| + |t.frac|);
  }

  lemma NumberScanned(s: string, i: nat, t: Text, a: nat, f: nat, b: nat)
    requires t.Valid() && a == i + |t.whole| && f == a + |t.point| && b == f + |t.frac|
    requires RunEnd(s, i) == a && RunEnd(s, f) == b && Has(s, i, t.whole) && Has(s, f, t.frac)
    requires From(s, b, t.Exponent()) && (At(s, a) == '.' <==> t.point == ".")
    ensures t.Significand() >= 0
    ensures Scan(s, i) == Scanned(|s| - |t.rest|, t.Significand(), t.Power())
  {
    hide *;
    ExponentScanned(s, b, t);
    SignificandIs(t);
    PointIs(t);
    HasSlice(s, i, t.whole);
    HasSlice(s, f, t.frac);
    var whole, frac := t.whole, t.frac;
    ScanIs(s, i, a, f, b, whole, frac);
  }

  lemma HasSlice(s: string, i: nat, x: string)
    requires Has(s, i, x)
    ensures i + |x| <= |s| && s[i..i + |x|] == x
  {}

  lemma ScanIs(s: string, i: nat, a: nat, f: nat, b: nat, whole: string, frac: string)
    requires i <= a <= f <= b <= |s| && RunEnd(s, i) == a && RunEnd(s, f) == b && s[i..a] == whole && s[f..b] == frac
    requires f == (if At(s, a) == '.' then a + 1 else a) && (i < a || f < b) && Numeral(whole + frac) >= 0
    ensures var e := ScanExponent(s, b); Scan(s, i) == Scanned(e.end, Numeral(whole + frac), e.exponent - (b - f))
  {
    hide ScanExponent, RunEnd, Numeral;
  }

  lemma PointIs(t: Text)
    requires t.Valid()
    ensures |t.point| == (if t.point == "." then 1 else 0) && |t.whole| + |t.frac| > 0
  {
    assert t.whole + t.frac != "";
  }

  lemma SignificandIs(t: Text)
    requires t.Valid()
    ensures t.Significand() == Numeral(t.whole + t.frac) >= 0
  {
    ValueIsNumeral(t.whole + t.frac);
    assert AllDigits(t.whole + t.frac);
  }

  lemma ExponentScanned(s: string, b: nat, t: Text)
    requires t.Valid() && From(s, b, t.Exponent())
    ensures ScanExponent(s, b) == ExponentPart(|s| - |t.rest|, t.Power() + |t.frac|)
  {
    hide *;
    if t.mark == "" {
      NoExponent(s, b, t);
      EndWithout(s, b, t);
    } else {
      WithExponent(s, b, t);
    }
  }

  lemma EndWithout(s: string, b: nat, t: Text)
    requires t.Valid() && t.mark == "" && From(s, b, t.Exponent())
    ensures b == |s| - |t.rest| && t.Power() == -|t.frac|
  {
    assert t.Exponent() == t.rest;
  }
}
