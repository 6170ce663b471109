// Writing a decimal: digit strings, the four layouts of place_point, and the
// proof that the scanner reads back what was written.
module Layout {
  import opened Powers
  import opened Decimal

  function Zeros(n: nat): (z: string)
    ensures |z| == n && AllDigits(z)
    ensures forall i :: 0 <= i < n ==> z[i] == '0'
  {
    seq(n, _ => '0')
  }

  function DigitChar(d: int): (c: char)
    requires 0 <= d < 10
    ensures IsDigit(c) && DigitValue(c) == d
  {
    ('0' as int + d) as char
  }

  // The decimal text of a natural number, as mpz_get_str writes it.
  function NatText(n: nat): (t: string)
    ensures |t| > 0 && AllDigits(t)
    ensures n > 0 ==> t[0] != '0'
  {
    if n < 10 then [DigitChar(n)] else NatText(n / 10) + [DigitChar(n % 10)]
  }

  // printf's %ld.
  function IntText(n: int): string {
    if n < 0 then "-" + NatText(-n) else NatText(n)
  }

  lemma {:induction false} NatTextDenotes(n: nat)
    ensures Numeral(NatText(n)) == n
  {
    var t := NatText(n);
    if n >= 10 {
      NatTextDenotes(n / 10);
      assert t[..|t| - 1] == NatText(n / 10);
    } else {
      assert t[..0] == "";
    }
  }

  lemma {:induction false} NumeralAppend(a: string, b: string)
    ensures Numeral(a + b) == Numeral(a) * Pow(10, |b|) + Numeral(b)
  {
    if b == "" {
      assert a + b == a;
    } else {
      hide Pow;
      var b' := b[..|b| - 1];
      NumeralAppend(a, b');
      assert (a + b)[..|a + b| - 1] == a + b';
      PowStep(10, |b|);
      AppendDigit(Numeral(a), Pow(10, |b'|), Pow(10, |b|));
    }
  }

  lemma AppendDigit(n: int, p: int, p': int)
    requires p' == 10 * p
    ensures 10 * (n * p) == n * p'
  {}

  lemma {:induction false} NumeralZeros(n: nat)
    ensures Numeral(Zeros(n)) == 0
  {
    if n > 0 {
      NumeralZeros(n - 1);
      assert Zeros(n)[..n - 1] == Zeros(n - 1);
    }
  }

  lemma NumeralLeadingZeros(n: nat, ds: string)
    ensures Numeral(Zeros(n) + ds) == Numeral(ds)
  {
    NumeralAppend(Zeros(n), ds);
    NumeralZeros(n);
  }

  lemma NumeralTrailingZeros(ds: string, n: nat)
    ensures Numeral(ds + Zeros(n)) == Numeral(ds) * Pow(10, n)
  {
    NumeralAppend(ds, Zeros(n));
    NumeralZeros(n);
  }

  // ---- the four layouts ----

  predicate Plain(k: int) { -6 < k <= 21 }

  // 0.ds * 10^k as text.
  function Placed(ds: string, k: int): string
    requires ds != ""
  {
    if Plain(k) then
      if k <= 0 then "0." + Zeros(-k) + ds
      else if k >= |ds| then ds + Zeros(k - |ds|) + ".0"
      else ds[..k] + "." + ds[k..]
    else
      ds[..1] + (if |ds| > 1 then "." + ds[1..] else "") + "e" + IntText(k - 1)
  }

  // What the text of 0.ds * 10^k looks like, character by character: between
  // 10^-6 and 10^21 the digits in their places and zeros in the others, with a
  // digit at least on either side of the point; elsewhere one digit, the point
  // and the rest if there is one, and the exponent.
  ghost predicate LaidOut(out: string, ds: string, k: int) {
    if -6 < k <= 21 then
      && |out| == (if k <= 0 then 2 - k + |ds| else if k >= |ds| then k + 2 else |ds| + 1)
      && out[if k > 0 then k else 1] == '.'
      && (forall i :: 0 <= i < |ds| ==> out[if k <= 0 then 2 - k + i else if i < k then i else i + 1] == ds[i])
      && (k <= 0 ==> out[0] == '0' && forall i :: 2 <= i < 2 - k ==> out[i] == '0')
      && (k >= |ds| && k > 0 ==> out[k + 1] == '0' && forall i :: |ds| <= i < k ==> out[i] == '0')
    else
      var m := if |ds| > 1 then |ds| + 1 else 1;
      && |ds| > 0 && m < |out| && out[0] == ds[0] && out[m] == 'e'
      && (|ds| > 1 ==> out[1] == '.' && out[2..m] == ds[1..])
      && ExponentText(out[m + 1..], k - 1)
  }

  // A minus sign for a negative number, and its digits without leading zeros.
  ghost predicate ExponentText(t: string, n: int) {
    && (n < 0 ==> t != "" && t[0] == '-')
    && var digits := if n < 0 then t[1..] else t;
       && digits != "" && (forall i :: 0 <= i < |digits| ==> '0' <= digits[i] <= '9')
       && (digits[0] == '0' ==> |digits| == 1)
       && Numeral(digits) == if n < 0 then -n else n
  }

  lemma IntTextIs(n: int)
    ensures ExponentText(IntText(n), n)
  {
    var a := if n < 0 then -n else n;
    NatTextDenotes(a);
    assert a == 0 ==> NatText(a) == "0";
    if n < 0 { assert IntText(n)[1..] == NatText(a); }
  }

  lemma PlacedLaidOut(ds: string, k: int)
    requires ds != ""
    ensures LaidOut(Placed(ds, k), ds, k)
  {
    if -6 < k <= 21 { PlainLaidOut(ds, k); } else { ScientificLaidOut(ds, k); }
  }

  lemma PlainLaidOut(ds: string, k: int)
    requires ds != "" && -6 < k <= 21
    ensures LaidOut(Placed(ds, k), ds, k)
  {
    hide IntText, NatText, Numeral, ExponentText;
    assert Placed(ds, k) == if k <= 0 then "0." + Zeros(-k) + ds
                            else if k >= |ds| then ds + Zeros(k - |ds|) + ".0" else ds[..k] + "." + ds[k..];
  }

  lemma ScientificLaidOut(ds: string, k: int)
    requires ds != "" && !(-6 < k <= 21)
    ensures LaidOut(Placed(ds, k), ds, k)
  {
    hide IntText, NatText, Numeral, ExponentText, Zeros;
    IntTextIs(k - 1);
    var out, e := Placed(ds, k), IntText(k - 1);
    if |ds| > 1 {
      assert out == ds[..1] + ("." + ds[1..]) + "e" + e;
      assert out[2..|ds| + 1] == ds[1..] && out[|ds| + 2..] == e;
    } else {
      assert out == ds[..1] + "" + "e" + e;
      assert out[2..] == e;
    }
  }

  // An exponent exactly outside that range.
  lemma ExponentShown(out: string, ds: string, k: int)
    requires LaidOut(out, ds, k) && ds != "" && forall i :: 0 <= i < |ds| ==> '0' <= ds[i] <= '9'
    ensures 'e' in out <==> k <= -6 || k > 21
  {
    if -6 < k <= 21 {
      forall i | 0 <= i < |out| ensures out[i] != 'e' {
        if k <= 0 {
          if i >= 2 - k { assert out[2 - k + (i - (2 - k))] == ds[i - (2 - k)]; }
        } else if i != k && i - (if i > k then 1 else 0) < |ds| {
          assert out[i] == ds[i - (if i > k then 1 else 0)];
        }
      }
    } else {
      var m := if |ds| > 1 then |ds| + 1 else 1;
      assert out[m] == 'e';
    }
  }

  // The printer: every layout appends to the output buffer.
  method PlacePoint(ds: string, k: int) returns (out: string)
    requires ds != ""
    ensures out == Placed(ds, k) && LaidOut(out, ds, k)
    ensures (forall i :: 0 <= i < |ds| ==> '0' <= ds[i] <= '9') ==> ('e' in out <==> k <= -6 || k > 21)
  {
    hide NatText, IntText, Zeros, LaidOut;
    if k > -6 && k <= 21 {
      if k <= 0 {
        out := AppendZeros("0.", -k);
        out := out + ds;
      } else if k >= |ds| {
        out := AppendZeros(ds, k - |ds|);
        out := out + ".0";
      } else {
        out := ds[..k] + "." + ds[k..];
      }
    } else {
      out := ds[..1];
      if |ds| > 1 {
        out := out + ("." + ds[1..]);
      } else {
        out := out + "";
      }
      out := out + "e";
      out := out + IntText(k - 1);
    }
    assert out == Placed(ds, k);
    hide *;
    PlacedShown(ds, k);
  }

  lemma PlacedShown(ds: string, k: int)
    requires ds != ""
    ensures LaidOut(Placed(ds, k), ds, k)
    ensures (forall i :: 0 <= i < |ds| ==> '0' <= ds[i] <= '9') ==> ('e' in Placed(ds, k) <==> k <= -6 || k > 21)
  {
    hide *;
    PlacedLaidOut(ds, k);
    if forall i :: 0 <= i < |ds| ==> '0' <= ds[i] <= '9' { ExponentShown(Placed(ds, k), ds, k); }
  }

  method AppendZeros(t: string, n: nat) returns (out: string)
    ensures out == t + Zeros(n)
  {
    out := t;
    for i := 0 to n
      invariant out == t + Zeros(i)
    {
      out := out + "0";
    }
  }

  // ---- reading back ----

  lemma {:induction false} RunEndIs(s: string, i: nat, j: nat)
    requires i <= j <= |s| && AllDigits(s[i..j]) && !IsDigit(At(s, j))
    ensures RunEnd(s, i) == j
    decreases j - i
  {
    if i < j {
      assert IsDigit(s[i..j][0]);
      assert s[i + 1..j] == s[i..j][1..];
      RunEndIs(s, i + 1, j);
    }
  }

  // A text cut into whole digits, a point and a fraction, then a tail that
  // starts with no digit.
  lemma ScanPointed(s: string, whole: string, frac: string, tail: string)
    requires s == whole + "." + frac + tail
    requires AllDigits(whole) && AllDigits(frac) && whole + frac != ""
    requires tail == "" || !IsDigit(tail[0])
    ensures var b := |whole| + 1 + |frac|;
            var e := ScanExponent(s, b);
            Scan(s, 0) == Scanned(e.end, Numeral(whole + frac), e.exponent - |frac|)
  {
    hide RunEnd, ScanExponent, Numeral;
    var a, f, b := |whole|, |whole| + 1, |whole| + 1 + |frac|;
    assert s[0..a] == whole;
    assert At(s, a) == '.';
    RunEndIs(s, 0, a);
    assert s[f..b] == frac;
    assert At(s, b) == At(tail, 0);
    RunEndIs(s, f, b);
  }

  lemma ScanUnpointed(s: string, whole: string, tail: string)
    requires s == whole + tail
    requires AllDigits(whole) && whole != ""
    requires tail == "" || (!IsDigit(tail[0]) && tail[0] != '.')
    ensures var e := ScanExponent(s, |whole|);
            Scan(s, 0) == Scanned(e.end, Numeral(whole), e.exponent)
  {
    var a := |whole|;
    assert s[0..a] == whole;
    assert At(s, a) == At(tail, 0);
    RunEndIs(s, 0, a);
    assert s[0..a] + s[a..a] == whole;
  }

  // The exponent a text "e<n>" reads as: n, held inside the cap.
  function Clamp(n: int): int {
    if n < -EXPONENT_CAP then -EXPONENT_CAP else if n > EXPONENT_CAP then EXPONENT_CAP else n
  }

  lemma ScanExponentEnd(s: string)
    ensures ScanExponent(s, |s|) == ExponentPart(|s|, 0)
  {}

  lemma ScanExponentDigits(s: string, i: nat, d: nat, digits: string)
    requires i < d <= |s| && s[i] == 'e' && s[d..] == digits
    requires digits != "" && AllDigits(digits)
    requires d == if IsSign(At(s, i + 1)) then i + 2 else i + 1
    ensures ScanExponent(s, i) ==
            ExponentPart(|s|, if At(s, i + 1) == '-' then -Min(Numeral(digits), EXPONENT_CAP)
                              else Min(Numeral(digits), EXPONENT_CAP))
  {
    assert s[d..|s|] == digits;
    assert At(s, d) == digits[0];
    RunEndIs(s, d, |s|);
  }

  lemma ScanExponentText(s: string, i: nat, n: int)
    requires i <= |s| && s[i..] == "e" + IntText(n)
    ensures ScanExponent(s, i) == ExponentPart(|s|, Clamp(n))
  {
    hide ScanExponent, RunEnd, Numeral, NatText;
    var digits := NatText(if n < 0 then -n else n);
    NatTextDenotes(if n < 0 then -n else n);
    AfterMark(s, i, IntText(n));
    if n < 0 {
      assert s[i + 2..] == IntText(n)[1..] == digits;
      ScanExponentDigits(s, i, i + 2, digits);
    } else {
      ScanExponentDigits(s, i, i + 1, digits);
    }
  }

  lemma AfterMark(s: string, i: nat, t: string)
    requires i <= |s| && t != "" && s[i..] == "e" + t
    ensures i + 1 < |s| && s[i] == 'e' && At(s, i + 1) == t[0] && s[i + 1..] == t
    ensures s[i + 2..] == t[1..]
  {
    assert s[i] == s[i..][0] && s[i + 1] == s[i..][1];
    assert s[i + 1..] == s[i..][1..];
    assert s[i + 2..] == s[i + 1..][1..];
  }

  lemma ZeroIsDigit()
    ensures AllDigits("0")
  {}

  lemma ScanAllFraction(s: string, frac: string)
    requires s == "0." + frac && AllDigits(frac)
    ensures Scan(s, 0) == Scanned(|s|, Numeral("0" + frac), -|frac|)
  {
    hide *;
    assert "0." == "0" + ".";
    assert AllDigits("0") by { ZeroIsDigit(); }
    ScanPlain(s, "0", frac);
  }

  lemma ScanPlain(s: string, whole: string, frac: string)
    requires s == whole + "." + frac && AllDigits(whole) && AllDigits(frac) && whole + frac != ""
    ensures Scan(s, 0) == Scanned(|s|, Numeral(whole + frac), -|frac|)
  {
    hide *;
    ScanExponentEnd(s);
    assert s == whole + "." + frac + "";
    ScanPointed(s, whole, frac, "");
  }

  lemma ScanPlainSmall(ds: string, k: int)
    requires ds != "" && AllDigits(ds) && Plain(k) && k <= 0
    ensures Scan(Placed(ds, k), 0) == Scanned(|Placed(ds, k)|, Numeral(ds), k - |ds|)
  {
    hide Scan, ScanExponent, RunEnd, Numeral, IntText, NatText;
    var frac := Zeros(-k) + ds;
    assert Placed(ds, k) == "0." + frac;
    ScanAllFraction(Placed(ds, k), frac);
    assert "0" + frac == Zeros(1 - k) + ds;
    NumeralLeadingZeros(1 - k, ds);
  }

  lemma ScanPlainLarge(ds: string, k: int)
    requires ds != "" && AllDigits(ds) && Plain(k) && k >= |ds|
    ensures Scan(Placed(ds, k), 0) == Scanned(|Placed(ds, k)|, Numeral(ds) * Pow(10, k - |ds| + 1), -1)
  {
    hide Scan, ScanExponent, RunEnd, Numeral, Pow, IntText, NatText;
    ScanPlain(Placed(ds, k), ds + Zeros(k - |ds|), "0");
    assert ds + Zeros(k - |ds|) + "0" == ds + Zeros(k - |ds| + 1);
    NumeralTrailingZeros(ds, k - |ds| + 1);
  }

  lemma ScanPlainMiddle(ds: string, k: int)
    requires AllDigits(ds) && Plain(k) && 0 < k < |ds|
    ensures Scan(Placed(ds, k), 0) == Scanned(|Placed(ds, k)|, Numeral(ds), k - |ds|)
  {
    hide Scan, ScanExponent, RunEnd, Numeral, Pow, IntText, NatText;
    ScanPlain(Placed(ds, k), ds[..k], ds[k..]);
    assert ds[..k] + ds[k..] == ds;
  }

  lemma ScanScientificLong(s: string, ds: string, k: int)
    requires |ds| > 1 && AllDigits(ds) && s == ds[..1] + "." + ds[1..] + ("e" + IntText(k - 1))
    ensures Scan(s, 0) == Scanned(|s|, Numeral(ds), Clamp(k - 1) - (|ds| - 1))
  {
    hide Scan, ScanExponent, RunEnd, Numeral, Pow, IntText, NatText, Clamp;
    ScanPointed(s, ds[..1], ds[1..], "e" + IntText(k - 1));
    assert s[|ds| + 1..] == "e" + IntText(k - 1);
    ScanExponentText(s, |ds| + 1, k - 1);
    assert ds[..1] + ds[1..] == ds;
  }

  lemma ScanScientificShort(s: string, ds: string, k: int)
    requires |ds| == 1 && AllDigits(ds) && s == ds + ("e" + IntText(k - 1))
    ensures Scan(s, 0) == Scanned(|s|, Numeral(ds), Clamp(k - 1))
  {
    hide Scan, ScanExponent, RunEnd, Numeral, Pow, IntText, NatText, Clamp;
    ScanUnpointed(s, ds, "e" + IntText(k - 1));
    assert s[1..] == "e" + IntText(k - 1);
    ScanExponentText(s, 1, k - 1);
  }

  lemma ScanScientific(ds: string, k: int)
    requires ds != "" && AllDigits(ds) && !Plain(k)
    ensures Scan(Placed(ds, k), 0) == Scanned(|Placed(ds, k)|, Numeral(ds), Clamp(k - 1) - (|ds| - 1))
  {
    hide Scan, ScanExponent, RunEnd, Numeral, Pow, IntText, NatText, Clamp;
    var s := Placed(ds, k);
    if |ds| > 1 {
      assert s == ds[..1] + "." + ds[1..] + ("e" + IntText(k - 1));
      ScanScientificLong(s, ds, k);
    } else {
      assert s == ds + ("e" + IntText(k - 1));
      ScanScientificShort(s, ds, k);
    }
  }

  // ---- the law ----

  lemma ShiftedNumeral(n: int, e: int, j: nat)
    ensures (n * Pow(10, j)) as real * RPow(10.0, e) == n as real * RPow(10.0, e + j)
  {
    hide *;
    RPowOfNat(10, j);
    RPowAdd(10.0, e, j);
    CastProduct(n, Pow(10, j));
    ShiftedNumeralAlgebra(n as real, RPow(10.0, j), RPow(10.0, e), RPow(10.0, e + j), (n * Pow(10, j)) as real);
  }

  lemma ShiftedNumeralAlgebra(n: real, p: real, q: real, pq: real, np: real)
    requires pq == q * p && np == n * p
    ensures np * q == n * pq
  {}

  lemma ScaledDiffers(n: int, d: int, e: int)
    requires n > 0
    ensures n as real * RPow(10.0, d) == n as real * RPow(10.0, e) <==> d == e
  {
    hide *;
    if d < e {
      RPowStrict(10.0, d, e);
      ScaleLt(n as real, RPow(10.0, d), RPow(10.0, e));
    } else if e < d {
      RPowStrict(10.0, e, d);
      ScaleLt(n as real, RPow(10.0, e), RPow(10.0, d));
    }
  }

  // Printing then scanning: the whole text is read, and its value is
  // 0.ds * 10^k exactly when the exponent is written in plain notation or its
  // size does not exceed the scanner's cap.
  lemma PrintedReadsBack(ds: string, k: int)
    requires ds != "" && AllDigits(ds) && Numeral(ds) > 0
    ensures var r := Scan(Placed(ds, k), 0);
            && r.Scanned? && r.end == |Placed(ds, k)|
            && (Denoted(r) == Numeral(ds) as real * RPow(10.0, k - |ds|)
                <==> Plain(k) || -EXPONENT_CAP <= k - 1 <= EXPONENT_CAP)
  {
    hide Scan, RPow, Numeral, Placed, Pow, AllDigits;
    if Plain(k) && k <= 0 {
      ScanPlainSmall(ds, k);
    } else if Plain(k) && k >= |ds| {
      ScanPlainLarge(ds, k);
      ShiftedNumeral(Numeral(ds), -1, k - |ds| + 1);
      assert -1 + (k - |ds| + 1) == k - |ds|;
    } else if Plain(k) {
      ScanPlainMiddle(ds, k);
    } else {
      ScanScientific(ds, k);
      ScaledDiffers(Numeral(ds), Clamp(k - 1) - (|ds| - 1), k - |ds|);
    }
  }
}
