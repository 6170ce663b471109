// Integer and rational powers, the vocabulary of every statement about
// decimal and binary exponents in this project.
module Powers {

  // b^n for a natural exponent, over the integers and over the reals.
  function Pow(b: nat, n: nat): (p: nat)
    ensures b > 0 ==> p > 0
  {
    if n == 0 then 1 else b * Pow(b, n - 1)
  }

  ghost function NatRPow(b: real, n: nat): (r: real)
    requires b > 0.0
    ensures r > 0.0
  {
    if n == 0 then 1.0 else b * NatRPow(b, n - 1)
  }

  // b^e for any integer exponent.
  ghost function RPow(b: real, e: int): (r: real)
    requires b > 0.0
    ensures r > 0.0
  {
    if e >= 0 then NatRPow(b, e) else 1.0 / NatRPow(b, -e)
  }

  // ---- algebra over plain reals, kept away from the recursive definitions ----

  lemma CancelLeft(b: real, x: real, y: real)
    requires b > 0.0 && b * x == b * y
    ensures x == y
  {
    assert b * (x - y) == 0.0;
  }

  lemma Reciprocal(b: real, p: real)
    requires b > 0.0 && p > 0.0
    ensures b * p > 0.0
    ensures 1.0 / p == b * (1.0 / (b * p))
  {
    var r := 1.0 / (b * p);
    assert (b * p) * r == 1.0;
    assert p * (b * r) == 1.0;
  }

  lemma StepUp(b: real, x: real, p: real, q: real, x': real, q': real)
    requires x == p * q && x' == b * x && q' == b * q
    ensures x' == p * q'
  {}

  lemma StepDown(b: real, x: real, p: real, q: real, x': real, q': real)
    requires b > 0.0 && x' == p * q' && x' == b * x && q' == b * q
    ensures x == p * q
  {
    CancelLeft(b, x, p * q);
  }

  lemma ScaleLe(c: real, x: real, y: real)
    requires c >= 0.0 && x <= y
    ensures c * x <= c * y
  {
    assert c * (y - x) >= 0.0;
  }

  lemma ScaleLt(c: real, x: real, y: real)
    requires c > 0.0 && x < y
    ensures c * x < c * y
  {
    assert c * (y - x) > 0.0;
  }

  lemma CastProduct(m: int, n: int)
    ensures (m * n) as real == m as real * n as real
  {}

  // ---- laws of exponents ----

  lemma RPowStep(b: real, e: int)
    requires b > 0.0
    ensures RPow(b, e) == b * RPow(b, e - 1)
  {
    if e <= 0 {
      Reciprocal(b, NatRPow(b, -e));
    }
  }

  lemma RPowAddUp(b: real, m: int, n: int)
    requires b > 0.0
    requires RPow(b, m + (n - 1)) == RPow(b, m) * RPow(b, n - 1)
    ensures RPow(b, m + n) == RPow(b, m) * RPow(b, n)
  {
    hide *;
    var x, p, q, x', q' := RPow(b, m + (n - 1)), RPow(b, m), RPow(b, n - 1), RPow(b, m + n), RPow(b, n);
    assert x' == b * x by { RPowStep(b, m + n); assert m + n - 1 == m + (n - 1); }
    assert q' == b * q by { RPowStep(b, n); }
    StepUp(b, x, p, q, x', q');
  }

  lemma RPowAddDown(b: real, m: int, n: int)
    requires b > 0.0
    requires RPow(b, m + (n + 1)) == RPow(b, m) * RPow(b, n + 1)
    ensures RPow(b, m + n) == RPow(b, m) * RPow(b, n)
  {
    hide *;
    var x, p, q, x', q' := RPow(b, m + n), RPow(b, m), RPow(b, n), RPow(b, m + (n + 1)), RPow(b, n + 1);
    assert x' == b * x by { RPowStep(b, m + (n + 1)); assert m + (n + 1) - 1 == m + n; }
    assert q' == b * q by { RPowStep(b, n + 1); }
    StepDown(b, x, p, q, x', q');
  }

  lemma {:induction false} RPowAdd(b: real, m: int, n: int)
    requires b > 0.0
    ensures RPow(b, m + n) == RPow(b, m) * RPow(b, n)
    decreases if n < 0 then -n else n
  {
    hide *;
    if n == 0 {
      RPowZero(b);
    } else if n > 0 {
      RPowAdd(b, m, n - 1);
      RPowAddUp(b, m, n);
    } else {
      RPowAdd(b, m, n + 1);
      RPowAddDown(b, m, n);
    }
  }

  lemma RPowZero(b: real)
    requires b > 0.0
    ensures RPow(b, 0) == 1.0
  {}

  lemma RPowInverse(b: real, n: int)
    requires b > 0.0
    ensures RPow(b, -n) * RPow(b, n) == 1.0
  {
    RPowAdd(b, -n, n);
  }

  lemma NatRPowProductStep(a: real, b: real, x: real, p: real, q: real)
    requires x == p * q
    ensures (a * b) * x == (a * p) * (b * q)
  {}

  lemma {:induction false} NatRPowProduct(a: real, b: real, n: nat)
    requires a > 0.0 && b > 0.0 && a * b > 0.0
    ensures NatRPow(a * b, n) == NatRPow(a, n) * NatRPow(b, n)
  {
    if n > 0 {
      NatRPowProduct(a, b, n - 1);
      NatRPowProductStep(a, b, NatRPow(a * b, n - 1), NatRPow(a, n - 1), NatRPow(b, n - 1));
    }
  }

  lemma ReciprocalProduct(p: real, q: real)
    requires p > 0.0 && q > 0.0
    ensures p * q > 0.0 && 1.0 / (p * q) == (1.0 / p) * (1.0 / q)
  {
    var u, v, r := 1.0 / p, 1.0 / q, 1.0 / (p * q);
    assert p * u == 1.0 && q * v == 1.0;
    assert (p * q) * (u * v) == 1.0 by { assert (p * u) * (q * v) == 1.0; }
    CancelLeft(p * q, r, u * v);
  }

  lemma RPowProduct(a: real, b: real, n: int)
    requires a > 0.0 && b > 0.0 && a * b > 0.0
    ensures RPow(a * b, n) == RPow(a, n) * RPow(b, n)
  {
    if n >= 0 {
      NatRPowProduct(a, b, n);
    } else {
      NatRPowProduct(a, b, -n);
      ReciprocalProduct(NatRPow(a, -n), NatRPow(b, -n));
    }
  }

  lemma {:induction false} RPowOfNat(b: nat, n: nat)
    requires b > 0
    ensures RPow(b as real, n) == Pow(b, n) as real
  {
    if n > 0 {
      RPowOfNat(b, n - 1);
      assert (b * Pow(b, n - 1)) as real == (b as real) * (Pow(b, n - 1) as real);
    }
  }

  lemma {:induction false} RPowMono(b: real, m: int, n: int)
    requires b >= 1.0 && m <= n
    ensures RPow(b, m) <= RPow(b, n)
    decreases n - m
  {
    hide *;
    if m < n {
      RPowMono(b, m, n - 1);
      RPowStep(b, n);
      ScaleLe(RPow(b, n - 1), 1.0, b);
    }
  }

  lemma RPowStrict(b: real, m: int, n: int)
    requires b > 1.0 && m < n
    ensures RPow(b, m) < RPow(b, n)
  {
    hide *;
    RPowMono(b, m, n - 1);
    RPowStep(b, n);
    ScaleLt(RPow(b, n - 1), 1.0, b);
  }

  lemma PowZero(b: nat)
    ensures Pow(b, 0) == 1
  {}

  lemma PowStep(b: nat, n: nat)
    requires n > 0
    ensures Pow(b, n) == b * Pow(b, n - 1)
  {}

  lemma NatStepUp(b: nat, x: nat, p: nat, q: nat, x': nat, p': nat)
    requires x == p * q && x' == b * x && p' == b * p
    ensures x' == p' * q
  {
    assert b * (p * q) == (b * p) * q;
  }

  lemma {:induction false} PowAdd(b: nat, m: nat, n: nat)
    ensures Pow(b, m + n) == Pow(b, m) * Pow(b, n)
  {
    if m > 0 {
      hide *;
      PowAdd(b, m - 1, n);
      PowStep(b, m + n);
      PowStep(b, m);
      NatStepUp(b, Pow(b, m + n - 1), Pow(b, m - 1), Pow(b, n), Pow(b, m + n), Pow(b, m));
    }
  }

  // ---- bit lengths ----

  // mpz_sizeinbase(n, 2): exact, and 1 for zero.
  function BitLength(n: nat): (b: nat)
    ensures b >= 1
  {
    if n < 2 then 1 else 1 + BitLength(n / 2)
  }

  lemma {:induction false} BitLengthBounds(n: nat)
    requires n > 0
    ensures Pow(2, BitLength(n) - 1) <= n < Pow(2, BitLength(n))
  {
    if n >= 2 {
      BitLengthBounds(n / 2);
    } else {
      assert Pow(2, 1) == 2 * Pow(2, 0);
    }
  }

  lemma {:induction false} PowMono(b: nat, m: nat, n: nat)
    requires b >= 1 && m <= n
    ensures Pow(b, m) <= Pow(b, n)
    decreases n - m
  {
    if m < n {
      PowMono(b, m, n - 1);
      assert Pow(b, n) == b * Pow(b, n - 1) >= Pow(b, n - 1);
    }
  }

  lemma BitLengthIs(n: nat, b: nat)
    requires n > 0 && b >= 1 && Pow(2, b - 1) <= n < Pow(2, b)
    ensures BitLength(n) == b
  {
    BitLengthBounds(n);
    if BitLength(n) < b {
      PowMono(2, BitLength(n), b - 1);
    } else if BitLength(n) > b {
      PowMono(2, b, BitLength(n) - 1);
    }
  }

  // ---- quotients ----

  function AbsInt(n: int): (a: int)
    ensures a >= 0
  {
    if n < 0 then -n else n
  }

  // Quotient and remainder are those of q * b + r == a with 0 <= r < |b|.
  lemma EuclidUnique(a: int, b: int, q: int, r: int)
    requires b != 0 && a == q * b + r && 0 <= r < AbsInt(b)
    ensures q == a / b && r == a % b
  {
    var q', r' := a / b, a % b;
    assert a == q' * b + r';
    DifferenceProduct(q, q', b);
    NoMultipleBetween(q - q', b, r' - r);
  }

  lemma DifferenceProduct(q: int, p: int, b: int)
    ensures (q - p) * b == q * b - p * b
  {}

  lemma NoMultipleBetween(d: int, b: int, s: int)
    requires d * b == s && -AbsInt(b) < s < AbsInt(b)
    ensures d == 0
  {
    assert d >= 1 && b > 0 ==> d * b >= b;
    assert d >= 1 && b < 0 ==> d * b <= b;
    assert d <= -1 && b > 0 ==> d * b <= -b;
    assert d <= -1 && b < 0 ==> d * b >= -b;
  }
}
