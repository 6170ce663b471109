// Linear maps over F2 and the action of polynomials on their states, the
// algebra behind arbitrary jumps. A polynomial is its sequence of
// coefficients, lowest first.
module LinearSystem {

  type Poly = seq<bool>

  // A state space with an XOR-like sum and a step; Has tells which values are
  // states.
  datatype System<!S(!new)> = System(step: S -> S, add: (S, S) -> S, zero: S, Has: S -> bool)

  ghost predicate Closed<S(!new)>(L: System<S>) {
    && L.Has(L.zero)
    && (forall a :: L.Has(a) ==> L.Has(L.step(a)))
    && (forall a, b :: L.Has(a) && L.Has(b) ==> L.Has(L.add(a, b)))
  }

  ghost predicate Group<S(!new)>(L: System<S>) {
    && (forall a :: L.Has(a) ==> L.add(L.zero, a) == a && L.add(a, a) == L.zero)
    && (forall a, b :: L.Has(a) && L.Has(b) ==> L.add(a, b) == L.add(b, a))
    && (forall a, b, c :: L.Has(a) && L.Has(b) && L.Has(c) ==> L.add(L.add(a, b), c) == L.add(a, L.add(b, c)))
  }

  // The step is a linear map on a space where everything is its own inverse.
  ghost predicate Linear<S(!new)>(L: System<S>) {
    && Closed(L) && Group(L)
    && (forall a, b :: L.Has(a) && L.Has(b) ==> L.step(L.add(a, b)) == L.add(L.step(a), L.step(b)))
  }

  // n steps.
  function Iter<S(!new)>(L: System<S>, n: nat, s: S): S {
    if n == 0 then s else Iter(L, n - 1, L.step(s))
  }

  function Term<S(!new)>(L: System<S>, bit: bool, s: S): S { if bit then s else L.zero }

  // The polynomial p applied to s: the sum of the step^k(s) whose coefficient
  // k is one.
  function Act<S(!new)>(L: System<S>, p: Poly, s: S): S {
    if p == [] then L.zero else L.add(Term(L, p[0], s), Act(L, p[1..], L.step(s)))
  }

  function Xor(a: Poly, b: Poly): (r: Poly)
    requires |a| == |b|
    ensures |r| == |a| && forall k :: 0 <= k < |a| ==> r[k] == (a[k] != b[k])
  {
    seq(|a|, k requires 0 <= k < |a| => a[k] != b[k])
  }

  function ZeroPoly(deg: nat): (r: Poly)
    ensures |r| == deg && forall k :: 0 <= k < deg ==> !r[k]
  {
    seq(deg, _ => false)
  }

  // ---- the laws, one instance at a time ----

  lemma HasAdd<S(!new)>(L: System<S>, a: S, b: S)
    requires Linear(L) && L.Has(a) && L.Has(b)
    ensures L.Has(L.add(a, b))
  {}

  lemma HasStep<S(!new)>(L: System<S>, a: S)
    requires Linear(L) && L.Has(a)
    ensures L.Has(L.step(a))
  {}

  lemma HasTerm<S(!new)>(L: System<S>, bit: bool, s: S)
    requires Linear(L) && L.Has(s)
    ensures L.Has(Term(L, bit, s)) && L.Has(L.zero)
  {}

  lemma AddZero<S(!new)>(L: System<S>, a: S)
    requires Linear(L) && L.Has(a)
    ensures L.add(L.zero, a) == a && L.add(a, L.zero) == a
  {
    assert L.Has(L.zero);
    assert L.add(a, L.zero) == L.add(L.zero, a);
  }

  lemma AddSelf<S(!new)>(L: System<S>, a: S)
    requires Linear(L) && L.Has(a)
    ensures L.add(a, a) == L.zero
  {}

  lemma AddComm<S(!new)>(L: System<S>, a: S, b: S)
    requires Linear(L) && L.Has(a) && L.Has(b)
    ensures L.add(a, b) == L.add(b, a)
  {}

  lemma AddAssoc<S(!new)>(L: System<S>, a: S, b: S, c: S)
    requires Linear(L) && L.Has(a) && L.Has(b) && L.Has(c)
    ensures L.add(L.add(a, b), c) == L.add(a, L.add(b, c))
  {}

  lemma StepAdd<S(!new)>(L: System<S>, a: S, b: S)
    requires Linear(L) && L.Has(a) && L.Has(b)
    ensures L.step(L.add(a, b)) == L.add(L.step(a), L.step(b))
  {}

  lemma StepZero<S(!new)>(L: System<S>)
    requires Linear(L)
    ensures L.Has(L.zero) && L.step(L.zero) == L.zero
  {
    var z := L.zero;
    assert L.add(z, z) == z;
    StepAdd(L, z, z);
    HasStep(L, z);
    AddSelf(L, L.step(z));
  }

  lemma StepTerm<S(!new)>(L: System<S>, bit: bool, s: S)
    requires Linear(L) && L.Has(s)
    ensures L.step(Term(L, bit, s)) == Term(L, bit, L.step(s))
  {
    hide Linear, Closed, Group;
    StepZero(L);
  }

  // (a + b) + (c + d) == (a + c) + (b + d)
  lemma AddInterchange<S(!new)>(L: System<S>, a: S, b: S, c: S, d: S)
    requires Linear(L) && L.Has(a) && L.Has(b) && L.Has(c) && L.Has(d)
    ensures L.add(L.add(a, b), L.add(c, d)) == L.add(L.add(a, c), L.add(b, d))
  {
    hide Linear, Closed, Group;
    HasAdd(L, b, d);
    HasAdd(L, c, d);
    AddAssoc(L, a, b, L.add(c, d));
    AddAssoc(L, b, c, d);
    AddComm(L, b, c);
    AddAssoc(L, c, b, d);
    AddAssoc(L, a, c, L.add(b, d));
  }

  lemma TermAdd<S(!new)>(L: System<S>, bit: bool, s: S, t: S)
    requires Linear(L) && L.Has(s) && L.Has(t)
    ensures Term(L, bit, L.add(s, t)) == L.add(Term(L, bit, s), Term(L, bit, t))
  {
    hide Linear, Closed, Group;
    HasTerm(L, bit, s);
    AddZero(L, L.zero);
  }

  lemma TermXor<S(!new)>(L: System<S>, p: bool, q: bool, s: S)
    requires Linear(L) && L.Has(s)
    ensures Term(L, p != q, s) == L.add(Term(L, p, s), Term(L, q, s))
  {
    hide Linear, Closed, Group;
    HasTerm(L, p, s);
    AddZero(L, s);
    AddZero(L, L.zero);
    AddSelf(L, s);
  }

  // ---- iteration ----

  lemma {:induction false} HasIter<S(!new)>(L: System<S>, n: nat, s: S)
    requires Linear(L) && L.Has(s)
    ensures L.Has(Iter(L, n, s))
  {
    hide Linear, Closed, Group;
    if n > 0 { HasStep(L, s); HasIter(L, n - 1, L.step(s)); }
  }

  lemma {:induction false} IterLast<S(!new)>(L: System<S>, n: nat, s: S)
    ensures Iter(L, n + 1, s) == L.step(Iter(L, n, s))
  {
    hide Linear, Closed, Group;
    if n > 0 { IterLast(L, n - 1, L.step(s)); }
  }

  lemma {:induction false} IterAdd<S(!new)>(L: System<S>, m: nat, n: nat, s: S)
    ensures Iter(L, m + n, s) == Iter(L, m, Iter(L, n, s))
  {
    hide Linear, Closed, Group;
    if n > 0 {
      IterAdd(L, m, n - 1, L.step(s));
      assert m + n - 1 == m + (n - 1);
    }
  }

  // ---- the action ----

  lemma {:induction false} HasAct<S(!new)>(L: System<S>, p: Poly, s: S)
    requires Linear(L) && L.Has(s)
    ensures L.Has(Act(L, p, s))
  {
    hide Linear, Closed, Group;
    HasTerm(L, false, s);
    if p != [] {
      HasStep(L, s);
      HasAct(L, p[1..], L.step(s));
      HasTerm(L, p[0], s);
      HasAdd(L, Term(L, p[0], s), Act(L, p[1..], L.step(s)));
    }
  }

  // The action of p is itself linear,
  lemma {:induction false} ActAdd<S(!new)>(L: System<S>, p: Poly, s: S, t: S)
    requires Linear(L) && L.Has(s) && L.Has(t)
    ensures Act(L, p, L.add(s, t)) == L.add(Act(L, p, s), Act(L, p, t))
  {
    hide Linear, Closed, Group;
    HasTerm(L, false, s);
    AddZero(L, L.zero);
    if p != [] {
      HasStep(L, s);
      HasStep(L, t);
      HasTerm(L, p[0], s);
      HasTerm(L, p[0], t);
      StepAdd(L, s, t);
      TermAdd(L, p[0], s, t);
      ActAdd(L, p[1..], L.step(s), L.step(t));
      HasAct(L, p[1..], L.step(s));
      HasAct(L, p[1..], L.step(t));
      AddInterchange(L, Term(L, p[0], s), Term(L, p[0], t), Act(L, p[1..], L.step(s)), Act(L, p[1..], L.step(t)));
    }
  }

  // and commutes with the step.
  lemma {:induction false} ActStep<S(!new)>(L: System<S>, p: Poly, s: S)
    requires Linear(L) && L.Has(s)
    ensures L.step(Act(L, p, s)) == Act(L, p, L.step(s))
  {
    hide Linear, Closed, Group;
    StepZero(L);
    if p != [] {
      HasStep(L, s);
      ActStep(L, p[1..], L.step(s));
      HasTerm(L, p[0], s);
      HasAct(L, p[1..], L.step(s));
      StepAdd(L, Term(L, p[0], s), Act(L, p[1..], L.step(s)));
      StepTerm(L, p[0], s);
    }
  }

  lemma {:induction false} ActIter<S(!new)>(L: System<S>, p: Poly, n: nat, s: S)
    requires Linear(L) && L.Has(s)
    ensures Iter(L, n, Act(L, p, s)) == Act(L, p, Iter(L, n, s))
  {
    hide Linear, Closed, Group;
    if n > 0 {
      ActStep(L, p, s);
      HasStep(L, s);
      ActIter(L, p, n - 1, L.step(s));
    }
  }

  lemma {:induction false} ActOfZero<S(!new)>(L: System<S>, p: Poly)
    requires Linear(L)
    ensures Act(L, p, L.zero) == L.zero
  {
    hide Linear, Closed, Group;
    StepZero(L);
    AddZero(L, L.zero);
    if p != [] { ActOfZero(L, p[1..]); }
  }

  // Polynomials add as their actions do.
  lemma {:induction false} ActXor<S(!new)>(L: System<S>, p: Poly, q: Poly, s: S)
    requires Linear(L) && L.Has(s) && |p| == |q|
    ensures Act(L, Xor(p, q), s) == L.add(Act(L, p, s), Act(L, q, s))
  {
    hide Linear, Closed, Group;
    HasTerm(L, false, s);
    AddZero(L, L.zero);
    if p != [] {
      HasStep(L, s);
      assert Xor(p, q)[1..] == Xor(p[1..], q[1..]);
      ActXor(L, p[1..], q[1..], L.step(s));
      TermXor(L, p[0], q[0], s);
      HasTerm(L, p[0], s);
      HasTerm(L, q[0], s);
      HasAct(L, p[1..], L.step(s));
      HasAct(L, q[1..], L.step(s));
      AddInterchange(L, Term(L, p[0], s), Term(L, q[0], s), Act(L, p[1..], L.step(s)), Act(L, q[1..], L.step(s)));
    }
  }

  // Two actions on one state commute.
  lemma {:induction false} ActComm<S(!new)>(L: System<S>, p: Poly, q: Poly, s: S)
    requires Linear(L) && L.Has(s)
    ensures Act(L, p, Act(L, q, s)) == Act(L, q, Act(L, p, s))
  {
    hide Linear, Closed, Group;
    if p == [] {
      ActOfZero(L, q);
    } else {
      HasTerm(L, false, s);
      HasStep(L, s);
      ActStep(L, q, s);
      ActComm(L, p[1..], q, L.step(s));
      HasTerm(L, p[0], s);
      HasAct(L, p[1..], L.step(s));
      ActAdd(L, q, Term(L, p[0], s), Act(L, p[1..], L.step(s)));
      ActOfTerm(L, p[0], q, s);
    }
  }

  lemma ActOfTerm<S(!new)>(L: System<S>, bit: bool, q: Poly, s: S)
    requires Linear(L) && L.Has(s)
    ensures Act(L, q, Term(L, bit, s)) == Term(L, bit, Act(L, q, s))
  {
    hide Linear, Closed, Group;
    ActOfZero(L, q);
  }

  // One more coefficient at the top.
  lemma {:induction false} ActSnoc<S(!new)>(L: System<S>, p: Poly, bit: bool, s: S)
    requires Linear(L) && L.Has(s)
    ensures Act(L, p + [bit], s) == L.add(Act(L, p, s), Term(L, bit, Iter(L, |p|, s)))
  {
    hide Linear, Closed, Group;
    if p == [] {
      assert p + [bit] == [bit] && [bit][1..] == [];
      HasTerm(L, bit, s);
      AddZero(L, Term(L, bit, s));
    } else {
      assert (p + [bit])[1..] == p[1..] + [bit];
      HasStep(L, s);
      ActSnoc(L, p[1..], bit, L.step(s));
      HasTerm(L, p[0], s);
      HasAct(L, p[1..], L.step(s));
      HasIter(L, |p|, s);
      HasTerm(L, bit, Iter(L, |p|, s));
      AddAssoc(L, Term(L, p[0], s), Act(L, p[1..], L.step(s)), Term(L, bit, Iter(L, |p|, s)));
    }
  }

  lemma ActShift<S(!new)>(L: System<S>, p: Poly, s: S)
    requires Linear(L) && L.Has(s)
    ensures Act(L, [false] + p, s) == Act(L, p, L.step(s))
  {
    hide Linear, Closed, Group;
    assert ([false] + p)[1..] == p;
    HasStep(L, s);
    HasAct(L, p, L.step(s));
    AddZero(L, Act(L, p, L.step(s)));
  }

  // ---- multiplication modulo a monic polynomial ----

  // cp holds the coefficients below the leading one: x^|cp| == cp.
  function MulX(a: Poly, cp: Poly): (r: Poly)
    requires |a| == |cp| > 0
    ensures |r| == |cp|
  {
    var shifted := [false] + a[..|a| - 1];
    if a[|a| - 1] then Xor(shifted, cp) else shifted
  }

  // The map satisfies its characteristic polynomial.
  ghost predicate Annihilates<S(!new)>(L: System<S>, cp: Poly) {
    forall s :: L.Has(s) ==> Iter(L, |cp|, s) == Act(L, cp, s)
  }

  // It is enough that the polynomial with its leading one sends all to zero.
  lemma SendsToZero<S(!new)>(L: System<S>, cp: Poly)
    requires Linear(L) && forall s :: L.Has(s) ==> Act(L, cp + [true], s) == L.zero
    ensures Annihilates(L, cp)
  {
    hide Linear, Closed, Group, Act, Iter;
    forall s | L.Has(s) ensures Iter(L, |cp|, s) == Act(L, cp, s) {
      ActSnoc(L, cp, true, s);
      HasAct(L, cp, s);
      HasIter(L, |cp|, s);
      SumOfEquals(L, Act(L, cp, s), Iter(L, |cp|, s));
    }
  }

  lemma SumOfEquals<S(!new)>(L: System<S>, a: S, b: S)
    requires Linear(L) && L.Has(a) && L.Has(b) && L.add(a, b) == L.zero
    ensures a == b
  {
    hide Linear, Closed, Group;
    AddAssoc(L, a, b, b);
    AddSelf(L, b);
    AddZero(L, a);
    AddZero(L, b);
  }

  // Multiplying by x is stepping.
  lemma ActMulX<S(!new)>(L: System<S>, a: Poly, cp: Poly, s: S)
    requires Linear(L) && L.Has(s) && |a| == |cp| > 0 && Annihilates(L, cp)
    ensures Act(L, MulX(a, cp), s) == L.step(Act(L, a, s))
  {
    hide Linear, Closed, Group, Annihilates, Act, Iter;
    AnnihilatesAt(L, cp, s);
    var low, top := a[..|a| - 1], a[|a| - 1];
    assert a == low + [top];
    HasStep(L, s);
    ActStep(L, a, s);
    ActSnoc(L, low, top, L.step(s));
    ActShift(L, low, s);
    HasAct(L, low, L.step(s));
    IterFirst(L, |cp|, s);
    if top {
      ActXor(L, [false] + low, cp, s);
    } else {
      AddZero(L, Act(L, low, L.step(s)));
    }
  }

  lemma AnnihilatesAt<S(!new)>(L: System<S>, cp: Poly, s: S)
    requires Annihilates(L, cp) && L.Has(s)
    ensures Iter(L, |cp|, s) == Act(L, cp, s)
  {}

  lemma IterFirst<S(!new)>(L: System<S>, n: nat, s: S)
    requires n > 0
    ensures Iter(L, n, s) == Iter(L, n - 1, L.step(s))
  {}

  // F2[x] / (cp) itself, with multiplication by x as the step.
  function PolySystem(cp: Poly): System<Poly>
    requires cp != []
  {
    System((a: Poly) => if |a| == |cp| then MulX(a, cp) else a,
           (a: Poly, b: Poly) => if |a| == |b| then Xor(a, b) else a,
           ZeroPoly(|cp|),
           (a: Poly) => |a| == |cp|)
  }

  lemma XorAssoc(a: Poly, b: Poly, c: Poly)
    requires |a| == |b| == |c|
    ensures Xor(Xor(a, b), c) == Xor(a, Xor(b, c))
  {}

  // Coefficient k of x * a: the one below, and cp's where the top overflows.
  lemma MulXAt(a: Poly, cp: Poly, k: nat)
    requires |a| == |cp| && k < |cp|
    ensures MulX(a, cp)[k] == ((k > 0 && a[k - 1]) != (a[|a| - 1] && cp[k]))
  {
    hide Xor;
    var shifted := [false] + a[..|a| - 1];
    assert shifted[k] == (k > 0 && a[k - 1]);
  }

  lemma MulXXor(a: Poly, b: Poly, cp: Poly)
    requires |a| == |b| == |cp| > 0
    ensures MulX(Xor(a, b), cp) == Xor(MulX(a, cp), MulX(b, cp))
  {
    hide MulX, Xor;
    var l, r := MulX(Xor(a, b), cp), Xor(MulX(a, cp), MulX(b, cp));
    forall k | 0 <= k < |cp| ensures l[k] == r[k] {
      MulXAt(Xor(a, b), cp, k);
      MulXAt(a, cp, k);
      MulXAt(b, cp, k);
    }
    assert l == r;
  }

  lemma PolyClosed(cp: Poly)
    requires cp != []
    ensures Closed(PolySystem(cp))
  {}

  lemma PolyGroup(cp: Poly)
    requires cp != []
    ensures Group(PolySystem(cp))
  {
    var L := PolySystem(cp);
    forall a | L.Has(a) ensures L.add(L.zero, a) == a && L.add(a, a) == L.zero {}
    forall a, b | L.Has(a) && L.Has(b) ensures L.add(a, b) == L.add(b, a) {}
    forall a, b, c | L.Has(a) && L.Has(b) && L.Has(c) ensures L.add(L.add(a, b), c) == L.add(a, L.add(b, c)) {
      XorAssoc(a, b, c);
    }
  }

  lemma PolyLinear(cp: Poly)
    requires cp != []
    ensures Linear(PolySystem(cp))
  {
    hide Closed, Group, PolySystem;
    PolyClosed(cp);
    PolyGroup(cp);
    StepsAdd(cp, PolySystem(cp));
  }

  lemma StepsAdd(cp: Poly, L: System<Poly>)
    requires cp != [] && L == PolySystem(cp)
    ensures forall a, b :: L.Has(a) && L.Has(b) ==> L.step(L.add(a, b)) == L.add(L.step(a), L.step(b))
  {
    hide *;
    forall a, b | L.Has(a) && L.Has(b) ensures L.step(L.add(a, b)) == L.add(L.step(a), L.step(b)) {
      PolyStepAdd(cp, a, b);
    }
  }

  lemma PolyStepAdd(cp: Poly, a: Poly, b: Poly)
    requires cp != [] && PolySystem(cp).Has(a) && PolySystem(cp).Has(b)
    ensures var L := PolySystem(cp); L.step(L.add(a, b)) == L.add(L.step(a), L.step(b))
  {
    hide MulX, Xor;
    MulXXor(a, b, cp);
  }

  // ---- powers of x ----

  function Unit(deg: nat, j: nat): (r: Poly)
    requires j < deg
    ensures |r| == deg && forall k :: 0 <= k < deg ==> r[k] == (k == j)
  {
    seq(deg, k => k == j)
  }

  // x^n mod cp.
  function XPow(cp: Poly, n: nat): Poly
    requires cp != []
  {
    Iter(PolySystem(cp), n, Unit(|cp|, 0))
  }

  // a * b mod cp: the sum of the x^k * b over the coefficients of a.
  function Product(cp: Poly, a: Poly, b: Poly): Poly
    requires cp != []
  {
    Act(PolySystem(cp), a, b)
  }

  lemma UnitStep(cp: Poly, j: nat)
    requires j + 1 < |cp|
    ensures PolySystem(cp).step(Unit(|cp|, j)) == Unit(|cp|, j + 1)
  {
    hide MulX;
    forall k | 0 <= k < |cp| ensures MulX(Unit(|cp|, j), cp)[k] == Unit(|cp|, j + 1)[k] {
      MulXAt(Unit(|cp|, j), cp, k);
    }
    assert MulX(Unit(|cp|, j), cp) == Unit(|cp|, j + 1);
  }

  lemma UnitOverflow(cp: Poly)
    requires cp != []
    ensures PolySystem(cp).step(Unit(|cp|, |cp| - 1)) == cp
  {
    hide MulX;
    var u := Unit(|cp|, |cp| - 1);
    forall k | 0 <= k < |cp| ensures MulX(u, cp)[k] == cp[k] {
      MulXAt(u, cp, k);
    }
    assert MulX(u, cp) == cp;
  }

  lemma {:induction false} XPowSmall(cp: Poly, j: nat)
    requires j < |cp|
    ensures XPow(cp, j) == Unit(|cp|, j)
  {
    hide PolySystem;
    if j > 0 {
      XPowSmall(cp, j - 1);
      IterLast(PolySystem(cp), j - 1, Unit(|cp|, 0));
      UnitStep(cp, j - 1);
    }
  }

  lemma XPowDegree(cp: Poly)
    requires cp != []
    ensures XPow(cp, |cp|) == cp
  {
    hide PolySystem, Iter;
    XPowSmall(cp, |cp| - 1);
    IterLast(PolySystem(cp), |cp| - 1, Unit(|cp|, 0));
    UnitOverflow(cp);
  }

  // The coefficients of a from j up, in place.
  function From(a: Poly, j: nat): (r: Poly)
    ensures |r| == |a| && forall k :: 0 <= k < |a| ==> r[k] == (k >= j && a[k])
  {
    seq(|a|, k requires 0 <= k < |a| => k >= j && a[k])
  }

  lemma FromStep(cp: Poly, a: Poly, j: nat, rest: Poly)
    requires cp != [] && |a| == |cp| == |rest| && j < |cp|
    requires forall k :: 0 <= k < |a| ==> rest[k] == (k >= j + 1 && a[k])
    ensures PolySystem(cp).add(Term(PolySystem(cp), a[j], Unit(|cp|, j)), rest) == From(a, j)
  {
    hide MulX, Act;
    var t := Term(PolySystem(cp), a[j], Unit(|cp|, j));
    assert |t| == |cp| && forall k :: 0 <= k < |a| ==> t[k] == (a[j] && k == j);
    assert Xor(t, rest) == From(a, j);
  }

  lemma {:induction false} ActOnUnit(cp: Poly, a: Poly, j: nat)
    requires cp != [] && |a| == |cp| && j < |cp|
    ensures Act(PolySystem(cp), a[j..], Unit(|cp|, j)) == From(a, j)
    decreases |cp| - j
  {
    hide MulX, PolySystem;
    var L := PolySystem(cp);
    assert a[j..][0] == a[j] && a[j..][1..] == a[j + 1..];
    var rest := Act(L, a[j + 1..], L.step(Unit(|cp|, j)));
    if j + 1 < |cp| {
      UnitStep(cp, j);
      ActOnUnit(cp, a, j + 1);
    } else {
      assert a[j + 1..] == [];
      ZeroOf(cp);
    }
    FromStep(cp, a, j, rest);
  }

  lemma ZeroOf(cp: Poly)
    requires cp != []
    ensures PolySystem(cp).zero == ZeroPoly(|cp|)
  {}

  // a * 1 == a
  lemma ProductOne(cp: Poly, a: Poly)
    requires cp != [] && |a| == |cp|
    ensures Product(cp, a, Unit(|cp|, 0)) == a
  {
    ActOnUnit(cp, a, 0);
    assert a[0..] == a && From(a, 0) == a;
  }

  // The quotient ring satisfies its own modulus.
  lemma PolyAnnihilates(cp: Poly)
    requires cp != []
    ensures Annihilates(PolySystem(cp), cp)
  {
    var L := PolySystem(cp);
    var one := Unit(|cp|, 0);
    PolyLinear(cp);
    forall s | L.Has(s) ensures Iter(L, |cp|, s) == Act(L, cp, s) {
      hide Linear, Iter, Act, MulX;
      ProductOne(cp, s);
      ProductOne(cp, cp);
      XPowDegree(cp);
      ActIter(L, s, |cp|, one);
      ActComm(L, s, cp, one);
    }
  }

  lemma {:induction false} HasXPow(cp: Poly, n: nat)
    requires cp != []
    ensures |XPow(cp, n)| == |cp|
  {
    PolyLinear(cp);
    HasIter(PolySystem(cp), n, Unit(|cp|, 0));
  }

  // x^n acts as n steps, in every linear system the modulus annihilates.
  lemma {:induction false} ActXPow<S(!new)>(L: System<S>, cp: Poly, n: nat, s: S)
    requires Linear(L) && L.Has(s) && cp != [] && Annihilates(L, cp)
    ensures Act(L, XPow(cp, n), s) == Iter(L, n, s)
  {
    hide Linear, Annihilates;
    var one := Unit(|cp|, 0);
    if n == 0 {
      ActUnit(L, |cp|, s);
    } else {
      ActXPow(L, cp, n - 1, s);
      HasXPow(cp, n - 1);
      IterLast(PolySystem(cp), n - 1, one);
      ActMulX(L, XPow(cp, n - 1), cp, s);
      IterLast(L, n - 1, s);
    }
  }

  lemma ActUnit<S(!new)>(L: System<S>, deg: nat, s: S)
    requires Linear(L) && L.Has(s) && deg > 0
    ensures Act(L, Unit(deg, 0), s) == s
  {
    hide Linear, Closed, Group;
    HasStep(L, s);
    assert Unit(deg, 0)[1..] == ZeroPoly(deg - 1);
    ActZeroPoly(L, deg - 1, L.step(s));
    HasTerm(L, false, s);
    AddZero(L, s);
  }

  lemma {:induction false} ActZeroPoly<S(!new)>(L: System<S>, deg: nat, s: S)
    requires Linear(L) && L.Has(s)
    ensures Act(L, ZeroPoly(deg), s) == L.zero
  {
    hide Linear, Closed, Group;
    HasTerm(L, false, s);
    if deg > 0 {
      HasStep(L, s);
      assert ZeroPoly(deg)[1..] == ZeroPoly(deg - 1);
      ActZeroPoly(L, deg - 1, L.step(s));
      AddZero(L, L.zero);
    }
  }

  // x^m * x^n == x^(m+n)
  lemma ProductXPow(cp: Poly, m: nat, n: nat)
    requires cp != []
    ensures Product(cp, XPow(cp, m), XPow(cp, n)) == XPow(cp, m + n)
  {
    hide Linear, Annihilates;
    PolyLinear(cp);
    PolyAnnihilates(cp);
    HasXPow(cp, n);
    ActXPow(PolySystem(cp), cp, m, XPow(cp, n));
    IterAdd(PolySystem(cp), m, n, Unit(|cp|, 0));
  }
}
