// Integers in two representations: an immediate word for what fits 63 bits, a
// boxed big number for the rest, updated in place when nobody else holds it.
module Integers {
  import opened RefCount
  import opened Powers

  const IMM_LIMIT: int := 0x4000_0000_0000_0000
  const WORD: int := 0x1_0000_0000_0000_0000
  const I64_LIMIT: int := 0x8000_0000_0000_0000

  predicate IsI64(n: int) { -I64_LIMIT <= n < I64_LIMIT }
  predicate Fits(n: int) { -IMM_LIMIT <= n < IMM_LIMIT }

  // ---- words ----

  // A number as an unsigned 64-bit word, and a word read as signed.
  function Wrap(n: int): (w: int)
    ensures 0 <= w < WORD
  {
    n % WORD
  }

  function Signed(w: int): int { if w < I64_LIMIT then w else w - WORD }

  // IMM_INT64 and imm_signed: shifted left by one, the low bit set.
  function ImmInt64(n: int): Value { Imm(Wrap(2 * n) + 1) }

  function ImmSigned(v: Value): int
    requires v.Imm?
  {
    Signed(v.word) / 2
  }

  predicate ImmWord(v: Value) { v.Imm? && 0 <= v.word < WORD && v.word % 2 == 1 }

  lemma ImmRoundTrip(n: int)
    requires Fits(n)
    ensures ImmWord(ImmInt64(n)) && ImmSigned(ImmInt64(n)) == n
  {
    if n >= 0 {
      assert Wrap(2 * n) == 2 * n;
    } else {
      assert Wrap(2 * n) == 2 * n + WORD;
    }
  }

  lemma ImmFits(v: Value)
    requires ImmWord(v)
    ensures Fits(ImmSigned(v)) && ImmInt64(ImmSigned(v)) == v
    ensures -0x4000_0000_0000_0000 <= ImmSigned(v) < 0x4000_0000_0000_0000
    ensures v.word == 2 * ImmSigned(v) + 1 + (if ImmSigned(v) < 0 then 0x1_0000_0000_0000_0000 else 0)
  {
    var n := ImmSigned(v);
    assert Signed(v.word) == 2 * n + 1;
    ImmRoundTrip(n);
    if n >= 0 {
      assert Wrap(2 * n) == 2 * n;
    } else {
      assert Wrap(2 * n) == 2 * n + WORD;
    }
  }

  // ---- the integer a value stands for ----

  predicate IsInteger(m: Objs, v: Value) { ImmWord(v) || (v.Ref? && v.id in m && m[v.id].kind.Number?) }

  function IntOf(m: Objs, v: Value): int
    requires IsInteger(m, v)
  {
    if v.Imm? then ImmSigned(v) else m[v.id].kind.n
  }

  // Boxed only when it has to be.
  predicate Canonical(m: Objs, v: Value) { IsInteger(m, v) && (v.Ref? ==> !Fits(m[v.id].kind.n)) }

  // Everything owed is as it was.
  ghost predicate Undisturbed(m: Objs, m': Objs, dying: set<Id>, owed: multiset<Value>) {
    && Untouched(m, m', dying)
    && forall id :: owed[Ref(id)] > 0 && id in m ==>
         id in m' && m'[id].kind == m[id].kind && m'[id].fields == m[id].fields
  }

  // ---- equality and order decide on the words ----

  // An immediate never equals a boxed Integer, and equal immediates are the
  // same word.
  lemma EqualityOnWords(m: Objs, x: Value, y: Value)
    requires Canonical(m, x) && Canonical(m, y) && (x.Imm? || y.Imm?)
    ensures x == y <==> IntOf(m, x) == IntOf(m, y)
  {
    if x.Imm? { ImmFits(x); }
    if y.Imm? { ImmFits(y); }
  }

  // The order of two immediates is the order of their words.
  lemma OrderOfWords(x: Value, y: Value)
    requires ImmWord(x) && ImmWord(y)
    ensures Signed(x.word) < Signed(y.word) <==> ImmSigned(x) < ImmSigned(y)
  {
    assert Signed(x.word) == 2 * ImmSigned(x) + 1;
    assert Signed(y.word) == 2 * ImmSigned(y) + 1;
  }

  method Compare(h: Heap, x: Value, y: Value) returns (c: int)
    requires IsInteger(h.objs, x) && IsInteger(h.objs, y)
    ensures c < 0 <==> IntOf(h.objs, x) < IntOf(h.objs, y)
    ensures c == 0 <==> IntOf(h.objs, x) == IntOf(h.objs, y)
    ensures c > 0 <==> IntOf(h.objs, x) > IntOf(h.objs, y)
  {
    if x.Imm? && y.Imm? {
      OrderOfWords(x, y);
      OrderOfWords(y, x);
      var a, b := Signed(x.word), Signed(y.word);
      return (if a > b then 1 else 0) - (if a < b then 1 else 0);
    }
    c := MpzCmp(IntOf(h.objs, x), IntOf(h.objs, y));
  }

  // mpz_cmp: some number of the sign of the difference.
  method MpzCmp(a: int, b: int) returns (c: int)
    ensures (c < 0 <==> a < b) && (c == 0 <==> a == b) && (c > 0 <==> a > b)
  {
    c := a - b;
  }

  method Equal(h: Heap, x: Value, y: Value) returns (eq: bool)
    requires Canonical(h.objs, x) && Canonical(h.objs, y)
    ensures eq <==> IntOf(h.objs, x) == IntOf(h.objs, y)
  {
    if x.Imm? || y.Imm? {
      EqualityOnWords(h.objs, x, y);
      return x == y;
    }
    return h.objs[x.id].kind.n == h.objs[y.id].kind.n;
  }

  // integerEqualsLiteral answers no for every immediate.
  function EqualsLiteral(m: Objs, x: Value, lit: int): bool
    requires IsInteger(m, x)
  {
    !x.Imm? && m[x.id].kind.n == lit
  }

  // It is right about every canonical Integer exactly when the literal is one
  // that has to be boxed.
  lemma EqualsLiteralExactly(lit: int)
    ensures !Fits(lit) <==>
            forall m, x :: Canonical(m, x) ==> (EqualsLiteral(m, x, lit) <==> IntOf(m, x) == lit)
  {
    if Fits(lit) {
      ImmRoundTrip(lit);
      assert Canonical(map[], ImmInt64(lit));
      assert !(EqualsLiteral(map[], ImmInt64(lit), lit) <==> IntOf(map[], ImmInt64(lit)) == lit);
    } else {
      forall m, x | Canonical(m, x) ensures EqualsLiteral(m, x, lit) <==> IntOf(m, x) == lit {
        if x.Imm? { ImmFits(x); }
      }
    }
  }

  // ---- making Integers ----

  lemma UndisturbedBy(m: Objs, m': Objs, n': nat, dying: set<Id>, owed: multiset<Value>, owed': multiset<Value>)
    requires Ok(m', n', dying, owed') && owed <= owed' && Kept(m, m') && Untouched(m, m', dying)
    ensures Undisturbed(m, m', dying, owed)
  {
    forall id | owed[Ref(id)] > 0 && id in m
      ensures id in m' && m'[id].kind == m[id].kind && m'[id].fields == m[id].fields
    {
      OwedIsLive(m', n', dying, owed', id);
    }
  }

  lemma UndisturbedTrans(m: Objs, m': Objs, m'': Objs, dying: set<Id>, owed: multiset<Value>)
    requires Undisturbed(m, m', dying, owed) && Undisturbed(m', m'', dying, owed)
    ensures Undisturbed(m, m'', dying, owed)
  {}

  // A result: an owned Integer of value n in canonical form, everything else
  // as it was.
  ghost predicate Result(m: Objs, m': Objs, n': nat, dying: set<Id>, owed: multiset<Value>, r: Value, n: int) {
    && Ok(m', n', dying, owed + multiset{r}) && Undisturbed(m, m', dying, owed)
    && Canonical(m', r) && IntOf(m', r) == n
  }

  lemma AllocResult(m: Objs, bound: nat, dying: set<Id>, owed: multiset<Value>, n: int)
    requires Ok(m, bound, dying, owed) && !Fits(n)
    ensures Result(m, m[bound := Obj(1, Number(n), [])], bound + 1, dying, owed, Ref(bound), n)
  {
    assert owed + multiset([]) == owed;
    AllocKeeps(m, bound, dying, owed, Number(n), []);
    OkAllocated(m, bound, dying, owed);
    NewIsUnused(m, bound, dying, owed);
  }

  lemma NewIsUnused(m: Objs, bound: nat, dying: set<Id>, owed: multiset<Value>)
    requires Ok(m, bound, dying, owed)
    ensures bound !in m && owed[Ref(bound)] == 0
  {
    assert OkAt(m, bound, dying, owed, bound);
  }

  lemma ImmResult(m: Objs, bound: nat, dying: set<Id>, owed: multiset<Value>, n: int)
    requires Ok(m, bound, dying, owed) && Fits(n)
    ensures Result(m, m, bound, dying, owed, ImmInt64(n), n)
  {
    ImmRoundTrip(n);
    OwedPlain(m, bound, dying, owed, ImmInt64(n));
    OkAllocated(m, bound, dying, owed);
    assert Undisturbed(m, m, dying, owed) by {
      forall id | owed[Ref(id)] > 0 ensures id in m { OwedIsLive(m, bound, dying, owed, id); }
    }
  }

  // mkIntegerI64, and mkIntegerU64 on the other half of the words.
  method MkInteger(h: Heap, n: int, ghost dying: set<Id>, ghost owed: multiset<Value>) returns (r: Value)
    requires h.Counts(dying, owed)
    modifies h
    ensures Result(old(h.objs), h.objs, h.bound, dying, owed, r, n)
  {
    hide Ok, Result;
    if -IMM_LIMIT <= n < IMM_LIMIT {
      ImmResult(h.objs, h.bound, dying, owed, n);
      return ImmInt64(n);
    }
    AllocResult(h.objs, h.bound, dying, owed, n);
    NewIsUnused(h.objs, h.bound, dying, owed);
    assert owed + multiset([]) == owed;
    var id := h.Alloc(Number(n), [], dying, owed);
    r := Ref(id);
  }

  // A big number in 64-bit limbs: how many, negative for a negative number,
  // and the lowest.
  function Limbs(n: nat): nat { if n == 0 then 0 else 1 + Limbs(n / WORD) }

  function MpSize(n: int): int { if n < 0 then -(Limbs(-n) as int) else Limbs(n) }

  function LowLimb(n: int): nat { AbsInt(n) % WORD }

  lemma OneLimb(n: nat)
    ensures Limbs(n) == 0 <==> n == 0
    ensures Limbs(n) == 1 <==> 0 < n < WORD
  {
    if n >= WORD { assert n / WORD > 0; }
    if 0 < n < WORD { assert n / WORD == 0; }
  }

  // The number a cell holds becomes an immediate again if it fits, and the
  // cell goes.
  method Normalize(h: Heap, id: Id, ghost dying: set<Id>, ghost owed: multiset<Value>) returns (r: Value)
    requires h.Counts(dying, owed + multiset{Ref(id)}) && id in h.objs && h.objs[id].kind.Number?
    modifies h
    ensures Result(old(h.objs), h.objs, h.bound, dying, owed, r, old(h.objs[id].kind.n))
  {
    hide Ok, Result, Kept, Untouched;
    var n := h.objs[id].kind.n;
    var size := MpSize(n);
    OneLimb(AbsInt(n));
    if size == 0 {
      h.Drop(Ref(id), dying, owed);
      DroppedResult(old(h.objs), h.objs, h.bound, dying, owed, 0);
      return ImmInt64(0);
    }
    if size != 1 && size != -1 {
      BoxedResult(h.objs, h.bound, dying, owed, id);
      return Ref(id);
    }
    var mag := LowLimb(n);
    if if size > 0 then mag >= IMM_LIMIT else mag > IMM_LIMIT {
      BoxedResult(h.objs, h.bound, dying, owed, id);
      return Ref(id);
    }
    h.Drop(Ref(id), dying, owed);
    var v := if size > 0 then mag else -mag;
    DroppedResult(old(h.objs), h.objs, h.bound, dying, owed, v);
    r := ImmInt64(v);
  }

  lemma DroppedResult(m: Objs, m': Objs, bound: nat, dying: set<Id>, owed: multiset<Value>, n: int)
    requires Ok(m', bound, dying, owed) && Kept(m, m') && Untouched(m, m', dying) && Fits(n)
    ensures Result(m, m', bound, dying, owed, ImmInt64(n), n)
  {
    UndisturbedBy(m, m', bound, dying, owed, owed);
    ImmResult(m', bound, dying, owed, n);
  }

  lemma BoxedResult(m: Objs, bound: nat, dying: set<Id>, owed: multiset<Value>, id: Id)
    requires Ok(m, bound, dying, owed + multiset{Ref(id)}) && id in m && m[id].kind.Number? && !Fits(m[id].kind.n)
    ensures Result(m, m, bound, dying, owed, Ref(id), m[id].kind.n)
  {
    OkAllocated(m, bound, dying, owed + multiset{Ref(id)});
    KeptRefl(m, dying);
    UndisturbedBy(m, m, bound, dying, owed, owed + multiset{Ref(id)});
  }

  // ---- writing a result over an operand ----

  // The number in a cell nobody else refers to.
  function Overwritten(m: Objs, id: Id, n: int): Objs
    requires id in m
  {
    m[id := m[id].(kind := Number(n))]
  }

  lemma OverwriteKeeps(m: Objs, bound: nat, dying: set<Id>, owed: multiset<Value>, id: Id, n: int)
    requires Ok(m, bound, dying, owed + multiset{Ref(id)}) && id in m && m[id].kind.Number? && m[id].rc == 1
    ensures Ok(Overwritten(m, id, n), bound, dying, owed + multiset{Ref(id)})
    ensures Undisturbed(m, Overwritten(m, id, n), dying, owed) && owed[Ref(id)] == 0
  {
    var owed', m' := owed + multiset{Ref(id)}, Overwritten(m, id, n);
    assert OkAt(m, bound, dying, owed', id);
    forall x: Id ensures OkAt(m', bound, dying, owed', x) {
      assert OkAt(m, bound, dying, owed', x);
      HeldExcept(m, dying, m', dying, bound, id, x);
    }
    OwedIsLive(m, bound, dying, owed', id);
  }

  // isUnique.
  predicate Unique(m: Objs, v: Value) { v.Ref? && v.id in m && m[v.id].rc == 1 }

  // Any operation of two operands on the big numbers, both consumed: the
  // result goes into x's cell or y's when unique, and into a new one otherwise.
  method BinopSlow(h: Heap, x: Value, y: Value, fn: (int, int) -> int, ghost dying: set<Id>, ghost owed: multiset<Value>) returns (r: Value)
    requires h.Counts(dying, owed + multiset{x} + multiset{y}) && IsInteger(h.objs, x) && IsInteger(h.objs, y)
    modifies h
    ensures Result(old(h.objs), h.objs, h.bound, dying, owed, r, fn(IntOf(old(h.objs), x), IntOf(old(h.objs), y)))
  {
    hide Ok, Result, Undisturbed, Kept, Untouched, Wrap, Signed;
    var n := fn(IntOf(h.objs, x), IntOf(h.objs, y));
    assert owed + multiset{x} + multiset{y} == owed + multiset{y} + multiset{x};
    if Unique(h.objs, x) {
      r := StoreInto(h, x.id, y, n, dying, owed);
    } else if Unique(h.objs, y) {
      r := StoreInto(h, y.id, x, n, dying, owed);
    } else {
      r := StoreNew(h, x, y, n, dying, owed);
    }
  }

  // The result replaces a unique operand's number; the other operand goes.
  method StoreInto(h: Heap, id: Id, other: Value, n: int, ghost dying: set<Id>, ghost owed: multiset<Value>) returns (r: Value)
    requires h.Counts(dying, owed + multiset{Ref(id)} + multiset{other})
    requires id in h.objs && h.objs[id].kind.Number? && h.objs[id].rc == 1
    modifies h
    ensures Result(old(h.objs), h.objs, h.bound, dying, owed, r, n)
  {
    hide Ok, Result, Undisturbed, Kept, Untouched;
    assert owed + multiset{Ref(id)} + multiset{other} == owed + multiset{other} + multiset{Ref(id)};
    OverwriteKeeps(h.objs, h.bound, dying, owed + multiset{other}, id, n);
    h.objs := Overwritten(h.objs, id, n);
    ghost var m1 := h.objs;
    h.Drop(other, dying, owed + multiset{Ref(id)});
    ghost var m2 := h.objs;
    DropsOther(m1, m2, h.bound, dying, owed, id);
    UndisturbedLess(old(h.objs), m1, dying, owed, owed + multiset{other});
    UndisturbedTrans(old(h.objs), m1, m2, dying, owed);
    r := Normalize(h, id, dying, owed);
    ResultAfter(old(h.objs), m2, h.objs, h.bound, dying, owed, r, n);
  }

  // A new cell takes the result; both operands go.
  method StoreNew(h: Heap, x: Value, y: Value, n: int, ghost dying: set<Id>, ghost owed: multiset<Value>) returns (r: Value)
    requires h.Counts(dying, owed + multiset{x} + multiset{y})
    modifies h
    ensures Result(old(h.objs), h.objs, h.bound, dying, owed, r, n)
  {
    hide Ok, Result, Undisturbed, Kept, Untouched;
    ghost var both := owed + multiset{x} + multiset{y};
    NewIsUnused(h.objs, h.bound, dying, both);
    OkAllocated(h.objs, h.bound, dying, both);
    assert both + multiset([]) == both;
    var id := h.Alloc(Number(n), [], dying, both);
    ghost var m1 := h.objs;
    NewUndisturbed(old(h.objs), dying, both, id, n);
    UndisturbedLess(old(h.objs), m1, dying, owed, both);
    assert both + multiset{Ref(id)} == owed + multiset{Ref(id)} + multiset{y} + multiset{x};
    h.Drop(x, dying, owed + multiset{Ref(id)} + multiset{y});
    ghost var m2 := h.objs;
    h.Drop(y, dying, owed + multiset{Ref(id)});
    ghost var m3 := h.objs;
    KeptTrans(m1, m2, m3, dying);
    DropsOther(m1, m3, h.bound, dying, owed, id);
    UndisturbedTrans(old(h.objs), m1, m3, dying, owed);
    r := Normalize(h, id, dying, owed);
    ResultAfter(old(h.objs), m3, h.objs, h.bound, dying, owed, r, n);
  }

  lemma NewUndisturbed(m: Objs, dying: set<Id>, owed: multiset<Value>, id: Id, n: int)
    requires dying <= m.Keys && id !in m
    ensures Undisturbed(m, m[id := Obj(1, Number(n), [])], dying, owed)
  {}

  lemma UndisturbedLess(m: Objs, m': Objs, dying: set<Id>, owed: multiset<Value>, owed': multiset<Value>)
    requires Undisturbed(m, m', dying, owed') && owed <= owed'
    ensures Undisturbed(m, m', dying, owed)
  {}

  // Dropping other references leaves the result's cell.
  lemma DropsOther(m: Objs, m': Objs, bound: nat, dying: set<Id>, owed: multiset<Value>, id: Id)
    requires Kept(m, m') && Untouched(m, m', dying) && Ok(m', bound, dying, owed + multiset{Ref(id)})
    ensures Undisturbed(m, m', dying, owed)
    ensures id in m && id in m' && m'[id].kind == m[id].kind
  {
    UndisturbedBy(m, m', bound, dying, owed, owed + multiset{Ref(id)});
    OwedIsLive(m', bound, dying, owed + multiset{Ref(id)}, id);
  }

  lemma ResultAfter(m: Objs, m1: Objs, m2: Objs, bound: nat, dying: set<Id>, owed: multiset<Value>, r: Value, n: int)
    requires Undisturbed(m, m1, dying, owed) && Result(m1, m2, bound, dying, owed, r, n)
    ensures Result(m, m2, bound, dying, owed, r, n)
  {
    UndisturbedTrans(m, m1, m2, dying, owed);
  }

  // ---- the operations ----

  // An immediate carries no reference.
  lemma ConsumeImms(m: Objs, n: nat, dying: set<Id>, owed: multiset<Value>, x: Value, y: Value)
    requires x.Imm? && y.Imm? && Ok(m, n, dying, owed + multiset{x} + multiset{y})
    ensures Ok(m, n, dying, owed)
  {
    OwedPlain(m, n, dying, owed + multiset{x}, y);
    OwedPlain(m, n, dying, owed, x);
  }

  // Both immediate: 64-bit arithmetic does not overflow. Otherwise big numbers.
  method Add(h: Heap, x: Value, y: Value, ghost dying: set<Id>, ghost owed: multiset<Value>) returns (r: Value)
    requires h.Counts(dying, owed + multiset{x} + multiset{y}) && Canonical(h.objs, x) && Canonical(h.objs, y)
    modifies h
    ensures Result(old(h.objs), h.objs, h.bound, dying, owed, r, IntOf(old(h.objs), x) + IntOf(old(h.objs), y))
  {
    hide Ok, Result;
    if x.Imm? && y.Imm? {
      ImmFits(x);
      ImmFits(y);
      ConsumeImms(h.objs, h.bound, dying, owed, x, y);
      var a, b := ImmSigned(x), ImmSigned(y);
      assert IsI64(a + b);
      r := MkInteger(h, a + b, dying, owed);
    } else {
      r := BinopSlow(h, x, y, (a, b) => a + b, dying, owed);
    }
  }

  method Sub(h: Heap, x: Value, y: Value, ghost dying: set<Id>, ghost owed: multiset<Value>) returns (r: Value)
    requires h.Counts(dying, owed + multiset{x} + multiset{y}) && Canonical(h.objs, x) && Canonical(h.objs, y)
    modifies h
    ensures Result(old(h.objs), h.objs, h.bound, dying, owed, r, IntOf(old(h.objs), x) - IntOf(old(h.objs), y))
  {
    hide Ok, Result;
    if x.Imm? && y.Imm? {
      ImmFits(x);
      ImmFits(y);
      ConsumeImms(h.objs, h.bound, dying, owed, x, y);
      var a, b := ImmSigned(x), ImmSigned(y);
      assert IsI64(a - b);
      r := MkInteger(h, a - b, dying, owed);
    } else {
      r := BinopSlow(h, x, y, (a, b) => a - b, dying, owed);
    }
  }

  // A product that overflows 64 bits is redone on big numbers.
  method Mul(h: Heap, x: Value, y: Value, ghost dying: set<Id>, ghost owed: multiset<Value>) returns (r: Value)
    requires h.Counts(dying, owed + multiset{x} + multiset{y}) && Canonical(h.objs, x) && Canonical(h.objs, y)
    modifies h
    ensures Result(old(h.objs), h.objs, h.bound, dying, owed, r, IntOf(old(h.objs), x) * IntOf(old(h.objs), y))
  {
    hide Ok, Result;
    if x.Imm? && y.Imm? && IsI64(ImmSigned(x) * ImmSigned(y)) {
      ConsumeImms(h.objs, h.bound, dying, owed, x, y);
      r := MkInteger(h, ImmSigned(x) * ImmSigned(y), dying, owed);
    } else {
      r := BinopSlow(h, x, y, (a, b) => a * b, dying, owed);
    }
  }

  // C's / and %, which cut toward zero.
  function TruncDiv(a: int, b: int): int
    requires b != 0
  {
    if a >= 0 then a / b else -((-a) / b)
  }

  function TruncRem(a: int, b: int): int
    requires b != 0
  {
    if a >= 0 then a % b else -((-a) % b)
  }

  lemma TruncIs(a: int, b: int)
    requires b != 0
    ensures a == TruncDiv(a, b) * b + TruncRem(a, b)
    ensures -AbsInt(b) < TruncRem(a, b) < AbsInt(b)
    ensures TruncRem(a, b) < 0 ==> a < 0
  {
    var n := if a >= 0 then a else -a;
    assert n == (n / b) * b + n % b;
    if a < 0 { NegatedProduct(n / b, b); }
  }

  lemma NegatedProduct(q: int, b: int)
    ensures (-q) * b == -(q * b)
  {}

  // The remainder is never negative, whatever the signs.
  method Mod(h: Heap, x: Value, y: Value, ghost dying: set<Id>, ghost owed: multiset<Value>) returns (r: Value)
    requires h.Counts(dying, owed + multiset{x} + multiset{y}) && Canonical(h.objs, x) && Canonical(h.objs, y)
    requires IntOf(h.objs, y) != 0
    modifies h
    ensures Result(old(h.objs), h.objs, h.bound, dying, owed, r, IntOf(old(h.objs), x) % IntOf(old(h.objs), y))
  {
    hide Ok, Result;
    if x.Imm? && y.Imm? {
      ImmFits(y);
      ConsumeImms(h.objs, h.bound, dying, owed, x, y);
      var a, b := ImmSigned(x), ImmSigned(y);
      var rem := TruncRem(a, b);
      TruncToEuclid(a, b);
      var n := if rem < 0 then rem + (if b < 0 then -b else b) else rem;
      ImmResult(h.objs, h.bound, dying, owed, n);
      return ImmInt64(n);
    }
    r := BinopSlow(h, x, y, (a, b) => if b == 0 then 0 else a % b, dying, owed);
  }

  // The adjustments of a truncated quotient and remainder.
  lemma TruncToEuclid(a: int, b: int)
    requires b != 0
    ensures var r := TruncRem(a, b); (if r < 0 then r + AbsInt(b) else r) == a % b
    ensures var r := TruncRem(a, b);
            (if r < 0 then TruncDiv(a, b) + (if b > 0 then -1 else 1) else TruncDiv(a, b)) == a / b
  {
    TruncIs(a, b);
    var q, r := TruncDiv(a, b), TruncRem(a, b);
    if r < 0 {
      var s := if b > 0 then -1 else 1;
      DifferenceProduct(q, -s, b);
      NegatedProduct(s, b);
      EuclidUnique(a, b, q + s, r + AbsInt(b));
    } else {
      EuclidUnique(a, b, q, r);
    }
  }

  // Division leaves its operands alone. The big-number path subtracts the
  // remainder first, so that what is left divides exactly.
  method Div(h: Heap, x: Value, y: Value, ghost dying: set<Id>, ghost owed: multiset<Value>) returns (r: Value)
    requires h.Counts(dying, owed) && Canonical(h.objs, x) && Canonical(h.objs, y) && IntOf(h.objs, y) != 0
    modifies h
    ensures Result(old(h.objs), h.objs, h.bound, dying, owed, r, IntOf(old(h.objs), x) / IntOf(old(h.objs), y))
  {
    hide Ok, Result;
    if x.Imm? && y.Imm? {
      var a, b := ImmSigned(x), ImmSigned(y);
      var q := TruncDiv(a, b);
      TruncToEuclid(a, b);
      if TruncRem(a, b) < 0 {
        q := q + (if b > 0 then -1 else 1);
      }
      r := MkInteger(h, q, dying, owed);
      return;
    }
    var a, b := IntOf(h.objs, x), IntOf(h.objs, y);
    var yq := a - a % b;
    ExactQuotient(a, b);
    NewIsUnused(h.objs, h.bound, dying, owed);
    OkAllocated(h.objs, h.bound, dying, owed);
    assert owed + multiset([]) == owed;
    var id := h.Alloc(Number(TruncDiv(yq, b)), [], dying, owed);
    NewUndisturbed(old(h.objs), dying, owed, id, a / b);
    ghost var m1 := h.objs;
    r := Normalize(h, id, dying, owed);
    ResultAfter(old(h.objs), m1, h.objs, h.bound, dying, owed, r, a / b);
  }

  lemma ExactQuotient(a: int, b: int)
    requires b != 0
    ensures TruncDiv(a - a % b, b) == a / b
  {
    var yq := a - a % b;
    assert yq == (a / b) * b;
    TruncIs(yq, b);
    var q, r := TruncDiv(yq, b), TruncRem(yq, b);
    DifferenceProduct(a / b, q, b);
    NoMultipleBetween(a / b - q, b, r);
  }

  method Negate(h: Heap, x: Value, ghost dying: set<Id>, ghost owed: multiset<Value>) returns (r: Value)
    requires h.Counts(dying, owed + multiset{x}) && Canonical(h.objs, x)
    modifies h
    ensures Result(old(h.objs), h.objs, h.bound, dying, owed, r, -IntOf(old(h.objs), x))
  {
    hide Ok, Result;
    if x.Imm? {
      ImmFits(x);
      OwedPlain(h.objs, h.bound, dying, owed, x);
      assert IsI64(-ImmSigned(x));
      r := MkInteger(h, -ImmSigned(x), dying, owed);
    } else {
      r := UnarySlow(h, x, -h.objs[x.id].kind.n, dying, owed);
    }
  }

  // One operand consumed: its own cell if unique, a new one otherwise.
  method UnarySlow(h: Heap, x: Value, n: int, ghost dying: set<Id>, ghost owed: multiset<Value>) returns (r: Value)
    requires h.Counts(dying, owed + multiset{x}) && IsInteger(h.objs, x)
    modifies h
    ensures Result(old(h.objs), h.objs, h.bound, dying, owed, r, n)
  {
    hide Ok, Result;
    OwedPlain(h.objs, h.bound, dying, owed + multiset{x}, Null);
    assert owed + multiset{x} + multiset{Null} == owed + multiset{Null} + multiset{x};
    if Unique(h.objs, x) {
      r := StoreInto(h, x.id, Null, n, dying, owed);
    } else {
      r := StoreNew(h, x, Null, n, dying, owed);
    }
  }

  // ---- shifts ----

  // The count is read as mpz_get_ui reads it: the low limb of its magnitude,
  // which is the magnitude itself below 2^64.
  function ShiftCount(n: int): nat { AbsInt(n) % WORD }

  lemma ShiftCountIs(n: int)
    ensures ShiftCount(n) == (if n < 0 then -n else n) % 0x1_0000_0000_0000_0000
    ensures -0x1_0000_0000_0000_0000 < n < 0x1_0000_0000_0000_0000 ==> ShiftCount(n) == if n < 0 then -n else n
  {}

  // The left shift of two immediates, in 64-bit words: kept when shifting back
  // gives the operand.
  method ShiftL(h: Heap, x: Value, y: Value, ghost dying: set<Id>, ghost owed: multiset<Value>) returns (r: Value)
    requires h.Counts(dying, owed + multiset{x} + multiset{y}) && Canonical(h.objs, x) && Canonical(h.objs, y)
    modifies h
    ensures Result(old(h.objs), h.objs, h.bound, dying, owed, r,
                   IntOf(old(h.objs), x) * Pow(2, ShiftCount(IntOf(old(h.objs), y))))
    ensures var n := IntOf(old(h.objs), y);
            var count := if n < 0 then -n else n;
            && Result(old(h.objs), h.objs, h.bound, dying, owed, r,
                      IntOf(old(h.objs), x) * Pow(2, count % 0x1_0000_0000_0000_0000))
            && (count < 0x1_0000_0000_0000_0000 ==>
                  Result(old(h.objs), h.objs, h.bound, dying, owed, r, IntOf(old(h.objs), x) * Pow(2, count)))
  {
    ShiftCountIs(IntOf(h.objs, y));
    hide Ok, Result, Pow, ShiftCount;
    if x.Imm? && y.Imm? {
      ImmFits(y);
      var fits, s := ShiftWord(ImmSigned(x), ImmSigned(y));
      if fits {
        ConsumeImms(h.objs, h.bound, dying, owed, x, y);
        r := MkInteger(h, s, dying, owed);
        return;
      }
    }
    r := ShiftSlow(h, x, y, IntOf(h.objs, x) * Pow(2, ShiftCount(IntOf(h.objs, y))), dying, owed);
  }

  // The shift in a 64-bit word, and whether shifting back gives the operand.
  method ShiftWord(a: int, count: int) returns (fits: bool, s: int)
    requires Fits(count)
    ensures fits ==> s == a * Pow(2, ShiftCount(count))
  {
    hide Wrap, Signed;
    var c := if count < 0 then -count else count;
    fits, s := false, 0;
    if c < 62 {
      PowerAtLeastOne(c);
      s := Signed(Wrap(a * Pow(2, c)));
      fits := s / Pow(2, c) == a;
      if fits { ShiftBack(a, c); }
    }
  }

  // Shifting back gives the operand only where no bit was lost.
  lemma ShiftBack(a: int, c: nat)
    requires c < 62 && Pow(2, c) > 0 && Signed(Wrap(a * Pow(2, c))) / Pow(2, c) == a
    ensures Signed(Wrap(a * Pow(2, c))) == a * Pow(2, c)
  {
    hide Pow;
    var p, high := Pow(2, c), Pow(2, 64 - c);
    PowAdd(2, c, 64 - c);
    assert p * high == WORD by { TwoTo64(); }
    PowerAtLeastOne(64 - c);
    var s := a * p;
    var k := (Signed(Wrap(s)) - s) / WORD;
    WrapShift(s);
    assert Signed(Wrap(s)) == s + k * WORD;
    Regroup(a, k, p, high);
    FloorOfMultiple(a + k * high, p);
    assert k * high == 0;
    assert k == 0 by { ZeroFactor(k, high); }
  }

  lemma TwoTo64()
    ensures Pow(2, 64) == WORD
  {
    assert Pow(2, 4) == 16;
    PowAdd(2, 4, 4);
    hide Pow;
    PowAdd(2, 8, 8);
    PowAdd(2, 16, 16);
    PowAdd(2, 32, 32);
  }

  lemma PowerAtLeastOne(n: nat)
    ensures Pow(2, n) >= 1
  {}

  lemma WrapShift(s: int)
    ensures var w := Signed(Wrap(s)); w == s + (w - s) / WORD * WORD
  {}

  lemma Regroup(a: int, k: int, p: int, high: int)
    requires p * high == WORD
    ensures a * p + k * WORD == (a + k * high) * p
  {
    calc {
      (a + k * high) * p;
      a * p + k * high * p;
      a * p + k * (p * high);
    }
  }

  lemma FloorOfMultiple(n: int, p: int)
    requires p > 0
    ensures n * p / p == n
  {
    EuclidUnique(n * p, p, n, 0);
  }

  lemma ZeroFactor(k: int, high: int)
    requires k * high == 0 && high >= 1
    ensures k == 0
  {}

  method ShiftR(h: Heap, x: Value, y: Value, ghost dying: set<Id>, ghost owed: multiset<Value>) returns (r: Value)
    requires h.Counts(dying, owed + multiset{x} + multiset{y}) && Canonical(h.objs, x) && Canonical(h.objs, y)
    modifies h
    ensures Result(old(h.objs), h.objs, h.bound, dying, owed, r,
                   FloorShift(IntOf(old(h.objs), x), ShiftCount(IntOf(old(h.objs), y))))
    ensures IsInteger(h.objs, r)
    ensures var a, q, n := IntOf(old(h.objs), x), IntOf(h.objs, r), IntOf(old(h.objs), y);
            var count := if n < 0 then -n else n;
            && q * Pow(2, count % 0x1_0000_0000_0000_0000) <= a < (q + 1) * Pow(2, count % 0x1_0000_0000_0000_0000)
            && (count < 0x1_0000_0000_0000_0000 ==> q * Pow(2, count) <= a < (q + 1) * Pow(2, count))
  {
    ShiftCountIs(IntOf(h.objs, y));
    FloorShiftIs(IntOf(h.objs, x), ShiftCount(IntOf(h.objs, y)));
    hide Ok, Result, FloorShift, ShiftCount, Pow;
    if x.Imm? && y.Imm? {
      ImmFits(x);
      ImmFits(y);
      ConsumeImms(h.objs, h.bound, dying, owed, x, y);
      var n := ShiftRWord(ImmSigned(x), ImmSigned(y));
      ImmResult(h.objs, h.bound, dying, owed, n);
      r := ImmInt64(n);
      ResultValue(old(h.objs), h.objs, h.bound, dying, owed, r, n);
      return;
    }
    r := ShiftSlow(h, x, y, FloorShift(IntOf(h.objs, x), ShiftCount(IntOf(h.objs, y))), dying, owed);
    ResultValue(old(h.objs), h.objs, h.bound, dying, owed, r, FloorShift(IntOf(old(h.objs), x), ShiftCount(IntOf(old(h.objs), y))));
  }

  lemma ResultValue(m: Objs, m': Objs, bound: nat, dying: set<Id>, owed: multiset<Value>, r: Value, n: int)
    requires Result(m, m', bound, dying, owed, r, n)
    ensures IsInteger(m', r) && IntOf(m', r) == n
  {}

  // The largest multiple of 2^c not above a.
  lemma FloorShiftIs(a: int, c: nat)
    ensures FloorShift(a, c) * Pow(2, c) <= a < (FloorShift(a, c) + 1) * Pow(2, c)
  {
    PowerAtLeastOne(c);
    FloorBetween(a, Pow(2, c));
  }

  lemma FloorBetween(a: int, p: int)
    requires p >= 1
    ensures a / p * p <= a < (a / p + 1) * p
  {
    assert a == a / p * p + a % p;
    assert (a / p + 1) * p == a / p * p + p;
  }

  // The arithmetic shift of a word, its count held to 63.
  method ShiftRWord(a: int, count: int) returns (n: int)
    requires Fits(a) && Fits(count)
    ensures n == FloorShift(a, ShiftCount(count)) && Fits(n)
  {
    hide FloorShift;
    var c := if count < 0 then -count else count;
    LongShift(a, c);
    n := FloorShift(a, if c > 63 then 63 else c);
  }

  // The floor of n / 2^c.
  function FloorShift(n: int, c: nat): int {
    PowerAtLeastOne(c);
    n / Pow(2, c)
  }

  // Counts past 63 shift out every bit, and no shift right leaves the range.
  lemma LongShift(a: int, c: nat)
    requires Fits(a)
    ensures FloorShift(a, if c > 63 then 63 else c) == FloorShift(a, c) && Fits(FloorShift(a, c))
  {
    hide Pow;
    PowerAtLeastOne(c);
    PowerAtLeastOne(63);
    ShrinksTowardZero(a, Pow(2, c));
    if c > 63 {
      PowAdd(2, 63, c - 63);
      TwoTo63();
      PowerAtLeastOne(c - 63);
      BiggerProduct(Pow(2, 63), Pow(2, c - 63));
      Vanishes(a, Pow(2, 63));
      Vanishes(a, Pow(2, c));
    }
  }

  lemma TwoTo63()
    ensures Pow(2, 63) == I64_LIMIT
  {
    TwoTo64();
    assert Pow(2, 64) == 2 * Pow(2, 63);
  }

  lemma BiggerProduct(a: int, b: int)
    requires a >= 1 && b >= 1
    ensures a * b >= a
  {}

  lemma ShrinksTowardZero(a: int, p: int)
    requires p >= 1
    ensures a >= 0 ==> 0 <= a / p <= a
    ensures a < 0 ==> a <= a / p < 0
  {
    var q := a / p;
    assert a == q * p + a % p;
    ProductGrows(q, p);
    ProductGrows(q + 1, p);
    assert (q + 1) * p == q * p + p;
  }

  lemma ProductGrows(q: int, p: int)
    requires p >= 1
    ensures q >= 0 ==> q * p >= q
    ensures q <= 0 ==> q * p <= q
  {
    assert q * p == q + q * (p - 1);
  }

  lemma Vanishes(a: int, p: int)
    requires -p <= a < p
    ensures a / p == if a >= 0 then 0 else -1
  {
    EuclidUnique(a, p, if a >= 0 then 0 else -1, if a >= 0 then a else a + p);
  }

  // The shifts of big numbers: x's cell if unique, a new one otherwise.
  method ShiftSlow(h: Heap, x: Value, y: Value, n: int, ghost dying: set<Id>, ghost owed: multiset<Value>) returns (r: Value)
    requires h.Counts(dying, owed + multiset{x} + multiset{y}) && IsInteger(h.objs, x)
    modifies h
    ensures Result(old(h.objs), h.objs, h.bound, dying, owed, r, n)
  {
    hide Ok, Result;
    if Unique(h.objs, x) {
      r := StoreInto(h, x.id, y, n, dying, owed);
    } else {
      r := StoreNew(h, x, y, n, dying, owed);
    }
  }

  // ---- bits ----

  // Bit by bit on two's complement, of any length; f is and, or or exclusive or.
  function Bitwise(f: (bool, bool) -> bool, a: int, b: int, width: nat): int
    decreases width
  {
    if width == 0 then (if f(a % 2 == 1, b % 2 == 1) then -1 else 0)
    else (if f(a % 2 == 1, b % 2 == 1) then 1 else 0) + 2 * Bitwise(f, a / 2, b / 2, width - 1)
  }

  // A two's-complement number of width bits above the sign.
  ghost predicate WithinBits(a: int, width: nat) { -(Pow(2, width) as int) <= a < Pow(2, width) }

  lemma {:induction false} BitwiseWithin(f: (bool, bool) -> bool, a: int, b: int, width: nat)
    ensures WithinBits(Bitwise(f, a, b, width), width)
    decreases width
  {
    if width > 0 { BitwiseWithin(f, a / 2, b / 2, width - 1); }
  }

  // Reading more sign bits changes nothing.
  lemma {:induction false} BitwiseWider(f: (bool, bool) -> bool, a: int, b: int, width: nat, more: nat)
    requires WithinBits(a, width) && WithinBits(b, width) && width <= more
    ensures Bitwise(f, a, b, more) == Bitwise(f, a, b, width)
    decreases more
  {
    if width == 0 {
      if more > 0 { BitwiseWider(f, a, b, 0, more - 1); }
    } else {
      BitwiseWider(f, a / 2, b / 2, width - 1, more - 1);
    }
  }

  // The bitwise operation on numbers of any size.
  function Bits(f: (bool, bool) -> bool, a: int, b: int): int { Bitwise(f, a, b, BitLength(AbsInt(a) + AbsInt(b))) }

  // Any width that holds both operands gives the same result.
  lemma BitsAtWidth(f: (bool, bool) -> bool, a: int, b: int, width: nat)
    requires WithinBits(a, width) && WithinBits(b, width)
    ensures Bits(f, a, b) == Bitwise(f, a, b, width)
  {
    var n := AbsInt(a) + AbsInt(b);
    var enough := BitLength(n);
    if n > 0 { BitLengthBounds(n); }
    PowerAtLeastOne(enough);
    hide Bitwise, BitLength, Pow;
    if width <= enough {
      BitwiseWider(f, a, b, width, enough);
    } else {
      BitwiseWider(f, a, b, enough, width);
    }
  }

  // and, or and exclusive or of two immediates stay in range.
  lemma ImmBits(f: (bool, bool) -> bool, a: int, b: int)
    requires Fits(a) && Fits(b)
    ensures Fits(Bitwise(f, a, b, 63)) && Bitwise(f, a, b, 63) == Bits(f, a, b)
  {
    assert Pow(2, 62) == IMM_LIMIT by { TwoTo62(); }
    hide Bitwise, Pow, Bits;
    BitwiseWider(f, a, b, 62, 63);
    BitwiseWithin(f, a, b, 62);
    BitsAtWidth(f, a, b, 62);
  }

  lemma TwoTo62()
    ensures Pow(2, 62) == IMM_LIMIT
  {
    TwoTo63();
    assert Pow(2, 63) == 2 * Pow(2, 62);
  }

  method BitOp(h: Heap, x: Value, y: Value, f: (bool, bool) -> bool, ghost dying: set<Id>, ghost owed: multiset<Value>) returns (r: Value)
    requires h.Counts(dying, owed + multiset{x} + multiset{y}) && Canonical(h.objs, x) && Canonical(h.objs, y)
    modifies h
    ensures Result(old(h.objs), h.objs, h.bound, dying, owed, r, Bits(f, IntOf(old(h.objs), x), IntOf(old(h.objs), y)))
  {
    hide Ok, Result, Bits, Bitwise;
    if x.Imm? && y.Imm? {
      ImmFits(x);
      ImmFits(y);
      ConsumeImms(h.objs, h.bound, dying, owed, x, y);
      var n := Bitwise(f, ImmSigned(x), ImmSigned(y), 63);
      ImmBits(f, ImmSigned(x), ImmSigned(y));
      ImmResult(h.objs, h.bound, dying, owed, n);
      return ImmInt64(n);
    }
    r := BinopSlow(h, x, y, (a, b) => Bits(f, a, b), dying, owed);
  }

  // Bit k of a two's-complement number, and of an operation on two.
  function BitOf(a: int, k: nat): bool
    decreases k
  {
    if k == 0 then a % 2 == 1 else BitOf(a / 2, k - 1)
  }

  lemma {:induction false} BitOfIs(a: int, k: nat)
    ensures Pow(2, k) > 0 && BitOf(a, k) == (a / Pow(2, k) % 2 == 1)
    decreases k
  {
    hide Pow;
    PowerAtLeastOne(k);
    if k == 0 {
      PowZero(2);
    } else {
      BitOfIs(a / 2, k - 1);
      PowStep(2, k);
      HalvedQuotient(a, Pow(2, k - 1));
    }
  }

  lemma HalvedQuotient(a: int, p: int)
    requires p > 0
    ensures a / (2 * p) == a / 2 / p
  {
    var q, r := a / 2, a % 2;
    var s, t := q / p, q % p;
    assert q == s * p + t && a == 2 * q + r;
    assert s * (2 * p) == 2 * (s * p);
    EuclidUnique(a, 2 * p, s, 2 * t + r);
  }

  // Every bit of the result, however far up, is f of the operands' bits.
  lemma BitsBitByBit(f: (bool, bool) -> bool, a: int, b: int, k: nat)
    ensures BitOf(Bits(f, a, b), k) == f(BitOf(a, k), BitOf(b, k))
    ensures Pow(2, k) > 0
    ensures (Bits(f, a, b) / Pow(2, k) % 2 == 1) == f(a / Pow(2, k) % 2 == 1, b / Pow(2, k) % 2 == 1)
  {
    var enough := BitLength(AbsInt(a) + AbsInt(b));
    var width := if k > enough then k else enough;
    EnoughBits(a, b, width);
    hide Bitwise, BitOf, Bits, BitLength, Pow;
    BitsAtWidth(f, a, b, width);
    BitwiseBit(f, a, b, width, k);
    BitOfIs(a, k);
    BitOfIs(b, k);
    BitOfIs(Bits(f, a, b), k);
  }

  lemma EnoughBits(a: int, b: int, width: nat)
    requires width >= BitLength(AbsInt(a) + AbsInt(b))
    ensures WithinBits(a, width) && WithinBits(b, width)
  {
    hide Pow, BitLength;
    var n := AbsInt(a) + AbsInt(b);
    if n > 0 { BitLengthBounds(n); }
    PowMono(2, BitLength(n), width);
    PowerAtLeastOne(width);
  }

  lemma {:induction false} BitwiseBit(f: (bool, bool) -> bool, a: int, b: int, width: nat, k: nat)
    requires k <= width
    ensures BitOf(Bitwise(f, a, b, width), k) == f(BitOf(a, k), BitOf(b, k))
    decreases k
  {
    if k > 0 {
      assert Bitwise(f, a, b, width) / 2 == Bitwise(f, a / 2, b / 2, width - 1);
      BitwiseBit(f, a / 2, b / 2, width - 1, k - 1);
    }
  }
}
