// The linear map inside xoroshiro64**, and the proof that the polynomial the library
// keeps for it annihilates it.
module Xoroshiro64Map {
  import opened LinearSystem
  import opened F2x

  datatype State64 = State64(s0: bv32, s1: bv32)

  function Rotl32(x: bv32, k: bv6): bv32
    requires 0 < k < 32
  {
    (x << k) | (x >> (32 - k))
  }

  function Shl32(x: bv32, k: bv6): bv32
    requires k < 32
  {
    x << k
  }

  function Xor32(a: bv32, b: bv32): bv32 { a ^ b }

  function PureS0Of64(s0: bv32, s1: bv32): bv32 {
    Xor32(Xor32(Rotl32(s0, 26), Xor32(s1, s0)), Shl32(Xor32(s1, s0), 9))
  }
  function PureS1Of64(s0: bv32, s1: bv32): bv32 { Rotl32(Xor32(s1, s0), 13) }

  function Step64(s: State64): State64 {
    State64(PureS0Of64(s.s0, s.s1), PureS1Of64(s.s0, s.s1))
  }

  function Add64(a: State64, b: State64): State64 { State64(Xor32(a.s0, b.s0), Xor32(a.s1, b.s1)) }

  const System64: System<State64> := System(s => Step64(s), (a, b) => Add64(a, b), State64(0, 0), _ => true)

  // The low coefficients of the characteristic polynomial of Step64.
  const CHARPOLY64: seq<bv64> := [0x053be9da6e2286c1]

  lemma Rotl26Linear(a: bv32, b: bv32)
    ensures Rotl32(Xor32(a, b), 26) == Xor32(Rotl32(a, 26), Rotl32(b, 26))
  {}

  lemma Rotl13Linear(a: bv32, b: bv32)
    ensures Rotl32(Xor32(a, b), 13) == Xor32(Rotl32(a, 13), Rotl32(b, 13))
  {}

  lemma Shl9Linear(a: bv32, b: bv32)
    ensures Shl32(Xor32(a, b), 9) == Xor32(Shl32(a, 9), Shl32(b, 9))
  {}

  lemma XorLaws(a: bv32, b: bv32, c: bv32)
    ensures Xor32(0, a) == a && Xor32(a, a) == 0 && Xor32(a, b) == Xor32(b, a)
    ensures Xor32(Xor32(a, b), c) == Xor32(a, Xor32(b, c))
  {}

  lemma XorInterchange(a: bv32, b: bv32, c: bv32, d: bv32)
    ensures Xor32(Xor32(a, b), Xor32(c, d)) == Xor32(Xor32(a, c), Xor32(b, d))
  {
    hide Xor32;
    XorLaws(a, b, Xor32(c, d));
    XorLaws(b, c, d);
    XorLaws(c, b, d);
    XorLaws(a, c, Xor32(b, d));
  }

  lemma S1Linear64(a0: bv32, a1: bv32, b0: bv32, b1: bv32)
    ensures PureS1Of64(Xor32(a0, b0), Xor32(a1, b1)) == Xor32(PureS1Of64(a0, a1), PureS1Of64(b0, b1))
  {
    hide Xor32, Rotl32;
    XorInterchange(a1, b1, a0, b0);
    Rotl13Linear(Xor32(a1, a0), Xor32(b1, b0));
  }

  lemma S0Linear64(a0: bv32, a1: bv32, b0: bv32, b1: bv32)
    ensures PureS0Of64(Xor32(a0, b0), Xor32(a1, b1)) == Xor32(PureS0Of64(a0, a1), PureS0Of64(b0, b1))
  {
    hide Xor32, Rotl32, Shl32;
    var x, y := Xor32(a1, a0), Xor32(b1, b0);
    XorInterchange(a1, b1, a0, b0);
    Rotl26Linear(a0, b0);
    Shl9Linear(x, y);
    XorInterchange(Rotl32(a0, 26), Rotl32(b0, 26), x, y);
    XorInterchange(Xor32(Rotl32(a0, 26), x), Xor32(Rotl32(b0, 26), y), Shl32(x, 9), Shl32(y, 9));
  }

  lemma StepLinear64(a: State64, b: State64)
    ensures Step64(Add64(a, b)) == Add64(Step64(a), Step64(b))
  {
    hide PureS0Of64, PureS1Of64, Xor32;
    S0Linear64(a.s0, a.s1, b.s0, b.s1);
    S1Linear64(a.s0, a.s1, b.s0, b.s1);
  }

  lemma AddLaws64(a: State64, b: State64, c: State64)
    ensures Add64(State64(0, 0), a) == a && Add64(a, a) == State64(0, 0)
    ensures Add64(a, b) == Add64(b, a)
    ensures Add64(Add64(a, b), c) == Add64(a, Add64(b, c))
  {
    hide Xor32;
    XorLaws(a.s0, b.s0, c.s0);
    XorLaws(a.s1, b.s1, c.s1);
  }

  lemma Group64()
    ensures Closed(System64) && Group(System64)
  {
    hide Step64, Add64;
    var L := System64;
    forall a: State64 ensures L.add(L.zero, a) == a && L.add(a, a) == L.zero { AddLaws64(a, a, a); }
    forall a: State64, b: State64 ensures L.add(a, b) == L.add(b, a) { AddLaws64(a, b, b); }
    forall a: State64, b: State64, c: State64 ensures L.add(L.add(a, b), c) == L.add(a, L.add(b, c)) { AddLaws64(a, b, c); }
  }

  lemma Linear64()
    ensures Linear(System64)
  {
    hide Step64, Add64, Closed, Group;
    Group64();
    var L := System64;
    forall a: State64, b: State64 ensures L.step(L.add(a, b)) == L.add(L.step(a), L.step(b)) { StepLinear64(a, b); }
  }

  lemma CharpolyWords64()
    ensures |CHARPOLY64| == 1
  {}

  lemma HasAll64(s: State64)
    ensures System64.Has(s)
  {}

  // ---- the step satisfies its characteristic polynomial ----

  // The polynomial with its leading one sends s to zero.
  ghost predicate Killed(s: State64) { Act(System64, Bits(CHARPOLY64) + [true], s) == State64(0, 0) }

  // The step on raw words, z the sum of the two, plus (0, u).
  function Mixed(a: bv32, z: bv32, u: bv32): State64 {
    State64(ThreeWords((a << 26) | (a >> 6), z, z << 9), u ^ ((z << 13) | (z >> 19)))
  }

  function ThreeWords(a: bv32, b: bv32, c: bv32): bv32 { a ^ b ^ c }

  // One Horner step for the state (0, y), then a byte of coefficients and
  // eight bytes of them.
  function Horner(r: State64, c: bool, y: bv32): State64 { Mixed(r.s0, r.s1 ^ r.s0, if c then y else 0) }

  function HornerByte(r: State64, v: bv64, y: bv32): State64 {
    Horner(Horner(Horner(Horner(Horner(Horner(Horner(Horner(r, v & 128 != 0, y), v & 64 != 0, y), v & 32 != 0, y),
      v & 16 != 0, y), v & 8 != 0, y), v & 4 != 0, y), v & 2 != 0, y), v & 1 != 0, y)
  }

  function HornerWord(r: State64, w: bv64, y: bv32): State64 {
    HornerByte(HornerByte(HornerByte(HornerByte(HornerByte(HornerByte(HornerByte(HornerByte(r, w >> 56, y), w >> 48, y),
      w >> 40, y), w >> 32, y), w >> 24, y), w >> 16, y), w >> 8, y), w, y)
  }

  // The whole polynomial applied to (0, y).
  function Evaluated(y: bv32): State64 {
    HornerWord(State64(0, y), CHARPOLY64[0], y)
  }

  predicate Dies(y: bv32) { Evaluated(y) == State64(0, 0) }

  lemma RawWords(a: bv32, z: bv32)
    ensures Rotl32(a, 26) == (a << 26) | (a >> 6) && Rotl32(z, 13) == (z << 13) | (z >> 19)
    ensures Shl32(z, 9) == z << 9
  {}

  lemma XorIs(a: bv32, b: bv32, c: bv32)
    ensures Xor32(a, b) == a ^ b && Xor32(Xor32(a, b), c) == ThreeWords(a, b, c)
  {}

  lemma MixedFirst(a: bv32, z: bv32, u: bv32, rot: bv32, zs: bv32)
    requires rot == (a << 26) | (a >> 6) && zs == z << 9
    ensures Mixed(a, z, u).s0 == ThreeWords(rot, z, zs)
  {
    hide ThreeWords;
  }

  lemma MixedSecond(a: bv32, z: bv32, u: bv32, rz: bv32)
    requires rz == (z << 13) | (z >> 19)
    ensures Mixed(a, z, u).s1 == u ^ rz
  {}

  lemma MixedIs(a: bv32, z: bv32, u: bv32)
    ensures Mixed(a, z, u) == State64(Xor32(Xor32(Rotl32(a, 26), z), Shl32(z, 9)), Xor32(u, Rotl32(z, 13)))
  {
    hide Rotl32, Shl32, Xor32, Mixed, ThreeWords;
    var rot, zs, rz := Rotl32(a, 26), Shl32(z, 9), Rotl32(z, 13);
    RawWords(a, z);
    MixedFirst(a, z, u, rot, zs);
    MixedSecond(a, z, u, rz);
    XorIs(rot, z, zs);
    XorIs(u, rz, 0);
  }

  lemma HornerIs(r: State64, c: bool, y: bv32)
    ensures Horner(r, c, y) == Add64(Term(System64, c, State64(0, y)), Step64(r))
  {
    XorIs(r.s1, r.s0, 0);
    MixedIs(r.s0, Xor32(r.s1, r.s0), if c then y else 0);
    XorLaws(Step64(r).s0, 0, 0);
    hide Mixed, Rotl32, Shl32, Xor32;
  }

  // One more coefficient below q.
  lemma Prepend(q: Poly, c: bool, y: bv32)
    ensures Act(System64, [c] + q, State64(0, y)) == Horner(Act(System64, q, State64(0, y)), c, y)
  {
    hide Linear, Closed, Group, Horner, Step64, Add64;
    var s := State64(0, y);
    Linear64();
    HasAll64(s);
    ActStep(System64, q, s);
    assert ([c] + q)[1..] == q;
    HornerIs(Act(System64, q, s), c, y);
  }

  lemma PrependEight(q: Poly, b0: bool, b1: bool, b2: bool, b3: bool, b4: bool, b5: bool, b6: bool, b7: bool, y: bv32)
    ensures Act(System64, [b0, b1, b2, b3, b4, b5, b6, b7] + q, State64(0, y)) ==
            Horner(Horner(Horner(Horner(Horner(Horner(Horner(Horner(Act(System64, q, State64(0, y)),
              b7, y), b6, y), b5, y), b4, y), b3, y), b2, y), b1, y), b0, y)
  {
    hide Act, Horner;
    var q7 := [b7] + q;
    var q6 := [b6] + q7;
    var q5 := [b5] + q6;
    var q4 := [b4] + q5;
    var q3 := [b3] + q4;
    var q2 := [b2] + q3;
    var q1 := [b1] + q2;
    Prepend(q, b7, y);
    Prepend(q7, b6, y);
    Prepend(q6, b5, y);
    Prepend(q5, b4, y);
    Prepend(q4, b3, y);
    Prepend(q3, b2, y);
    Prepend(q2, b1, y);
    Prepend(q1, b0, y);
    EightMore(q, b0, b1, b2, b3, b4, b5, b6, b7);
  }

  lemma PrependByte(q: Poly, v: bv64, y: bv32)
    ensures Act(System64, ByteBits(v) + q, State64(0, y)) == HornerByte(Act(System64, q, State64(0, y)), v, y)
  {
    hide Act, Horner;
    PrependEight(q, v & 1 != 0, v & 2 != 0, v & 4 != 0, v & 8 != 0, v & 16 != 0, v & 32 != 0, v & 64 != 0, v & 128 != 0, y);
  }

  // The coefficients from number k up, applied to (0, y).
  ghost function Upper(k: nat, y: bv32): State64
    requires k <= 64
  {
    Act(System64, (Bits(CHARPOLY64) + [true])[k..], State64(0, y))
  }

  lemma ByteStep(j: nat, i: nat, v: bv64, y: bv32)
    requires j < 1 && i <= 56 && HasByte(CHARPOLY64[j], i, v)
    ensures Upper(64 * j + i, y) == HornerByte(Upper(64 * j + i + 8, y), v, y)
  {
    hide Act, HasByte, HornerByte, BitAt, ByteBits;
    var p, k := Bits(CHARPOLY64) + [true], 64 * j + i;
    ByteHolds(CHARPOLY64, j, i, v);
    assert p[k..] == ByteBits(v) + p[k + 8..];
    PrependByte(p[k + 8..], v, y);
  }

  lemma WordStep(j: nat, y: bv32)
    requires j < 1
    ensures Upper(64 * j, y) == HornerWord(Upper(64 * j + 64, y), CHARPOLY64[j], y)
  {
    hide Upper, HornerByte, HasByte;
    var w := CHARPOLY64[j];
    BytesOfWord(w);
    AboveIs(w);
    ByteStep(j, 56, w >> 56, y);
    ByteStep(j, 48, w >> 48, y);
    ByteStep(j, 40, w >> 40, y);
    ByteStep(j, 32, w >> 32, y);
    ByteStep(j, 24, w >> 24, y);
    ByteStep(j, 16, w >> 16, y);
    ByteStep(j, 8, w >> 8, y);
    ByteStep(j, 0, w, y);
  }

  lemma TopCoefficient(y: bv32)
    ensures Upper(64, y) == State64(0, y)
  {
    hide Linear, Add64;
    assert (Bits(CHARPOLY64) + [true])[64..] == [true] && [true][1..] == [];
    Linear64();
    HasAll64(State64(0, y));
    AddZero(System64, State64(0, y));
  }

  lemma EvaluatedIs(y: bv32)
    ensures Evaluated(y) == Upper(0, y)
  {
    hide HornerWord, Upper;
    TopCoefficient(y);
    WordStep(0, y);
  }

  lemma DiesIsKilled(y: bv32)
    requires Dies(y)
    ensures Killed(State64(0, y))
  {
    EvaluatedIs(y);
    hide Act, Evaluated;
    assert (Bits(CHARPOLY64) + [true])[0..] == Bits(CHARPOLY64) + [true];
  }

  // ---- from the basis to every state ----

  lemma KilledAdd(s: State64, t: State64)
    requires Killed(s) && Killed(t)
    ensures Killed(Add64(s, t))
  {
    hide Linear, Act, Bits, Add64;
    Linear64();
    HasAll64(s);
    HasAll64(t);
    ActAdd(System64, Bits(CHARPOLY64) + [true], s, t);
    AddLaws64(State64(0, 0), s, s);
  }

  lemma KilledStep(s: State64)
    requires Killed(s)
    ensures Killed(Step64(s))
  {
    hide Linear, Act, Bits, Step64;
    Linear64();
    HasAll64(s);
    ActStep(System64, Bits(CHARPOLY64) + [true], s);
    StepZero(System64);
  }

  predicate Within(y: bv32, m: bv32) { y & !m == 0 }
  predicate OneBit(e: bv32) { e & (e - 1) == 0 }

  // Every second word made of the bits of m.
  ghost predicate Covers(m: bv32) { forall y: bv32 :: Within(y, m) ==> Killed(State64(0, y)) }

  lemma CoversNothing()
    ensures Covers(0)
  {
    hide Linear, Act, Bits, Within;
    Linear64();
    ActOfZero(System64, Bits(CHARPOLY64) + [true]);
    forall y: bv32 | Within(y, 0) ensures Killed(State64(0, y)) { NoBits(y); }
  }

  lemma NoBits(y: bv32)
    requires Within(y, 0)
    ensures y == 0
  {}

  lemma BitOrNot(y: bv32, e: bv32)
    requires OneBit(e)
    ensures y & e == 0 || y & e == e
  {}

  lemma TakeBit(y: bv32, m: bv32, e: bv32)
    requires Within(y, m | e)
    ensures y & e == 0 ==> Within(y, m)
    ensures y & e == e ==> Within(Xor32(y, e), m)
  {}

  // One more basis state.
  lemma Include(m: bv32, e: bv32, m': bv32)
    requires Covers(m) && Dies(e) && OneBit(e) && m' == m | e
    ensures Covers(m')
  {
    hide Killed, Dies, Within, OneBit, Covers;
    DiesIsKilled(e);
    forall y: bv32 | Within(y, m') ensures Killed(State64(0, y)) { IncludeAt(m, e, y); }
    CoversIs(m');
  }

  lemma CoversIs(m: bv32)
    requires forall y: bv32 :: Within(y, m) ==> Killed(State64(0, y))
    ensures Covers(m)
  {
    hide Killed, Within;
  }

  lemma IncludeAt(m: bv32, e: bv32, y: bv32)
    requires Covers(m) && Killed(State64(0, e)) && OneBit(e) && Within(y, m | e)
    ensures Killed(State64(0, y))
  {
    hide Killed, Covers, Within, OneBit, Xor32;
    BitOrNot(y, e);
    TakeBit(y, m, e);
    if y & e == 0 {
      CoversAt(m, y);
    } else {
      CoversAt(m, Xor32(y, e));
      KilledAdd(State64(0, Xor32(y, e)), State64(0, e));
      XorLaws(0, 0, 0);
      XorBack(e, y);
    }
  }

  lemma CoversAt(m: bv32, y: bv32)
    requires Covers(m) && Within(y, m)
    ensures Killed(State64(0, y))
  {
    hide Killed, Within;
  }

  lemma XorBack(a: bv32, b: bv32)
    ensures Xor32(a, Xor32(b, a)) == b && Xor32(Xor32(b, a), a) == b && Xor32(b, 0) == b
  {}

  // Each state is the image of one with a zero first word, plus another such.
  lemma KilledAll(s: State64)
    requires Covers(0xffffffff)
    ensures Killed(s)
  {
    hide Killed, Covers, Within, Step64, Xor32;
    var y := Preimage(s.s0);
    var t := Step64(State64(0, y));
    PreimageIs(s.s0);
    AllBits(y);
    CoversAt(0xffffffff, y);
    KilledStep(State64(0, y));
    var d := Xor32(s.s1, t.s1);
    AllBits(d);
    CoversAt(0xffffffff, d);
    KilledAdd(t, State64(0, d));
    XorLaws(s.s0, 0, 0);
    XorBack(t.s1, s.s1);
  }

  lemma AllBits(y: bv32)
    ensures Within(y, 0xffffffff)
  {}

  // The second word whose step has a as its first.
  function Preimage(a: bv32): bv32 { Xor32(Xor32(a, Shl32(a, 9)), Xor32(Shl32(a, 18), Shl32(a, 27))) }

  lemma PreimageIs(a: bv32)
    ensures Step64(State64(0, Preimage(a))).s0 == a
  {
    var b, c, d := Shl32(a, 9), Shl32(a, 18), Shl32(a, 27);
    ShiftsAdd(a);
    Shl9Linear(Xor32(a, b), Xor32(c, d));
    Shl9Linear(a, b);
    Shl9Linear(c, d);
    FromZero(Preimage(a));
    hide Shl32, Step64, Xor32;
    Telescope(a, b, c, d);
  }

  lemma ShiftsAdd(a: bv32)
    ensures Shl32(Shl32(a, 9), 9) == Shl32(a, 18) && Shl32(Shl32(a, 18), 9) == Shl32(a, 27)
    ensures Shl32(Shl32(a, 27), 9) == 0
  {}

  lemma FromZero(y: bv32)
    ensures Step64(State64(0, y)).s0 == Xor32(y, Shl32(y, 9))
  {
    assert Rotl32(0, 26) == 0;
    hide Rotl32, Shl32, Xor32;
    XorBack(0, y);
    XorLaws(y, 0, 0);
  }

  lemma Telescope(a: bv32, b: bv32, c: bv32, d: bv32)
    ensures Xor32(Xor32(Xor32(a, b), Xor32(c, d)), Xor32(Xor32(b, c), Xor32(d, 0))) == a
  {
    hide Xor32;
    XorBack(0, d);
    XorLaws(a, b, Xor32(c, d));
    XorLaws(b, c, d);
    XorBack(Xor32(b, Xor32(c, d)), a);
  }

  // The basis, one evaluation for each state of it.
  lemma Dies0() ensures Dies(0x1) && Dies(0x2) && Dies(0x4) && Dies(0x8) {}
  lemma Dies4() ensures Dies(0x10) && Dies(0x20) && Dies(0x40) && Dies(0x80) {}
  lemma Dies8() ensures Dies(0x100) && Dies(0x200) && Dies(0x400) && Dies(0x800) {}
  lemma Dies12() ensures Dies(0x1000) && Dies(0x2000) && Dies(0x4000) && Dies(0x8000) {}
  lemma Dies16() ensures Dies(0x10000) && Dies(0x20000) && Dies(0x40000) && Dies(0x80000) {}
  lemma Dies20() ensures Dies(0x100000) && Dies(0x200000) && Dies(0x400000) && Dies(0x800000) {}
  lemma Dies24() ensures Dies(0x1000000) && Dies(0x2000000) && Dies(0x4000000) && Dies(0x8000000) {}
  lemma Dies28() ensures Dies(0x10000000) && Dies(0x20000000) && Dies(0x40000000) && Dies(0x80000000) {}

  lemma CoversByte0()
    requires Covers(0x0)
    ensures Covers(0xff)
  {
    hide Dies, Covers, Within;
    Dies0();
    Include(0x0, 0x1, 0x1);
    Include(0x1, 0x2, 0x3);
    Include(0x3, 0x4, 0x7);
    Include(0x7, 0x8, 0xf);
    Dies4();
    Include(0xf, 0x10, 0x1f);
    Include(0x1f, 0x20, 0x3f);
    Include(0x3f, 0x40, 0x7f);
    Include(0x7f, 0x80, 0xff);
  }

  lemma CoversByte1()
    requires Covers(0xff)
    ensures Covers(0xffff)
  {
    hide Dies, Covers, Within;
    Dies8();
    Include(0xff, 0x100, 0x1ff);
    Include(0x1ff, 0x200, 0x3ff);
    Include(0x3ff, 0x400, 0x7ff);
    Include(0x7ff, 0x800, 0xfff);
    Dies12();
    Include(0xfff, 0x1000, 0x1fff);
    Include(0x1fff, 0x2000, 0x3fff);
    Include(0x3fff, 0x4000, 0x7fff);
    Include(0x7fff, 0x8000, 0xffff);
  }

  lemma CoversByte2()
    requires Covers(0xffff)
    ensures Covers(0xffffff)
  {
    hide Dies, Covers, Within;
    Dies16();
    Include(0xffff, 0x10000, 0x1ffff);
    Include(0x1ffff, 0x20000, 0x3ffff);
    Include(0x3ffff, 0x40000, 0x7ffff);
    Include(0x7ffff, 0x80000, 0xfffff);
    Dies20();
    Include(0xfffff, 0x100000, 0x1fffff);
    Include(0x1fffff, 0x200000, 0x3fffff);
    Include(0x3fffff, 0x400000, 0x7fffff);
    Include(0x7fffff, 0x800000, 0xffffff);
  }

  lemma CoversByte3()
    requires Covers(0xffffff)
    ensures Covers(0xffffffff)
  {
    hide Dies, Covers, Within;
    Dies24();
    Include(0xffffff, 0x1000000, 0x1ffffff);
    Include(0x1ffffff, 0x2000000, 0x3ffffff);
    Include(0x3ffffff, 0x4000000, 0x7ffffff);
    Include(0x7ffffff, 0x8000000, 0xfffffff);
    Dies28();
    Include(0xfffffff, 0x10000000, 0x1fffffff);
    Include(0x1fffffff, 0x20000000, 0x3fffffff);
    Include(0x3fffffff, 0x40000000, 0x7fffffff);
    Include(0x7fffffff, 0x80000000, 0xffffffff);
  }

  // The library's constant is right: the modulus of every jump.
  lemma Satisfied()
    ensures Annihilates(System64, Bits(CHARPOLY64))
  {
    hide Covers, Killed;
    CoversNothing();
    CoversByte0();
    CoversByte1();
    CoversByte2();
    CoversByte3();
    Linear64();
    forall s: State64 | System64.Has(s) ensures Act(System64, Bits(CHARPOLY64) + [true], s) == System64.zero {
      KilledAll(s);
      KilledIs(s);
    }
    SendsToZero(System64, Bits(CHARPOLY64));
  }

  lemma KilledIs(s: State64)
    ensures Killed(s) <==> Act(System64, Bits(CHARPOLY64) + [true], s) == System64.zero
  {}

  // ---- the step, bit by bit ----

  // Bit k of a word.
  predicate Bit32(w: bv32, k: bv6)
    requires k < 32
  {
    (w >> k) & 1 == 1
  }

  // w is x turned left by r: bit k of x is bit (k + r) % 32 of w.
  ghost predicate Turned(x: bv32, w: bv32, r: bv6) {
    forall k: bv6 :: k < 32 ==> Bit32(x, k) == Bit32(w, (k + r) & 31)
  }

  lemma Rotl5Turned(x: bv32)
    ensures Turned(x, Rotl32(x, 5), 5)
  {
    forall k: bv6 | k < 32 ensures Bit32(Rotl32(x, 5), (k + 5) & 31) == Bit32(x, k) {
      if k < 27 { Rotl5Up(x, k); } else { Rotl5Around(x, k); }
      hide Bit32, Rotl32;
      if k < 27 { assert (k + 5) & 31 == k + 5; } else { assert (k + 5) & 31 == k - 27; }
    }
  }

  lemma Rotl5Up(x: bv32, k: bv6)
    requires k < 27
    ensures Bit32(Rotl32(x, 5), k + 5) == Bit32(x, k)
  {}

  lemma Rotl5Around(x: bv32, k: bv6)
    requires 27 <= k < 32
    ensures Bit32(Rotl32(x, 5), k - 27) == Bit32(x, k)
  {}

  lemma Rotl26Turned(x: bv32)
    ensures Turned(x, Rotl32(x, 26), 26)
  {
    forall k: bv6 | k < 32 ensures Bit32(Rotl32(x, 26), (k + 26) & 31) == Bit32(x, k) {
      if k < 6 { Rotl26Up(x, k); } else { Rotl26Around(x, k); }
      hide Bit32, Rotl32;
      if k < 6 { assert (k + 26) & 31 == k + 26; } else { assert (k + 26) & 31 == k - 6; }
    }
  }

  lemma Rotl26Up(x: bv32, k: bv6)
    requires k < 6
    ensures Bit32(Rotl32(x, 26), k + 26) == Bit32(x, k)
  {}

  lemma Rotl26Around(x: bv32, k: bv6)
    requires 6 <= k < 32
    ensures Bit32(Rotl32(x, 26), k - 6) == Bit32(x, k)
  {}

  lemma Rotl13Turned(x: bv32)
    ensures Turned(x, Rotl32(x, 13), 13)
  {
    forall k: bv6 | k < 32 ensures Bit32(Rotl32(x, 13), (k + 13) & 31) == Bit32(x, k) {
      if k < 19 { Rotl13Up(x, k); } else { Rotl13Around(x, k); }
      hide Bit32, Rotl32;
      if k < 19 { assert (k + 13) & 31 == k + 13; } else { assert (k + 13) & 31 == k - 19; }
    }
  }

  lemma Rotl13Up(x: bv32, k: bv6)
    requires k < 19
    ensures Bit32(Rotl32(x, 13), k + 13) == Bit32(x, k)
  {}

  lemma Rotl13Around(x: bv32, k: bv6)
    requires 19 <= k < 32
    ensures Bit32(Rotl32(x, 13), k - 19) == Bit32(x, k)
  {}

  lemma Shl9Bit(x: bv32, k: bv6)
    requires k < 32
    ensures Bit32(Shl32(x, 9), k) == (k >= 9 && Bit32(x, k - 9))
  {}

  lemma XoredBit(a: bv32, b: bv32, k: bv6)
    requires k < 32
    ensures Bit32(Xor32(a, b), k) == (Bit32(a, k) != Bit32(b, k))
  {
    ShiftedXor(a, b, k);
    OneBits((a >> k) & 1, (b >> k) & 1);
  }

  lemma ShiftedXor(a: bv32, b: bv32, k: bv6)
    requires k < 32
    ensures ((a ^ b) >> k) & 1 == ((a >> k) & 1) ^ ((b >> k) & 1)
    ensures (a >> k) & 1 <= 1 && (b >> k) & 1 <= 1
  {}

  lemma OneBits(x: bv32, y: bv32)
    requires x <= 1 && y <= 1
    ensures x ^ y == 1 <==> (x == 1) != (y == 1)
  {}

  // What the step makes of the words a and b: the new second word is their XOR
  // turned left by 13; the new first is a turned left by 26, that XOR, and that
  // XOR shifted left by 9.
  ghost predicate Stepped(a: bv32, b: bv32, s0: bv32, s1: bv32) {
    forall k: bv6 :: k < 32 ==> SteppedBit(a, b, s0, s1, k)
  }

  ghost predicate SteppedBit(a: bv32, b: bv32, s0: bv32, s1: bv32, k: bv6)
    requires k < 32
  {
    && Bit32(s1, (k + 13) & 31) == (Bit32(a, k) != Bit32(b, k))
    && Bit32(s0, k) == ((Bit32(a, (k + 6) & 31) != (Bit32(a, k) != Bit32(b, k)))
                      != (k >= 9 && (Bit32(a, k - 9) != Bit32(b, k - 9))))
  }

  lemma StepBits(a: bv32, b: bv32)
    ensures Stepped(a, b, PureS0Of64(a, b), PureS1Of64(a, b))
  {
    hide SteppedBit, PureS0Of64, PureS1Of64;
    forall k: bv6 | k < 32 ensures SteppedBit(a, b, PureS0Of64(a, b), PureS1Of64(a, b), k) { StepBit(a, b, k); }
  }

  lemma StepBit(a: bv32, b: bv32, k: bv6)
    requires k < 32
    ensures SteppedBit(a, b, PureS0Of64(a, b), PureS1Of64(a, b), k)
  {
    hide Bit32, PureS0Of64, PureS1Of64;
    FirstBit(a, b, k);
    SecondBit(a, b, k);
  }

  lemma SecondBit(a: bv32, b: bv32, k: bv6)
    requires k < 32
    ensures Bit32(PureS1Of64(a, b), (k + 13) & 31) == (Bit32(a, k) != Bit32(b, k))
  {
    hide Bit32, Rotl32, Xor32;
    XoredBit(b, a, k);
    Rotl13Turned(Xor32(b, a));
  }

  lemma FirstBit(a: bv32, b: bv32, k: bv6)
    requires k < 32
    ensures Bit32(PureS0Of64(a, b), k) == ((Bit32(a, (k + 6) & 31) != (Bit32(a, k) != Bit32(b, k)))
                        != (k >= 9 && (Bit32(a, k - 9) != Bit32(b, k - 9))))
  {
    hide Bit32, Rotl32, Shl32, Xor32, Turned;
    var z := Xor32(b, a);
    XoredBit(b, a, k);
    TurnedBack(a, Rotl32(a, 26), k);
    Shl9Bit(z, k);
    if k >= 9 { XoredBit(b, a, k - 9); }
    XoredBit(Rotl32(a, 26), z, k);
    XoredBit(Xor32(Rotl32(a, 26), z), Shl32(z, 9), k);
  }

  lemma TurnedBack(x: bv32, w: bv32, k: bv6)
    requires k < 32 && w == Rotl32(x, 26)
    ensures Bit32(w, k) == Bit32(x, (k + 6) & 31)
  {
    hide Bit32, Rotl32;
    Rotl26Turned(x);
    var j := (k + 6) & 31;
    assert j < 32 && (j + 26) & 31 == k;
  }
}
