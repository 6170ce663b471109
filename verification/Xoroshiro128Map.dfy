// The linear map inside xoroshiro128++, and the proof that the polynomial the library
// keeps for it annihilates it.
module Xoroshiro128Map {
  import opened LinearSystem
  import opened F2x

  datatype State128 = State128(s0: bv64, s1: bv64)

  function Rotl64(x: bv64, k: bv7): bv64
    requires 0 < k < 64
  {
    (x << k) | (x >> (64 - k))
  }

  function Shl64(x: bv64, k: bv7): bv64
    requires k < 64
  {
    x << k
  }

  function PureS0Of128(s0: bv64, s1: bv64): bv64 {
    XorWord(XorWord(Rotl64(s0, 49), XorWord(s1, s0)), Shl64(XorWord(s1, s0), 21))
  }
  function PureS1Of128(s0: bv64, s1: bv64): bv64 { Rotl64(XorWord(s1, s0), 28) }

  function Step128(s: State128): State128 {
    State128(PureS0Of128(s.s0, s.s1), PureS1Of128(s.s0, s.s1))
  }

  function Add128(a: State128, b: State128): State128 { State128(XorWord(a.s0, b.s0), XorWord(a.s1, b.s1)) }

  const System128: System<State128> := System(s => Step128(s), (a, b) => Add128(a, b), State128(0, 0), _ => true)

  // The low coefficients of the characteristic polynomial of Step128.
  const CHARPOLY128: seq<bv64> := [0x8dae70779760b081, 0x0031bcf2f855d6e5]

  lemma Rotl49Linear(a: bv64, b: bv64)
    ensures Rotl64(XorWord(a, b), 49) == XorWord(Rotl64(a, 49), Rotl64(b, 49))
  {}

  lemma Rotl28Linear(a: bv64, b: bv64)
    ensures Rotl64(XorWord(a, b), 28) == XorWord(Rotl64(a, 28), Rotl64(b, 28))
  {}

  lemma Shl21Linear(a: bv64, b: bv64)
    ensures Shl64(XorWord(a, b), 21) == XorWord(Shl64(a, 21), Shl64(b, 21))
  {}

  lemma XorLaws(a: bv64, b: bv64, c: bv64)
    ensures XorWord(0, a) == a && XorWord(a, a) == 0 && XorWord(a, b) == XorWord(b, a)
    ensures XorWord(XorWord(a, b), c) == XorWord(a, XorWord(b, c))
  {}

  lemma XorInterchange(a: bv64, b: bv64, c: bv64, d: bv64)
    ensures XorWord(XorWord(a, b), XorWord(c, d)) == XorWord(XorWord(a, c), XorWord(b, d))
  {
    hide XorWord;
    XorLaws(a, b, XorWord(c, d));
    XorLaws(b, c, d);
    XorLaws(c, b, d);
    XorLaws(a, c, XorWord(b, d));
  }

  lemma S1Linear128(a0: bv64, a1: bv64, b0: bv64, b1: bv64)
    ensures PureS1Of128(XorWord(a0, b0), XorWord(a1, b1)) == XorWord(PureS1Of128(a0, a1), PureS1Of128(b0, b1))
  {
    hide XorWord, Rotl64;
    XorInterchange(a1, b1, a0, b0);
    Rotl28Linear(XorWord(a1, a0), XorWord(b1, b0));
  }

  lemma S0Linear128(a0: bv64, a1: bv64, b0: bv64, b1: bv64)
    ensures PureS0Of128(XorWord(a0, b0), XorWord(a1, b1)) == XorWord(PureS0Of128(a0, a1), PureS0Of128(b0, b1))
  {
    hide XorWord, Rotl64, Shl64;
    var x, y := XorWord(a1, a0), XorWord(b1, b0);
    XorInterchange(a1, b1, a0, b0);
    Rotl49Linear(a0, b0);
    Shl21Linear(x, y);
    XorInterchange(Rotl64(a0, 49), Rotl64(b0, 49), x, y);
    XorInterchange(XorWord(Rotl64(a0, 49), x), XorWord(Rotl64(b0, 49), y), Shl64(x, 21), Shl64(y, 21));
  }

  lemma StepLinear128(a: State128, b: State128)
    ensures Step128(Add128(a, b)) == Add128(Step128(a), Step128(b))
  {
    hide PureS0Of128, PureS1Of128, XorWord;
    S0Linear128(a.s0, a.s1, b.s0, b.s1);
    S1Linear128(a.s0, a.s1, b.s0, b.s1);
  }

  lemma AddLaws128(a: State128, b: State128, c: State128)
    ensures Add128(State128(0, 0), a) == a && Add128(a, a) == State128(0, 0)
    ensures Add128(a, b) == Add128(b, a)
    ensures Add128(Add128(a, b), c) == Add128(a, Add128(b, c))
  {
    hide XorWord;
    XorLaws(a.s0, b.s0, c.s0);
    XorLaws(a.s1, b.s1, c.s1);
  }

  lemma Group128()
    ensures Closed(System128) && Group(System128)
  {
    hide Step128, Add128;
    var L := System128;
    forall a: State128 ensures L.add(L.zero, a) == a && L.add(a, a) == L.zero { AddLaws128(a, a, a); }
    forall a: State128, b: State128 ensures L.add(a, b) == L.add(b, a) { AddLaws128(a, b, b); }
    forall a: State128, b: State128, c: State128 ensures L.add(L.add(a, b), c) == L.add(a, L.add(b, c)) { AddLaws128(a, b, c); }
  }

  lemma Linear128()
    ensures Linear(System128)
  {
    hide Step128, Add128, Closed, Group;
    Group128();
    var L := System128;
    forall a: State128, b: State128 ensures L.step(L.add(a, b)) == L.add(L.step(a), L.step(b)) { StepLinear128(a, b); }
  }

  lemma CharpolyWords128()
    ensures |CHARPOLY128| == 2
  {}

  lemma HasAll128(s: State128)
    ensures System128.Has(s)
  {}

  // ---- the step satisfies its characteristic polynomial ----

  // The polynomial with its leading one sends s to zero.
  ghost predicate Killed(s: State128) { Act(System128, Bits(CHARPOLY128) + [true], s) == State128(0, 0) }

  // The step on raw words, z the sum of the two, plus (0, u).
  function Mixed(a: bv64, z: bv64, u: bv64): State128 {
    State128(ThreeWords((a << 49) | (a >> 15), z, z << 21), u ^ ((z << 28) | (z >> 36)))
  }

  function ThreeWords(a: bv64, b: bv64, c: bv64): bv64 { a ^ b ^ c }

  // One Horner step for the state (0, y), then a byte of coefficients and
  // eight bytes of them.
  function Horner(r: State128, c: bool, y: bv64): State128 { Mixed(r.s0, r.s1 ^ r.s0, if c then y else 0) }

  function HornerByte(r: State128, v: bv64, y: bv64): State128 {
    Horner(Horner(Horner(Horner(Horner(Horner(Horner(Horner(r, v & 128 != 0, y), v & 64 != 0, y), v & 32 != 0, y),
      v & 16 != 0, y), v & 8 != 0, y), v & 4 != 0, y), v & 2 != 0, y), v & 1 != 0, y)
  }

  function HornerWord(r: State128, w: bv64, y: bv64): State128 {
    HornerByte(HornerByte(HornerByte(HornerByte(HornerByte(HornerByte(HornerByte(HornerByte(r, w >> 56, y), w >> 48, y),
      w >> 40, y), w >> 32, y), w >> 24, y), w >> 16, y), w >> 8, y), w, y)
  }

  // The whole polynomial applied to (0, y).
  function Evaluated(y: bv64): State128 {
    HornerWord(HornerWord(State128(0, y), CHARPOLY128[1], y), CHARPOLY128[0], y)
  }

  predicate Dies(y: bv64) { Evaluated(y) == State128(0, 0) }

  lemma RawWords(a: bv64, z: bv64)
    ensures Rotl64(a, 49) == (a << 49) | (a >> 15) && Rotl64(z, 28) == (z << 28) | (z >> 36)
    ensures Shl64(z, 21) == z << 21
  {}

  lemma XorIs(a: bv64, b: bv64, c: bv64)
    ensures XorWord(a, b) == a ^ b && XorWord(XorWord(a, b), c) == ThreeWords(a, b, c)
  {}

  lemma MixedFirst(a: bv64, z: bv64, u: bv64, rot: bv64, zs: bv64)
    requires rot == (a << 49) | (a >> 15) && zs == z << 21
    ensures Mixed(a, z, u).s0 == ThreeWords(rot, z, zs)
  {
    hide ThreeWords;
  }

  lemma MixedSecond(a: bv64, z: bv64, u: bv64, rz: bv64)
    requires rz == (z << 28) | (z >> 36)
    ensures Mixed(a, z, u).s1 == u ^ rz
  {}

  lemma MixedIs(a: bv64, z: bv64, u: bv64)
    ensures Mixed(a, z, u) == State128(XorWord(XorWord(Rotl64(a, 49), z), Shl64(z, 21)), XorWord(u, Rotl64(z, 28)))
  {
    hide Rotl64, Shl64, XorWord, Mixed, ThreeWords;
    var rot, zs, rz := Rotl64(a, 49), Shl64(z, 21), Rotl64(z, 28);
    RawWords(a, z);
    MixedFirst(a, z, u, rot, zs);
    MixedSecond(a, z, u, rz);
    XorIs(rot, z, zs);
    XorIs(u, rz, 0);
  }

  lemma HornerIs(r: State128, c: bool, y: bv64)
    ensures Horner(r, c, y) == Add128(Term(System128, c, State128(0, y)), Step128(r))
  {
    XorIs(r.s1, r.s0, 0);
    MixedIs(r.s0, XorWord(r.s1, r.s0), if c then y else 0);
    XorLaws(Step128(r).s0, 0, 0);
    hide Mixed, Rotl64, Shl64, XorWord;
  }

  // One more coefficient below q.
  lemma Prepend(q: Poly, c: bool, y: bv64)
    ensures Act(System128, [c] + q, State128(0, y)) == Horner(Act(System128, q, State128(0, y)), c, y)
  {
    hide Linear, Closed, Group, Horner, Step128, Add128;
    var s := State128(0, y);
    Linear128();
    HasAll128(s);
    ActStep(System128, q, s);
    assert ([c] + q)[1..] == q;
    HornerIs(Act(System128, q, s), c, y);
  }

  lemma PrependEight(q: Poly, b0: bool, b1: bool, b2: bool, b3: bool, b4: bool, b5: bool, b6: bool, b7: bool, y: bv64)
    ensures Act(System128, [b0, b1, b2, b3, b4, b5, b6, b7] + q, State128(0, y)) ==
            Horner(Horner(Horner(Horner(Horner(Horner(Horner(Horner(Act(System128, q, State128(0, y)),
              b7, y), b6, y), b5, y), b4, y), b3, y), b2, y), b1, y), b0, y)
  {
    hide Act, Horner;
    var q7 := [b7] + q;
    var q6 := [b6] + q7;
    var q5 := [b5] + q6;
    var q4 := [b4] + q5;
    var q3 := [b3] + q4;
    var q2 := [b2] + q3;
    var q1 := [b1] + q2;
    Prepend(q, b7, y);
    Prepend(q7, b6, y);
    Prepend(q6, b5, y);
    Prepend(q5, b4, y);
    Prepend(q4, b3, y);
    Prepend(q3, b2, y);
    Prepend(q2, b1, y);
    Prepend(q1, b0, y);
    EightMore(q, b0, b1, b2, b3, b4, b5, b6, b7);
  }

  lemma PrependByte(q: Poly, v: bv64, y: bv64)
    ensures Act(System128, ByteBits(v) + q, State128(0, y)) == HornerByte(Act(System128, q, State128(0, y)), v, y)
  {
    hide Act, Horner;
    PrependEight(q, v & 1 != 0, v & 2 != 0, v & 4 != 0, v & 8 != 0, v & 16 != 0, v & 32 != 0, v & 64 != 0, v & 128 != 0, y);
  }

  // The coefficients from number k up, applied to (0, y).
  ghost function Upper(k: nat, y: bv64): State128
    requires k <= 128
  {
    Act(System128, (Bits(CHARPOLY128) + [true])[k..], State128(0, y))
  }

  lemma ByteStep(j: nat, i: nat, v: bv64, y: bv64)
    requires j < 2 && i <= 56 && HasByte(CHARPOLY128[j], i, v)
    ensures Upper(64 * j + i, y) == HornerByte(Upper(64 * j + i + 8, y), v, y)
  {
    hide Act, HasByte, HornerByte, BitAt, ByteBits;
    var p, k := Bits(CHARPOLY128) + [true], 64 * j + i;
    ByteHolds(CHARPOLY128, j, i, v);
    assert p[k..] == ByteBits(v) + p[k + 8..];
    PrependByte(p[k + 8..], v, y);
  }

  lemma WordStep(j: nat, y: bv64)
    requires j < 2
    ensures Upper(64 * j, y) == HornerWord(Upper(64 * j + 64, y), CHARPOLY128[j], y)
  {
    hide Upper, HornerByte, HasByte;
    var w := CHARPOLY128[j];
    BytesOfWord(w);
    AboveIs(w);
    ByteStep(j, 56, w >> 56, y);
    ByteStep(j, 48, w >> 48, y);
    ByteStep(j, 40, w >> 40, y);
    ByteStep(j, 32, w >> 32, y);
    ByteStep(j, 24, w >> 24, y);
    ByteStep(j, 16, w >> 16, y);
    ByteStep(j, 8, w >> 8, y);
    ByteStep(j, 0, w, y);
  }

  lemma TopCoefficient(y: bv64)
    ensures Upper(128, y) == State128(0, y)
  {
    hide Linear, Add128;
    assert (Bits(CHARPOLY128) + [true])[128..] == [true] && [true][1..] == [];
    Linear128();
    HasAll128(State128(0, y));
    AddZero(System128, State128(0, y));
  }

  lemma EvaluatedIs(y: bv64)
    ensures Evaluated(y) == Upper(0, y)
  {
    hide HornerWord, Upper;
    TopCoefficient(y);
    WordStep(1, y);
    WordStep(0, y);
  }

  lemma DiesIsKilled(y: bv64)
    requires Dies(y)
    ensures Killed(State128(0, y))
  {
    EvaluatedIs(y);
    hide Act, Evaluated;
    assert (Bits(CHARPOLY128) + [true])[0..] == Bits(CHARPOLY128) + [true];
  }

  // ---- from the basis to every state ----

  lemma KilledAdd(s: State128, t: State128)
    requires Killed(s) && Killed(t)
    ensures Killed(Add128(s, t))
  {
    hide Linear, Act, Bits, Add128;
    Linear128();
    HasAll128(s);
    HasAll128(t);
    ActAdd(System128, Bits(CHARPOLY128) + [true], s, t);
    AddLaws128(State128(0, 0), s, s);
  }

  lemma KilledStep(s: State128)
    requires Killed(s)
    ensures Killed(Step128(s))
  {
    hide Linear, Act, Bits, Step128;
    Linear128();
    HasAll128(s);
    ActStep(System128, Bits(CHARPOLY128) + [true], s);
    StepZero(System128);
  }

  predicate Within(y: bv64, m: bv64) { y & !m == 0 }
  predicate OneBit(e: bv64) { e & (e - 1) == 0 }

  // Every second word made of the bits of m.
  ghost predicate Covers(m: bv64) { forall y: bv64 :: Within(y, m) ==> Killed(State128(0, y)) }

  lemma CoversNothing()
    ensures Covers(0)
  {
    hide Linear, Act, Bits, Within;
    Linear128();
    ActOfZero(System128, Bits(CHARPOLY128) + [true]);
    forall y: bv64 | Within(y, 0) ensures Killed(State128(0, y)) { NoBits(y); }
  }

  lemma NoBits(y: bv64)
    requires Within(y, 0)
    ensures y == 0
  {}

  lemma BitOrNot(y: bv64, e: bv64)
    requires OneBit(e)
    ensures y & e == 0 || y & e == e
  {}

  lemma TakeBit(y: bv64, m: bv64, e: bv64)
    requires Within(y, m | e)
    ensures y & e == 0 ==> Within(y, m)
    ensures y & e == e ==> Within(XorWord(y, e), m)
  {}

  // One more basis state.
  lemma Include(m: bv64, e: bv64, m': bv64)
    requires Covers(m) && Dies(e) && OneBit(e) && m' == m | e
    ensures Covers(m')
  {
    hide Killed, Dies, Within, OneBit, Covers;
    DiesIsKilled(e);
    forall y: bv64 | Within(y, m') ensures Killed(State128(0, y)) { IncludeAt(m, e, y); }
    CoversIs(m');
  }

  lemma CoversIs(m: bv64)
    requires forall y: bv64 :: Within(y, m) ==> Killed(State128(0, y))
    ensures Covers(m)
  {
    hide Killed, Within;
  }

  lemma IncludeAt(m: bv64, e: bv64, y: bv64)
    requires Covers(m) && Killed(State128(0, e)) && OneBit(e) && Within(y, m | e)
    ensures Killed(State128(0, y))
  {
    hide Killed, Covers, Within, OneBit, XorWord;
    BitOrNot(y, e);
    TakeBit(y, m, e);
    if y & e == 0 {
      CoversAt(m, y);
    } else {
      CoversAt(m, XorWord(y, e));
      KilledAdd(State128(0, XorWord(y, e)), State128(0, e));
      XorLaws(0, 0, 0);
      XorBack(e, y);
    }
  }

  lemma CoversAt(m: bv64, y: bv64)
    requires Covers(m) && Within(y, m)
    ensures Killed(State128(0, y))
  {
    hide Killed, Within;
  }

  lemma XorBack(a: bv64, b: bv64)
    ensures XorWord(a, XorWord(b, a)) == b && XorWord(XorWord(b, a), a) == b && XorWord(b, 0) == b
  {}

  // Each state is the image of one with a zero first word, plus another such.
  lemma KilledAll(s: State128)
    requires Covers(0xffffffffffffffff)
    ensures Killed(s)
  {
    hide Killed, Covers, Within, Step128, XorWord;
    var y := Preimage(s.s0);
    var t := Step128(State128(0, y));
    PreimageIs(s.s0);
    AllBits(y);
    CoversAt(0xffffffffffffffff, y);
    KilledStep(State128(0, y));
    var d := XorWord(s.s1, t.s1);
    AllBits(d);
    CoversAt(0xffffffffffffffff, d);
    KilledAdd(t, State128(0, d));
    XorLaws(s.s0, 0, 0);
    XorBack(t.s1, s.s1);
  }

  lemma AllBits(y: bv64)
    ensures Within(y, 0xffffffffffffffff)
  {}

  // The second word whose step has a as its first.
  function Preimage(a: bv64): bv64 { XorWord(XorWord(a, Shl64(a, 21)), XorWord(Shl64(a, 42), Shl64(a, 63))) }

  lemma PreimageIs(a: bv64)
    ensures Step128(State128(0, Preimage(a))).s0 == a
  {
    var b, c, d := Shl64(a, 21), Shl64(a, 42), Shl64(a, 63);
    ShiftsAdd(a);
    Shl21Linear(XorWord(a, b), XorWord(c, d));
    Shl21Linear(a, b);
    Shl21Linear(c, d);
    FromZero(Preimage(a));
    hide Shl64, Step128, XorWord;
    Telescope(a, b, c, d);
  }

  lemma ShiftsAdd(a: bv64)
    ensures Shl64(Shl64(a, 21), 21) == Shl64(a, 42) && Shl64(Shl64(a, 42), 21) == Shl64(a, 63)
    ensures Shl64(Shl64(a, 63), 21) == 0
  {}

  lemma FromZero(y: bv64)
    ensures Step128(State128(0, y)).s0 == XorWord(y, Shl64(y, 21))
  {
    assert Rotl64(0, 49) == 0;
    hide Rotl64, Shl64, XorWord;
    XorBack(0, y);
    XorLaws(y, 0, 0);
  }

  lemma Telescope(a: bv64, b: bv64, c: bv64, d: bv64)
    ensures XorWord(XorWord(XorWord(a, b), XorWord(c, d)), XorWord(XorWord(b, c), XorWord(d, 0))) == a
  {
    hide XorWord;
    XorBack(0, d);
    XorLaws(a, b, XorWord(c, d));
    XorLaws(b, c, d);
    XorBack(XorWord(b, XorWord(c, d)), a);
  }

  // The basis, one evaluation for each state of it.
  lemma Dies0() ensures Dies(0x1) {}
  lemma Dies1() ensures Dies(0x2) {}
  lemma Dies2() ensures Dies(0x4) {}
  lemma Dies3() ensures Dies(0x8) {}
  lemma Dies4() ensures Dies(0x10) {}
  lemma Dies5() ensures Dies(0x20) {}
  lemma Dies6() ensures Dies(0x40) {}
  lemma Dies7() ensures Dies(0x80) {}
  lemma Dies8() ensures Dies(0x100) {}
  lemma Dies9() ensures Dies(0x200) {}
  lemma Dies10() ensures Dies(0x400) {}
  lemma Dies11() ensures Dies(0x800) {}
  lemma Dies12() ensures Dies(0x1000) {}
  lemma Dies13() ensures Dies(0x2000) {}
  lemma Dies14() ensures Dies(0x4000) {}
  lemma Dies15() ensures Dies(0x8000) {}
  lemma Dies16() ensures Dies(0x10000) {}
  lemma Dies17() ensures Dies(0x20000) {}
  lemma Dies18() ensures Dies(0x40000) {}
  lemma Dies19() ensures Dies(0x80000) {}
  lemma Dies20() ensures Dies(0x100000) {}
  lemma Dies21() ensures Dies(0x200000) {}
  lemma Dies22() ensures Dies(0x400000) {}
  lemma Dies23() ensures Dies(0x800000) {}
  lemma Dies24() ensures Dies(0x1000000) {}
  lemma Dies25() ensures Dies(0x2000000) {}
  lemma Dies26() ensures Dies(0x4000000) {}
  lemma Dies27() ensures Dies(0x8000000) {}
  lemma Dies28() ensures Dies(0x10000000) {}
  lemma Dies29() ensures Dies(0x20000000) {}
  lemma Dies30() ensures Dies(0x40000000) {}
  lemma Dies31() ensures Dies(0x80000000) {}
  lemma Dies32() ensures Dies(0x100000000) {}
  lemma Dies33() ensures Dies(0x200000000) {}
  lemma Dies34() ensures Dies(0x400000000) {}
  lemma Dies35() ensures Dies(0x800000000) {}
  lemma Dies36() ensures Dies(0x1000000000) {}
  lemma Dies37() ensures Dies(0x2000000000) {}
  lemma Dies38() ensures Dies(0x4000000000) {}
  lemma Dies39() ensures Dies(0x8000000000) {}
  lemma Dies40() ensures Dies(0x10000000000) {}
  lemma Dies41() ensures Dies(0x20000000000) {}
  lemma Dies42() ensures Dies(0x40000000000) {}
  lemma Dies43() ensures Dies(0x80000000000) {}
  lemma Dies44() ensures Dies(0x100000000000) {}
  lemma Dies45() ensures Dies(0x200000000000) {}
  lemma Dies46() ensures Dies(0x400000000000) {}
  lemma Dies47() ensures Dies(0x800000000000) {}
  lemma Dies48() ensures Dies(0x1000000000000) {}
  lemma Dies49() ensures Dies(0x2000000000000) {}
  lemma Dies50() ensures Dies(0x4000000000000) {}
  lemma Dies51() ensures Dies(0x8000000000000) {}
  lemma Dies52() ensures Dies(0x10000000000000) {}
  lemma Dies53() ensures Dies(0x20000000000000) {}
  lemma Dies54() ensures Dies(0x40000000000000) {}
  lemma Dies55() ensures Dies(0x80000000000000) {}
  lemma Dies56() ensures Dies(0x100000000000000) {}
  lemma Dies57() ensures Dies(0x200000000000000) {}
  lemma Dies58() ensures Dies(0x400000000000000) {}
  lemma Dies59() ensures Dies(0x800000000000000) {}
  lemma Dies60() ensures Dies(0x1000000000000000) {}
  lemma Dies61() ensures Dies(0x2000000000000000) {}
  lemma Dies62() ensures Dies(0x4000000000000000) {}
  lemma Dies63() ensures Dies(0x8000000000000000) {}

  lemma CoversByte0()
    requires Covers(0x0)
    ensures Covers(0xff)
  {
    hide Dies, Covers, Within;
    Dies0();
    Include(0x0, 0x1, 0x1);
    Dies1();
    Include(0x1, 0x2, 0x3);
    Dies2();
    Include(0x3, 0x4, 0x7);
    Dies3();
    Include(0x7, 0x8, 0xf);
    Dies4();
    Include(0xf, 0x10, 0x1f);
    Dies5();
    Include(0x1f, 0x20, 0x3f);
    Dies6();
    Include(0x3f, 0x40, 0x7f);
    Dies7();
    Include(0x7f, 0x80, 0xff);
  }

  lemma CoversByte1()
    requires Covers(0xff)
    ensures Covers(0xffff)
  {
    hide Dies, Covers, Within;
    Dies8();
    Include(0xff, 0x100, 0x1ff);
    Dies9();
    Include(0x1ff, 0x200, 0x3ff);
    Dies10();
    Include(0x3ff, 0x400, 0x7ff);
    Dies11();
    Include(0x7ff, 0x800, 0xfff);
    Dies12();
    Include(0xfff, 0x1000, 0x1fff);
    Dies13();
    Include(0x1fff, 0x2000, 0x3fff);
    Dies14();
    Include(0x3fff, 0x4000, 0x7fff);
    Dies15();
    Include(0x7fff, 0x8000, 0xffff);
  }

  lemma CoversByte2()
    requires Covers(0xffff)
    ensures Covers(0xffffff)
  {
    hide Dies, Covers, Within;
    Dies16();
    Include(0xffff, 0x10000, 0x1ffff);
    Dies17();
    Include(0x1ffff, 0x20000, 0x3ffff);
    Dies18();
    Include(0x3ffff, 0x40000, 0x7ffff);
    Dies19();
    Include(0x7ffff, 0x80000, 0xfffff);
    Dies20();
    Include(0xfffff, 0x100000, 0x1fffff);
    Dies21();
    Include(0x1fffff, 0x200000, 0x3fffff);
    Dies22();
    Include(0x3fffff, 0x400000, 0x7fffff);
    Dies23();
    Include(0x7fffff, 0x800000, 0xffffff);
  }

  lemma CoversByte3()
    requires Covers(0xffffff)
    ensures Covers(0xffffffff)
  {
    hide Dies, Covers, Within;
    Dies24();
    Include(0xffffff, 0x1000000, 0x1ffffff);
    Dies25();
    Include(0x1ffffff, 0x2000000, 0x3ffffff);
    Dies26();
    Include(0x3ffffff, 0x4000000, 0x7ffffff);
    Dies27();
    Include(0x7ffffff, 0x8000000, 0xfffffff);
    Dies28();
    Include(0xfffffff, 0x10000000, 0x1fffffff);
    Dies29();
    Include(0x1fffffff, 0x20000000, 0x3fffffff);
    Dies30();
    Include(0x3fffffff, 0x40000000, 0x7fffffff);
    Dies31();
    Include(0x7fffffff, 0x80000000, 0xffffffff);
  }

  lemma CoversByte4()
    requires Covers(0xffffffff)
    ensures Covers(0xffffffffff)
  {
    hide Dies, Covers, Within;
    Dies32();
    Include(0xffffffff, 0x100000000, 0x1ffffffff);
    Dies33();
    Include(0x1ffffffff, 0x200000000, 0x3ffffffff);
    Dies34();
    Include(0x3ffffffff, 0x400000000, 0x7ffffffff);
    Dies35();
    Include(0x7ffffffff, 0x800000000, 0xfffffffff);
    Dies36();
    Include(0xfffffffff, 0x1000000000, 0x1fffffffff);
    Dies37();
    Include(0x1fffffffff, 0x2000000000, 0x3fffffffff);
    Dies38();
    Include(0x3fffffffff, 0x4000000000, 0x7fffffffff);
    Dies39();
    Include(0x7fffffffff, 0x8000000000, 0xffffffffff);
  }

  lemma CoversByte5()
    requires Covers(0xffffffffff)
    ensures Covers(0xffffffffffff)
  {
    hide Dies, Covers, Within;
    Dies40();
    Include(0xffffffffff, 0x10000000000, 0x1ffffffffff);
    Dies41();
    Include(0x1ffffffffff, 0x20000000000, 0x3ffffffffff);
    Dies42();
    Include(0x3ffffffffff, 0x40000000000, 0x7ffffffffff);
    Dies43();
    Include(0x7ffffffffff, 0x80000000000, 0xfffffffffff);
    Dies44();
    Include(0xfffffffffff, 0x100000000000, 0x1fffffffffff);
    Dies45();
    Include(0x1fffffffffff, 0x200000000000, 0x3fffffffffff);
    Dies46();
    Include(0x3fffffffffff, 0x400000000000, 0x7fffffffffff);
    Dies47();
    Include(0x7fffffffffff, 0x800000000000, 0xffffffffffff);
  }

  lemma CoversByte6()
    requires Covers(0xffffffffffff)
    ensures Covers(0xffffffffffffff)
  {
    hide Dies, Covers, Within;
    Dies48();
    Include(0xffffffffffff, 0x1000000000000, 0x1ffffffffffff);
    Dies49();
    Include(0x1ffffffffffff, 0x2000000000000, 0x3ffffffffffff);
    Dies50();
    Include(0x3ffffffffffff, 0x4000000000000, 0x7ffffffffffff);
    Dies51();
    Include(0x7ffffffffffff, 0x8000000000000, 0xfffffffffffff);
    Dies52();
    Include(0xfffffffffffff, 0x10000000000000, 0x1fffffffffffff);
    Dies53();
    Include(0x1fffffffffffff, 0x20000000000000, 0x3fffffffffffff);
    Dies54();
    Include(0x3fffffffffffff, 0x40000000000000, 0x7fffffffffffff);
    Dies55();
    Include(0x7fffffffffffff, 0x80000000000000, 0xffffffffffffff);
  }

  lemma CoversByte7()
    requires Covers(0xffffffffffffff)
    ensures Covers(0xffffffffffffffff)
  {
    hide Dies, Covers, Within;
    Dies56();
    Include(0xffffffffffffff, 0x100000000000000, 0x1ffffffffffffff);
    Dies57();
    Include(0x1ffffffffffffff, 0x200000000000000, 0x3ffffffffffffff);
    Dies58();
    Include(0x3ffffffffffffff, 0x400000000000000, 0x7ffffffffffffff);
    Dies59();
    Include(0x7ffffffffffffff, 0x800000000000000, 0xfffffffffffffff);
    Dies60();
    Include(0xfffffffffffffff, 0x1000000000000000, 0x1fffffffffffffff);
    Dies61();
    Include(0x1fffffffffffffff, 0x2000000000000000, 0x3fffffffffffffff);
    Dies62();
    Include(0x3fffffffffffffff, 0x4000000000000000, 0x7fffffffffffffff);
    Dies63();
    Include(0x7fffffffffffffff, 0x8000000000000000, 0xffffffffffffffff);
  }

  // The library's constant is right: the modulus of every jump.
  lemma Satisfied()
    ensures Annihilates(System128, Bits(CHARPOLY128))
  {
    hide Covers, Killed;
    CoversNothing();
    CoversByte0();
    CoversByte1();
    CoversByte2();
    CoversByte3();
    CoversByte4();
    CoversByte5();
    CoversByte6();
    CoversByte7();
    Linear128();
    forall s: State128 | System128.Has(s) ensures Act(System128, Bits(CHARPOLY128) + [true], s) == System128.zero {
      KilledAll(s);
      KilledIs(s);
    }
    SendsToZero(System128, Bits(CHARPOLY128));
  }

  lemma KilledIs(s: State128)
    ensures Killed(s) <==> Act(System128, Bits(CHARPOLY128) + [true], s) == System128.zero
  {}

  // ---- the step, bit by bit ----

  // Bit k of a word.
  predicate Bit64(w: bv64, k: bv7)
    requires k < 64
  {
    (w >> k) & 1 == 1
  }

  // w is x turned left by r: bit k of x is bit (k + r) % 64 of w.
  ghost predicate Turned(x: bv64, w: bv64, r: bv7) {
    forall k: bv7 :: k < 64 ==> Bit64(x, k) == Bit64(w, (k + r) & 63)
  }

  lemma Rotl17Turned(x: bv64)
    ensures Turned(x, Rotl64(x, 17), 17)
  {
    forall k: bv7 | k < 64 ensures Bit64(Rotl64(x, 17), (k + 17) & 63) == Bit64(x, k) {
      if k < 47 { Rotl17Up(x, k); } else { Rotl17Around(x, k); }
      hide Bit64, Rotl64;
      if k < 47 { assert (k + 17) & 63 == k + 17; } else { assert (k + 17) & 63 == k - 47; }
    }
  }

  lemma Rotl17Up(x: bv64, k: bv7)
    requires k < 47
    ensures Bit64(Rotl64(x, 17), k + 17) == Bit64(x, k)
  {}

  lemma Rotl17Around(x: bv64, k: bv7)
    requires 47 <= k < 64
    ensures Bit64(Rotl64(x, 17), k - 47) == Bit64(x, k)
  {}

  lemma Rotl49Turned(x: bv64)
    ensures Turned(x, Rotl64(x, 49), 49)
  {
    forall k: bv7 | k < 64 ensures Bit64(Rotl64(x, 49), (k + 49) & 63) == Bit64(x, k) {
      if k < 15 { Rotl49Up(x, k); } else { Rotl49Around(x, k); }
      hide Bit64, Rotl64;
      if k < 15 { assert (k + 49) & 63 == k + 49; } else { assert (k + 49) & 63 == k - 15; }
    }
  }

  lemma Rotl49Up(x: bv64, k: bv7)
    requires k < 15
    ensures Bit64(Rotl64(x, 49), k + 49) == Bit64(x, k)
  {}

  lemma Rotl49Around(x: bv64, k: bv7)
    requires 15 <= k < 64
    ensures Bit64(Rotl64(x, 49), k - 15) == Bit64(x, k)
  {}

  lemma Rotl28Turned(x: bv64)
    ensures Turned(x, Rotl64(x, 28), 28)
  {
    forall k: bv7 | k < 64 ensures Bit64(Rotl64(x, 28), (k + 28) & 63) == Bit64(x, k) {
      if k < 36 { Rotl28Up(x, k); } else { Rotl28Around(x, k); }
      hide Bit64, Rotl64;
      if k < 36 { assert (k + 28) & 63 == k + 28; } else { assert (k + 28) & 63 == k - 36; }
    }
  }

  lemma Rotl28Up(x: bv64, k: bv7)
    requires k < 36
    ensures Bit64(Rotl64(x, 28), k + 28) == Bit64(x, k)
  {}

  lemma Rotl28Around(x: bv64, k: bv7)
    requires 36 <= k < 64
    ensures Bit64(Rotl64(x, 28), k - 36) == Bit64(x, k)
  {}

  lemma Shl21Bit(x: bv64, k: bv7)
    requires k < 64
    ensures Bit64(Shl64(x, 21), k) == (k >= 21 && Bit64(x, k - 21))
  {}

  lemma XoredBit(a: bv64, b: bv64, k: bv7)
    requires k < 64
    ensures Bit64(XorWord(a, b), k) == (Bit64(a, k) != Bit64(b, k))
  {
    XoredWordBit(a, b, k);
    XorOfBits((a >> k) & 1, (b >> k) & 1);
  }

  // What the step makes of the words a and b: the new second word is their XOR
  // turned left by 28; the new first is a turned left by 49, that XOR, and that
  // XOR shifted left by 21.
  ghost predicate Stepped(a: bv64, b: bv64, s0: bv64, s1: bv64) {
    forall k: bv7 :: k < 64 ==> SteppedBit(a, b, s0, s1, k)
  }

  ghost predicate SteppedBit(a: bv64, b: bv64, s0: bv64, s1: bv64, k: bv7)
    requires k < 64
  {
    && Bit64(s1, (k + 28) & 63) == (Bit64(a, k) != Bit64(b, k))
    && Bit64(s0, k) == ((Bit64(a, (k + 15) & 63) != (Bit64(a, k) != Bit64(b, k)))
                      != (k >= 21 && (Bit64(a, k - 21) != Bit64(b, k - 21))))
  }

  lemma StepBits(a: bv64, b: bv64)
    ensures Stepped(a, b, PureS0Of128(a, b), PureS1Of128(a, b))
  {
    hide SteppedBit, PureS0Of128, PureS1Of128;
    forall k: bv7 | k < 64 ensures SteppedBit(a, b, PureS0Of128(a, b), PureS1Of128(a, b), k) { StepBit(a, b, k); }
  }

  lemma StepBit(a: bv64, b: bv64, k: bv7)
    requires k < 64
    ensures SteppedBit(a, b, PureS0Of128(a, b), PureS1Of128(a, b), k)
  {
    hide Bit64, PureS0Of128, PureS1Of128;
    FirstBit(a, b, k);
    SecondBit(a, b, k);
  }

  lemma SecondBit(a: bv64, b: bv64, k: bv7)
    requires k < 64
    ensures Bit64(PureS1Of128(a, b), (k + 28) & 63) == (Bit64(a, k) != Bit64(b, k))
  {
    hide Bit64, Rotl64, XorWord;
    XoredBit(b, a, k);
    Rotl28Turned(XorWord(b, a));
  }

  lemma FirstBit(a: bv64, b: bv64, k: bv7)
    requires k < 64
    ensures Bit64(PureS0Of128(a, b), k) == ((Bit64(a, (k + 15) & 63) != (Bit64(a, k) != Bit64(b, k)))
                        != (k >= 21 && (Bit64(a, k - 21) != Bit64(b, k - 21))))
  {
    hide Bit64, Rotl64, Shl64, XorWord, Turned;
    var z := XorWord(b, a);
    XoredBit(b, a, k);
    TurnedBack(a, Rotl64(a, 49), k);
    Shl21Bit(z, k);
    if k >= 21 { XoredBit(b, a, k - 21); }
    XoredBit(Rotl64(a, 49), z, k);
    XoredBit(XorWord(Rotl64(a, 49), z), Shl64(z, 21), k);
  }

  lemma TurnedBack(x: bv64, w: bv64, k: bv7)
    requires k < 64 && w == Rotl64(x, 49)
    ensures Bit64(w, k) == Bit64(x, (k + 15) & 63)
  {
    hide Bit64, Rotl64;
    Rotl49Turned(x);
    var j := (k + 15) & 63;
    assert j < 64 && (j + 49) & 63 == k;
  }
}
