// xoroshiro128++ as an object whose state words change in place, and the
// theorem that an arbitrary jump is that many calls of Next.
module Xoroshiro128PlusPlus {
  import opened LinearSystem
  import opened F2x
  import opened Powers
  import opened Xoroshiro128Map
  import opened Xoroshiro128Jumps

  // Sum modulo 2^64.
  function AddWord(a: bv64, b: bv64): bv64 { a + b }

  function PureOut128(s0: bv64, s1: bv64): bv64 { AddWord(Rotl64(AddWord(s0, s1), 17), s0) }

  // The sum of the words turned left by 17, plus the first.
  ghost predicate Output(a: bv64, b: bv64, r: bv64) { Scrambled(a + b, a, r) }
  ghost predicate Scrambled(t: bv64, a: bv64, r: bv64) { exists w: bv64 :: Turned(t, w, 17) && r == w + a }

  class Xoroshiro128 {
    var s0: bv64
    var s1: bv64

    function State(): State128
      reads this
    {
      State128(s0, s1)
    }

    constructor (seed0: bv64, seed1: bv64)
      ensures State() == State128(seed0, seed1)
    {
      s0, s1 := seed0, seed1;
    }

    // The stepping form agrees with the three pure expressions, and those with
    // what they do to the bits.
    method Next() returns (result: bv64)
      modifies this
      ensures State() == Step128(old(State()))
      ensures result == PureOut128(old(s0), old(s1))
      ensures Output(old(s0), old(s1), result) && Stepped(old(s0), old(s1), s0, s1)
    {
      hide Rotl64, XorWord, Shl64, AddWord, Output, Stepped, PureOut128, PureS0Of128, PureS1Of128;
      var a := s0;
      var b := s1;
      result := AddWord(Rotl64(AddWord(a, b), 17), a);
      b := XorWord(b, a);
      s0 := XorWord(XorWord(Rotl64(a, 49), b), Shl64(b, 21));
      s1 := Rotl64(b, 28);
      NextIs(old(s0), old(s1));
      OutputBits(old(s0), old(s1));
      StepBits(old(s0), old(s1));
    }

    // Accumulate and step: the polynomial in the words applied to the state.
    method JumpApply(poly: seq<bv64>)
      modifies this
      ensures State() == Act(System128, Bits(poly), old(State()))
    {
      hide Linear, Closed, Group, Act, Iter, Bits, BitAt, XorWord, Step128, PureOut128;
      Linear128();
      BitsLength(poly);
      ghost var was := State();
      ghost var p := Bits(poly);
      var a0: bv64, a1: bv64 := 0, 0;
      assert p[..0] == [];
      StartsAtZero(was);
      var k := 0;
      while k < 64 * |poly|
        invariant 0 <= k <= 64 * |poly|
        invariant State() == Iter(System128, k, was)
        invariant State128(a0, a1) == Act(System128, p[..k], was)
      {
        BitsAt(poly, k);
        assert p[..k + 1] == p[..k] + [p[k]];
        AccumulateStep(p[..k], p[k], was, State128(a0, a1), State());
        if BitAt(poly[k / 64], k % 64) {
          a0 := XorWord(a0, s0);
          a1 := XorWord(a1, s1);
        }
        var _ := Next();
        IterLast(System128, k, was);
        k := k + 1;
      }
      assert p[..k] == p;
      s0 := a0;
      s1 := a1;
    }

    // jump: the published constant is 2^64 calls of Next.
    method Jump()
      modifies this
      ensures State() == Iter(System128, Pow(2, 64), old(State()))
    {
      hide *;
      JumpApply(JUMP128);
      JumpConstants();
      JumpIsIter128(old(State()), Pow(2, 64), Bits(JUMP128));
    }

    // long_jump: 2^96 of them.
    method LongJump()
      modifies this
      ensures State() == Iter(System128, Pow(2, 96), old(State()))
    {
      hide *;
      JumpApply(LONG_JUMP128);
      JumpConstants();
      JumpIsIter128(old(State()), Pow(2, 96), Bits(LONG_JUMP128));
    }

    // jump_n: n calls of Next, for every n the two words hold.
    method JumpN(n0: Word, n1: Word)
      modifies this
      ensures State() == Iter(System128, n0 + Pow(2, 64) * n1, old(State()))
    {
      hide *;
      CharpolyWords128();
      var poly := new bv64[2];
      JumpPolyN([n0, n1], poly, CHARPOLY128);
      JumpApply(poly[..]);
      NumberOfTwo(n0, n1);
      JumpIsIter128(old(State()), n0 + Pow(2, 64) * n1, Bits(poly[..]));
    }

    // jump_ce: c * 2^e calls of Next.
    method JumpCe(c: Word, e: nat)
      modifies this
      ensures State() == Iter(System128, c * Pow(2, e), old(State()))
    {
      hide *;
      CharpolyWords128();
      var poly := new bv64[2];
      JumpPolyCe(c, e, poly, CHARPOLY128);
      JumpApply(poly[..]);
      JumpIsIter128(old(State()), c * Pow(2, e), Bits(poly[..]));
    }
  }

  lemma OutputBits(a: bv64, b: bv64)
    ensures Output(a, b, PureOut128(a, b))
  {
    hide Rotl64, AddWord, Scrambled, Turned;
    AddWordIs(a, b);
    Rotl17Turned(AddWord(a, b));
    OutputBy(AddWord(a, b), a, Rotl64(AddWord(a, b), 17));
  }

  lemma OutputBy(t: bv64, a: bv64, w: bv64)
    requires Turned(t, w, 17)
    ensures Scrambled(t, a, AddWord(w, a))
  {
    hide Turned;
  }

  lemma AddWordIs(a: bv64, b: bv64)
    ensures AddWord(a, b) == a + b
  {}

  lemma NextIs(a: bv64, b: bv64)
    ensures PureOut128(a, b) == AddWord(Rotl64(AddWord(a, b), 17), a)
    ensures PureS0Of128(a, b) == XorWord(XorWord(Rotl64(a, 49), XorWord(b, a)), Shl64(XorWord(b, a), 21))
    ensures PureS1Of128(a, b) == Rotl64(XorWord(b, a), 28)
  {
    hide Rotl64, XorWord, Shl64, AddWord;
  }

  lemma StartsAtZero(s: State128)
    ensures Act(System128, [], s) == State128(0, 0) && Iter(System128, 0, s) == s
  {}

  // The running sum takes in one more coefficient.
  lemma AccumulateStep(p: Poly, bit: bool, was: State128, acc: State128, now: State128)
    requires Linear(System128) && acc == Act(System128, p, was) && now == Iter(System128, |p|, was)
    ensures Act(System128, p + [bit], was) ==
            if bit then State128(XorWord(acc.s0, now.s0), XorWord(acc.s1, now.s1)) else acc
  {
    hide Linear, Act, Iter, XorWord;
    ActSnoc(System128, p, bit, was);
    HasAct(System128, p, was);
    AddZero(System128, acc);
  }

  lemma JumpIsIter128(s: State128, n: nat, p: Poly)
    requires p == XPow(Bits(CHARPOLY128), n)
    ensures Act(System128, p, s) == Iter(System128, n, s)
  {
    CharpolyWords128();
    BitsLength(CHARPOLY128);
    hide *;
    Satisfied();
    Linear128();
    HasAll128(s);
    ActXPow(System128, Bits(CHARPOLY128), n, s);
  }
}
