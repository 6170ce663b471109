// xoroshiro64** as an object whose state words change in place, and the
// theorem that an arbitrary jump is that many calls of Next.
module Xoroshiro64StarStar {
  import opened LinearSystem
  import opened F2x
  import opened Powers
  import opened Xoroshiro64Map
  import opened Xoroshiro64Jumps

  // Product modulo 2^32.
  function MulWord(a: bv32, b: bv32): bv32 { a * b }

  // The output reads only the first word.
  function PureOut64(s0: bv32, s1: bv32): bv32 { MulWord(Rotl32(MulWord(s0, 0x9E3779BB), 5), 5) }

  // Five times what the first word times the multiplier is, turned left by 5.
  ghost predicate Output(a: bv32, multiplier: bv32, r: bv32) { Scrambled(a * multiplier, r) }
  ghost predicate Scrambled(t: bv32, r: bv32) { exists w: bv32 :: Turned(t, w, 5) && r == w * 5 }

  class Xoroshiro64 {
    var s0: bv32
    var s1: bv32

    function State(): State64
      reads this
    {
      State64(s0, s1)
    }

    constructor (seed0: bv32, seed1: bv32)
      ensures State() == State64(seed0, seed1)
    {
      s0, s1 := seed0, seed1;
    }

    // The stepping form agrees with the three pure expressions, and those with
    // what they do to the bits.
    method Next() returns (result: bv32)
      modifies this
      ensures State() == Step64(old(State()))
      ensures result == PureOut64(old(s0), old(s1))
      ensures Output(old(s0), 0x9E3779BB, result) && Stepped(old(s0), old(s1), s0, s1)
    {
      hide Rotl32, Xor32, Shl32, MulWord, Output, Stepped, PureOut64, PureS0Of64, PureS1Of64;
      var a := s0;
      var b := s1;
      result := MulWord(Rotl32(MulWord(a, 0x9E3779BB), 5), 5);
      b := Xor32(b, a);
      s0 := Xor32(Xor32(Rotl32(a, 26), b), Shl32(b, 9));
      s1 := Rotl32(b, 13);
      NextIs(old(s0), old(s1));
      OutputBits(old(s0), old(s1));
      StepBits(old(s0), old(s1));
    }

    // Accumulate and step: the polynomial in the words applied to the state.
    method JumpApply(poly: seq<bv64>)
      modifies this
      ensures State() == Act(System64, Bits(poly), old(State()))
    {
      hide Linear, Closed, Group, Act, Iter, Bits, BitAt, Xor32, Step64, PureOut64;
      Linear64();
      BitsLength(poly);
      ghost var was := State();
      ghost var p := Bits(poly);
      var a0: bv32, a1: bv32 := 0, 0;
      assert p[..0] == [];
      StartsAtZero(was);
      var k := 0;
      while k < 64 * |poly|
        invariant 0 <= k <= 64 * |poly|
        invariant State() == Iter(System64, k, was)
        invariant State64(a0, a1) == Act(System64, p[..k], was)
      {
        BitsAt(poly, k);
        assert p[..k + 1] == p[..k] + [p[k]];
        AccumulateStep(p[..k], p[k], was, State64(a0, a1), State());
        if BitAt(poly[k / 64], k % 64) {
          a0 := Xor32(a0, s0);
          a1 := Xor32(a1, s1);
        }
        var _ := Next();
        IterLast(System64, k, was);
        k := k + 1;
      }
      assert p[..k] == p;
      s0 := a0;
      s1 := a1;
    }

    // jump: the published constant is 2^32 calls of Next.
    method Jump()
      modifies this
      ensures State() == Iter(System64, Pow(2, 32), old(State()))
    {
      hide *;
      JumpApply(JUMP64);
      JumpConstants();
      JumpIsIter64(old(State()), Pow(2, 32), Bits(JUMP64));
    }

    // long_jump: 2^48 of them.
    method LongJump()
      modifies this
      ensures State() == Iter(System64, Pow(2, 48), old(State()))
    {
      hide *;
      JumpApply(LONG_JUMP64);
      JumpConstants();
      JumpIsIter64(old(State()), Pow(2, 48), Bits(LONG_JUMP64));
    }

    // jump_n: n calls of Next, for every n the word holds.
    method JumpN(n: Word)
      modifies this
      ensures State() == Iter(System64, n, old(State()))
    {
      hide *;
      CharpolyWords64();
      var poly := new bv64[1];
      JumpPolyN([n], poly, CHARPOLY64);
      JumpApply(poly[..]);
      NumberOfOne(n);
      JumpIsIter64(old(State()), n, Bits(poly[..]));
    }

    // jump_ce: c * 2^e calls of Next.
    method JumpCe(c: Word, e: nat)
      modifies this
      ensures State() == Iter(System64, c * Pow(2, e), old(State()))
    {
      hide *;
      CharpolyWords64();
      var poly := new bv64[1];
      JumpPolyCe(c, e, poly, CHARPOLY64);
      JumpApply(poly[..]);
      JumpIsIter64(old(State()), c * Pow(2, e), Bits(poly[..]));
    }
  }

  lemma OutputBits(a: bv32, b: bv32)
    ensures Output(a, 0x9E3779BB, PureOut64(a, b))
  {
    NextIs(a, b);
    hide Rotl32, MulWord, Output, PureOut64;
    OutputWith(a, 0x9E3779BB);
  }

  lemma OutputWith(a: bv32, k: bv32)
    ensures Output(a, k, MulWord(Rotl32(MulWord(a, k), 5), 5))
  {
    hide Rotl32, MulWord, Scrambled, Turned;
    MulWordIs(a, k);
    Rotl5Turned(MulWord(a, k));
    OutputBy(MulWord(a, k), Rotl32(MulWord(a, k), 5));
  }

  lemma OutputBy(t: bv32, w: bv32)
    requires Turned(t, w, 5)
    ensures Scrambled(t, MulWord(w, 5))
  {
    hide Turned;
  }

  lemma MulWordIs(a: bv32, b: bv32)
    ensures MulWord(a, b) == a * b
  {}

  lemma NextIs(a: bv32, b: bv32)
    ensures PureOut64(a, b) == MulWord(Rotl32(MulWord(a, 0x9E3779BB), 5), 5)
    ensures PureS0Of64(a, b) == Xor32(Xor32(Rotl32(a, 26), Xor32(b, a)), Shl32(Xor32(b, a), 9))
    ensures PureS1Of64(a, b) == Rotl32(Xor32(b, a), 13)
  {
    hide Rotl32, Xor32, Shl32, MulWord;
  }

  lemma StartsAtZero(s: State64)
    ensures Act(System64, [], s) == State64(0, 0) && Iter(System64, 0, s) == s
  {}

  // The running sum takes in one more coefficient.
  lemma AccumulateStep(p: Poly, bit: bool, was: State64, acc: State64, now: State64)
    requires Linear(System64) && acc == Act(System64, p, was) && now == Iter(System64, |p|, was)
    ensures Act(System64, p + [bit], was) ==
            if bit then State64(Xor32(acc.s0, now.s0), Xor32(acc.s1, now.s1)) else acc
  {
    hide Linear, Act, Iter, Xor32;
    ActSnoc(System64, p, bit, was);
    HasAct(System64, p, was);
    AddZero(System64, acc);
  }

  lemma JumpIsIter64(s: State64, n: nat, p: Poly)
    requires p == XPow(Bits(CHARPOLY64), n)
    ensures Act(System64, p, s) == Iter(System64, n, s)
  {
    CharpolyWords64();
    BitsLength(CHARPOLY64);
    hide *;
    Satisfied();
    Linear64();
    HasAll64(s);
    ActXPow(System64, Bits(CHARPOLY64), n, s);
  }
}
