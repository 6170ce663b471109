// The two published jump constants of xoroshiro64**, proved to be the
// powers of x they are named for by squaring x modulo the characteristic
// polynomial.
module Xoroshiro64Jumps {
  import opened LinearSystem
  import opened F2x
  import opened Powers
  import opened Xoroshiro64Map

  const JUMP64: seq<bv64> := [0x4cbf99bd77fcd1a0]
  const LONG_JUMP64: seq<bv64> := [0xb4e7e4633f1f8b95]

  function Words(r: bv64): seq<bv64> { [r] }

  // x * r + b modulo the characteristic polynomial.
  function TimesX(r: bv64, b: bv64): bv64 {
    if r & 0x8000_0000_0000_0000 != 0 then ((r << 1) ^ 0x53be9da6e2286c1) ^ b else (r << 1) ^ b
  }

  function Horner(r: bv64, c: bool, b: bv64): bv64 { TimesX(r, if c then b else 0) }

  function HornerByte(r: bv64, v: bv64, b: bv64): bv64 {
    Horner(Horner(Horner(Horner(Horner(Horner(Horner(Horner(r, v & 128 != 0, b), v & 64 != 0, b), v & 32 != 0, b),
      v & 16 != 0, b), v & 8 != 0, b), v & 4 != 0, b), v & 2 != 0, b), v & 1 != 0, b)
  }

  function HornerWord(r: bv64, w: bv64, b: bv64): bv64 {
    HornerByte(HornerByte(HornerByte(HornerByte(HornerByte(HornerByte(HornerByte(HornerByte(r, w >> 56, b), w >> 48, b),
      w >> 40, b), w >> 32, b), w >> 24, b), w >> 16, b), w >> 8, b), w, b)
  }

  function Square(a: bv64): bv64 { HornerWord(0, a, a) }

  // ---- the evaluation is the product of the quotient ring ----

  lemma TopSet(w: bv64)
    ensures HighBit(w) == if w & 0x8000_0000_0000_0000 != 0 then 1 else 0
    ensures ShlWord(w, 0) == w << 1
  {}

  // The word shifted, and charpoly added where a bit falls off.
  function Reduced(r: bv64): bv64 {
    if HighBit(r) == 1 then XorWord(ShlWord(r, 0), CHARPOLY64[0]) else ShlWord(r, 0)
  }

  lemma ReducedIs(r: bv64)
    ensures Bits([Reduced(r)]) == MulX(Bits([r]), Bits(CHARPOLY64))
  {
    hide Bits, ShlWord, HighBit, XorWord, MulX, Xor;
    BitsLength([r]);
    BitsLength(CHARPOLY64);
    var s := [ShlWord(r, 0)];
    ShiftReduces([r], s, CHARPOLY64);
    if HighBit(r) == 1 { XoredBits([Reduced(r)], s, CHARPOLY64); }
  }

  lemma XorIs(a: bv64, b: bv64)
    ensures XorWord(a, b) == a ^ b
  {}

  lemma TimesXIs(r: bv64, b: bv64)
    ensures TimesX(r, b) == XorWord(Reduced(r), b)
  {
    hide ShlWord, HighBit, XorWord;
    TopSet(r);
    if HighBit(r) == 1 { AddedTwice(r << 1, 0x53be9da6e2286c1, b); } else { XorIs(r << 1, b); }
  }

  lemma AddedTwice(a: bv64, b: bv64, c: bv64)
    ensures XorWord(XorWord(a, b), c) == (a ^ b) ^ c
  {}

  lemma XorZero(a: bv64)
    ensures XorWord(a, 0) == a
  {}

  lemma HornerIs(r: bv64, c: bool, b: bv64)
    ensures var s := MulX(Bits(Words(r)), Bits(CHARPOLY64));
            |s| == |Bits(Words(b))| && Bits(Words(Horner(r, c, b))) == if c then Xor(s, Bits(Words(b))) else s
  {
    hide Bits, XorWord, MulX, Xor, Reduced, TimesX;
    BitsLength(Words(r));
    BitsLength(Words(b));
    BitsLength(CHARPOLY64);
    ReducedIs(r);
    TimesXIs(r, if c then b else 0);
    if c {
      XoredBits(Words(Horner(r, c, b)), [Reduced(r)], Words(b));
    } else {
      XorZero(Reduced(r));
    }
  }

  // r holds the product of b with the coefficients of a from number k up.
  ghost predicate Holds(a: bv64, b: bv64, k: nat, r: bv64)
    requires k <= 64
  {
    Bits(Words(r)) == Product(Bits(CHARPOLY64), Bits(Words(a))[k..], Bits(Words(b)))
  }

  lemma OneCoefficient(a: bv64, b: bv64, k: nat, r: bv64, c: bool)
    requires k < 64 && Holds(a, b, k + 1, r) && |Bits(Words(a))| == 64 && c == Bits(Words(a))[k]
    ensures Holds(a, b, k, Horner(r, c, b))
  {
    hide Bits, Product, MulX, Xor, Horner;
    BitsLength(CHARPOLY64);
    BitsLength(Words(b));
    HornerIs(r, c, b);
    HornerStep(Bits(CHARPOLY64), Bits(Words(a)), Bits(Words(b)), k, Bits(Words(r)));
  }

  lemma ByteStep(a: bv64, b: bv64, j: nat, i: nat, k: nat, r: bv64, v: bv64)
    requires j < 1 && i <= 56 && k == 64 * j + i && HasByte(Words(a)[j], i, v) && Holds(a, b, k + 8, r)
    ensures Holds(a, b, k, HornerByte(r, v, b))
  {
    hide Holds, Horner, Bits, HasByte;
    BitsLength(Words(a));
    ByteCoefficients(Words(a), j, i, v);
    EightCoefficients(a, b, k, r, v & 1 != 0, v & 2 != 0, v & 4 != 0, v & 8 != 0,
      v & 16 != 0, v & 32 != 0, v & 64 != 0, v & 128 != 0);
  }

  lemma EightCoefficients(a: bv64, b: bv64, k: nat, r: bv64,
                          b0: bool, b1: bool, b2: bool, b3: bool, b4: bool, b5: bool, b6: bool, b7: bool)
    requires k + 8 <= 64 && Holds(a, b, k + 8, r) && |Bits(Words(a))| == 64
    requires var p := Bits(Words(a));
             && p[k] == b0 && p[k + 1] == b1 && p[k + 2] == b2 && p[k + 3] == b3
             && p[k + 4] == b4 && p[k + 5] == b5 && p[k + 6] == b6 && p[k + 7] == b7
    ensures Holds(a, b, k, Horner(Horner(Horner(Horner(Horner(Horner(Horner(Horner(r,
              b7, b), b6, b), b5, b), b4, b), b3, b), b2, b), b1, b), b0, b))
  {
    hide Holds, Horner, Bits;
    var r7 := Horner(r, b7, b);
    var r6 := Horner(r7, b6, b);
    var r5 := Horner(r6, b5, b);
    var r4 := Horner(r5, b4, b);
    var r3 := Horner(r4, b3, b);
    var r2 := Horner(r3, b2, b);
    var r1 := Horner(r2, b1, b);
    OneCoefficient(a, b, k + 7, r, b7);
    OneCoefficient(a, b, k + 6, r7, b6);
    OneCoefficient(a, b, k + 5, r6, b5);
    OneCoefficient(a, b, k + 4, r5, b4);
    OneCoefficient(a, b, k + 3, r4, b3);
    OneCoefficient(a, b, k + 2, r3, b2);
    OneCoefficient(a, b, k + 1, r2, b1);
    OneCoefficient(a, b, k, r1, b0);
  }

  lemma WordStep(a: bv64, b: bv64, j: nat, r: bv64)
    requires j < 1 && Holds(a, b, 64 * j + 64, r)
    ensures Holds(a, b, 64 * j, HornerWord(r, Words(a)[j], b))
  {
    hide Holds, HornerByte, HornerWord, HasByte, Words, Above;
    WordsLength(a);
    var w := Words(a)[j];
    HornerWordIs(r, w, b);
    BytesOfWord(w);
    var v7, v6, v5, v4 := Above(w, 56), Above(w, 48), Above(w, 40), Above(w, 32);
    UpperBytes(a, b, j, r, v7, v6, v5, v4);
    var upper := HornerByte(HornerByte(HornerByte(HornerByte(r, v7, b), v6, b), v5, b), v4, b);
    LowerBytes(a, b, j, upper, Above(w, 24), Above(w, 16), Above(w, 8), w);
  }

  lemma HornerWordIs(r: bv64, w: bv64, b: bv64)
    ensures HornerWord(r, w, b) ==
            HornerByte(HornerByte(HornerByte(HornerByte(HornerByte(HornerByte(HornerByte(HornerByte(r,
              Above(w, 56), b), Above(w, 48), b), Above(w, 40), b), Above(w, 32), b),
              Above(w, 24), b), Above(w, 16), b), Above(w, 8), b), w, b)
  {
    AboveIs(w);
    hide HornerByte, Above;
  }

  lemma WordsLength(a: bv64)
    ensures |Words(a)| == 1
  {}

  lemma UpperBytes(a: bv64, b: bv64, j: nat, r: bv64, v7: bv64, v6: bv64, v5: bv64, v4: bv64)
    requires j < 1 && Holds(a, b, 64 * j + 64, r)
    requires var w := Words(a)[j]; HasByte(w, 56, v7) && HasByte(w, 48, v6) && HasByte(w, 40, v5) && HasByte(w, 32, v4)
    ensures Holds(a, b, 64 * j + 32, HornerByte(HornerByte(HornerByte(HornerByte(r, v7, b), v6, b), v5, b), v4, b))
  {
    hide Holds, HornerByte, HasByte;
    var k := 64 * j;
    ByteStep(a, b, j, 56, k + 56, r, v7);
    var r7 := HornerByte(r, v7, b);
    ByteStep(a, b, j, 48, k + 48, r7, v6);
    var r6 := HornerByte(r7, v6, b);
    ByteStep(a, b, j, 40, k + 40, r6, v5);
    ByteStep(a, b, j, 32, k + 32, HornerByte(r6, v5, b), v4);
  }

  lemma LowerBytes(a: bv64, b: bv64, j: nat, r: bv64, v3: bv64, v2: bv64, v1: bv64, v0: bv64)
    requires j < 1 && Holds(a, b, 64 * j + 32, r)
    requires var w := Words(a)[j]; HasByte(w, 24, v3) && HasByte(w, 16, v2) && HasByte(w, 8, v1) && HasByte(w, 0, v0)
    ensures Holds(a, b, 64 * j, HornerByte(HornerByte(HornerByte(HornerByte(r, v3, b), v2, b), v1, b), v0, b))
  {
    hide Holds, HornerByte, HasByte;
    var k := 64 * j;
    ByteStep(a, b, j, 24, k + 24, r, v3);
    var r3 := HornerByte(r, v3, b);
    ByteStep(a, b, j, 16, k + 16, r3, v2);
    var r2 := HornerByte(r3, v2, b);
    ByteStep(a, b, j, 8, k + 8, r2, v1);
    ByteStep(a, b, j, 0, k, HornerByte(r2, v1, b), v0);
  }

  lemma SquareIs(a: bv64)
    ensures Bits(Words(Square(a))) == Product(Bits(CHARPOLY64), Bits(Words(a)), Bits(Words(a)))
  {
    hide HornerWord, Bits, Product;
    BitsLength(Words(a));
    BitsLength(CHARPOLY64);
    ZeroHolds(a);
    WordStep(a, a, 0, 0);
    assert Bits(Words(a))[0..] == Bits(Words(a));
  }

  lemma ZeroHolds(a: bv64)
    ensures Holds(a, a, 64, 0)
  {
    hide Product;
    BitsLength(CHARPOLY64);
    ZeroBits(Words(0));
    assert Bits(Words(a))[64..] == [];
    ProductEmpty(Bits(CHARPOLY64), Bits(Words(a)));
  }

  // ---- from x by repeated squaring ----

  ghost predicate IsPower(a: bv64, n: nat) { Bits(Words(a)) == XPow(Bits(CHARPOLY64), Pow(2, n)) }

  lemma Squared(n: nat, a: bv64, b: bv64)
    requires IsPower(a, n) && Square(a) == b
    ensures IsPower(b, n + 1)
  {
    hide Square, Bits, Product, XPow, Pow;
    BitsLength(CHARPOLY64);
    SquareIs(a);
    PowStep(2, n + 1);
    ProductXPow(Bits(CHARPOLY64), Pow(2, n), Pow(2, n));
  }

  lemma StartsAtX()
    ensures IsPower(X0, 0)
  {
    PowZero(2);
    XPowSmall(Bits(CHARPOLY64), 1);
    forall k | 0 <= k < 64 ensures Bits(Words(X0))[k] == Unit(64, 1)[k] { BitsOfX(k); }
  }

  lemma BitsOfX(k: nat)
    requires k < 64
    ensures Bits(Words(X0))[k] == (k == 1)
  {
    hide BitAt;
    BitsOfTwo(k);
  }

  lemma BitsOfTwo(k: nat)
    requires k < 64
    ensures BitAt(2, k) == (k == 1)
  {
    hide BitAt, ShlWord;
    TwoShifted();
    BitShl(1, 0, k);
    if k > 0 { OneWordBit(k - 1); }
  }

  lemma TwoShifted()
    ensures ShlWord(1, 0) == 2
  {}

  // x^(2^k).
  const X0: bv64 := 0x2
  const X1: bv64 := 0x4
  const X2: bv64 := 0x10
  const X3: bv64 := 0x100
  const X4: bv64 := 0x10000
  const X5: bv64 := 0x100000000
  const X6: bv64 := 0x53be9da6e2286c1
  const X7: bv64 := 0x1c1e257f9f4b5e42
  const X8: bv64 := 0x474c4fcfb39e8e75
  const X9: bv64 := 0x6c38f80ad0b0636b
  const X10: bv64 := 0x9e78e24a0f228c4b
  const X11: bv64 := 0x58abf0ac90630206
  const X12: bv64 := 0xba589b40e2fd372d
  const X13: bv64 := 0x1aa3a7f0ead13668
  const X14: bv64 := 0xe3d6035970fe0246
  const X15: bv64 := 0x87b9ccb6ecfac114
  const X16: bv64 := 0xa127f28617706880
  const X17: bv64 := 0xc26b278233d1dac
  const X18: bv64 := 0x5c2658ee1bf251a
  const X19: bv64 := 0xf656ba950d5e0e74
  const X20: bv64 := 0xb5213f45867d08fc
  const X21: bv64 := 0x2aa4a727f125f097
  const X22: bv64 := 0xbe6f416b13be424c
  const X23: bv64 := 0x253fcbcd9ef09856
  const X24: bv64 := 0x403bdc46b3618ba0
  const X25: bv64 := 0x3036531b1257177c
  const X26: bv64 := 0x35111d8ee06f5987
  const X27: bv64 := 0x181003927035d7fc
  const X28: bv64 := 0x17b798a629b42703
  const X29: bv64 := 0x20effc1d3e3d77ac
  const X30: bv64 := 0x7c1428ba1e79b8e7
  const X31: bv64 := 0xe50d2c852eff1df0
  const X32: bv64 := 0x4cbf99bd77fcd1a0
  const X33: bv64 := 0xda18cd0d23f174df
  const X34: bv64 := 0x141b0d35c58902e8
  const X35: bv64 := 0xfdb1705eeb3f61b4
  const X36: bv64 := 0x521c4c9f418d6ef9
  const X37: bv64 := 0x58eb535a01df4db0
  const X38: bv64 := 0x93e346e564a136f4
  const X39: bv64 := 0xc3d0248a05bd183f
  const X40: bv64 := 0x6b41272db576f390
  const X41: bv64 := 0xafcc97c0d7486f19
  const X42: bv64 := 0x46a1ee3f3dff8fc7
  const X43: bv64 := 0xa8ed922c4d736223
  const X44: bv64 := 0x7e1ee1296c705b6a
  const X45: bv64 := 0x1740cfc7dc53d402
  const X46: bv64 := 0x28715ef4f403c897
  const X47: bv64 := 0xb9121635757ddee2
  const X48: bv64 := 0xb4e7e4633f1f8b95

  // Each the square of the one before, one evaluation each.
  lemma Squares0()
    ensures Square(X0) == X1 && Square(X1) == X2 && Square(X2) == X3 && Square(X3) == X4
    ensures Square(X4) == X5 && Square(X5) == X6 && Square(X6) == X7 && Square(X7) == X8
  {}

  lemma Squares8()
    ensures Square(X8) == X9 && Square(X9) == X10 && Square(X10) == X11 && Square(X11) == X12
    ensures Square(X12) == X13 && Square(X13) == X14 && Square(X14) == X15 && Square(X15) == X16
  {}

  lemma Squares16()
    ensures Square(X16) == X17 && Square(X17) == X18 && Square(X18) == X19 && Square(X19) == X20
    ensures Square(X20) == X21 && Square(X21) == X22 && Square(X22) == X23 && Square(X23) == X24
  {}

  lemma Squares24()
    ensures Square(X24) == X25 && Square(X25) == X26 && Square(X26) == X27 && Square(X27) == X28
    ensures Square(X28) == X29 && Square(X29) == X30 && Square(X30) == X31 && Square(X31) == X32
  {}

  lemma Squares32()
    ensures Square(X32) == X33 && Square(X33) == X34 && Square(X34) == X35 && Square(X35) == X36
    ensures Square(X36) == X37 && Square(X37) == X38 && Square(X38) == X39 && Square(X39) == X40
  {}

  lemma Squares40()
    ensures Square(X40) == X41 && Square(X41) == X42 && Square(X42) == X43 && Square(X43) == X44
    ensures Square(X44) == X45 && Square(X45) == X46 && Square(X46) == X47 && Square(X47) == X48
  {}

  lemma Powers0()
    requires IsPower(X0, 0)
    ensures IsPower(X8, 8)
  {
    hide Square, IsPower;
    Squares0();
    Squared(0, X0, X1);
    Squared(1, X1, X2);
    Squared(2, X2, X3);
    Squared(3, X3, X4);
    Squared(4, X4, X5);
    Squared(5, X5, X6);
    Squared(6, X6, X7);
    Squared(7, X7, X8);
  }

  lemma Powers1()
    requires IsPower(X8, 8)
    ensures IsPower(X16, 16)
  {
    hide Square, IsPower;
    Squares8();
    Squared(8, X8, X9);
    Squared(9, X9, X10);
    Squared(10, X10, X11);
    Squared(11, X11, X12);
    Squared(12, X12, X13);
    Squared(13, X13, X14);
    Squared(14, X14, X15);
    Squared(15, X15, X16);
  }

  lemma Powers2()
    requires IsPower(X16, 16)
    ensures IsPower(X24, 24)
  {
    hide Square, IsPower;
    Squares16();
    Squared(16, X16, X17);
    Squared(17, X17, X18);
    Squared(18, X18, X19);
    Squared(19, X19, X20);
    Squared(20, X20, X21);
    Squared(21, X21, X22);
    Squared(22, X22, X23);
    Squared(23, X23, X24);
  }

  lemma Powers3()
    requires IsPower(X24, 24)
    ensures IsPower(X32, 32)
  {
    hide Square, IsPower;
    Squares24();
    Squared(24, X24, X25);
    Squared(25, X25, X26);
    Squared(26, X26, X27);
    Squared(27, X27, X28);
    Squared(28, X28, X29);
    Squared(29, X29, X30);
    Squared(30, X30, X31);
    Squared(31, X31, X32);
  }

  lemma Powers4()
    requires IsPower(X32, 32)
    ensures IsPower(X40, 40)
  {
    hide Square, IsPower;
    Squares32();
    Squared(32, X32, X33);
    Squared(33, X33, X34);
    Squared(34, X34, X35);
    Squared(35, X35, X36);
    Squared(36, X36, X37);
    Squared(37, X37, X38);
    Squared(38, X38, X39);
    Squared(39, X39, X40);
  }

  lemma Powers5()
    requires IsPower(X40, 40)
    ensures IsPower(X48, 48)
  {
    hide Square, IsPower;
    Squares40();
    Squared(40, X40, X41);
    Squared(41, X41, X42);
    Squared(42, X42, X43);
    Squared(43, X43, X44);
    Squared(44, X44, X45);
    Squared(45, X45, X46);
    Squared(46, X46, X47);
    Squared(47, X47, X48);
  }

  // The constants are x^(2^32) and x^(2^48).
  lemma JumpConstants()
    ensures Bits(JUMP64) == XPow(Bits(CHARPOLY64), Pow(2, 32))
    ensures Bits(LONG_JUMP64) == XPow(Bits(CHARPOLY64), Pow(2, 48))
  {
    hide IsPower;
    StartsAtX();
    Powers0();
    Powers1();
    Powers2();
    Powers3();
    PowerIs(X32, 32, JUMP64);
    Powers4();
    Powers5();
    PowerIs(X48, 48, LONG_JUMP64);
  }

  lemma PowerIs(a: bv64, n: nat, ws: seq<bv64>)
    requires IsPower(a, n) && Words(a) == ws
    ensures Bits(ws) == XPow(Bits(CHARPOLY64), Pow(2, n))
  {}
}
