// The two published jump constants of xoroshiro128++, proved to be the
// powers of x they are named for by squaring x modulo the characteristic
// polynomial.
module Xoroshiro128Jumps {
  import opened LinearSystem
  import opened F2x
  import opened Powers
  import opened Xoroshiro128Map

  const JUMP128: seq<bv64> := [0x2bd7a6a6e99c2ddc, 0x0992ccaf6a6fca05]
  const LONG_JUMP128: seq<bv64> := [0x360fd5f2cf8d5d99, 0x9c6e6877736c46e3]

  // A polynomial of two words.
  datatype Pair = Pair(lo: bv64, hi: bv64)

  function Words(r: Pair): seq<bv64> { [r.lo, r.hi] }

  // x * r + (b0, b1) modulo the characteristic polynomial.
  function TimesX(r: Pair, b0: bv64, b1: bv64): Pair {
    if r.hi & 0x8000_0000_0000_0000 != 0
    then Pair(((r.lo << 1) ^ 0x8dae70779760b081) ^ b0, (((r.hi << 1) | (r.lo >> 63)) ^ 0x31bcf2f855d6e5) ^ b1)
    else Pair((r.lo << 1) ^ b0, ((r.hi << 1) | (r.lo >> 63)) ^ b1)
  }

  function Horner(r: Pair, c: bool, b: Pair): Pair { TimesX(r, if c then b.lo else 0, if c then b.hi else 0) }

  function HornerByte(r: Pair, v: bv64, b: Pair): Pair {
    Horner(Horner(Horner(Horner(Horner(Horner(Horner(Horner(r, v & 128 != 0, b), v & 64 != 0, b), v & 32 != 0, b),
      v & 16 != 0, b), v & 8 != 0, b), v & 4 != 0, b), v & 2 != 0, b), v & 1 != 0, b)
  }

  function HornerWord(r: Pair, w: bv64, b: Pair): Pair {
    HornerByte(HornerByte(HornerByte(HornerByte(HornerByte(HornerByte(HornerByte(HornerByte(r, w >> 56, b), w >> 48, b),
      w >> 40, b), w >> 32, b), w >> 24, b), w >> 16, b), w >> 8, b), w, b)
  }

  function Square(a: Pair): Pair { HornerWord(HornerWord(Pair(0, 0), a.hi, a), a.lo, a) }

  // ---- the evaluation is the product of the quotient ring ----

  lemma TopSet(w: bv64)
    ensures HighBit(w) == if w & 0x8000_0000_0000_0000 != 0 then 1 else 0
  {}

  lemma ShiftedWords(lo: bv64, hi: bv64)
    ensures ShlWord(lo, 0) == lo << 1 && ShlWord(hi, HighBit(lo)) == (hi << 1) | (lo >> 63)
  {}

  // The words shifted, and charpoly added where a bit falls off.
  function Reduced(r: Pair): seq<bv64> {
    var s0, s1 := ShlWord(r.lo, 0), ShlWord(r.hi, HighBit(r.lo));
    if HighBit(r.hi) == 1 then [XorWord(s0, CHARPOLY128[0]), XorWord(s1, CHARPOLY128[1])] else [s0, s1]
  }

  lemma ReducedIs(r: Pair)
    ensures Bits(Reduced(r)) == MulX(Bits(Words(r)), Bits(CHARPOLY128))
  {
    hide Bits, ShlWord, HighBit, XorWord, MulX, Xor;
    BitsLength(Words(r));
    BitsLength(CHARPOLY128);
    var s := [ShlWord(r.lo, 0), ShlWord(r.hi, HighBit(r.lo))];
    ShiftReduces(Words(r), s, CHARPOLY128);
    if HighBit(r.hi) == 1 { XoredBits(Reduced(r), s, CHARPOLY128); }
  }

  lemma TopFirst(r: Pair, b0: bv64, b1: bv64)
    requires r.hi & 0x8000_0000_0000_0000 != 0
    ensures TimesX(r, b0, b1).lo == XorWord(XorWord(r.lo << 1, 0x8dae70779760b081), b0)
  {
    hide XorWord;
    AddedTwice(r.lo << 1, 0x8dae70779760b081, b0);
  }

  lemma TopSecond(r: Pair, b0: bv64, b1: bv64)
    requires r.hi & 0x8000_0000_0000_0000 != 0
    ensures TimesX(r, b0, b1).hi == XorWord(XorWord((r.hi << 1) | (r.lo >> 63), 0x31bcf2f855d6e5), b1)
  {
    hide XorWord;
    AddedTwice((r.hi << 1) | (r.lo >> 63), 0x31bcf2f855d6e5, b1);
  }

  lemma AddedTwice(a: bv64, b: bv64, c: bv64)
    ensures XorWord(XorWord(a, b), c) == (a ^ b) ^ c
  {}

  lemma NoTop(r: Pair, b0: bv64, b1: bv64)
    requires r.hi & 0x8000_0000_0000_0000 == 0
    ensures TimesX(r, b0, b1) == Pair(XorWord(r.lo << 1, b0), XorWord((r.hi << 1) | (r.lo >> 63), b1))
  {}

  lemma TimesXIs(r: Pair, b0: bv64, b1: bv64)
    ensures var s := Reduced(r); Words(TimesX(r, b0, b1)) == [XorWord(s[0], b0), XorWord(s[1], b1)]
  {
    hide ShlWord, HighBit, XorWord, TimesX;
    TopSet(r.hi);
    ShiftedWords(r.lo, r.hi);
    if HighBit(r.hi) == 1 {
      TopFirst(r, b0, b1);
      TopSecond(r, b0, b1);
    } else {
      NoTop(r, b0, b1);
    }
  }

  lemma XorZero(a: bv64)
    ensures XorWord(a, 0) == a
  {}

  lemma HornerIs(r: Pair, c: bool, b: Pair)
    ensures var s := MulX(Bits(Words(r)), Bits(CHARPOLY128));
            |s| == |Bits(Words(b))| && Bits(Words(Horner(r, c, b))) == if c then Xor(s, Bits(Words(b))) else s
  {
    hide Bits, XorWord, MulX, Xor, Reduced, TimesX;
    BitsLength(Words(r));
    BitsLength(Words(b));
    BitsLength(CHARPOLY128);
    ReducedIs(r);
    ReducedLength(r);
    var s := Reduced(r);
    TimesXIs(r, if c then b.lo else 0, if c then b.hi else 0);
    if c {
      XoredBits(Words(Horner(r, c, b)), s, Words(b));
    } else {
      XorZero(s[0]);
      XorZero(s[1]);
      assert Words(Horner(r, c, b)) == s;
    }
  }

  lemma ReducedLength(r: Pair)
    ensures |Reduced(r)| == 2
  {}

  // r holds the product of b with the coefficients of a from number k up.
  ghost predicate Holds(a: Pair, b: Pair, k: nat, r: Pair)
    requires k <= 128
  {
    Bits(Words(r)) == Product(Bits(CHARPOLY128), Bits(Words(a))[k..], Bits(Words(b)))
  }

  lemma OneCoefficient(a: Pair, b: Pair, k: nat, r: Pair, c: bool)
    requires k < 128 && Holds(a, b, k + 1, r) && |Bits(Words(a))| == 128 && c == Bits(Words(a))[k]
    ensures Holds(a, b, k, Horner(r, c, b))
  {
    hide Bits, Product, MulX, Xor, Horner;
    BitsLength(CHARPOLY128);
    BitsLength(Words(b));
    HornerIs(r, c, b);
    HornerStep(Bits(CHARPOLY128), Bits(Words(a)), Bits(Words(b)), k, Bits(Words(r)));
  }

  lemma ByteStep(a: Pair, b: Pair, j: nat, i: nat, k: nat, r: Pair, v: bv64)
    requires j < 2 && i <= 56 && k == 64 * j + i && HasByte(Words(a)[j], i, v) && Holds(a, b, k + 8, r)
    ensures Holds(a, b, k, HornerByte(r, v, b))
  {
    hide Holds, Horner, Bits, HasByte;
    BitsLength(Words(a));
    ByteCoefficients(Words(a), j, i, v);
    EightCoefficients(a, b, k, r, v & 1 != 0, v & 2 != 0, v & 4 != 0, v & 8 != 0,
      v & 16 != 0, v & 32 != 0, v & 64 != 0, v & 128 != 0);
  }

  lemma EightCoefficients(a: Pair, b: Pair, k: nat, r: Pair,
                          b0: bool, b1: bool, b2: bool, b3: bool, b4: bool, b5: bool, b6: bool, b7: bool)
    requires k + 8 <= 128 && Holds(a, b, k + 8, r) && |Bits(Words(a))| == 128
    requires var p := Bits(Words(a));
             && p[k] == b0 && p[k + 1] == b1 && p[k + 2] == b2 && p[k + 3] == b3
             && p[k + 4] == b4 && p[k + 5] == b5 && p[k + 6] == b6 && p[k + 7] == b7
    ensures Holds(a, b, k, Horner(Horner(Horner(Horner(Horner(Horner(Horner(Horner(r,
              b7, b), b6, b), b5, b), b4, b), b3, b), b2, b), b1, b), b0, b))
  {
    hide Holds, Horner, Bits;
    var r7 := Horner(r, b7, b);
    var r6 := Horner(r7, b6, b);
    var r5 := Horner(r6, b5, b);
    var r4 := Horner(r5, b4, b);
    var r3 := Horner(r4, b3, b);
    var r2 := Horner(r3, b2, b);
    var r1 := Horner(r2, b1, b);
    OneCoefficient(a, b, k + 7, r, b7);
    OneCoefficient(a, b, k + 6, r7, b6);
    OneCoefficient(a, b, k + 5, r6, b5);
    OneCoefficient(a, b, k + 4, r5, b4);
    OneCoefficient(a, b, k + 3, r4, b3);
    OneCoefficient(a, b, k + 2, r3, b2);
    OneCoefficient(a, b, k + 1, r2, b1);
    OneCoefficient(a, b, k, r1, b0);
  }

  lemma WordStep(a: Pair, b: Pair, j: nat, r: Pair)
    requires j < 2 && Holds(a, b, 64 * j + 64, r)
    ensures Holds(a, b, 64 * j, HornerWord(r, Words(a)[j], b))
  {
    hide Holds, HornerByte, HornerWord, HasByte, Words, Above;
    WordsLength(a);
    var w := Words(a)[j];
    HornerWordIs(r, w, b);
    BytesOfWord(w);
    var v7, v6, v5, v4 := Above(w, 56), Above(w, 48), Above(w, 40), Above(w, 32);
    UpperBytes(a, b, j, r, v7, v6, v5, v4);
    var upper := HornerByte(HornerByte(HornerByte(HornerByte(r, v7, b), v6, b), v5, b), v4, b);
    LowerBytes(a, b, j, upper, Above(w, 24), Above(w, 16), Above(w, 8), w);
  }

  lemma HornerWordIs(r: Pair, w: bv64, b: Pair)
    ensures HornerWord(r, w, b) ==
            HornerByte(HornerByte(HornerByte(HornerByte(HornerByte(HornerByte(HornerByte(HornerByte(r,
              Above(w, 56), b), Above(w, 48), b), Above(w, 40), b), Above(w, 32), b),
              Above(w, 24), b), Above(w, 16), b), Above(w, 8), b), w, b)
  {
    AboveIs(w);
    hide HornerByte, Above;
  }

  lemma WordsLength(a: Pair)
    ensures |Words(a)| == 2
  {}

  lemma UpperBytes(a: Pair, b: Pair, j: nat, r: Pair, v7: bv64, v6: bv64, v5: bv64, v4: bv64)
    requires j < 2 && Holds(a, b, 64 * j + 64, r)
    requires var w := Words(a)[j]; HasByte(w, 56, v7) && HasByte(w, 48, v6) && HasByte(w, 40, v5) && HasByte(w, 32, v4)
    ensures Holds(a, b, 64 * j + 32, HornerByte(HornerByte(HornerByte(HornerByte(r, v7, b), v6, b), v5, b), v4, b))
  {
    hide Holds, HornerByte, HasByte;
    var k := 64 * j;
    ByteStep(a, b, j, 56, k + 56, r, v7);
    var r7 := HornerByte(r, v7, b);
    ByteStep(a, b, j, 48, k + 48, r7, v6);
    var r6 := HornerByte(r7, v6, b);
    ByteStep(a, b, j, 40, k + 40, r6, v5);
    ByteStep(a, b, j, 32, k + 32, HornerByte(r6, v5, b), v4);
  }

  lemma LowerBytes(a: Pair, b: Pair, j: nat, r: Pair, v3: bv64, v2: bv64, v1: bv64, v0: bv64)
    requires j < 2 && Holds(a, b, 64 * j + 32, r)
    requires var w := Words(a)[j]; HasByte(w, 24, v3) && HasByte(w, 16, v2) && HasByte(w, 8, v1) && HasByte(w, 0, v0)
    ensures Holds(a, b, 64 * j, HornerByte(HornerByte(HornerByte(HornerByte(r, v3, b), v2, b), v1, b), v0, b))
  {
    hide Holds, HornerByte, HasByte;
    var k := 64 * j;
    ByteStep(a, b, j, 24, k + 24, r, v3);
    var r3 := HornerByte(r, v3, b);
    ByteStep(a, b, j, 16, k + 16, r3, v2);
    var r2 := HornerByte(r3, v2, b);
    ByteStep(a, b, j, 8, k + 8, r2, v1);
    ByteStep(a, b, j, 0, k, HornerByte(r2, v1, b), v0);
  }

  lemma SquareIs(a: Pair)
    ensures Bits(Words(Square(a))) == Product(Bits(CHARPOLY128), Bits(Words(a)), Bits(Words(a)))
  {
    hide HornerWord, Bits, Product;
    BitsLength(Words(a));
    BitsLength(CHARPOLY128);
    ZeroHolds(a);
    WordStep(a, a, 1, Pair(0, 0));
    WordStep(a, a, 0, HornerWord(Pair(0, 0), a.hi, a));
    assert Bits(Words(a))[0..] == Bits(Words(a));
  }

  lemma ZeroHolds(a: Pair)
    ensures Holds(a, a, 128, Pair(0, 0))
  {
    hide Product;
    BitsLength(CHARPOLY128);
    ZeroBits(Words(Pair(0, 0)));
    assert Bits(Words(a))[128..] == [];
    ProductEmpty(Bits(CHARPOLY128), Bits(Words(a)));
  }

  // ---- from x by repeated squaring ----

  ghost predicate IsPower(a: Pair, n: nat) { Bits(Words(a)) == XPow(Bits(CHARPOLY128), Pow(2, n)) }

  lemma Squared(n: nat, a: Pair, b: Pair)
    requires IsPower(a, n) && Square(a) == b
    ensures IsPower(b, n + 1)
  {
    hide Square, Bits, Product, XPow, Pow;
    BitsLength(CHARPOLY128);
    SquareIs(a);
    PowStep(2, n + 1);
    ProductXPow(Bits(CHARPOLY128), Pow(2, n), Pow(2, n));
  }

  lemma StartsAtX()
    ensures IsPower(X0, 0)
  {
    PowZero(2);
    XPowSmall(Bits(CHARPOLY128), 1);
    forall k | 0 <= k < 128 ensures Bits(Words(X0))[k] == Unit(128, 1)[k] { BitsOfX(k); }
  }

  lemma BitsOfX(k: nat)
    requires k < 128
    ensures Bits(Words(X0))[k] == (k == 1)
  {
    hide BitAt;
    if k < 64 { BitsOfTwo(k); } else { ZeroBit(k - 64); }
  }

  lemma BitsOfTwo(k: nat)
    requires k < 64
    ensures BitAt(2, k) == (k == 1)
  {
    hide BitAt, ShlWord;
    TwoShifted();
    BitShl(1, 0, k);
    if k > 0 { OneWordBit(k - 1); }
  }

  lemma TwoShifted()
    ensures ShlWord(1, 0) == 2
  {}

  // x^(2^k).
  const X0: Pair := Pair(0x2, 0x0)
  const X1: Pair := Pair(0x4, 0x0)
  const X2: Pair := Pair(0x10, 0x0)
  const X3: Pair := Pair(0x100, 0x0)
  const X4: Pair := Pair(0x10000, 0x0)
  const X5: Pair := Pair(0x100000000, 0x0)
  const X6: Pair := Pair(0x0, 0x1)
  const X7: Pair := Pair(0x8dae70779760b081, 0x31bcf2f855d6e5)
  const X8: Pair := Pair(0x698449945af6e210, 0x76b6b675b4399be5)
  const X9: Pair := Pair(0x9dc079f856627b49, 0x5454b06c8eed86e5)
  const X10: Pair := Pair(0x165cc1e18698ffdc, 0xe956a4fe5daba959)
  const X11: Pair := Pair(0x987821353a7a6a8c, 0x9918f90f4de84d54)
  const X12: Pair := Pair(0x8fce38ba75aeae64, 0xfbf69397a87403c9)
  const X13: Pair := Pair(0xb31e81db3c05a619, 0xd78f10584ea0d82f)
  const X14: Pair := Pair(0x8fa1fe2055b437b6, 0x6fef003cf608f215)
  const X15: Pair := Pair(0x1fa02cf78f2fdd17, 0x7651f43bbc7eb2cf)
  const X16: Pair := Pair(0x827d13a11a5bfa45, 0x24494f690e559f39)
  const X17: Pair := Pair(0x2abc0fd67da91dd9, 0x4740afdac8489b6)
  const X18: Pair := Pair(0x6606bd124e18c8a9, 0x60a51822e8236e81)
  const X19: Pair := Pair(0xf5f9539dc71ac3ab, 0xd75b8968c7ceca4e)
  const X20: Pair := Pair(0x6b4baffcf30dec89, 0x7e856d55a389667f)
  const X21: Pair := Pair(0xe5bfcec2f359c7a8, 0xa5bcffe4053a6102)
  const X22: Pair := Pair(0xa89aedb5a5745c5e, 0x2fde12e83fed0371)
  const X23: Pair := Pair(0x54f8e8a35e6751a8, 0x200a7abb7ee6b6ad)
  const X24: Pair := Pair(0x8d5830a397139bd9, 0x6cd6c45648fc0bd1)
  const X25: Pair := Pair(0x1aea99285ae82a25, 0xc09899748cb8714d)
  const X26: Pair := Pair(0xc33764e2b4b496d4, 0x8bbac46728f233e6)
  const X27: Pair := Pair(0x96a83a9b997356cd, 0x93e0557620543a4a)
  const X28: Pair := Pair(0x432b5b118309ab1, 0x4b124c565024b68f)
  const X29: Pair := Pair(0xad428ecc2d1df942, 0x8214852b2e7d8d52)
  const X30: Pair := Pair(0x36e5cedab942bebb, 0x2a52709ab1323f09)
  const X31: Pair := Pair(0xf840354cc7729590, 0x546cf3a2e65eb617)
  const X32: Pair := Pair(0xfcceec21d5c306d9, 0x2e1bcf52f1051044)
  const X33: Pair := Pair(0xaf2b647b6fae2f5d, 0xc5e96f1068c53dc7)
  const X34: Pair := Pair(0x3301ebe70c293cf1, 0x6b33331e56a0409a)
  const X35: Pair := Pair(0x34449640a2de9ee0, 0x4e1697c372fe2e09)
  const X36: Pair := Pair(0xd68291c59a0039e6, 0x65952eb7223f45d7)
  const X37: Pair := Pair(0x89047b77bdb72952, 0xf5776067d400cd50)
  const X38: Pair := Pair(0xd9de469cd9b426a3, 0x7064347eeb843e29)
  const X39: Pair := Pair(0x1c1ce5f1d724e8b0, 0x97d4f2f61686db42)
  const X40: Pair := Pair(0x48626fce7e14a96a, 0x91a9950421613b7e)
  const X41: Pair := Pair(0xff9e40e62707684a, 0x6d9a8da7167ddfcf)
  const X42: Pair := Pair(0x7153f907d99d986e, 0x64d9e04e6c1884cd)
  const X43: Pair := Pair(0x106b225bd03a7779, 0x34999078aabaffe8)
  const X44: Pair := Pair(0x171de3b3151294c3, 0x6f34444d79a4141d)
  const X45: Pair := Pair(0x21b7ab2d80bf6d3, 0x7a6abea7a39f53a)
  const X46: Pair := Pair(0xe305be89cf8864c3, 0x316ffb2dbaee1f80)
  const X47: Pair := Pair(0xc454160b2f7531e9, 0xe3d82f661909d35f)
  const X48: Pair := Pair(0x99030a888c867939, 0xc8462a08ab3d7f9b)
  const X49: Pair := Pair(0xb00e87f3cad5557a, 0xc224a2e0618cf653)
  const X50: Pair := Pair(0x7fcbb32c64535326, 0xb26b1479a2f015ed)
  const X51: Pair := Pair(0x4603f11781a272a8, 0x5a6ea25958c39caf)
  const X52: Pair := Pair(0x31e021743866ff76, 0x98958a5c93a79430)
  const X53: Pair := Pair(0x2e49b03803828d2, 0xd70f123179c9fc1)
  const X54: Pair := Pair(0x10b744b13b716efe, 0xa134840f1fa881a1)
  const X55: Pair := Pair(0x67acc043b986e7a8, 0x8715ba98f99b61a1)
  const X56: Pair := Pair(0x53fbec60192e2e25, 0xf7fbb2e37725a509)
  const X57: Pair := Pair(0xc2b1fed493340f96, 0x191de3ce06c2fd40)
  const X58: Pair := Pair(0xfdfe1293f3cccdda, 0x5ab69d0781713e3e)
  const X59: Pair := Pair(0x6efbf3eb53faf165, 0x33c379c988647c4e)
  const X60: Pair := Pair(0x599551d5fd1d519, 0x98e6f5415bb0f982)
  const X61: Pair := Pair(0xa3cab09016ea1495, 0xd0d2b2c0186af373)
  const X62: Pair := Pair(0x8ff5a00c3ab6f5ea, 0x4dac0402699531ac)
  const X63: Pair := Pair(0x86b9d90f55fae014, 0x7107f7bfbb111c61)
  const X64: Pair := Pair(0x2bd7a6a6e99c2ddc, 0x992ccaf6a6fca05)
  const X65: Pair := Pair(0x990071566ee1ede5, 0xb5999b13a265f6d4)
  const X66: Pair := Pair(0x68a3338d039f7dca, 0x82c5916e87679747)
  const X67: Pair := Pair(0xb3eb6d0584996c95, 0xea54dca07bde2b12)
  const X68: Pair := Pair(0xe54214a68860e933, 0x212b0a3f9534a378)
  const X69: Pair := Pair(0xf1cf2db098da7617, 0x9afe325bbb33044)
  const X70: Pair := Pair(0x1b45e8f0c2728161, 0xa0e45d6852d74827)
  const X71: Pair := Pair(0x6c0446b4b4bdab33, 0xead53a88f158a4a3)
  const X72: Pair := Pair(0x8fb2b4ea6063d, 0x1b107448ffdcda5e)
  const X73: Pair := Pair(0xabd5b8310869b65b, 0x8fcc1e2039c3352f)
  const X74: Pair := Pair(0x4fcd156d99c3e8fb, 0xe628eafb152e3879)
  const X75: Pair := Pair(0x8261808261225735, 0xd1ab25373fc12f55)
  const X76: Pair := Pair(0x8ca3d4c6dc237346, 0x2efcdc1a9ca29d87)
  const X77: Pair := Pair(0x3ce429890b0a88bb, 0x7fa6bfdf60f30dde)
  const X78: Pair := Pair(0x5b7a7768a0db49c3, 0x27b031fc1ce8b5f2)
  const X79: Pair := Pair(0xdb405f4f405c3267, 0xcf611641ebd778bd)
  const X80: Pair := Pair(0x38c70073805418e8, 0x5759cda152a1664)
  const X81: Pair := Pair(0xd6c5daf83e94a571, 0xfe735a05c25935ad)
  const X82: Pair := Pair(0x3b34aea1b32a2469, 0x67ee410ae073ec73)
  const X83: Pair := Pair(0x122e8a0ba1145b02, 0x8bc80ccdce71ce55)
  const X84: Pair := Pair(0x32a7ec274614b93b, 0xb8689fd4ff75e724)
  const X85: Pair := Pair(0x85fca72e49a3a094, 0x88f84a31b1c1dc24)
  const X86: Pair := Pair(0x1369db4e18593366, 0x4cf1dea3830e8a0c)
  const X87: Pair := Pair(0xb32a29735918e152, 0x606b96c000622bd9)
  const X88: Pair := Pair(0x3ffd63ae03495f8a, 0xedb4b6f85f58dc8b)
  const X89: Pair := Pair(0x1de2bd218fb5de83, 0x4c5e895422c39bfd)
  const X90: Pair := Pair(0x4418e1004c714d84, 0x771bea8520143a0a)
  const X91: Pair := Pair(0x5a8de29bf13c1a59, 0x4822028dc52fe1b8)
  const X92: Pair := Pair(0x58edf2c4f968b817, 0x4499f33ebe1f3355)
  const X93: Pair := Pair(0x61f1dcecde46cff9, 0x4154ab58c3fa139b)
  const X94: Pair := Pair(0xf1e333ffc6648401, 0xe067f4c4fd93dfc3)
  const X95: Pair := Pair(0x7a04ed6023012337, 0x60c4043dc72f7546)
  const X96: Pair := Pair(0x360fd5f2cf8d5d99, 0x9c6e6877736c46e3)

  // Each the square of the one before, one evaluation each.
  lemma Squares0()
    ensures Square(X0) == X1 && Square(X1) == X2
  {}

  lemma Squares2()
    ensures Square(X2) == X3 && Square(X3) == X4
  {}

  lemma Squares4()
    ensures Square(X4) == X5 && Square(X5) == X6
  {}

  lemma Squares6()
    ensures Square(X6) == X7 && Square(X7) == X8
  {}

  lemma Squares8()
    ensures Square(X8) == X9 && Square(X9) == X10
  {}

  lemma Squares10()
    ensures Square(X10) == X11 && Square(X11) == X12
  {}

  lemma Squares12()
    ensures Square(X12) == X13 && Square(X13) == X14
  {}

  lemma Squares14()
    ensures Square(X14) == X15 && Square(X15) == X16
  {}

  lemma Squares16()
    ensures Square(X16) == X17 && Square(X17) == X18
  {}

  lemma Squares18()
    ensures Square(X18) == X19 && Square(X19) == X20
  {}

  lemma Squares20()
    ensures Square(X20) == X21 && Square(X21) == X22
  {}

  lemma Squares22()
    ensures Square(X22) == X23 && Square(X23) == X24
  {}

  lemma Squares24()
    ensures Square(X24) == X25 && Square(X25) == X26
  {}

  lemma Squares26()
    ensures Square(X26) == X27 && Square(X27) == X28
  {}

  lemma Squares28()
    ensures Square(X28) == X29 && Square(X29) == X30
  {}

  lemma Squares30()
    ensures Square(X30) == X31 && Square(X31) == X32
  {}

  lemma Squares32()
    ensures Square(X32) == X33 && Square(X33) == X34
  {}

  lemma Squares34()
    ensures Square(X34) == X35 && Square(X35) == X36
  {}

  lemma Squares36()
    ensures Square(X36) == X37 && Square(X37) == X38
  {}

  lemma Squares38()
    ensures Square(X38) == X39 && Square(X39) == X40
  {}

  lemma Squares40()
    ensures Square(X40) == X41 && Square(X41) == X42
  {}

  lemma Squares42()
    ensures Square(X42) == X43 && Square(X43) == X44
  {}

  lemma Squares44()
    ensures Square(X44) == X45 && Square(X45) == X46
  {}

  lemma Squares46()
    ensures Square(X46) == X47 && Square(X47) == X48
  {}

  lemma Squares48()
    ensures Square(X48) == X49 && Square(X49) == X50
  {}

  lemma Squares50()
    ensures Square(X50) == X51 && Square(X51) == X52
  {}

  lemma Squares52()
    ensures Square(X52) == X53 && Square(X53) == X54
  {}

  lemma Squares54()
    ensures Square(X54) == X55 && Square(X55) == X56
  {}

  lemma Squares56()
    ensures Square(X56) == X57 && Square(X57) == X58
  {}

  lemma Squares58()
    ensures Square(X58) == X59 && Square(X59) == X60
  {}

  lemma Squares60()
    ensures Square(X60) == X61 && Square(X61) == X62
  {}

  lemma Squares62()
    ensures Square(X62) == X63 && Square(X63) == X64
  {}

  lemma Squares64()
    ensures Square(X64) == X65 && Square(X65) == X66
  {}

  lemma Squares66()
    ensures Square(X66) == X67 && Square(X67) == X68
  {}

  lemma Squares68()
    ensures Square(X68) == X69 && Square(X69) == X70
  {}

  lemma Squares70()
    ensures Square(X70) == X71 && Square(X71) == X72
  {}

  lemma Squares72()
    ensures Square(X72) == X73 && Square(X73) == X74
  {}

  lemma Squares74()
    ensures Square(X74) == X75 && Square(X75) == X76
  {}

  lemma Squares76()
    ensures Square(X76) == X77 && Square(X77) == X78
  {}

  lemma Squares78()
    ensures Square(X78) == X79 && Square(X79) == X80
  {}

  lemma Squares80()
    ensures Square(X80) == X81 && Square(X81) == X82
  {}

  lemma Squares82()
    ensures Square(X82) == X83 && Square(X83) == X84
  {}

  lemma Squares84()
    ensures Square(X84) == X85 && Square(X85) == X86
  {}

  lemma Squares86()
    ensures Square(X86) == X87 && Square(X87) == X88
  {}

  lemma Squares88()
    ensures Square(X88) == X89 && Square(X89) == X90
  {}

  lemma Squares90()
    ensures Square(X90) == X91 && Square(X91) == X92
  {}

  lemma Squares92()
    ensures Square(X92) == X93 && Square(X93) == X94
  {}

  lemma Squares94()
    ensures Square(X94) == X95 && Square(X95) == X96
  {}

  lemma Powers0()
    requires IsPower(X0, 0)
    ensures IsPower(X8, 8)
  {
    hide Square, IsPower;
    Squares0();
    Squared(0, X0, X1);
    Squared(1, X1, X2);
    Squares2();
    Squared(2, X2, X3);
    Squared(3, X3, X4);
    Squares4();
    Squared(4, X4, X5);
    Squared(5, X5, X6);
    Squares6();
    Squared(6, X6, X7);
    Squared(7, X7, X8);
  }

  lemma Powers1()
    requires IsPower(X8, 8)
    ensures IsPower(X16, 16)
  {
    hide Square, IsPower;
    Squares8();
    Squared(8, X8, X9);
    Squared(9, X9, X10);
    Squares10();
    Squared(10, X10, X11);
    Squared(11, X11, X12);
    Squares12();
    Squared(12, X12, X13);
    Squared(13, X13, X14);
    Squares14();
    Squared(14, X14, X15);
    Squared(15, X15, X16);
  }

  lemma Powers2()
    requires IsPower(X16, 16)
    ensures IsPower(X24, 24)
  {
    hide Square, IsPower;
    Squares16();
    Squared(16, X16, X17);
    Squared(17, X17, X18);
    Squares18();
    Squared(18, X18, X19);
    Squared(19, X19, X20);
    Squares20();
    Squared(20, X20, X21);
    Squared(21, X21, X22);
    Squares22();
    Squared(22, X22, X23);
    Squared(23, X23, X24);
  }

  lemma Powers3()
    requires IsPower(X24, 24)
    ensures IsPower(X32, 32)
  {
    hide Square, IsPower;
    Squares24();
    Squared(24, X24, X25);
    Squared(25, X25, X26);
    Squares26();
    Squared(26, X26, X27);
    Squared(27, X27, X28);
    Squares28();
    Squared(28, X28, X29);
    Squared(29, X29, X30);
    Squares30();
    Squared(30, X30, X31);
    Squared(31, X31, X32);
  }

  lemma Powers4()
    requires IsPower(X32, 32)
    ensures IsPower(X40, 40)
  {
    hide Square, IsPower;
    Squares32();
    Squared(32, X32, X33);
    Squared(33, X33, X34);
    Squares34();
    Squared(34, X34, X35);
    Squared(35, X35, X36);
    Squares36();
    Squared(36, X36, X37);
    Squared(37, X37, X38);
    Squares38();
    Squared(38, X38, X39);
    Squared(39, X39, X40);
  }

  lemma Powers5()
    requires IsPower(X40, 40)
    ensures IsPower(X48, 48)
  {
    hide Square, IsPower;
    Squares40();
    Squared(40, X40, X41);
    Squared(41, X41, X42);
    Squares42();
    Squared(42, X42, X43);
    Squared(43, X43, X44);
    Squares44();
    Squared(44, X44, X45);
    Squared(45, X45, X46);
    Squares46();
    Squared(46, X46, X47);
    Squared(47, X47, X48);
  }

  lemma Powers6()
    requires IsPower(X48, 48)
    ensures IsPower(X56, 56)
  {
    hide Square, IsPower;
    Squares48();
    Squared(48, X48, X49);
    Squared(49, X49, X50);
    Squares50();
    Squared(50, X50, X51);
    Squared(51, X51, X52);
    Squares52();
    Squared(52, X52, X53);
    Squared(53, X53, X54);
    Squares54();
    Squared(54, X54, X55);
    Squared(55, X55, X56);
  }

  lemma Powers7()
    requires IsPower(X56, 56)
    ensures IsPower(X64, 64)
  {
    hide Square, IsPower;
    Squares56();
    Squared(56, X56, X57);
    Squared(57, X57, X58);
    Squares58();
    Squared(58, X58, X59);
    Squared(59, X59, X60);
    Squares60();
    Squared(60, X60, X61);
    Squared(61, X61, X62);
    Squares62();
    Squared(62, X62, X63);
    Squared(63, X63, X64);
  }

  lemma Powers8()
    requires IsPower(X64, 64)
    ensures IsPower(X72, 72)
  {
    hide Square, IsPower;
    Squares64();
    Squared(64, X64, X65);
    Squared(65, X65, X66);
    Squares66();
    Squared(66, X66, X67);
    Squared(67, X67, X68);
    Squares68();
    Squared(68, X68, X69);
    Squared(69, X69, X70);
    Squares70();
    Squared(70, X70, X71);
    Squared(71, X71, X72);
  }

  lemma Powers9()
    requires IsPower(X72, 72)
    ensures IsPower(X80, 80)
  {
    hide Square, IsPower;
    Squares72();
    Squared(72, X72, X73);
    Squared(73, X73, X74);
    Squares74();
    Squared(74, X74, X75);
    Squared(75, X75, X76);
    Squares76();
    Squared(76, X76, X77);
    Squared(77, X77, X78);
    Squares78();
    Squared(78, X78, X79);
    Squared(79, X79, X80);
  }

  lemma Powers10()
    requires IsPower(X80, 80)
    ensures IsPower(X88, 88)
  {
    hide Square, IsPower;
    Squares80();
    Squared(80, X80, X81);
    Squared(81, X81, X82);
    Squares82();
    Squared(82, X82, X83);
    Squared(83, X83, X84);
    Squares84();
    Squared(84, X84, X85);
    Squared(85, X85, X86);
    Squares86();
    Squared(86, X86, X87);
    Squared(87, X87, X88);
  }

  lemma Powers11()
    requires IsPower(X88, 88)
    ensures IsPower(X96, 96)
  {
    hide Square, IsPower;
    Squares88();
    Squared(88, X88, X89);
    Squared(89, X89, X90);
    Squares90();
    Squared(90, X90, X91);
    Squared(91, X91, X92);
    Squares92();
    Squared(92, X92, X93);
    Squared(93, X93, X94);
    Squares94();
    Squared(94, X94, X95);
    Squared(95, X95, X96);
  }

  // The constants are x^(2^64) and x^(2^96).
  lemma JumpConstants()
    ensures Bits(JUMP128) == XPow(Bits(CHARPOLY128), Pow(2, 64))
    ensures Bits(LONG_JUMP128) == XPow(Bits(CHARPOLY128), Pow(2, 96))
  {
    hide IsPower;
    StartsAtX();
    Powers0();
    Powers1();
    Powers2();
    Powers3();
    Powers4();
    Powers5();
    Powers6();
    Powers7();
    PowerIs(X64, 64, JUMP128);
    Powers8();
    Powers9();
    Powers10();
    Powers11();
    PowerIs(X96, 96, LONG_JUMP128);
  }

  lemma PowerIs(a: Pair, n: nat, ws: seq<bv64>)
    requires IsPower(a, n) && Words(a) == ws
    ensures Bits(ws) == XPow(Bits(CHARPOLY128), Pow(2, n))
  {}
}
