// The word-level library f2x: polynomials modulo the characteristic
// polynomial, kept in 64-bit words and updated in place.
module F2x {
  import opened LinearSystem
  import opened Powers

  // ---- bits of words ----

  predicate BitAt(w: bv64, i: nat)
    requires i < 64
  {
    (w >> (i as bv7)) & 1 == 1
  }

  // The coefficients held in the words, 64 to a word.
  function Bits(ws: seq<bv64>): (p: Poly)
    ensures |p| == 64 * |ws|
    ensures forall k :: 0 <= k < |p| ==> p[k] == BitAt(ws[k / 64], k % 64)
  {
    seq(64 * |ws|, k requires 0 <= k < 64 * |ws| => BitAt(ws[k / 64], k % 64))
  }

  // The word operations of the library.
  function XorWord(a: bv64, b: bv64): bv64 { a ^ b }
  function ShlWord(w: bv64, carry: bv64): bv64 { (w << 1) | carry }
  function HighBit(w: bv64): bv64 { w >> 63 }

  lemma XoredWordBit(a: bv64, b: bv64, k: bv7)
    requires k < 64
    ensures ((a ^ b) >> k) & 1 == ((a >> k) & 1) ^ ((b >> k) & 1)
    ensures (a >> k) & 1 <= 1 && (b >> k) & 1 <= 1
  {}

  lemma XorOfBits(x: bv64, y: bv64)
    requires x <= 1 && y <= 1
    ensures x ^ y == 1 <==> (x == 1) != (y == 1)
  {}

  lemma BitXor(a: bv64, b: bv64, i: nat)
    requires i < 64
    ensures BitAt(XorWord(a, b), i) == (BitAt(a, i) != BitAt(b, i))
  {
    IndexBelow(i);
    XoredWordBit(a, b, i as bv7);
    XorOfBits((a >> (i as bv7)) & 1, (b >> (i as bv7)) & 1);
  }

  lemma ShiftedWordBit(w: bv64, carry: bv64, k: bv7)
    requires 0 < k < 64 && carry <= 1
    ensures (((w << 1) | carry) >> k) & 1 == (w >> (k - 1)) & 1
  {}

  lemma ShiftedWordLow(w: bv64, carry: bv64)
    requires carry <= 1
    ensures ((w << 1) | carry) & 1 == carry
  {}

  lemma IndexValue(i: nat)
    requires i < 64
    ensures (i as bv7) as int == i
  {}

  lemma IndexOrder(k: bv7, l: bv7)
    ensures k as int == l as int ==> k == l
    ensures (k as int < 64 <==> k < 64) && (k as int > 0 <==> k > 0)
    ensures k > 0 ==> (k - 1) as int == k as int - 1
  {}

  lemma IndexBelow(i: nat)
    requires i < 64
    ensures i as bv7 < 64
    ensures i > 0 ==> 0 < i as bv7 && (i as bv7) - 1 == (i - 1) as bv7
  {
    hide *;
    IndexValue(i);
    IndexOrder(i as bv7, i as bv7);
    if i > 0 {
      IndexValue(i - 1);
      IndexOrder((i as bv7) - 1, (i - 1) as bv7);
    }
  }

  lemma BitShl(w: bv64, carry: bv64, i: nat)
    requires i < 64 && carry <= 1
    ensures BitAt(ShlWord(w, carry), i) == if i == 0 then carry == 1 else BitAt(w, i - 1)
  {
    if i > 0 {
      IndexBelow(i);
      ShiftedWordBit(w, carry, i as bv7);
    } else {
      assert 0 as bv7 == 0;
      ShiftedWordLow(w, carry);
    }
  }

  lemma TopOfWord(w: bv64)
    ensures (w >> 63) <= 1 && (w >> 63 == 1) == ((w >> 63) & 1 == 1)
  {}

  lemma BitTop(w: bv64)
    ensures HighBit(w) <= 1 && (HighBit(w) == 1) == BitAt(w, 63)
  {
    TopOfWord(w);
    assert 63 as bv7 == 63;
  }

  // ---- bytes of words ----

  // The low eight bits of v.
  function ByteBits(v: bv64): (p: Poly)
    ensures |p| == 8
  {
    [v & 1 != 0, v & 2 != 0, v & 4 != 0, v & 8 != 0, v & 16 != 0, v & 32 != 0, v & 64 != 0, v & 128 != 0]
  }

  lemma EightMore(q: Poly, b0: bool, b1: bool, b2: bool, b3: bool, b4: bool, b5: bool, b6: bool, b7: bool)
    ensures [b0, b1, b2, b3, b4, b5, b6, b7] + q == [b0] + ([b1] + ([b2] + ([b3] + ([b4] + ([b5] + ([b6] + ([b7] + q)))))))
  {{
    FourMore([b4, b5, b6, b7] + q, b0, b1, b2, b3);
    FourMore(q, b4, b5, b6, b7);
    assert [b0, b1, b2, b3, b4, b5, b6, b7] + q == [b0, b1, b2, b3] + ([b4, b5, b6, b7] + q);
  }}

  lemma FourMore(q: Poly, b0: bool, b1: bool, b2: bool, b3: bool)
    ensures [b0, b1, b2, b3] + q == [b0] + ([b1] + ([b2] + ([b3] + q)))
  {{}}

  // They are the bits of w from bit i up.
  predicate HasByte(w: bv64, i: nat, v: bv64)
    requires i <= 56
  {
    && BitAt(w, i) == (v & 1 != 0) && BitAt(w, i + 1) == (v & 2 != 0)
    && BitAt(w, i + 2) == (v & 4 != 0) && BitAt(w, i + 3) == (v & 8 != 0)
    && BitAt(w, i + 4) == (v & 16 != 0) && BitAt(w, i + 5) == (v & 32 != 0)
    && BitAt(w, i + 6) == (v & 64 != 0) && BitAt(w, i + 7) == (v & 128 != 0)
  }

  function Above(w: bv64, i: bv7): bv64
    requires i < 64
  {
    w >> i
  }

  lemma AboveIs(w: bv64)
    ensures Above(w, 8) == w >> 8 && Above(w, 16) == w >> 16 && Above(w, 24) == w >> 24 && Above(w, 32) == w >> 32
    ensures Above(w, 40) == w >> 40 && Above(w, 48) == w >> 48 && Above(w, 56) == w >> 56
  {}

  lemma BytesOfWord(w: bv64)
    ensures HasByte(w, 0, w) && HasByte(w, 8, Above(w, 8)) && HasByte(w, 16, Above(w, 16)) && HasByte(w, 24, Above(w, 24))
    ensures HasByte(w, 32, Above(w, 32)) && HasByte(w, 40, Above(w, 40)) && HasByte(w, 48, Above(w, 48)) && HasByte(w, 56, Above(w, 56))
  {
    hide HasByte, Above;
    Byte0(w);
    Byte1(w);
    Byte2(w);
    Byte3(w);
    Byte4(w);
    Byte5(w);
    Byte6(w);
    Byte7(w);
  }

  lemma Byte0(w: bv64) ensures HasByte(w, 0, w) {}
  lemma Byte1(w: bv64) ensures HasByte(w, 8, Above(w, 8)) {}
  lemma Byte2(w: bv64) ensures HasByte(w, 16, Above(w, 16)) {}
  lemma Byte3(w: bv64) ensures HasByte(w, 24, Above(w, 24)) {}
  lemma Byte4(w: bv64) ensures HasByte(w, 32, Above(w, 32)) {}
  lemma Byte5(w: bv64) ensures HasByte(w, 40, Above(w, 40)) {}
  lemma Byte6(w: bv64) ensures HasByte(w, 48, Above(w, 48)) {}
  lemma Byte7(w: bv64) ensures HasByte(w, 56, Above(w, 56)) {}

  lemma BitOfByte(w: bv64, k: nat, v: bv64, i: nat)
    requires k <= 56 && HasByte(w, k, v) && i < 8
    ensures BitAt(w, k + i) == ByteBits(v)[i]
  {
    hide BitAt;
  }

  lemma ByteHolds(ws: seq<bv64>, j: nat, k: nat, v: bv64)
    requires j < |ws| && k <= 56 && HasByte(ws[j], k, v)
    ensures Bits(ws)[64 * j + k..64 * j + k + 8] == ByteBits(v)
  {
    hide BitAt, ByteBits, HasByte;
    forall i | 0 <= i < 8 ensures Bits(ws)[64 * j + k + i] == ByteBits(v)[i] {
      BitOfByte(ws[j], k, v, i);
      assert (64 * j + k + i) / 64 == j && (64 * j + k + i) % 64 == k + i;
    }
  }

  lemma ByteCoefficients(ws: seq<bv64>, j: nat, k: nat, v: bv64)
    requires j < |ws| && k <= 56 && HasByte(ws[j], k, v)
    ensures var p, i := Bits(ws), 64 * j + k;
            && p[i] == (v & 1 != 0) && p[i + 1] == (v & 2 != 0) && p[i + 2] == (v & 4 != 0) && p[i + 3] == (v & 8 != 0)
            && p[i + 4] == (v & 16 != 0) && p[i + 5] == (v & 32 != 0) && p[i + 6] == (v & 64 != 0) && p[i + 7] == (v & 128 != 0)
  {
    hide Bits, BitAt;
    InWord(ws, j, k);
    InWord(ws, j, k + 1);
    InWord(ws, j, k + 2);
    InWord(ws, j, k + 3);
    InWord(ws, j, k + 4);
    InWord(ws, j, k + 5);
    InWord(ws, j, k + 6);
    InWord(ws, j, k + 7);
  }

  lemma InWord(ws: seq<bv64>, j: nat, k: nat)
    requires j < |ws| && k < 64
    ensures |Bits(ws)| == 64 * |ws| && Bits(ws)[64 * j + k] == BitAt(ws[j], k)
  {
    hide BitAt;
    assert (64 * j + k) / 64 == j && (64 * j + k) % 64 == k;
  }

  // ---- a <- a * x mod charpoly ----

  function CarryInto(ws: seq<bv64>, i: nat): bv64
    requires i <= |ws|
  {
    if i == 0 then 0 else HighBit(ws[i - 1])
  }

  // The words shifted left by one across their boundaries.
  ghost predicate Shifted(ws: seq<bv64>, r: seq<bv64>) {
    |r| == |ws| && forall i :: 0 <= i < |ws| ==> r[i] == ShlWord(ws[i], CarryInto(ws, i))
  }

  lemma ShiftedBit(ws: seq<bv64>, r: seq<bv64>, k: nat)
    requires Shifted(ws, r) && k < 64 * |ws|
    ensures Bits(r)[k] == (k > 0 && Bits(ws)[k - 1])
  {
    hide BitAt, ShlWord, XorWord, HighBit;
    var i, j := k / 64, k % 64;
    assert r[i] == ShlWord(ws[i], CarryInto(ws, i));
    if i > 0 { BitTop(ws[i - 1]); }
    BitShl(ws[i], CarryInto(ws, i), j);
    if k > 0 {
      if j > 0 {
        assert (k - 1) / 64 == i && (k - 1) % 64 == j - 1;
      } else {
        assert (k - 1) / 64 == i - 1 && (k - 1) % 64 == 63;
      }
    }
  }

  // Words XORed pairwise hold the XOR of the polynomials.
  lemma XoredBits(r: seq<bv64>, a: seq<bv64>, b: seq<bv64>)
    requires |r| == |a| == |b| && forall i :: 0 <= i < |r| ==> r[i] == XorWord(a[i], b[i])
    ensures Bits(r) == Xor(Bits(a), Bits(b))
  {
    hide BitAt, ShlWord, XorWord, HighBit;
    forall k | 0 <= k < 64 * |r| ensures Bits(r)[k] == Xor(Bits(a), Bits(b))[k] {
      assert r[k / 64] == XorWord(a[k / 64], b[k / 64]);
      BitXor(a[k / 64], b[k / 64], k % 64);
    }
  }

  method XorInto(r: array<bv64>, b: seq<bv64>)
    requires r.Length == |b|
    modifies r
    ensures Bits(r[..]) == Xor(old(Bits(r[..])), Bits(b))
  {
    ghost var was := r[..];
    for i := 0 to r.Length
      invariant forall j :: 0 <= j < i ==> r[j] == XorWord(was[j], b[j])
      invariant forall j :: i <= j < r.Length ==> r[j] == was[j]
    {
      r[i] := XorWord(r[i], b[i]);
    }
    XoredBits(r[..], was, b);
  }

  // The shift with its carry from word to word; what falls off the top.
  method ShiftWords(a: array<bv64>) returns (carry: bv64)
    modifies a
    ensures Shifted(old(a[..]), a[..]) && carry == CarryInto(old(a[..]), a.Length)
  {
    ghost var was := a[..];
    carry := 0;
    for i := 0 to a.Length
      invariant carry == CarryInto(was, i)
      invariant forall j :: 0 <= j < i ==> a[j] == ShlWord(was[j], CarryInto(was, j))
      invariant forall j :: i <= j < a.Length ==> a[j] == was[j]
    {
      var nextCarry := HighBit(a[i]);
      a[i] := ShlWord(a[i], carry);
      carry := nextCarry;
    }
  }

  lemma ShiftedIs(ws: seq<bv64>, r: seq<bv64>)
    requires Shifted(ws, r) && ws != []
    ensures Bits(r) == [false] + Bits(ws)[..64 * |ws| - 1]
  {
    hide BitAt, ShlWord, XorWord, HighBit;
    forall k | 0 <= k < 64 * |ws| ensures Bits(r)[k] == ([false] + Bits(ws)[..64 * |ws| - 1])[k] {
      ShiftedBit(ws, r, k);
    }
  }

  // The shifted words, with charpoly added back when a bit falls off the top.
  lemma ShiftReduces(ws: seq<bv64>, r: seq<bv64>, charpoly: seq<bv64>)
    requires Shifted(ws, r) && |ws| == |charpoly| > 0
    ensures |Bits(r)| == |Bits(charpoly)|
    ensures MulX(Bits(ws), Bits(charpoly)) ==
            if CarryInto(ws, |ws|) == 1 then Xor(Bits(r), Bits(charpoly)) else Bits(r)
  {
    hide *;
    BitsLength(ws);
    BitsLength(r);
    BitsLength(charpoly);
    ShiftedIs(ws, r);
    BitTop(ws[|ws| - 1]);
    TopBit(ws);
    CarryAtEnd(ws);
    MulXFromShift(Bits(ws), Bits(charpoly), Bits(r));
  }

  lemma CarryAtEnd(ws: seq<bv64>)
    requires ws != []
    ensures CarryInto(ws, |ws|) == HighBit(ws[|ws| - 1])
  {}

  lemma MulXFromShift(a: Poly, cp: Poly, r: Poly)
    requires |a| == |cp| == |r| > 0 && r == [false] + a[..|a| - 1]
    ensures MulX(a, cp) == if a[|a| - 1] then Xor(r, cp) else r
  {}

  method MulXInPlace(a: array<bv64>, charpoly: seq<bv64>)
    requires a.Length == |charpoly| > 0
    modifies a
    ensures Bits(a[..]) == MulX(old(Bits(a[..])), Bits(charpoly))
  {
    hide *;
    ghost var was := a[..];
    var carry := ShiftWords(a);
    ShiftReduces(was, a[..], charpoly);
    if carry == 1 {
      XorInto(a, charpoly);
    }
  }

  lemma TopBit(ws: seq<bv64>)
    requires ws != []
    ensures |Bits(ws)| == 64 * |ws| && Bits(ws)[64 * |ws| - 1] == BitAt(ws[|ws| - 1], 63)
  {
    assert (64 * |ws| - 1) / 64 == |ws| - 1 && (64 * |ws| - 1) % 64 == 63;
  }

  // ---- a <- a * b mod charpoly ----

  lemma ZeroBits(ws: seq<bv64>)
    requires forall i :: 0 <= i < |ws| ==> ws[i] == 0
    ensures Bits(ws) == ZeroPoly(64 * |ws|)
  {
    forall k | 0 <= k < 64 * |ws| ensures !Bits(ws)[k] {
      ZeroBit(k % 64);
    }
  }

  lemma ZeroBit(i: nat)
    requires i < 64
    ensures !BitAt(0, i)
  {
    var k := i as bv7;
    assert k < 64;
  }

  // One Horner step: x * (the product with the higher coefficients), plus b
  // when this coefficient is one.
  lemma HornerStep(cp: Poly, a: Poly, b: Poly, k: nat, r: Poly)
    requires cp != [] && |a| == |b| == |cp| && k < |a| && r == Product(cp, a[k + 1..], b)
    ensures |r| == |cp|
    ensures Product(cp, a[k..], b) == if a[k] then Xor(MulX(r, cp), b) else MulX(r, cp)
  {
    hide Linear, Closed, Group, MulX;
    var L := PolySystem(cp);
    PolyLinear(cp);
    HasAct(L, a[k + 1..], b);
    ActStep(L, a[k + 1..], b);
    assert a[k..][0] == a[k] && a[k..][1..] == a[k + 1..];
    var s := MulX(r, cp);
    AddZero(L, s);
    assert Xor(b, s) == Xor(s, b);
  }

  // Bit-serial multiplication from the top coefficient down. The operands may
  // be one array: a is only overwritten at the end.
  method MulMod(a: array<bv64>, b: array<bv64>, charpoly: seq<bv64>)
    requires a.Length == b.Length == |charpoly| > 0
    modifies a
    ensures Bits(a[..]) == Product(Bits(charpoly), old(Bits(a[..])), old(Bits(b[..])))
  {
    hide Product, MulX, Bits;
    var n := a.Length;
    ghost var cp, A, B := Bits(charpoly), Bits(a[..]), Bits(b[..]);
    BitsLength(charpoly);
    BitsLength(a[..]);
    BitsLength(b[..]);
    var r := new bv64[n](_ => 0);
    ZeroBits(r[..]);
    var k := 64 * n;
    assert A[k..] == [];
    ProductEmpty(cp, B);
    while k > 0
      invariant 0 <= k <= 64 * n && fresh(r) && r.Length == n
      invariant a[..] == old(a[..]) && b[..] == old(b[..])
      invariant Bits(r[..]) == Product(cp, A[k..], B)
    {
      k := k - 1;
      HornerStep(cp, A, B, k, Bits(r[..]));
      BitsAt(a[..], k);
      MulXInPlace(r, charpoly);
      if BitAt(a[k / 64], k % 64) {
        XorInto(r, b[..]);
      }
    }
    assert A[0..] == A;
    forall i | 0 <= i < n {
      a[i] := r[i];
    }
    assert a[..] == r[..];
  }

  lemma BitsLength(ws: seq<bv64>)
    ensures |Bits(ws)| == 64 * |ws|
  {}

  lemma BitsAt(ws: seq<bv64>, k: nat)
    requires k < 64 * |ws|
    ensures |Bits(ws)| == 64 * |ws| && Bits(ws)[k] == BitAt(ws[k / 64], k % 64)
  {}

  lemma ProductEmpty(cp: Poly, b: Poly)
    requires cp != []
    ensures Product(cp, [], b) == ZeroPoly(|cp|)
  {}

  // ---- the jump distance ----

  // An unsigned 64-bit word that is read as a number.
  type Word = n: int | 0 <= n < 0x1_0000_0000_0000_0000

  // The little-endian integer held in the words.
  function Number(ws: seq<Word>): nat {
    if ws == [] then 0 else ws[0] + 0x1_0000_0000_0000_0000 * Number(ws[1..])
  }

  // Bit i of a number: shifted down, its low bit.
  function BitOf(n: nat, i: nat): bool { n / Pow(2, i) % 2 == 1 }

  method SetOne(out: array<bv64>)
    requires out.Length > 0
    modifies out
    ensures Bits(out[..]) == Unit(64 * out.Length, 0)
  {
    var n := out.Length;
    forall i | 0 <= i < n {
      out[i] := if i == 0 then 1 else 0;
    }
    OneBits(out[..]);
  }

  lemma OneBits(ws: seq<bv64>)
    requires ws != [] && ws[0] == 1 && forall i :: 1 <= i < |ws| ==> ws[i] == 0
    ensures Bits(ws) == Unit(64 * |ws|, 0)
  {
    forall k | 0 <= k < 64 * |ws| ensures Bits(ws)[k] == (k == 0) {
      if k / 64 == 0 { OneWordBit(k % 64); } else { ZeroBit(k % 64); }
    }
  }

  lemma OneShifted(k: bv7)
    requires 0 < k < 64
    ensures ((1 as bv64) >> k) & 1 == 0
  {}

  lemma OneWordBit(i: nat)
    requires i < 64
    ensures BitAt(1, i) == (i == 0)
  {
    IndexBelow(i);
    if i > 0 { OneShifted(i as bv7); } else { assert 0 as bv7 == 0; }
  }

  // One round of square-and-multiply: x^m becomes x^(2m + bit).
  method SquareStep(out: array<bv64>, bit: bool, charpoly: seq<bv64>, ghost m: nat)
    requires out.Length == |charpoly| > 0
    requires Bits(out[..]) == XPow(Bits(charpoly), m)
    modifies out
    ensures Bits(out[..]) == XPow(Bits(charpoly), 2 * m + if bit then 1 else 0)
  {
    hide *;
    BitsLength(charpoly);
    ghost var cp := Bits(charpoly);
    MulMod(out, out, charpoly);
    ProductXPow(cp, m, m);
    assert m + m == 2 * m;
    if bit {
      MulXInPlace(out, charpoly);
      XPowNext(cp, 2 * m);
    }
  }

  lemma XPowNext(cp: Poly, n: nat)
    requires cp != []
    ensures |XPow(cp, n)| == |cp| && XPow(cp, n + 1) == MulX(XPow(cp, n), cp)
  {
    HasXPow(cp, n);
    IterLast(PolySystem(cp), n, Unit(|cp|, 0));
  }

  // out <- x^n mod charpoly for the little-endian integer n in the words of
  // jump, from its most significant bit down.
  method JumpPolyN(jump: seq<Word>, out: array<bv64>, charpoly: seq<bv64>)
    requires out.Length == |charpoly| > 0
    modifies out
    ensures Bits(out[..]) == XPow(Bits(charpoly), Number(jump))
  {
    hide *;
    BitsLength(charpoly);
    ghost var cp, n := Bits(charpoly), Number(jump);
    XPowZero(cp);
    SetOne(out);
    var k := 64 * |jump|;
    NumberBelow(jump);
    while k > 0
      invariant 0 <= k <= 64 * |jump|
      invariant Bits(out[..]) == XPow(cp, n / Pow(2, k))
    {
      k := k - 1;
      NextBit(jump, k);
      SquareStep(out, BitOf(jump[k / 64], k % 64), charpoly, n / Pow(2, k + 1));
    }
    PowZero(2);
  }

  lemma NextBit(jump: seq<Word>, k: nat)
    requires k < 64 * |jump|
    ensures 0 <= k / 64 < |jump| && 0 <= k % 64 < 64
    ensures var n := Number(jump);
            n / Pow(2, k) == 2 * (n / Pow(2, k + 1)) + (if BitOf(jump[k / 64], k % 64) then 1 else 0)
  {
    hide *;
    BitOfNumber(jump, k);
    HalvingStep(Number(jump), k);
  }

  lemma DivDiv(n: nat, a: nat, b: nat)
    requires a > 0 && b > 0
    ensures a * b > 0 && n / (a * b) == n / a / b
  {
    var q, r := n / a, n % a;
    var q', r' := q / b, q % b;
    Recompose(n, a, b, q, r, q', r');
    QuotientIs(n, a * b, q', a * r' + r);
  }

  lemma Recompose(n: nat, a: nat, b: nat, q: nat, r: nat, q': nat, r': nat)
    requires n == q * a + r && q == q' * b + r' && r < a && r' < b
    ensures n == q' * (a * b) + (a * r' + r) && a * r' + r < a * b
  {
    assert q * a == q' * b * a + r' * a;
    assert a * (b - 1 - r') >= 0;
  }

  lemma QuotientIs(n: nat, d: nat, q: nat, r: nat)
    requires d > 0 && n == q * d + r && r < d
    ensures n / d == q
  {
    EuclidUnique(n, d, q, r);
  }

  // One bit fewer shifted out.
  lemma HalvingStep(n: nat, k: nat)
    ensures n / Pow(2, k) == 2 * (n / Pow(2, k + 1)) + (if BitOf(n, k) then 1 else 0)
  {
    hide Pow;
    PowStep(2, k + 1);
    DivDiv(n, Pow(2, k), 2);
  }

  lemma WordPower()
    ensures Pow(2, 64) == 0x1_0000_0000_0000_0000
  {
    assert Pow(2, 8) == 256;
    hide Pow;
    PowAdd(2, 8, 8);
    PowAdd(2, 16, 16);
    PowAdd(2, 32, 32);
  }

  lemma {:induction false} NumberBelow(ws: seq<Word>)
    ensures Number(ws) < Pow(2, 64 * |ws|) && Number(ws) / Pow(2, 64 * |ws|) == 0
  {
    hide Pow;
    PowZero(2);
    if ws != [] {
      NumberBelow(ws[1..]);
      WordPower();
      PowAdd(2, 64, 64 * (|ws| - 1));
      assert 64 + 64 * (|ws| - 1) == 64 * |ws|;
      BelowProduct(ws[0], Number(ws[1..]), Pow(2, 64), Pow(2, 64 * (|ws| - 1)));
    }
    QuotientIs(Number(ws), Pow(2, 64 * |ws|), 0, Number(ws));
  }

  lemma BelowProduct(w: nat, v: nat, p: nat, q: nat)
    requires w < p && v < q
    ensures w + p * v < p * q
  {
    assert p * (q - 1 - v) >= 0;
  }

  // Bit k of the number is bit k % 64 of word k / 64.
  lemma {:induction false} BitOfNumber(ws: seq<Word>, k: nat)
    requires k < 64 * |ws|
    ensures BitOf(Number(ws), k) == BitOf(ws[k / 64], k % 64)
  {
    hide Pow;
    var w, v := ws[0], Number(ws[1..]);
    WordPower();
    if k < 64 {
      PowAdd(2, k, 64 - k);
      PowStep(2, 64 - k);
      LowBit(w, v, Pow(2, k), Pow(2, 63 - k));
      assert k / 64 == 0 && k % 64 == k;
    } else {
      assert k / 64 == (k - 64) / 64 + 1 && k % 64 == (k - 64) % 64;
      PowAdd(2, 64, k - 64);
      DivDiv(w + Pow(2, 64) * v, Pow(2, 64), Pow(2, k - 64));
      QuotientIs(w + Pow(2, 64) * v, Pow(2, 64), v, w);
      BitOfNumber(ws[1..], k - 64);
    }
  }

  // Higher words do not reach a bit of the lowest.
  lemma LowBit(w: nat, v: nat, p: nat, h: nat)
    requires p > 0
    ensures (w + p * (2 * h) * v) / p % 2 == w / p % 2
  {
    var q, r := w / p, w % p;
    var up := 2 * (h * v);
    assert p * (2 * h) * v == up * p;
    assert w + p * (2 * h) * v == (q + up) * p + r;
    QuotientIs(w + p * (2 * h) * v, p, q + up, r);
  }

  lemma XPowZero(cp: Poly)
    requires cp != []
    ensures XPow(cp, 0) == Unit(|cp|, 0)
  {}

  lemma DoubledExponent(m: nat, e: nat)
    ensures m * Pow(2, 0) == m && m * Pow(2, e + 1) == 2 * (m * Pow(2, e))
  {
    hide Pow;
    PowZero(2);
    PowStep(2, e + 1);
  }

  // out <- x^(c * 2^e) mod charpoly.
  method JumpPolyCe(c: Word, e: nat, out: array<bv64>, charpoly: seq<bv64>)
    requires out.Length == |charpoly| > 0
    modifies out
    ensures Bits(out[..]) == XPow(Bits(charpoly), c * Pow(2, e))
  {
    hide *;
    BitsLength(charpoly);
    JumpPolyN([c], out, charpoly);
    NumberOfOne(c);
    DoubledExponent(c, 0);
    var left := e;
    while left > 0
      invariant 0 <= left <= e
      invariant Bits(out[..]) == XPow(Bits(charpoly), c * Pow(2, e - left))
    {
      DoubledExponent(c, e - left);
      SquareStep(out, false, charpoly, c * Pow(2, e - left));
      left := left - 1;
    }
  }

  lemma NumberOfOne(c: Word)
    ensures Number([c]) == c
  {}

  lemma NumberOfTwo(n0: Word, n1: Word)
    ensures Number([n0, n1]) == n0 + Pow(2, 64) * n1
  {
    WordPower();
    hide Pow;
    assert [n0, n1][1..] == [n1];
    NumberOfOne(n1);
  }
}
