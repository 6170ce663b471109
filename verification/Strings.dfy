// The string operations of the runtime over byte arrays of known length, each
// against the characters its bytes decode to.
module Strings {
  import opened Utf8

  // ---- decoding in place ----

  // One decoding step at offset, reading at most the bytes of the string: the
  // shift-and-or loop over the continuation bytes.
  method DecodeAt(s: seq<Byte>, offset: nat) returns (cp: nat, consumed: nat)
    ensures offset >= |s| ==> cp == 0xFFFD && consumed == 1
    ensures offset < |s| ==> cp == DecodeFirst(s[offset..]) && consumed == ChunkLen(s[offset..])
  {
    if offset >= |s| {
      return REPLACEMENT, 1;
    }
    ghost var u := s[offset..];
    var n := LeadByteLen(s[offset]);
    if n == 0 {
      return REPLACEMENT, 1;
    }
    cp := LeadPayload(s[offset], n);
    var k := 1;
    while k < n && offset + k < |s| && IsContinuation(s[offset + k])
      invariant 1 <= k <= n && k <= |u|
      invariant cp == Payload(u, n, k)
      invariant 1 + ContinuationRun(u[1..], n - 1) == k + ContinuationRun(u[k..], n - k)
    {
      RunStep(u, n, k);
      cp := cp * 64 + s[offset + k] % 64;
      k := k + 1;
    }
    RunEnds(u, n, k);
    consumed := k;
    if k < n || !IsScalarOfLen(cp, n) {
      cp := REPLACEMENT;
    }
  }

  lemma RunStep(u: seq<Byte>, n: nat, k: nat)
    requires 1 <= k < n && k < |u| && IsContinuation(u[k])
    ensures ContinuationRun(u[k..], n - k) == 1 + ContinuationRun(u[k + 1..], n - (k + 1))
  {
    assert u[k..][1..] == u[k + 1..];
  }

  lemma RunEnds(u: seq<Byte>, n: nat, k: nat)
    requires k <= n && k <= |u| && !(k < n && k < |u| && IsContinuation(u[k]))
    ensures ContinuationRun(u[k..], n - k) == 0
  {}

  // The number of characters.
  method Length(s: seq<Byte>) returns (n: nat)
    ensures n == |DecodeAll(s)|
  {
    hide ChunkLen, DecodeFirst;
    n := 0;
    var offset := 0;
    assert s[0..] == s;
    while offset < |s|
      invariant offset <= |s| && n + |DecodeAll(s[offset..])| == |DecodeAll(s)|
      decreases |s| - offset
    {
      var _, consumed := DecodeAt(s, offset);
      assert s[offset..][consumed..] == s[offset + consumed..];
      offset := offset + consumed;
      n := n + 1;
    }
  }

  // The byte offset of a character, or the end of the string.
  method ByteOffsetOfChar(s: seq<Byte>, charIdx: nat) returns (offset: nat)
    ensures offset == OffsetOf(s, charIdx)
  {
    offset := WalkChars(s, 0, charIdx);
    assert s[0..] == s;
  }

  // Walk count characters onward from a byte offset.
  method WalkChars(s: seq<Byte>, start: nat, count: nat) returns (offset: nat)
    requires start <= |s|
    ensures offset == start + OffsetOf(s[start..], count)
  {
    hide ChunkLen, DecodeFirst;
    offset := start;
    var i := 0;
    while i < count && offset < |s|
      invariant 0 <= i <= count && start <= offset <= |s|
      invariant start + OffsetOf(s[start..], count) == offset + OffsetOf(s[offset..], count - i)
    {
      var _, consumed := DecodeAt(s, offset);
      assert s[offset..][consumed..] == s[offset + consumed..];
      offset := offset + consumed;
      i := i + 1;
    }
  }

  // ---- the operations ----

  // All but the first character.
  method StrTail(s: seq<Byte>) returns (r: seq<Byte>)
    ensures DecodeAll(r) == if s == [] then [] else DecodeAll(s)[1..]
  {
    var offset := ByteOffsetOfChar(s, 1);
    DecodeDrop(s, 1);
    hide ChunkLen, DecodeFirst;
    if offset >= |s| {
      assert s[offset..] == [];
      return [];
    }
    r := s[offset..];
  }

  // An index as the C cast to size_t reads it.
  function AsSize(i: int): (n: nat)
    requires -0x8000_0000_0000_0000 <= i < 0x8000_0000_0000_0000
  {
    if i < 0 then i + 0x1_0000_0000_0000_0000 else i
  }

  // Character idx, or U+FFFD outside the string, negative indices included.
  method StrIndex(s: seq<Byte>, idx: int) returns (cp: nat)
    requires -0x8000_0000_0000_0000 <= idx < 0x8000_0000_0000_0000 && |s| < 0x1_0000_0000
    ensures cp == if 0 <= idx < |DecodeAll(s)| then DecodeAll(s)[idx] else 0xFFFD
  {
    var i := AsSize(idx);
    var offset := ByteOffsetOfChar(s, i);
    DecodeDrop(s, i);
    OffsetWithin(s, i);
    hide ChunkLen, DecodeFirst;
    var consumed;
    cp, consumed := DecodeAt(s, offset);
  }

  // A character in front is the first of the result, a surrogate as U+FFFD.
  method StrCons(c: nat, s: seq<Byte>) returns (r: seq<Byte>)
    requires IsChar(c)
    ensures r == Encode(c) + s
    ensures DecodeAll(r) == [if 0xD800 <= c <= 0xDFFF then 0xFFFD else c] + DecodeAll(s)
  {
    hide Encode, ChunkLen, DecodeFirst;
    var bytes := EncodeIntoFresh(c);
    r := bytes + s;
    if IsScalar(c) { ScalarDecodes(c, s); } else { SurrogateDecodes(c, s); }
    assert r[|Encode(c)|..] == s;
  }

  method EncodeIntoFresh(c: nat) returns (bytes: seq<Byte>)
    requires IsChar(c)
    ensures bytes == Encode(c)
  {
    var out := new Byte[EncodeLen(c)](_ => 0);
    var n := EncodeInto(c, out, 0);
    bytes := out[..];
  }

  // The encoder writes its bytes at pos and says how many.
  method EncodeInto(cp: nat, out: array<Byte>, pos: nat) returns (n: nat)
    requires IsChar(cp) && pos + EncodeLen(cp) <= out.Length
    modifies out
    ensures n == EncodeLen(cp) && out[pos..pos + n] == Encode(cp)
    ensures forall i :: 0 <= i < out.Length && !(pos <= i < pos + n) ==> out[i] == old(out[i])
  {
    EncodeIs(cp);
    hide Encode, EncodeLen;
    if cp < 0x80 {
      out[pos] := cp;
      return 1;
    }
    if cp < 0x800 {
      out[pos] := 0xC0 + cp / 64;
      out[pos + 1] := 0x80 + cp % 64;
      return 2;
    }
    if cp < 0x10000 {
      out[pos] := 0xE0 + cp / 4096;
      out[pos + 1] := 0x80 + cp / 64 % 64;
      out[pos + 2] := 0x80 + cp % 64;
      return 3;
    }
    out[pos] := 0xF0 + cp / 262144;
    out[pos + 1] := 0x80 + cp / 4096 % 64;
    out[pos + 2] := 0x80 + cp / 64 % 64;
    out[pos + 3] := 0x80 + cp % 64;
    return 4;
  }

  lemma EncodeIs(cp: nat)
    requires IsChar(cp)
    ensures cp < 0x80 ==> Encode(cp) == [cp]
    ensures 0x80 <= cp < 0x800 ==> Encode(cp) == [0xC0 + cp / 64, 0x80 + cp % 64]
    ensures 0x800 <= cp < 0x10000 ==> Encode(cp) == [0xE0 + cp / 4096, 0x80 + cp / 64 % 64, 0x80 + cp % 64]
    ensures 0x10000 <= cp ==>
              Encode(cp) == [0xF0 + cp / 262144, 0x80 + cp / 4096 % 64, 0x80 + cp / 64 % 64, 0x80 + cp % 64]
    ensures |Encode(cp)| == EncodeLen(cp) <= 4
  {}

  // Concatenation of bytes; of characters exactly when nothing merges.
  method StrAppend(a: seq<Byte>, b: seq<Byte>) returns (r: seq<Byte>)
    ensures r == a + b
    ensures DecodeAll(r) == DecodeAll(a) + DecodeAll(b) <==> !Merges(a, b)
  {
    AppendDecodes(a, b);
    r := a + b;
  }

  function Slice(cps: seq<nat>, start: nat, len: nat): seq<nat> {
    var lo := Min(start, |cps|);
    cps[lo..lo + Min(len, |cps| - lo)]
  }

  lemma SliceIs(cps: seq<nat>, start: nat, len: nat)
    ensures var sub := Slice(cps, start, len);
            && |sub| == (if start + len <= |cps| then len else if start <= |cps| then |cps| - start else 0)
            && forall i :: 0 <= i < |sub| ==> sub[i] == cps[start + i]
  {}

  // Cutting at the offsets of characters start and start + len slices.
  lemma SliceDecodes(s: seq<Byte>, start: nat, len: nat)
    ensures var lo := OffsetOf(s, start);
            var n := OffsetOf(s[lo..], len);
            DecodeAll(s[lo..lo + n]) == Slice(DecodeAll(s), start, len)
  {
    hide DecodeAll, OffsetOf;
    var lo := OffsetOf(s, start);
    var t := s[lo..];
    DecodeDrop(s, start);
    DecodeTake(t, len);
    assert t[..OffsetOf(t, len)] == s[lo..lo + OffsetOf(t, len)];
  }

  // The slice of len characters from start; empty for a negative argument.
  method StrSubstr(start: int, len: int, s: seq<Byte>) returns (r: seq<Byte>)
    ensures DecodeAll(r) == if start < 0 || len < 0 then [] else Slice(DecodeAll(s), start, len)
    ensures start >= 0 && len >= 0 ==>
              var cps, sub := DecodeAll(s), DecodeAll(r);
              && |sub| == (if start + len <= |cps| then len else if start <= |cps| then |cps| - start else 0)
              && forall i :: 0 <= i < |sub| ==> sub[i] == cps[start + i]
  {
    hide *;
    if start < 0 || len < 0 {
      DecodeNothing();
      return [];
    }
    var startByte := ByteOffsetOfChar(s, start);
    var offset := WalkChars(s, startByte, len);
    SliceDecodes(s, start, len);
    SliceIs(DecodeAll(s), start, len);
    r := s[startByte..offset];
  }

  lemma DecodeNothing()
    ensures DecodeAll([]) == []
  {}

  // ---- reversal ----

  lemma {:induction false} OffsetNext(s: seq<Byte>, i: nat)
    requires OffsetOf(s, i) < |s|
    ensures OffsetOf(s, i + 1) == OffsetOf(s, i) + ChunkLen(s[OffsetOf(s, i)..])
  {
    hide ChunkLen;
    if i == 0 {
      assert s[0..] == s;
    } else {
      var k := ChunkLen(s);
      OffsetNext(s[k..], i - 1);
      assert s[k..][OffsetOf(s[k..], i - 1)..] == s[OffsetOf(s, i)..];
    }
  }

  lemma {:induction false} ChunkAt(s: seq<Byte>, i: nat)
    requires i < |Chunks(s)|
    ensures OffsetOf(s, i) <= OffsetOf(s, i + 1) <= |s|
    ensures Chunks(s)[i] == s[OffsetOf(s, i)..OffsetOf(s, i + 1)]
  {
    hide ChunkLen;
    var k := ChunkLen(s);
    if i == 0 {
      assert OffsetOf(s, 1) == k + OffsetOf(s[k..], 0);
    } else {
      ChunkAt(s[k..], i - 1);
    }
  }

  lemma ChunkCount(s: seq<Byte>)
    ensures |Chunks(s)| == |DecodeAll(s)|
  {
    ChunksOf(s);
  }

  // The start offsets of the characters, with the byte length at the end.
  method CharOffsets(s: seq<Byte>) returns (offsets: array<nat>)
    ensures fresh(offsets) && offsets.Length == |Chunks(s)| + 1
    ensures forall i :: 0 <= i < offsets.Length ==> offsets[i] == OffsetOf(s, i)
  {
    hide ChunkLen, DecodeFirst, OffsetOf, Chunks, DecodeAll;
    var n := Length(s);
    ChunkCount(s);
    offsets := new nat[n + 1];
    var offset := 0;
    OffsetWithin(s, 0);
    OffsetZero(s);
    for i := 0 to n
      invariant offset == OffsetOf(s, i)
      invariant forall j :: 0 <= j < i ==> offsets[j] == OffsetOf(s, j)
    {
      offsets[i] := offset;
      OffsetWithin(s, i);
      OffsetNext(s, i);
      var _, consumed := DecodeAt(s, offset);
      offset := offset + consumed;
    }
    OffsetWithin(s, n);
    offsets[n] := |s|;
  }

  lemma OffsetZero(s: seq<Byte>)
    ensures OffsetOf(s, 0) == 0
  {}

  // Two passes: the offsets, then whole characters copied from the last to the
  // first.
  method StrReverse(s: seq<Byte>) returns (r: seq<Byte>)
    ensures r == Concat(Reversed(Chunks(s)))
  {
    hide ChunkLen, OffsetOf, Chunks, Concat;
    var offsets := CharOffsets(s);
    ghost var cs := Chunks(s);
    var n := offsets.Length - 1;
    r := [];
    var i := n;
    assert cs[n..] == [] && Reversed(cs[n..]) == [];
    ConcatEmpty();
    while i > 0
      invariant 0 <= i <= n && r == Concat(Reversed(cs[i..]))
      invariant forall j :: 0 <= j < offsets.Length ==> offsets[j] == OffsetOf(s, j)
    {
      i := i - 1;
      ChunkAt(s, i);
      r := r + s[offsets[i]..offsets[i + 1]];
      ReversedFront(cs, i);
    }
    assert cs[0..] == cs;
  }

  lemma ConcatEmpty()
    ensures Concat([]) == []
  {}

  lemma ReversedFront(cs: seq<seq<Byte>>, i: nat)
    requires i < |cs|
    ensures Concat(Reversed(cs[i..])) == Concat(Reversed(cs[i + 1..])) + cs[i]
  {
    var one := [cs[i]];
    assert Reversed(cs[i..]) == Reversed(cs[i + 1..]) + one;
    ConcatAppend(Reversed(cs[i + 1..]), one);
    assert one[1..] == [];
    assert Concat(one) == cs[i];
  }

  // ---- packing and unpacking ----

  function PackedLen(cps: seq<nat>): nat {
    if cps == [] then 0 else EncodeLen(cps[0]) + PackedLen(cps[1..])
  }

  lemma {:induction false} PackedLenIs(cps: seq<nat>)
    requires AllChars(cps)
    ensures |EncodeAll(cps)| == PackedLen(cps)
  {
    if cps != [] { PackedLenIs(cps[1..]); }
  }

  // Measure, allocate, encode: the buffer is filled exactly.
  method FastPack(cps: seq<nat>) returns (r: seq<Byte>)
    requires AllChars(cps)
    ensures r == EncodeAll(cps)
  {
    hide Encode, EncodeLen, PackedLen, EncodeAll;
    var byteLen := MeasureChars(cps);
    PackedLenIs(cps);
    var out := new Byte[byteLen](_ => 0);
    var pos := 0;
    assert cps[0..] == cps;
    for i := 0 to |cps|
      invariant 0 <= pos && pos + PackedLen(cps[i..]) == byteLen == out.Length
      invariant out[..pos] + EncodeAll(cps[i..]) == EncodeAll(cps)
    {
      ghost var done := out[..pos];
      PackStep(cps, i);
      var n := EncodeInto(cps[i], out, pos);
      assert out[..pos + n] == done + Encode(cps[i]);
      assert done + (Encode(cps[i]) + EncodeAll(cps[i + 1..])) == out[..pos + n] + EncodeAll(cps[i + 1..]);
      pos := pos + n;
    }
    PackNothing(cps[|cps|..]);
    r := out[..];
  }

  lemma PackStep(cps: seq<nat>, i: nat)
    requires AllChars(cps) && i < |cps|
    ensures PackedLen(cps[i..]) == EncodeLen(cps[i]) + PackedLen(cps[i + 1..])
    ensures AllChars(cps[i..]) && AllChars(cps[i + 1..])
    ensures EncodeAll(cps[i..]) == Encode(cps[i]) + EncodeAll(cps[i + 1..])
  {
    hide Encode, EncodeLen;
    assert cps[i..][1..] == cps[i + 1..];
  }

  lemma PackNothing(cps: seq<nat>)
    requires cps == []
    ensures PackedLen(cps) == 0 && EncodeAll(cps) == []
  {}

  method MeasureChars(cps: seq<nat>) returns (n: nat)
    ensures n == PackedLen(cps)
  {
    n := 0;
    assert cps[0..] == cps;
    for i := 0 to |cps|
      invariant n + PackedLen(cps[i..]) == PackedLen(cps)
    {
      assert cps[i..][1..] == cps[i + 1..];
      n := n + EncodeLen(cps[i]);
    }
  }

  // The list cells in order, one character each.
  method Unpack(s: seq<Byte>) returns (cps: seq<nat>)
    ensures cps == DecodeAll(s)
  {
    hide ChunkLen, DecodeFirst;
    cps := [];
    var offset := 0;
    assert s[0..] == s;
    while offset < |s|
      invariant offset <= |s| && cps + DecodeAll(s[offset..]) == DecodeAll(s)
      decreases |s| - offset
    {
      var cp, consumed := DecodeAt(s, offset);
      assert s[offset..][consumed..] == s[offset + consumed..];
      cps := cps + [cp];
      offset := offset + consumed;
    }
    assert s[offset..] == [];
  }

  // ---- iterators ----

  // What a C reader of the same bytes sees: those before the first NUL.
  function UpToNul(s: seq<Byte>): (u: seq<Byte>)
    ensures u <= s && 0 !in u && (|u| < |s| ==> s[|u|] == 0)
  {
    if s == [] || s[0] == 0 then [] else [s[0]] + UpToNul(s[1..])
  }

  // A byte of the string as it lies in memory, with its terminator.
  function ByteAt(s: seq<Byte>, i: nat): Byte { if i < |s| then s[i] else 0 }

  // Decoding without the length: at most four bytes, none past a NUL.
  method DecodeAtNul(s: seq<Byte>, offset: nat) returns (cp: nat, consumed: nat)
    requires ByteAt(s, offset) != 0
    ensures var u := UpToNul(s[offset..]); u != [] && cp == DecodeFirst(u) && consumed == ChunkLen(u)
  {
    ghost var u := UpToNul(s[offset..]);
    var avail := 1;
    while avail < 4 && ByteAt(s, offset + avail - 1) != 0 && ByteAt(s, offset + avail) != 0
      invariant 1 <= avail <= 4 && avail <= |u|
    {
      avail := avail + 1;
    }
    assert u[..avail] == s[offset..offset + avail];
    ChunkCut(u, avail);
    assert s[offset..offset + avail][0..] == s[offset..offset + avail];
    cp, consumed := DecodeAt(s[offset..offset + avail], 0);
  }

  datatype Step = Done | Char(cp: nat, next: nat)

  // One step of an iterator that has no length: the next character before the
  // first NUL.
  method IteratorNext(s: seq<Byte>, pos: nat) returns (r: Step)
    requires pos <= |s|
    ensures var rest := DecodeAll(UpToNul(s[pos..]));
            match r
            case Done => rest == []
            case Char(cp, next) => pos < next <= |s| && rest == [cp] + DecodeAll(UpToNul(s[next..]))
  {
    hide ChunkLen, DecodeFirst, UpToNul;
    if ByteAt(s, pos) == 0 {
      NothingBeforeNul(s, pos);
      return Done;
    }
    var cp, consumed := DecodeAtNul(s, pos);
    RestUpToNul(s[pos..], consumed);
    assert s[pos..][consumed..] == s[pos + consumed..];
    r := Char(cp, pos + consumed);
  }

  lemma NothingBeforeNul(s: seq<Byte>, pos: nat)
    requires pos <= |s| && ByteAt(s, pos) == 0
    ensures UpToNul(s[pos..]) == []
  {}

  lemma {:induction false} RestUpToNul(s: seq<Byte>, k: nat)
    requires k <= |UpToNul(s)|
    ensures UpToNul(s[k..]) == UpToNul(s)[k..]
  {
    if k > 0 {
      RestUpToNul(s[1..], k - 1);
      assert s[1..][k - 1..] == s[k..];
    } else {
      assert s[0..] == s;
    }
  }

  // One step of the iterator that is given the length.
  method IteratorNextFixed(s: seq<Byte>, pos: nat) returns (r: Step)
    requires pos <= |s|
    ensures var rest := DecodeAll(s[pos..]);
            match r
            case Done => rest == []
            case Char(cp, next) => pos < next <= |s| && rest == [cp] + DecodeAll(s[next..])
  {
    hide ChunkLen, DecodeFirst;
    if pos >= |s| {
      return Done;
    }
    var cp, consumed := DecodeAt(s, pos);
    assert s[pos..][consumed..] == s[pos + consumed..];
    r := Char(cp, pos + consumed);
  }

  // Both walks see the same characters exactly when no byte is NUL.
  lemma IteratorsAgree(s: seq<Byte>)
    ensures DecodeAll(UpToNul(s)) == DecodeAll(s) <==> 0 !in s
  {
    var u := UpToNul(s);
    if 0 in s {
      var rest := s[|u|..];
      assert s == u + rest && rest != [] && !IsContinuation(rest[0]);
      AppendDecodes(u, rest);
      assert DecodeAll(rest) != [];
    } else {
      assert u == s;
    }
  }

  // ---- comparison ----

  // memcmp over the first n bytes.
  method Memcmp(a: seq<Byte>, b: seq<Byte>, n: nat) returns (c: int)
    requires n <= |a| && n <= |b|
    ensures c == 0 <==> a[..n] == b[..n]
    ensures c < 0 ==> exists i: nat :: DiffersBelow(a[..n], b[..n], i)
    ensures c > 0 ==> exists i: nat :: DiffersBelow(b[..n], a[..n], i)
  {
    var i := 0;
    while i < n
      invariant 0 <= i <= n && a[..i] == b[..i]
    {
      if a[i] != b[i] {
        assert a[..n][..i] == a[..i] && b[..n][..i] == b[..i];
        assert a[..n][i] != b[..n][i];
        if a[i] < b[i] {
          assert DiffersBelow(a[..n], b[..n], i);
          return -1;
        } else {
          assert DiffersBelow(b[..n], a[..n], i);
          return 1;
        }
      }
      i := i + 1;
    }
    c := 0;
  }

  // Lexicographic order, of bytes and of characters.
  predicate Before(x: seq<int>, y: seq<int>) {
    y != [] && (x == [] || x[0] < y[0] || (x[0] == y[0] && Before(x[1..], y[1..])))
  }

  lemma {:induction false} BeforeTotal(x: seq<int>, y: seq<int>)
    ensures x == y || Before(x, y) || Before(y, x)
    ensures !(Before(x, y) && Before(y, x)) && !(x == y && Before(x, y))
  {
    if x != [] && y != [] {
      BeforeTotal(x[1..], y[1..]);
      assert x == [x[0]] + x[1..] && y == [y[0]] + y[1..];
    }
  }

  // A first difference at i decides.
  lemma {:induction false} BeforeAt(a: seq<int>, b: seq<int>, i: nat)
    requires i < |a| && i < |b| && a[..i] == b[..i] && a[i] < b[i]
    ensures Before(a, b)
  {
    if i > 0 {
      assert a[0] == a[..i][0] && b[0] == b[..i][0];
      assert a[1..][..i - 1] == a[..i][1..] && b[1..][..i - 1] == b[..i][1..];
      BeforeAt(a[1..], b[1..], i - 1);
    }
  }

  lemma {:induction false} ProperPrefixBefore(a: seq<int>, b: seq<int>)
    requires |a| < |b| && b[..|a|] == a
    ensures Before(a, b)
  {
    if a != [] {
      assert b[0] == b[..|a|][0];
      assert b[1..][..|a| - 1] == b[..|a|][1..];
      ProperPrefixBefore(a[1..], b[1..]);
    }
  }

  // x comes before y where it ends first or has the smaller element.
  lemma {:induction false} BeforeIs(x: seq<int>, y: seq<int>)
    ensures Before(x, y) <==> exists i :: 0 <= i <= |x| && i < |y| && x[..i] == y[..i] && (i == |x| || x[i] < y[i])
  {
    if Before(x, y) {
      var i := FirstDifference(x, y);
    }
    if i :| 0 <= i <= |x| && i < |y| && x[..i] == y[..i] && (i == |x| || x[i] < y[i]) {
      if i == |x| {
        assert y[..|x|] == x;
        ProperPrefixBefore(x, y);
      } else {
        BeforeAt(x, y, i);
      }
    }
  }

  lemma {:induction false} FirstDifference(x: seq<int>, y: seq<int>) returns (i: nat)
    requires Before(x, y)
    ensures i <= |x| && i < |y| && x[..i] == y[..i] && (i == |x| || x[i] < y[i])
  {
    i := 0;
    if x != [] && x[0] == y[0] {
      var j := FirstDifference(x[1..], y[1..]);
      i := j + 1;
      assert x[..i] == [x[0]] + x[1..][..j] && y[..i] == [y[0]] + y[1..][..j];
    }
  }

  // strcmp3: bytes over the shorter length, then the lengths. Its sign is the
  // lexicographic order of the bytes.
  method StrCmp3(a: seq<Byte>, b: seq<Byte>) returns (c: int)
    ensures c < 0 <==> Before(a, b)
    ensures c == 0 <==> a == b
    ensures c > 0 <==> Before(b, a)
    ensures c < 0 <==> exists i :: 0 <= i <= |a| && i < |b| && a[..i] == b[..i] && (i == |a| || a[i] < b[i])
  {
    BeforeTotal(a, b);
    BeforeIs(a, b);
    var n := Min(|a|, |b|);
    c := Memcmp(a, b, n);
    if c < 0 {
      ghost var i: nat :| DiffersBelow(a[..n], b[..n], i);
      assert a[..n][..i] == a[..i] && b[..n][..i] == b[..i];
      BeforeAt(a, b, i);
      return;
    }
    if c > 0 {
      ghost var i: nat :| DiffersBelow(b[..n], a[..n], i);
      assert a[..n][..i] == a[..i] && b[..n][..i] == b[..i];
      BeforeAt(b, a, i);
      return;
    }
    assert a[..|a|] == a && b[..|b|] == b;
    if |a| < |b| {
      ProperPrefixBefore(a, b);
    } else if |b| < |a| {
      ProperPrefixBefore(b, a);
    }
    c := (if |a| > |b| then 1 else 0) - (if |a| < |b| then 1 else 0);
  }

  lemma {:induction false} CommonPrefix(e: seq<int>, a: seq<int>, b: seq<int>)
    requires Before(a, b)
    ensures Before(e + a, e + b)
  {
    if e == [] {
      assert e + a == a && e + b == b;
    } else {
      CommonPrefix(e[1..], a, b);
      assert (e + a)[1..] == e[1..] + a && (e + b)[1..] == e[1..] + b;
    }
  }

  // Encoding keeps the order of character sequences.
  lemma {:induction false} EncodeAllOrder(x: seq<nat>, y: seq<nat>)
    requires AllChars(x) && AllChars(y) && Before(x, y)
    ensures Before(EncodeAll(x), EncodeAll(y))
  {
    hide Encode;
    if x == [] {
      EncodeNonEmpty(y);
    } else if x[0] < y[0] {
      var i := EncodeOrder(x[0], y[0]);
      var e, f := Encode(x[0]), Encode(y[0]);
      var s, t := EncodeAll(x), EncodeAll(y);
      assert s[..i] == e[..i] && t[..i] == f[..i];
      BeforeAt(s, t, i);
    } else {
      EncodeAllOrder(x[1..], y[1..]);
      CommonPrefix(Encode(x[0]), EncodeAll(x[1..]), EncodeAll(y[1..]));
    }
  }

  lemma EncodeNonEmpty(y: seq<nat>)
    requires AllChars(y) && y != []
    ensures EncodeAll(y) != [] && EncodeAll([]) == []
  {}

  // For well-formed strings the byte order is the order of their code points.
  lemma CompareIsCodePointOrder(a: seq<Byte>, b: seq<Byte>)
    requires WellFormed(a) && WellFormed(b)
    ensures Before(a, b) <==> Before(DecodeAll(a), DecodeAll(b))
    ensures a == b <==> DecodeAll(a) == DecodeAll(b)
  {
    hide WellFormed, DecodeAll, EncodeAll, Before;
    var x, y := DecodeAll(a), DecodeAll(b);
    PackUnpacked(a);
    PackUnpacked(b);
    BeforeTotal(x, y);
    BeforeTotal(a, b);
    if Before(x, y) {
      EncodeAllOrder(x, y);
    } else if Before(y, x) {
      EncodeAllOrder(y, x);
    }
  }
}
