// The UTF-8 codec: decoding of any bytes, encoding, the grammar of RFC 3629,
// and the laws that join them.
module Utf8 {

  type Byte = b: int | 0 <= b < 256

  const REPLACEMENT: nat := 0xFFFD

  // ---- byte classes; the masks of the source, read as ranges ----

  predicate IsContinuation(b: Byte) { 0x80 <= b < 0xC0 }

  // The length a lead byte claims; 0 if it cannot lead.
  function LeadByteLen(b: Byte): nat {
    if b < 0x80 then 1
    else if 0xC0 <= b < 0xE0 then 2
    else if 0xE0 <= b < 0xF0 then 3
    else if 0xF0 <= b <= 0xF4 then 4
    else 0
  }

  lemma ByteMasks(b: bv8)
    ensures b & 0xC0 == 0x80 <==> 0x80 <= b < 0xC0
    ensures b & 0x80 == 0x00 <==> b < 0x80
    ensures b & 0xE0 == 0xC0 <==> 0xC0 <= b < 0xE0
    ensures b & 0xF0 == 0xE0 <==> 0xE0 <= b < 0xF0
  {}

  lemma PayloadMasks(cp: bv32, b: bv32)
    requires cp < 0x8000 && b < 0x100
    ensures (cp << 6) | (b & 0x3F) == cp * 64 + b % 64
    ensures b & 0x1F == b % 32 && b & 0x0F == b % 16 && b & 0x07 == b % 8
  {}

  function Smallest(n: nat): nat {
    if n == 2 then 0x80 else if n == 3 then 0x800 else if n == 4 then 0x10000 else 0
  }

  predicate IsScalar(cp: nat) { cp <= 0x10FFFF && (cp < 0xD800 || cp > 0xDFFF) }

  predicate IsScalarOfLen(cp: nat, n: nat) { cp >= Smallest(n) && IsScalar(cp) }

  // ---- one chunk ----

  // Continuation bytes at the front of t, at most m.
  function ContinuationRun(t: seq<Byte>, m: nat): (r: nat)
    ensures r <= m && r <= |t|
    ensures forall i :: 0 <= i < r ==> IsContinuation(t[i])
    ensures r < m && r < |t| ==> !IsContinuation(t[r])
  {
    if m == 0 || t == [] || !IsContinuation(t[0]) then 0 else 1 + ContinuationRun(t[1..], m - 1)
  }

  // The bytes one decoding step consumes.
  function ChunkLen(s: seq<Byte>): (k: nat)
    requires s != []
    ensures 1 <= k <= |s| && k <= 4
  {
    var n := LeadByteLen(s[0]);
    if n == 0 then 1 else 1 + ContinuationRun(s[1..], n - 1)
  }

  function LeadPayload(b: Byte, n: nat): nat {
    if n == 1 then b else if n == 2 then b % 32 else if n == 3 then b % 16 else b % 8
  }

  // The payload bits of a lead byte and the continuation bytes after it.
  function Payload(s: seq<Byte>, n: nat, k: nat): nat
    requires 1 <= k <= |s|
  {
    if k == 1 then LeadPayload(s[0], n) else Payload(s, n, k - 1) * 64 + s[k - 1] % 64
  }

  // The code point one decoding step gives.
  function DecodeFirst(s: seq<Byte>): (cp: nat)
    requires s != []
    ensures IsScalar(cp)
  {
    var n := LeadByteLen(s[0]);
    var k := ChunkLen(s);
    if n == 0 || k < n || !IsScalarOfLen(Payload(s, n, k), n) then REPLACEMENT else Payload(s, n, k)
  }

  // All code points of a byte string, well formed or not.
  function DecodeAll(s: seq<Byte>): (cps: seq<nat>)
    ensures |cps| <= |s|
    ensures forall i :: 0 <= i < |cps| ==> IsScalar(cps[i])
  {
    if s == [] then [] else [DecodeFirst(s)] + DecodeAll(s[ChunkLen(s)..])
  }

  // The byte offset of character i, or the end.
  function OffsetOf(s: seq<Byte>, i: nat): (o: nat)
    ensures o <= |s|
  {
    if i == 0 || s == [] then 0 else ChunkLen(s) + OffsetOf(s[ChunkLen(s)..], i - 1)
  }

  // ---- encoding ----

  predicate IsChar(cp: nat) { cp <= 0x10FFFF }

  function EncodeLen(cp: nat): nat {
    if cp < 0x80 then 1 else if cp < 0x800 then 2 else if cp < 0x10000 then 3 else 4
  }

  function Encode(cp: nat): (bs: seq<Byte>)
    requires IsChar(cp)
    ensures |bs| == EncodeLen(cp)
  {
    if cp < 0x80 then [cp]
    else if cp < 0x800 then [0xC0 + cp / 64, 0x80 + cp % 64]
    else if cp < 0x10000 then [0xE0 + cp / 4096, 0x80 + cp / 64 % 64, 0x80 + cp % 64]
    else [0xF0 + cp / 262144, 0x80 + cp / 4096 % 64, 0x80 + cp / 64 % 64, 0x80 + cp % 64]
  }

  lemma EncodeMasks(cp: bv32)
    requires cp <= 0x10FFFF
    ensures cp < 0x800 ==> 0xC0 | (cp >> 6) == 0xC0 + cp / 64
    ensures cp < 0x10000 ==> 0xE0 | (cp >> 12) == 0xE0 + cp / 4096
    ensures 0xF0 | (cp >> 18) == 0xF0 + cp / 262144
    ensures 0x80 | (cp & 0x3F) == 0x80 + cp % 64
    ensures 0x80 | ((cp >> 6) & 0x3F) == 0x80 + cp / 64 % 64
    ensures 0x80 | ((cp >> 12) & 0x3F) == 0x80 + cp / 4096 % 64
  {}

  predicate AllChars(cps: seq<nat>) { forall i :: 0 <= i < |cps| ==> IsChar(cps[i]) }
  predicate AllScalars(cps: seq<nat>) { forall i :: 0 <= i < |cps| ==> IsScalar(cps[i]) }

  function EncodeAll(cps: seq<nat>): seq<Byte>
    requires AllChars(cps)
  {
    if cps == [] then [] else Encode(cps[0]) + EncodeAll(cps[1..])
  }

  // ---- the grammar of RFC 3629, section 4 ----

  predicate Tail(b: Byte) { 0x80 <= b <= 0xBF }

  predicate IsUtf8Char(s: seq<Byte>) {
    || (|s| == 1 && s[0] <= 0x7F)
    || (|s| == 2 && 0xC2 <= s[0] <= 0xDF && Tail(s[1]))
    || (|s| == 3 && s[0] == 0xE0 && 0xA0 <= s[1] <= 0xBF && Tail(s[2]))
    || (|s| == 3 && 0xE1 <= s[0] <= 0xEC && Tail(s[1]) && Tail(s[2]))
    || (|s| == 3 && s[0] == 0xED && 0x80 <= s[1] <= 0x9F && Tail(s[2]))
    || (|s| == 3 && 0xEE <= s[0] <= 0xEF && Tail(s[1]) && Tail(s[2]))
    || (|s| == 4 && s[0] == 0xF0 && 0x90 <= s[1] <= 0xBF && Tail(s[2]) && Tail(s[3]))
    || (|s| == 4 && 0xF1 <= s[0] <= 0xF3 && Tail(s[1]) && Tail(s[2]) && Tail(s[3]))
    || (|s| == 4 && s[0] == 0xF4 && 0x80 <= s[1] <= 0x8F && Tail(s[2]) && Tail(s[3]))
  }

  ghost predicate WellFormed(s: seq<Byte>) {
    s == [] || exists n :: 1 <= n <= 4 && n <= |s| && IsUtf8Char(s[..n]) && WellFormed(s[n..])
  }

  // ---- cutting at chunk boundaries ----

  function Min(a: nat, b: nat): nat { if a <= b then a else b }

  lemma {:induction false} ContinuationRunCut(t: seq<Byte>, m: nat, j: nat)
    requires ContinuationRun(t, m) <= j <= |t|
    ensures ContinuationRun(t[..j], m) == ContinuationRun(t, m)
  {
    if !(m == 0 || t == [] || !IsContinuation(t[0])) {
      ContinuationRunCut(t[1..], m - 1, j - 1);
      assert t[..j][1..] == t[1..][..j - 1];
    }
  }

  lemma {:induction false} PayloadPrefix(s: seq<Byte>, t: seq<Byte>, n: nat, k: nat)
    requires 1 <= k <= |s| && k <= |t| && s[..k] == t[..k]
    ensures Payload(s, n, k) == Payload(t, n, k)
  {
    assert s[0] == s[..k][0] && t[0] == t[..k][0];
    if k > 1 {
      assert s[k - 1] == s[..k][k - 1] && t[k - 1] == t[..k][k - 1];
      assert s[..k - 1] == s[..k][..k - 1] && t[..k - 1] == t[..k][..k - 1];
      PayloadPrefix(s, t, n, k - 1);
    }
  }

  // A chunk decodes the same when what follows it is cut away.
  lemma ChunkCut(s: seq<Byte>, j: nat)
    requires s != [] && ChunkLen(s) <= j <= |s|
    ensures ChunkLen(s[..j]) == ChunkLen(s) && DecodeFirst(s[..j]) == DecodeFirst(s)
  {
    var n := LeadByteLen(s[0]);
    if n > 0 {
      assert s[..j][1..] == s[1..][..j - 1];
      ContinuationRunCut(s[1..], n - 1, j - 1);
    }
    var k := ChunkLen(s);
    assert s[..j][..k] == s[..k];
    PayloadPrefix(s[..j], s, n, k);
  }

  lemma {:induction false} OffsetWithin(s: seq<Byte>, i: nat)
    ensures OffsetOf(s, i) == |s| <==> i >= |DecodeAll(s)|
  {
    if i > 0 && s != [] { OffsetWithin(s[ChunkLen(s)..], i - 1); }
  }

  // From the offset of character i on, the text is the characters from i on.
  lemma {:induction false} DecodeDrop(s: seq<Byte>, i: nat)
    ensures DecodeAll(s[OffsetOf(s, i)..]) == DecodeAll(s)[Min(i, |DecodeAll(s)|)..]
  {
    hide ChunkLen, DecodeFirst, ContinuationRun, Payload, LeadByteLen;
    if i > 0 && s != [] {
      var k := ChunkLen(s);
      DecodeDrop(s[k..], i - 1);
      assert s[k..][OffsetOf(s[k..], i - 1)..] == s[OffsetOf(s, i)..];
    } else {
      assert s[0..] == s;
    }
  }

  // Up to that offset, the characters before i.
  lemma {:induction false} DecodeTake(s: seq<Byte>, i: nat)
    ensures DecodeAll(s[..OffsetOf(s, i)]) == DecodeAll(s)[..Min(i, |DecodeAll(s)|)]
  {
    hide ChunkLen, DecodeFirst, ContinuationRun, Payload, LeadByteLen;
    if i > 0 && s != [] {
      var k := ChunkLen(s);
      var o := OffsetOf(s, i);
      DecodeTake(s[k..], i - 1);
      ChunkCut(s, o);
      assert s[..o][k..] == s[k..][..o - k];
    }
  }

  // ---- strings as sequences of chunks ----

  predicate IsChunk(c: seq<Byte>) { c != [] && ChunkLen(c) == |c| }

  // A chunk whose lead byte claims more continuation bytes than it has.
  predicate Open(c: seq<Byte>)
    requires c != []
  {
    |c| < LeadByteLen(c[0])
  }

  ghost predicate AllChunks(cs: seq<seq<Byte>>) { forall i :: 0 <= i < |cs| ==> IsChunk(cs[i]) }

  function Concat(cs: seq<seq<Byte>>): seq<Byte> {
    if cs == [] then [] else cs[0] + Concat(cs[1..])
  }

  function Chunks(s: seq<Byte>): (cs: seq<seq<Byte>>) {
    if s == [] then [] else [s[..ChunkLen(s)]] + Chunks(s[ChunkLen(s)..])
  }

  function DecodeChunks(cs: seq<seq<Byte>>): (cps: seq<nat>)
    requires forall i :: 0 <= i < |cs| ==> cs[i] != []
    ensures |cps| == |cs|
  {
    seq(|cs|, i requires 0 <= i < |cs| => DecodeFirst(cs[i]))
  }

  // No chunk would swallow the start of the next one.
  ghost predicate Joins(cs: seq<seq<Byte>>)
    requires AllChunks(cs)
  {
    forall i :: 0 <= i < |cs| - 1 ==> !(Open(cs[i]) && IsContinuation(cs[i + 1][0]))
  }

  lemma {:induction false} RunThen(t: seq<Byte>, m: nat, u: seq<Byte>)
    requires ContinuationRun(t, m) == |t|
    ensures ContinuationRun(t + u, m) == |t| + ContinuationRun(u, m - |t|)
  {
    if t == [] {
      assert t + u == u;
    } else {
      assert (t + u)[1..] == t[1..] + u;
      RunThen(t[1..], m - 1, u);
    }
  }

  // A chunk followed by more bytes.
  lemma ChunkThenLen(c: seq<Byte>, t: seq<Byte>)
    requires IsChunk(c)
    ensures ChunkLen(c + t) == |c| + if Open(c) then ContinuationRun(t, LeadByteLen(c[0]) - |c|) else 0
  {
    hide LeadByteLen, ContinuationRun;
    var n := LeadByteLen(c[0]);
    if n > 0 {
      assert (c + t)[1..] == c[1..] + t;
      RunThen(c[1..], n - 1, t);
      RunOfNone(t);
    }
  }

  lemma RunOfNone(t: seq<Byte>)
    ensures ContinuationRun(t, 0) == 0
    ensures t == [] || !IsContinuation(t[0]) ==> forall m: nat :: ContinuationRun(t, m) == 0
  {}

  lemma ChunkThen(c: seq<Byte>, t: seq<Byte>)
    requires IsChunk(c)
    ensures ChunkLen(c + t) == |c| + if Open(c) then ContinuationRun(t, LeadByteLen(c[0]) - |c|) else 0
    ensures !(Open(c) && t != [] && IsContinuation(t[0])) ==> ChunkLen(c + t) == |c| && DecodeFirst(c + t) == DecodeFirst(c)
  {
    ChunkThenLen(c, t);
    RunOfNone(t);
    hide ChunkLen, DecodeFirst, ContinuationRun, LeadByteLen;
    if ChunkLen(c + t) == |c| {
      assert (c + t)[..|c|] == c;
      ChunkCut(c + t, |c|);
    }
  }

  lemma {:induction false} ConcatFirst(cs: seq<seq<Byte>>)
    requires AllChunks(cs) && cs != []
    ensures Concat(cs) != [] && Concat(cs)[0] == cs[0][0]
  {}

  // A front of m continuation bytes is m stray chunks.
  lemma {:induction false} StrayFront(cs: seq<seq<Byte>>, m: nat)
    requires AllChunks(cs) && m <= |Concat(cs)|
    requires forall i :: 0 <= i < m ==> IsContinuation(Concat(cs)[i])
    ensures m <= |cs| && Concat(cs)[m..] == Concat(cs[m..])
  {
    if m == 0 {
      assert cs[0..] == cs;
    } else {
      ConcatFirst(cs);
      assert IsContinuation(Concat(cs)[0]);
      assert |cs[0]| == 1;
      var rest := cs[1..];
      assert Concat(cs) == cs[0] + Concat(rest);
      forall i | 0 <= i < m - 1 ensures IsContinuation(Concat(rest)[i]) {
        assert Concat(rest)[i] == Concat(cs)[i + 1];
      }
      StrayFront(rest, m - 1);
      assert rest[m - 1..] == cs[m..];
      assert Concat(cs)[m..] == Concat(rest)[m - 1..];
    }
  }

  lemma {:induction false} JoinsTail(cs: seq<seq<Byte>>)
    requires AllChunks(cs) && cs != []
    ensures AllChunks(cs[1..])
    ensures Joins(cs) <==> Joins(cs[1..]) && (|cs| > 1 ==> !(Open(cs[0]) && IsContinuation(cs[1][0])))
  {
    var rest := cs[1..];
    assert forall i :: 0 <= i < |rest| ==> rest[i] == cs[i + 1];
    if Joins(cs) {
      forall i | 0 <= i < |rest| - 1 ensures !(Open(rest[i]) && IsContinuation(rest[i + 1][0])) {
        assert !(Open(cs[i + 1]) && IsContinuation(cs[i + 2][0]));
      }
    }
    if Joins(rest) && (|cs| > 1 ==> !(Open(cs[0]) && IsContinuation(cs[1][0]))) {
      forall i | 0 <= i < |cs| - 1 ensures !(Open(cs[i]) && IsContinuation(cs[i + 1][0])) {
        if i > 0 { assert !(Open(rest[i - 1]) && IsContinuation(rest[i][0])); }
      }
    }
  }

  lemma JoinsEmpty()
    ensures Joins([])
  {}

  // Chunks put side by side decode one by one when they join, and to fewer
  // characters when they do not.
  lemma {:induction false} ConcatDecodes(cs: seq<seq<Byte>>)
    requires AllChunks(cs)
    ensures Joins(cs) ==> DecodeAll(Concat(cs)) == DecodeChunks(cs)
    ensures |DecodeAll(Concat(cs))| <= |cs|
    ensures !Joins(cs) ==> |DecodeAll(Concat(cs))| < |cs|
    decreases |cs|
  {
    hide ChunkLen, DecodeFirst, ContinuationRun, Payload, LeadByteLen, Joins, IsContinuation, Open;
    if cs == [] {
      JoinsEmpty();
    } else {
      var c, rest := cs[0], cs[1..];
      var t := Concat(rest);
      JoinsTail(cs);
      ConcatDecodes(rest);
      ChunkThen(c, t);
      if rest != [] { ConcatFirst(rest); }
      if Open(c) && t != [] && IsContinuation(t[0]) {
        SwallowedChunks(c, rest);
      } else {
        assert (c + t)[|c|..] == t;
        assert DecodeChunks(cs) == [DecodeFirst(c)] + DecodeChunks(rest);
      }
    }
  }

  lemma {:induction false} SwallowedChunks(c: seq<Byte>, rest: seq<seq<Byte>>)
    requires IsChunk(c) && AllChunks(rest) && Open(c)
    requires Concat(rest) != [] && IsContinuation(Concat(rest)[0])
    ensures |DecodeAll(c + Concat(rest))| < 1 + |rest|
    decreases |rest|, 0
  {
    hide ChunkLen, DecodeFirst, Payload, LeadByteLen, Joins, IsContinuation, Concat;
    var t := Concat(rest);
    var m := ContinuationRun(t, LeadByteLen(c[0]) - |c|);
    ChunkThen(c, t);
    StrayFront(rest, m);
    ConcatDecodes(rest[m..]);
    assert (c + t)[|c| + m..] == t[m..];
  }

  // A string is the concatenation of its chunks.
  lemma {:induction false} ChunksOf(s: seq<Byte>)
    ensures AllChunks(Chunks(s)) && Concat(Chunks(s)) == s
    ensures DecodeChunks(Chunks(s)) == DecodeAll(s)
    ensures s != [] ==> Chunks(s) != [] && Chunks(s)[0][0] == s[0]
  {
    hide ChunkLen, DecodeFirst, IsChunk, DecodeChunks;
    if s == [] {
      assert DecodeChunks([]) == [];
    } else {
      var k := ChunkLen(s);
      var rest := s[k..];
      ChunkCut(s, k);
      ChunksOf(rest);
      FirstIsChunk(s);
      ChunksCons(s[..k], Chunks(rest));
      assert s == s[..k] + rest;
      assert [s[..k]] + Chunks(rest) == Chunks(s);
    }
  }

  lemma ChunksCons(c: seq<Byte>, cs: seq<seq<Byte>>)
    requires IsChunk(c) && AllChunks(cs)
    ensures AllChunks([c] + cs) && Concat([c] + cs) == c + Concat(cs)
    ensures DecodeChunks([c] + cs) == [DecodeFirst(c)] + DecodeChunks(cs)
  {
    hide ChunkLen, DecodeFirst;
    assert ([c] + cs)[1..] == cs;
  }

  lemma FirstIsChunk(s: seq<Byte>)
    requires s != []
    ensures IsChunk(s[..ChunkLen(s)])
  {
    ChunkCut(s, ChunkLen(s));
  }

  lemma ChunksJoin(s: seq<Byte>)
    ensures AllChunks(Chunks(s)) && Joins(Chunks(s))
  {
    ChunksOf(s);
    ConcatDecodes(Chunks(s));
  }

  lemma {:induction false} ConcatAppend(a: seq<seq<Byte>>, b: seq<seq<Byte>>)
    ensures Concat(a + b) == Concat(a) + Concat(b)
  {
    if a == [] {
      assert a + b == b;
    } else {
      assert (a + b)[1..] == a[1..] + b;
      ConcatAppend(a[1..], b);
    }
  }

  // Whether the last character of a would swallow the front of b.
  ghost predicate Merges(a: seq<Byte>, b: seq<Byte>) {
    a != [] && b != [] && IsContinuation(b[0]) &&
    (var cs := Chunks(a); cs != [] && cs[|cs| - 1] != [] && Open(cs[|cs| - 1]))
  }

  lemma JoinsAppend(cs: seq<seq<Byte>>, ds: seq<seq<Byte>>)
    requires AllChunks(cs) && AllChunks(ds) && Joins(cs) && Joins(ds)
    ensures AllChunks(cs + ds)
    ensures Joins(cs + ds) <==> cs == [] || ds == [] || !(Open(cs[|cs| - 1]) && IsContinuation(ds[0][0]))
  {
    var all := cs + ds;
    if cs != [] && ds != [] {
      assert all[|cs| - 1] == cs[|cs| - 1] && all[|cs| - 1 + 1] == ds[0];
    }
    forall i | 0 <= i < |all| - 1 && i != |cs| - 1
      ensures !(Open(all[i]) && IsContinuation(all[i + 1][0]))
    {
      if i < |cs| - 1 {
        assert all[i] == cs[i] && all[i + 1] == cs[i + 1];
      } else {
        assert all[i] == ds[i - |cs|] && all[i + 1] == ds[i - |cs| + 1];
      }
    }
  }

  // Appending bytes appends characters exactly when no chunk merges across
  // the seam.
  lemma AppendDecodes(a: seq<Byte>, b: seq<Byte>)
    ensures DecodeAll(a + b) == DecodeAll(a) + DecodeAll(b) <==> !Merges(a, b)
  {
    hide ChunkLen, DecodeFirst, Joins, Open, IsContinuation, DecodeAll, Concat, Chunks;
    var cs, ds := Chunks(a), Chunks(b);
    ChunksOf(a);
    ChunksOf(b);
    ChunksJoin(a);
    ChunksJoin(b);
    JoinsAppend(cs, ds);
    ConcatAppend(cs, ds);
    ConcatDecodes(cs + ds);
    assert DecodeChunks(cs + ds) == DecodeChunks(cs) + DecodeChunks(ds);
    ConcatOfNone(cs, a);
    ConcatOfNone(ds, b);
  }

  lemma ConcatOfNone(cs: seq<seq<Byte>>, s: seq<Byte>)
    requires AllChunks(cs) && Concat(cs) == s
    ensures cs == [] <==> s == []
  {
    if cs != [] { ConcatFirst(cs); }
  }

  // ---- reversal ----

  function Reversed<T>(s: seq<T>): (r: seq<T>)
    ensures |r| == |s| && forall i :: 0 <= i < |s| ==> r[i] == s[|s| - 1 - i]
  {
    seq(|s|, i requires 0 <= i < |s| => s[|s| - 1 - i])
  }

  // Reversing chunk by chunk reverses the characters exactly when no unfinished
  // chunk follows a stray continuation byte.
  lemma ReverseDecodes(s: seq<Byte>)
    ensures var cs := Chunks(s);
            && (forall i :: 0 <= i < |cs| ==> cs[i] != [])
            && (DecodeAll(Concat(Reversed(cs))) == Reversed(DecodeAll(s))
                <==> forall i :: 0 < i < |cs| ==> !(IsContinuation(cs[i - 1][0]) && Open(cs[i])))
  {
    hide ChunkLen, DecodeFirst, Open, IsContinuation, DecodeAll, Concat, Chunks;
    var cs := Chunks(s);
    ChunksOf(s);
    var rs := Reversed(cs);
    assert AllChunks(rs);
    ConcatDecodes(rs);
    assert DecodeChunks(rs) == Reversed(DecodeChunks(cs));
    ReversedJoins(cs);
  }

  lemma ReversedJoins(cs: seq<seq<Byte>>)
    requires AllChunks(cs)
    ensures AllChunks(Reversed(cs))
    ensures Joins(Reversed(cs)) <==> forall i :: 0 < i < |cs| ==> !(IsContinuation(cs[i - 1][0]) && Open(cs[i]))
  {
    hide ChunkLen, Open, IsContinuation;
    var rs := Reversed(cs);
    var n := |cs|;
    if Joins(rs) {
      forall i | 0 < i < n ensures !(IsContinuation(cs[i - 1][0]) && Open(cs[i])) {
        assert rs[n - 1 - i] == cs[i] && rs[n - 1 - i + 1] == cs[i - 1];
      }
    }
    if forall i :: 0 < i < n ==> !(IsContinuation(cs[i - 1][0]) && Open(cs[i])) {
      forall i | 0 <= i < n - 1 ensures !(Open(rs[i]) && IsContinuation(rs[i + 1][0])) {
        assert rs[i] == cs[n - 1 - i] && rs[i + 1] == cs[n - 1 - i - 1];
      }
    }
  }

  // A malformed string whose reversal merges two bytes into one character.
  lemma ReverseMerges()
    ensures var s: seq<Byte> := [0x80, 0xC3];
            && DecodeAll(s) == [0xFFFD, 0xFFFD]
            && DecodeAll(Concat(Reversed(Chunks(s)))) == [0xC0]
  {
    var s: seq<Byte> := [0x80, 0xC3];
    assert ChunkLen(s) == 1;
    var t: seq<Byte> := [0xC3];
    assert s[1..] == t && s[..1] == [0x80];
    assert t[1..] == [];
    assert ChunkLen(t) == 1 && t[..1] == t;
    var e: seq<Byte> := [];
    assert Chunks(e) == [] && DecodeAll(e) == [];
    assert Chunks(t) == [t] + Chunks(e) == [t];
    assert DecodeAll(t) == [REPLACEMENT] + DecodeAll(e);
    assert Chunks(s) == [[0x80], t];
    assert Reversed(Chunks(s)) == [t, [0x80]];
    var u: seq<seq<Byte>> := [t, [0x80]];
    assert u[1..] == [[0x80]] && u[1..][1..] == [];
    var r: seq<Byte> := [0xC3, 0x80];
    var v: seq<seq<Byte>> := [[0x80]];
    assert u[1..] == v && v[1..] == [];
    assert Concat(v) == [0x80] + Concat(v[1..]) == [0x80];
    assert Concat(u) == t + Concat(v) == r;
    assert r[1..][0] == 0x80 && r[1..][1..] == [];
    assert ChunkLen(r) == 2;
    assert Payload(r, 2, 2) == 0xC0;
    assert r[2..] == e;
    assert DecodeAll(r) == [0xC0] + DecodeAll(e);
  }

  // ---- encoding and decoding ----

  lemma EncodedIsUtf8Char(cp: nat)
    requires IsScalar(cp)
    ensures IsUtf8Char(Encode(cp))
  {}

  lemma RunOfTails(t: seq<Byte>, m: nat)
    requires m == |t| && m <= 3 && forall i :: 0 <= i < |t| ==> IsContinuation(t[i])
    ensures ContinuationRun(t, m) == m
  {
    if t != [] { RunOfTails(t[1..], m - 1); }
  }

  lemma TwoByteChar(c: seq<Byte>)
    requires IsUtf8Char(c) && |c| == 2
    ensures IsChunk(c) && DecodeFirst(c) == (c[0] as int - 0xC0) * 64 + (c[1] as int - 0x80)
  {
    RunOfTails(c[1..], 1);
    PayloadOfTwo(c);
    hide Payload, ContinuationRun;
  }

  lemma ThreeByteChar(c: seq<Byte>)
    requires IsUtf8Char(c) && |c| == 3
    ensures IsChunk(c)
    ensures DecodeFirst(c) == (c[0] as int - 0xE0) * 4096 + (c[1] as int - 0x80) * 64 + (c[2] as int - 0x80)
  {
    RunOfTails(c[1..], 2);
    PayloadOfThree(c);
    hide Payload, ContinuationRun;
  }

  lemma FourByteChar(c: seq<Byte>)
    requires IsUtf8Char(c) && |c| == 4
    ensures IsChunk(c)
    ensures DecodeFirst(c) ==
            (c[0] as int - 0xF0) * 262144 + (c[1] as int - 0x80) * 4096 + (c[2] as int - 0x80) * 64 + (c[3] as int - 0x80)
  {
    RunOfTails(c[1..], 3);
    PayloadOfFour(c);
    hide Payload, ContinuationRun;
  }

  lemma EncodeTwo(cp: nat, x: int, y: int)
    requires 2 <= x < 0x20 && 0 <= y < 64 && cp == x * 64 + y
    ensures Encode(cp) == [0xC0 + x, 0x80 + y]
  {}

  lemma EncodeThree(cp: nat, x: int, y: int, z: int)
    requires 0 <= x < 16 && 0 <= y < 64 && 0 <= z < 64 && (x == 0 ==> y >= 0x20)
    requires cp == x * 4096 + y * 64 + z
    ensures Encode(cp) == [0xE0 + x, 0x80 + y, 0x80 + z]
  {
    assert cp / 64 == x * 64 + y && cp / 4096 == x;
  }

  lemma EncodeFour(cp: nat, x: int, y: int, z: int, w: int)
    requires 0 <= x <= 4 && 0 <= y < 64 && 0 <= z < 64 && 0 <= w < 64 && (x == 0 ==> y >= 0x10) && (x == 4 ==> y < 0x10)
    requires cp == x * 262144 + y * 4096 + z * 64 + w
    ensures IsChar(cp) && Encode(cp) == [0xF0 + x, 0x80 + y, 0x80 + z, 0x80 + w]
  {
    assert cp / 64 == x * 4096 + y * 64 + z && cp / 4096 == x * 64 + y && cp / 262144 == x;
  }

  // A character of the grammar is one chunk, and encoding undoes decoding.
  lemma Utf8CharDecodes(c: seq<Byte>)
    requires IsUtf8Char(c)
    ensures IsChunk(c) && !Open(c) && !IsContinuation(c[0])
    ensures Encode(DecodeFirst(c)) == c
  {
    Utf8CharCloses(c);
    hide ChunkLen, DecodeFirst, Encode, IsChunk, Open;
    if |c| == 1 {
      OneByteChar(c);
      EncodeOne(c[0]);
    } else if |c| == 2 {
      TwoByteChar(c);
      EncodeTwo(DecodeFirst(c), c[0] as int - 0xC0, c[1] as int - 0x80);
    } else if |c| == 3 {
      ThreeByteChar(c);
      EncodeThree(DecodeFirst(c), c[0] as int - 0xE0, c[1] as int - 0x80, c[2] as int - 0x80);
    } else {
      FourByteChar(c);
      EncodeFour(DecodeFirst(c), c[0] as int - 0xF0, c[1] as int - 0x80, c[2] as int - 0x80, c[3] as int - 0x80);
    }
  }

  lemma EncodeOne(b: Byte)
    requires b < 0x80
    ensures Encode(b) == [b]
  {}

  lemma Utf8CharCloses(c: seq<Byte>)
    requires IsUtf8Char(c)
    ensures !Open(c) && !IsContinuation(c[0])
  {}

  lemma OneByteChar(c: seq<Byte>)
    requires IsUtf8Char(c) && |c| == 1
    ensures IsChunk(c) && DecodeFirst(c) == c[0]
  {}

  // ---- one decoding step, byte by byte ----

  // A step takes the lead byte and as many continuation bytes as follow, at
  // most one after C0..DF, two after E0..EF and three after F0..F4.
  lemma ChunkByBytes(s: seq<Byte>)
    requires s != []
    ensures var m := if 0xC0 <= s[0] <= 0xDF then 1 else if 0xE0 <= s[0] <= 0xEF then 2 else if 0xF0 <= s[0] <= 0xF4 then 3 else 0;
            var k := ChunkLen(s);
            && 1 <= k <= 1 + m && k <= |s|
            && (forall i :: 1 <= i < k ==> 0x80 <= s[i] <= 0xBF)
            && (k < 1 + m && k < |s| ==> !(0x80 <= s[k] <= 0xBF))
  {
    var n := LeadByteLen(s[0]);
    if n > 0 {
      var k := ChunkLen(s);
      forall i | 1 <= i < k ensures IsContinuation(s[i]) { assert s[1..][i - 1] == s[i]; }
      if k < n && k < |s| { assert s[1..][k - 1] == s[k]; }
    }
  }

  // What it takes decodes to the bits of section 3 of RFC 3629 if it is a
  // character of the grammar, and to U+FFFD if it is not.
  lemma DecodeByBytes(s: seq<Byte>)
    requires s != []
    ensures var c := s[..ChunkLen(s)];
            DecodeFirst(s) ==
              if !IsUtf8Char(c) then 0xFFFD
              else if |c| == 1 then c[0]
              else if |c| == 2 then (c[0] as int - 0xC0) * 64 + (c[1] as int - 0x80)
              else if |c| == 3 then (c[0] as int - 0xE0) * 4096 + (c[1] as int - 0x80) * 64 + (c[2] as int - 0x80)
              else (c[0] as int - 0xF0) * 262144 + (c[1] as int - 0x80) * 4096 + (c[2] as int - 0x80) * 64 + (c[3] as int - 0x80)
  {
    var c := s[..ChunkLen(s)];
    ChunkCut(s, |c|);
    hide ChunkLen, DecodeFirst;
    if !IsUtf8Char(c) {
      MalformedChunk(c);
    } else if |c| == 1 {
      OneByteChar(c);
    } else if |c| == 2 {
      TwoByteChar(c);
    } else if |c| == 3 {
      ThreeByteChar(c);
    } else {
      FourByteChar(c);
    }
  }

  lemma MalformedChunk(c: seq<Byte>)
    requires c != [] && ChunkLen(c) == |c| && !IsUtf8Char(c)
    ensures DecodeFirst(c) == 0xFFFD
  {
    ChunkByBytes(c);
    var n := LeadByteLen(c[0]);
    if n == |c| == 3 { PayloadOfThree(c); }
    if n == |c| == 4 { PayloadOfFour(c); }
    if n == |c| == 2 { PayloadOfTwo(c); }
    hide Payload, ContinuationRun;
    if n == |c| == 3 { ThreeOutside(c[0], c[1], c[2], Payload(c, 3, 3)); }
    if n == |c| == 4 { FourOutside(c[0], c[1], c[2], c[3], Payload(c, 4, 4)); }
  }

  lemma PayloadOfTwo(c: seq<Byte>)
    requires |c| == 2 && 0xC0 <= c[0] <= 0xDF && 0x80 <= c[1] <= 0xBF
    ensures Payload(c, 2, 2) == (c[0] as int - 0xC0) * 64 + (c[1] as int - 0x80)
  {
    assert Payload(c, 2, 1) == c[0] as int - 0xC0;
  }

  lemma PayloadOfThree(c: seq<Byte>)
    requires |c| == 3 && 0xE0 <= c[0] <= 0xEF && 0x80 <= c[1] <= 0xBF && 0x80 <= c[2] <= 0xBF
    ensures Payload(c, 3, 3) == (c[0] as int - 0xE0) * 4096 + (c[1] as int - 0x80) * 64 + (c[2] as int - 0x80)
  {
    assert Payload(c, 3, 1) == c[0] as int - 0xE0;
    assert Payload(c, 3, 2) == Payload(c, 3, 1) * 64 + c[1] % 64;
  }

  lemma PayloadOfFour(c: seq<Byte>)
    requires |c| == 4 && 0xF0 <= c[0] <= 0xF4
    requires 0x80 <= c[1] <= 0xBF && 0x80 <= c[2] <= 0xBF && 0x80 <= c[3] <= 0xBF
    ensures Payload(c, 4, 4) ==
            (c[0] as int - 0xF0) * 262144 + (c[1] as int - 0x80) * 4096 + (c[2] as int - 0x80) * 64 + (c[3] as int - 0x80)
  {
    assert Payload(c, 4, 1) == c[0] as int - 0xF0;
    assert Payload(c, 4, 2) == Payload(c, 4, 1) * 64 + c[1] % 64;
    assert Payload(c, 4, 3) == Payload(c, 4, 2) * 64 + c[2] % 64;
  }

  // Outside the grammar, three bytes are overlong or a surrogate,
  lemma ThreeOutside(x: int, y: int, z: int, cp: nat)
    requires 0xE0 <= x <= 0xEF && 0x80 <= y <= 0xBF && 0x80 <= z <= 0xBF
    requires cp == (x - 0xE0) * 4096 + (y - 0x80) * 64 + (z - 0x80)
    requires (x == 0xE0 && y < 0xA0) || (x == 0xED && y > 0x9F)
    ensures !IsScalarOfLen(cp, 3)
  {}

  // and four are overlong or above U+10FFFF.
  lemma FourOutside(x: int, y: int, z: int, w: int, cp: nat)
    requires 0xF0 <= x <= 0xF4 && 0x80 <= y <= 0xBF && 0x80 <= z <= 0xBF && 0x80 <= w <= 0xBF
    requires cp == (x - 0xF0) * 262144 + (y - 0x80) * 4096 + (z - 0x80) * 64 + (w - 0x80)
    requires (x == 0xF0 && y < 0x90) || (x == 0xF4 && y > 0x8F)
    ensures !IsScalarOfLen(cp, 4)
  {}

  // ---- encodings are ordered like code points ----

  // a and b first differ at index i, and a is smaller there.
  ghost predicate DiffersBelow(a: seq<Byte>, b: seq<Byte>, i: nat) {
    i < |a| && i < |b| && a[..i] == b[..i] && a[i] < b[i]
  }

  lemma Digits64(cp: nat)
    ensures cp / 4096 == cp / 64 / 64 && cp / 262144 == cp / 64 / 64 / 64
    ensures cp / 4096 % 64 == cp / 64 / 64 % 64
  {}

  lemma OrderTwo(x: nat, y: nat) returns (i: nat)
    requires 0x80 <= x < y < 0x800
    ensures DiffersBelow(Encode(x), Encode(y), i)
  {
    i := if x / 64 < y / 64 then 0 else 1;
  }

  lemma OrderThree(x: nat, y: nat) returns (i: nat)
    requires 0x800 <= x < y < 0x10000
    ensures DiffersBelow(Encode(x), Encode(y), i)
  {
    Digits64(x);
    Digits64(y);
    var x1, y1 := x / 64, y / 64;
    i := if x1 / 64 < y1 / 64 then 0 else if x1 < y1 then 1 else 2;
  }

  lemma OrderFour(x: nat, y: nat) returns (i: nat)
    requires 0x10000 <= x < y <= 0x10FFFF
    ensures DiffersBelow(Encode(x), Encode(y), i)
  {
    Digits64(x);
    Digits64(y);
    var x1, y1 := x / 64, y / 64;
    var x2, y2 := x1 / 64, y1 / 64;
    i := if x2 / 64 < y2 / 64 then 0 else if x2 < y2 then 1 else if x1 < y1 then 2 else 3;
  }

  // Of two encodings the smaller code point's is smaller, at a byte both have.
  lemma EncodeOrder(x: nat, y: nat) returns (i: nat)
    requires x < y && IsChar(y)
    ensures DiffersBelow(Encode(x), Encode(y), i)
  {
    if EncodeLen(x) < EncodeLen(y) || y < 0x80 {
      i := 0;
    } else if y < 0x800 {
      i := OrderTwo(x, y);
    } else if y < 0x10000 {
      i := OrderThree(x, y);
    } else {
      i := OrderFour(x, y);
    }
  }

  lemma EncodeInjective(x: nat, y: nat)
    requires IsChar(x) && IsChar(y) && Encode(x) == Encode(y)
    ensures x == y
  {
    hide Encode;
    if x < y { var i := EncodeOrder(x, y); }
    if y < x { var i := EncodeOrder(y, x); }
  }

  // ---- round trips ----

  // An encoded scalar value in front of anything decodes to itself.
  lemma ScalarDecodes(cp: nat, t: seq<Byte>)
    requires IsScalar(cp)
    ensures var c := Encode(cp);
            && IsChunk(c) && !Open(c)
            && ChunkLen(c + t) == |c| && DecodeFirst(c + t) == cp
  {
    hide ChunkLen, DecodeFirst, Encode;
    var c := Encode(cp);
    EncodedIsUtf8Char(cp);
    Utf8CharDecodes(c);
    EncodeInjective(DecodeFirst(c), cp);
    ChunkThen(c, t);
  }

  // An encoded surrogate is one chunk, and stands for U+FFFD.
  lemma SurrogateDecodes(cp: nat, t: seq<Byte>)
    requires 0xD800 <= cp <= 0xDFFF
    ensures var c := Encode(cp);
            && IsChunk(c) && !Open(c)
            && ChunkLen(c + t) == |c| && DecodeFirst(c + t) == 0xFFFD
  {
    var c := Encode(cp);
    var x, y, z := 13, cp / 64 % 64, cp % 64;
    assert cp == x * 4096 + y * 64 + z && 32 <= y;
    EncodeThree(cp, x, y, z);
    RunOfTails(c[1..], 2);
    assert Payload(c, 3, 1) == 13;
    assert Payload(c, 3, 2) == 13 * 64 + y;
    assert Payload(c, 3, 3) == cp;
    assert IsChunk(c) && DecodeFirst(c) == REPLACEMENT;
    hide ChunkLen, DecodeFirst, Encode;
    ChunkThen(c, t);
  }

  // Unpacking what was packed gives the characters back exactly when they are
  // Unicode scalar values.
  lemma {:induction false} UnpackPacked(cps: seq<nat>)
    requires AllChars(cps)
    ensures DecodeAll(EncodeAll(cps)) == cps <==> AllScalars(cps)
  {
    hide ChunkLen, DecodeFirst, Encode;
    if AllScalars(cps) {
      PackedDecodes(cps);
    }
  }

  lemma {:induction false} PackedDecodes(cps: seq<nat>)
    requires AllScalars(cps)
    ensures AllChars(cps) && DecodeAll(EncodeAll(cps)) == cps
  {
    hide ChunkLen, DecodeFirst, Encode;
    if cps != [] {
      PackedDecodes(cps[1..]);
      ScalarDecodes(cps[0], EncodeAll(cps[1..]));
      var s := EncodeAll(cps);
      assert s[|Encode(cps[0])|..] == EncodeAll(cps[1..]);
    }
  }

  // What is packed from scalar values matches the grammar.
  lemma {:induction false} PackedIsWellFormed(cps: seq<nat>)
    requires AllScalars(cps)
    ensures AllChars(cps) && WellFormed(EncodeAll(cps))
  {
    hide Encode, IsUtf8Char;
    if cps != [] {
      PackedIsWellFormed(cps[1..]);
      EncodedIsUtf8Char(cps[0]);
      var s, n := EncodeAll(cps), EncodeLen(cps[0]);
      assert s[..n] == Encode(cps[0]) && s[n..] == EncodeAll(cps[1..]);
    }
  }

  // A character of the grammar in front of anything decodes and re-encodes.
  lemma GrammarFront(s: seq<Byte>, n: nat)
    requires 1 <= n <= |s| && IsUtf8Char(s[..n])
    ensures ChunkLen(s) == n && Encode(DecodeFirst(s)) == s[..n]
  {
    hide ChunkLen, DecodeFirst, Encode, IsUtf8Char;
    Utf8CharDecodes(s[..n]);
    ChunkThen(s[..n], s[n..]);
    assert s[..n] + s[n..] == s;
  }

  lemma {:induction false} WellFormedRepacks(s: seq<Byte>)
    requires WellFormed(s)
    ensures AllChars(DecodeAll(s)) && EncodeAll(DecodeAll(s)) == s
  {
    hide ChunkLen, DecodeFirst, Encode, IsUtf8Char;
    if s != [] {
      var n :| 1 <= n <= 4 && n <= |s| && IsUtf8Char(s[..n]) && WellFormed(s[n..]);
      GrammarFront(s, n);
      WellFormedRepacks(s[n..]);
      var cps := DecodeAll(s);
      assert cps[1..] == DecodeAll(s[n..]);
      assert s == s[..n] + s[n..];
    }
  }

  lemma DecodedAreChars(s: seq<Byte>)
    ensures AllScalars(DecodeAll(s)) && AllChars(DecodeAll(s))
  {}

  // Packing the unpacked string gives it back exactly when its bytes match the
  // grammar of RFC 3629.
  lemma PackUnpacked(s: seq<Byte>)
    ensures AllChars(DecodeAll(s))
    ensures EncodeAll(DecodeAll(s)) == s <==> WellFormed(s)
  {
    hide DecodeAll, EncodeAll, WellFormed;
    DecodedAreChars(s);
    PackedIsWellFormed(DecodeAll(s));
    if WellFormed(s) { WellFormedRepacks(s); }
  }
}
