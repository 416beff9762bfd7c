// What the byte walks of fstring.hpp mean: for any bytes, and for encoded text.
//
// All the walks use of UTF-8 is that a lead byte announces the length of its
// character; the theory is about any such code, and UTF-8 is shown to be one.
module Utf8Text {
  import opened Options
  import opened Sequences
  import opened Utf8

  // ---------------------------------------------------------------------
  // The walks, over any bytes.

  /** Lead bytes met walking from `p` until `end`, stray bytes skipped. */
  function Count(s: seq<Byte>, p: nat, end: nat): nat
    requires end <= |s|
    decreases end - p
  {
    if end <= p then 0
    else if Advance(s[p]) == 0 then Count(s, p + 1, end)
    else 1 + Count(s, p + Advance(s[p]), end)
  }

  /** Where the walk from `p` stands before its k-th character. */
  function Seek(s: seq<Byte>, p: nat, k: nat): Option<nat>
    decreases |s| - p
  {
    if |s| <= p then (if k == 0 then Some(|s|) else None)
    else if k == 0 then Some(p)
    else if Advance(s[p]) == 0 then Seek(s, p + 1, k)
    else Seek(s, p + Advance(s[p]), k - 1)
  }

  /** On any bytes, stray and truncated ones included: the offsets found are the
      ones that exist, they lead back to their index, and they grow with it. */
  lemma {:induction false} SeekCount(s: seq<Byte>, p: nat, k: nat)
    ensures Seek(s, p, k).Some? <==> k <= Count(s, p, |s|)
    ensures Seek(s, p, k).Some? ==> Seek(s, p, k).value <= |s| && (p <= |s| ==> p <= Seek(s, p, k).value)
    ensures Seek(s, p, k).Some? ==> Count(s, p, Seek(s, p, k).value) == k
    ensures 0 < k && Seek(s, p, k).Some? && p < |s| ==> p < Seek(s, p, k).value
    decreases |s| - p
  {
    if p < |s| && k != 0 {
      if Advance(s[p]) == 0 {
        SeekCount(s, p + 1, k);
      } else {
        SeekCount(s, p + Advance(s[p]), k - 1);
      }
    }
  }

  lemma {:induction false} SeekGrows(s: seq<Byte>, p: nat, j: nat, k: nat)
    requires j < k && Seek(s, p, k).Some?
    ensures Seek(s, p, j).Some? && Seek(s, p, j).value < Seek(s, p, k).value
    decreases |s| - p
  {
    if p < |s| {
      SeekCount(s, p, k);
      if j != 0 && Advance(s[p]) == 0 {
        SeekGrows(s, p + 1, j, k);
      } else if j != 0 {
        SeekGrows(s, p + Advance(s[p]), j - 1, k - 1);
      }
    }
  }

  // ---------------------------------------------------------------------
  // Encoded text.

  /** How characters become bytes and back, and the character of the zero byte. */
  datatype Code<!T> = Code(enc: T -> seq<Byte>, dec: seq<Byte> -> T, nul: T)

  /** The lead byte announces the length, the rest are continuation bytes, only
      the NUL character holds a zero, and decoding inverts encoding. */
  ghost predicate CharOk<T>(f: Code<T>, c: T) {
    var e := f.enc(c);
    && e != [] && Advance(e[0]) == |e| && !Continuation(e[0]) && (e[0] == 0 <==> c == f.nul)
    && (forall i :: 0 < i < |e| ==> Continuation(e[i]))
    && f.dec(e) == c
  }

  ghost predicate Coded<T>(f: Code<T>, cs: seq<T>) {
    forall i {:trigger CharOk(f, cs[i])} :: 0 <= i < |cs| ==> CharOk(f, cs[i])
  }

  lemma CodedSlice<T>(f: Code<T>, cs: seq<T>, i: nat, j: nat)
    requires Coded(f, cs) && i <= j <= |cs|
    ensures Coded(f, cs[i..j]) && Coded(f, cs[i..])
  {
  }

  function EncodeAll<T>(f: Code<T>, cs: seq<T>): seq<Byte> {
    if cs == [] then [] else f.enc(cs[0]) + EncodeAll(f, cs[1..])
  }

  lemma {:induction false} EncodeAppend<T>(f: Code<T>, a: seq<T>, b: seq<T>)
    ensures EncodeAll(f, a + b) == EncodeAll(f, a) + EncodeAll(f, b)
  {
    if a == [] {
      assert a + b == b;
    } else {
      EncodeAppend(f, a[1..], b);
      assert (a + b)[1..] == a[1..] + b && (a + b)[0] == a[0];
      Regroup(f.enc(a[0]), EncodeAll(f, a[1..]), EncodeAll(f, b));
    }
  }

  /** The byte offset of code point `k`. */
  function Offset<T>(f: Code<T>, cs: seq<T>, k: nat): nat
    requires k <= |cs|
  {
    |EncodeAll(f, cs[..k])|
  }

  lemma OffsetStep<T>(f: Code<T>, cs: seq<T>, k: nat)
    requires k < |cs|
    ensures Offset(f, cs, k + 1) == Offset(f, cs, k) + |f.enc(cs[k])|
    ensures Offset(f, cs, 0) == 0 && Offset(f, cs, |cs|) == |EncodeAll(f, cs)|
  {
    assert cs[..k + 1] == cs[..k] + [cs[k]] && cs[..|cs|] == cs;
    EncodeAppend(f, cs[..k], [cs[k]]);
    assert EncodeAll(f, [cs[k]]) == f.enc(cs[k]) + [];
  }

  /** Bytes between two code points are the code points between them. */
  lemma Between<T>(f: Code<T>, cs: seq<T>, i: nat, j: nat)
    requires i <= j <= |cs|
    ensures Offset(f, cs, i) <= Offset(f, cs, j) <= |EncodeAll(f, cs)|
    ensures EncodeAll(f, cs)[Offset(f, cs, i)..Offset(f, cs, j)] == EncodeAll(f, cs[i..j])
    ensures Offset(f, cs, j) == Offset(f, cs, i) + |EncodeAll(f, cs[i..j])|
  {
    EncodeAppend(f, cs[..i], cs[i..j]);
    EncodeAppend(f, cs[..j], cs[j..]);
    assert cs[..i] + cs[i..j] == cs[..j] && cs[..j] + cs[j..] == cs;
  }

  lemma Suffix<T>(f: Code<T>, cs: seq<T>, k: nat)
    requires k <= |cs|
    ensures Offset(f, cs, k) <= |EncodeAll(f, cs)| && EncodeAll(f, cs)[Offset(f, cs, k)..] == EncodeAll(f, cs[k..])
  {
    EncodeAppend(f, cs[..k], cs[k..]);
    assert cs[..k] + cs[k..] == cs;
  }

  lemma SuffixSplits<T>(f: Code<T>, cs: seq<T>, k: nat)
    requires k < |cs|
    ensures Offset(f, cs, k) <= |EncodeAll(f, cs)|
    ensures EncodeAll(f, cs)[Offset(f, cs, k)..] == f.enc(cs[k]) + EncodeAll(f, cs[k + 1..])
  {
    Suffix(f, cs, k);
    assert cs[k..][1..] == cs[k + 1..];
  }

  /** One step of a walk that stands at a character boundary. */
  lemma AtBoundary<T>(f: Code<T>, cs: seq<T>, k: nat)
    requires Coded(f, cs) && k < |cs|
    ensures var s, o := EncodeAll(f, cs), Offset(f, cs, k);
      && o < |s| && Advance(s[o]) == |f.enc(cs[k])| && 0 < Advance(s[o]) && !Continuation(s[o])
      && Offset(f, cs, k + 1) == o + Advance(s[o]) <= |s|
      && s[o..o + Advance(s[o])] == f.enc(cs[k]) && (s[o] == 0 <==> cs[k] == f.nul)
  {
    OffsetStep(f, cs, k);
    SuffixSplits(f, cs, k);
    assert CharOk(f, cs[k]);
    var s, o, e := EncodeAll(f, cs), Offset(f, cs, k), f.enc(cs[k]);
    assert s[o..][..|e|] == e && s[o..][0] == e[0];
  }

  lemma OffsetGrows<T>(f: Code<T>, cs: seq<T>, i: nat, j: nat)
    requires Coded(f, cs) && i < j <= |cs|
    ensures Offset(f, cs, i) < Offset(f, cs, j) <= |EncodeAll(f, cs)|
  {
    AtBoundary(f, cs, i);
    Between(f, cs, i + 1, j);
  }

  /** `off` are the offsets at which a walk over s stops. */
  ghost predicate Stops(s: seq<Byte>, off: seq<nat>) {
    && off != [] && off[|off| - 1] == |s|
    && forall k {:trigger StopAt(s, off, k)} :: 0 <= k < |off| - 1 ==> StopAt(s, off, k)
  }

  ghost predicate StopAt(s: seq<Byte>, off: seq<nat>, k: nat) {
    k + 1 < |off| && off[k] < |s| && 0 < Advance(s[off[k]]) && off[k + 1] == off[k] + Advance(s[off[k]])
  }

  function Offsets<T>(f: Code<T>, cs: seq<T>): (off: seq<nat>)
    ensures |off| == |cs| + 1 && forall k :: 0 <= k <= |cs| ==> off[k] == Offset(f, cs, k)
  {
    seq(|cs| + 1, k requires 0 <= k <= |cs| => Offset(f, cs, k))
  }

  lemma EncodedStops<T>(f: Code<T>, cs: seq<T>)
    requires Coded(f, cs)
    ensures Stops(EncodeAll(f, cs), Offsets(f, cs))
  {
    assert cs[..|cs|] == cs;
    var s, off := EncodeAll(f, cs), Offsets(f, cs);
    forall k {:trigger StopAt(s, off, k)} | 0 <= k < |cs| ensures StopAt(s, off, k) {
      AtBoundary(f, cs, k);
    }
  }

  lemma {:induction false} SeekStops(s: seq<Byte>, off: seq<nat>, i: nat, k: nat)
    requires Stops(s, off) && i < |off|
    ensures Seek(s, off[i], k) == if i + k < |off| then Some(off[i + k]) else None
    decreases |off| - i
  {
    if i + 1 < |off| {
      assert StopAt(s, off, i);
      if k != 0 { SeekStops(s, off, i + 1, k - 1); }
    }
  }

  lemma {:induction false} CountStops(s: seq<Byte>, off: seq<nat>, i: nat, j: nat)
    requires Stops(s, off) && i <= j < |off|
    ensures off[i] <= off[j] <= |s| && Count(s, off[i], off[j]) == j - i
    decreases j - i
  {
    if i + 1 < |off| { assert StopAt(s, off, i); }
    if i < j { CountStops(s, off, i + 1, j); }
  }

  /** length() and the index conversion count code points. */
  lemma SeekEncoded<T>(f: Code<T>, cs: seq<T>, i: nat, k: nat)
    requires Coded(f, cs) && i <= |cs|
    ensures Seek(EncodeAll(f, cs), Offset(f, cs, i), k) == if i + k <= |cs| then Some(Offset(f, cs, i + k)) else None
  {
    EncodedStops(f, cs);
    SeekStops(EncodeAll(f, cs), Offsets(f, cs), i, k);
  }

  lemma CountEncoded<T>(f: Code<T>, cs: seq<T>, i: nat, j: nat)
    requires Coded(f, cs) && i <= j <= |cs|
    ensures Offset(f, cs, j) <= |EncodeAll(f, cs)|
    ensures Count(EncodeAll(f, cs), Offset(f, cs, i), Offset(f, cs, j)) == j - i
  {
    EncodedStops(f, cs);
    CountStops(EncodeAll(f, cs), Offsets(f, cs), i, j);
  }

  // ---------------------------------------------------------------------
  // Matches: UTF-8 is self-synchronising.

  predicate MatchAt<T(==)>(h: seq<T>, n: seq<T>, p: nat) {
    p + |n| <= |h| && h[p..p + |n|] == n
  }

  /** A lead byte is the start of a character. */
  lemma {:induction false} LeadIsBoundary<T>(f: Code<T>, cs: seq<T>, p: nat)
    requires Coded(f, cs) && p < |EncodeAll(f, cs)| && !Continuation(EncodeAll(f, cs)[p])
    ensures exists k :: 0 <= k < |cs| && Offset(f, cs, k) == p
  {
    var e := |f.enc(cs[0])|;
    assert CharOk(f, cs[0]);
    if p < e {
      assert Offset(f, cs, 0) == p;
    } else {
      CodedSlice(f, cs, 1, |cs|);
      LeadIsBoundary(f, cs[1..], p - e);
      var k :| 0 <= k < |cs[1..]| && Offset(f, cs[1..], k) == p - e;
      assert cs[..k + 1] == [cs[0]] + cs[1..][..k];
      assert cs[..k + 1][1..] == cs[1..][..k];
      assert Offset(f, cs, k + 1) == p;
    }
  }

  lemma NonEmpty<T>(f: Code<T>, cs: seq<T>)
    requires Coded(f, cs)
    ensures EncodeAll(f, cs) == [] <==> cs == []
  {
    if cs != [] { assert CharOk(f, cs[0]); }
  }

  lemma TailPrefix(e: seq<Byte>, a: seq<Byte>, b: seq<Byte>)
    requires e + a <= e + b
    ensures a <= b
  {
    assert (e + a)[|e|..] == a && (e + b)[|e|..|e + a|] == b[..|a|];
  }

  /** No encoding is a proper prefix of another. */
  lemma PrefixFree<T>(f: Code<T>, c: T, x: seq<Byte>, d: T, y: seq<Byte>)
    requires CharOk(f, c) && CharOk(f, d) && f.enc(c) + x <= f.enc(d) + y
    ensures c == d
  {
    var e, g := f.enc(c), f.enc(d);
    assert (e + x)[0] == e[0] && (g + y)[0] == g[0];
    assert e == (e + x)[..|e|] == (g + y)[..|e|] == g;
  }

  lemma {:induction false} PrefixDecodes<T>(f: Code<T>, n: seq<T>, g: seq<T>)
    requires Coded(f, n) && Coded(f, g) && EncodeAll(f, n) <= EncodeAll(f, g)
    ensures n <= g
  {
    if n != [] {
      NonEmpty(f, n);
      NonEmpty(f, g);
      assert CharOk(f, n[0]) && CharOk(f, g[0]);
      PrefixFree(f, n[0], EncodeAll(f, n[1..]), g[0], EncodeAll(f, g[1..]));
      CodedSlice(f, n, 1, |n|);
      CodedSlice(f, g, 1, |g|);
      TailPrefix(f.enc(n[0]), EncodeAll(f, n[1..]), EncodeAll(f, g[1..]));
      PrefixDecodes(f, n[1..], g[1..]);
      assert n == [n[0]] + n[1..] && g == [g[0]] + g[1..];
    }
  }

  lemma CodePointMatch<T>(f: Code<T>, h: seq<T>, n: seq<T>, k: nat)
    requires MatchAt(h, n, k)
    ensures MatchAt(EncodeAll(f, h), EncodeAll(f, n), Offset(f, h, k))
  {
    Between(f, h, k, k + |n|);
  }

  lemma FirstByte<T>(f: Code<T>, cs: seq<T>)
    requires Coded(f, cs) && cs != []
    ensures EncodeAll(f, cs) != [] && !Continuation(EncodeAll(f, cs)[0])
  {
    assert CharOk(f, cs[0]);
  }

  lemma ByteMatch<T>(f: Code<T>, h: seq<T>, n: seq<T>, p: nat) returns (k: nat)
    requires Coded(f, h) && Coded(f, n) && n != [] && MatchAt(EncodeAll(f, h), EncodeAll(f, n), p)
    ensures k < |h| && Offset(f, h, k) == p && MatchAt(h, n, k)
  {
    var s, t := EncodeAll(f, h), EncodeAll(f, n);
    FirstByte(f, n);
    assert s[p] == s[p..p + |t|][0] == t[0];
    LeadIsBoundary(f, h, p);
    k :| 0 <= k < |h| && Offset(f, h, k) == p;
    Suffix(f, h, k);
    PrefixMatch(f, h, n, k);
  }

  lemma PrefixMatch<T>(f: Code<T>, h: seq<T>, n: seq<T>, k: nat)
    requires Coded(f, h) && Coded(f, n) && k <= |h| && EncodeAll(f, n) <= EncodeAll(f, h[k..])
    ensures MatchAt(h, n, k)
  {
    CodedSlice(f, h, k, |h|);
    PrefixDecodes(f, n, h[k..]);
    assert h[k..k + |n|] == h[k..][..|n|] == n;
  }

  /** Byte matches of encoded text are exactly its code-point matches. */
  lemma MatchesAreCodePoints<T>(f: Code<T>, h: seq<T>, n: seq<T>, p: nat)
    requires Coded(f, h) && Coded(f, n) && n != []
    ensures MatchAt(EncodeAll(f, h), EncodeAll(f, n), p)
      <==> exists k :: 0 <= k < |h| && Offset(f, h, k) == p && MatchAt(h, n, k)
  {
    if MatchAt(EncodeAll(f, h), EncodeAll(f, n), p) {
      var k := ByteMatch(f, h, n, p);
    }
    if k :| 0 <= k < |h| && Offset(f, h, k) == p && MatchAt(h, n, k) {
      CodePointMatch(f, h, n, k);
    }
  }

  // ---------------------------------------------------------------------
  // UTF-8 is such a code.

  function Utf8Code(): Code<CodePoint> {
    Code(c => if IsScalar(c) then Encode(c) else [],
         s => if s != [] && Advance(s[0]) <= |s| then Decode(s) else 0xFFFD,
         0)
  }

  /** Well-formed text: the bytes of scalar values. */
  function Text(cs: seq<CodePoint>): seq<Byte>
    requires Scalars(cs)
  {
    EncodeAll(Utf8Code(), cs)
  }

  lemma Utf8CharOk(c: CodePoint)
    requires IsScalar(c)
    ensures CharOk(Utf8Code(), c)
  {
    EncodedLead(c);
    DecodeAlone(c);
    forall i | 0 < i < |Encode(c)| ensures Continuation(Encode(c)[i]) { EncodedTail(c, i); }
  }

  lemma Utf8Coded(cs: seq<CodePoint>)
    requires Scalars(cs)
    ensures Coded(Utf8Code(), cs)
  {
    forall i {:trigger CharOk(Utf8Code(), cs[i])} | 0 <= i < |cs| ensures CharOk(Utf8Code(), cs[i]) {
      Utf8CharOk(cs[i]);
    }
  }
}
