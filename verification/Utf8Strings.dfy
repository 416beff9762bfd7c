// The string theory at its instance: well-formed UTF-8 text.
module Utf8Strings {
  import opened Options
  import opened Utf8
  import opened Utf8Text
  import opened FeronString
  import opened StringSearch
  import opened StringSplit

  lemma ConcatOfText(a: seq<CodePoint>, b: seq<CodePoint>)
    requires Scalars(a) && Scalars(b)
    ensures Text(a) + Text(b) == Text(a + b)
  {
    EncodeAppend(Utf8Code(), a, b);
  }

  lemma LengthOfText(cs: seq<CodePoint>)
    requires Scalars(cs)
    ensures Count(Text(cs), 0, |Text(cs)|) == |cs|
  {
    Utf8Coded(cs);
    LengthRefines(Utf8Code(), cs);
  }

  lemma SliceOfText(cs: seq<CodePoint>, start: int, end: int)
    requires Scalars(cs)
    ensures var a, b := Normalize(start, |cs|), if end == INT64_MAX then |cs| else Normalize(end, |cs|);
      SliceOf(Text(cs), start, end) == if a <= b <= |cs| then Text(cs[a..b]) else []
  {
    Utf8Coded(cs);
    SliceRefines(Utf8Code(), cs, start, end);
  }

  /** For all bounds that stand for characters a and b, from the start, the end or
      before the start. */
  lemma SliceOfTextIs(cs: seq<CodePoint>, start: int, end: int, a: nat, b: nat)
    requires Scalars(cs) && Denotes(start, |cs|, a) && DenotesEnd(end, |cs|, b)
    ensures SliceOf(Text(cs), start, end) == if a <= b <= |cs| then Text(cs[a..b]) else []
  {
    Utf8Coded(cs);
    SliceIs(Utf8Code(), cs, start, end, a, b);
  }

  lemma LastOfText(cs: seq<CodePoint>, k: int)
    requires Scalars(cs) && 0 < k <= |cs|
    ensures SliceOf(Text(cs), -k, INT64_MAX) == Text(cs[|cs| - k..])
  {
    Utf8Coded(cs);
    LastCharacters(Utf8Code(), cs, k);
  }

  lemma ButLastOfText(cs: seq<CodePoint>, a: nat, k: int)
    requires Scalars(cs) && 0 < k <= |cs|
    ensures SliceOf(Text(cs), a, -k) == if a + k <= |cs| then Text(cs[a..|cs| - k]) else []
  {
    Utf8Coded(cs);
    ButLastCharacters(Utf8Code(), cs, a, k);
  }

  lemma IndexOfText(h: seq<CodePoint>, n: seq<CodePoint>, from: nat)
    requires Scalars(h) && Scalars(n)
    ensures IndexOfSpec(Text(h), Text(n), from)
      == if h == [] || n == [] || |h| < from then None
         else FirstOcc(h[..Scan(h, 0, from)], n[..Scan(n, 0, 0)], from)
  {
    Utf8Coded(h);
    Utf8Coded(n);
    IndexOfRefines(Utf8Code(), h, n, from);
  }

  /** NUL-free text: the least index at or after `from` where the needle occurs. */
  lemma IndexOfPlainText(h: seq<CodePoint>, n: seq<CodePoint>, from: nat)
    requires Scalars(h) && Scalars(n) && n != [] && 0 !in h && 0 !in n
    ensures IsFirst(h, n, from, IndexOfSpec(Text(h), Text(n), from))
  {
    Utf8Coded(h);
    Utf8Coded(n);
    IndexOfNulFree(Utf8Code(), h, n, from);
    FirstOccIsFirst(h, n, from);
  }

  /** With room for all parts, what split writes are the encodings of parts that
      join to the text and lack the delimiter; with less room, of the first ones. */
  lemma SplitOfText(h: seq<CodePoint>, d: seq<CodePoint>, max: nat)
    requires Scalars(h) && Scalars(d) && d != [] && 0 !in h && 0 !in d && |h| < INT64_MAX
    ensures var w, parts := SplitOf(Text(h), Text(d), max), Parts(h, Finder(h, d), |d|, 0);
      && |w| == (if max < |parts| then max else |parts|)
      && ImagesOf(w, parts, Encoder(Utf8Code()))
      && Join(parts, d) == h
      && forall i, p: nat {:trigger MatchAt(parts[i], d, p)} :: 0 <= i < |parts| ==> !MatchAt(parts[i], d, p)
  {
    Utf8Coded(h);
    Utf8Coded(d);
    SplitRefines(Utf8Code(), h, d, max);
    SplitJoins(h, d);
  }
}
