// strlen, strstr, indexOf and lastIndexOf.
module StringSearch {
  import opened Options
  import opened Utf8
  import opened Utf8Text
  import opened FeronString

  // ---------------------------------------------------------------------
  // First and last occurrence, in any sequence.

  ghost predicate IsFirst<T>(h: seq<T>, n: seq<T>, from: nat, r: Option<nat>) {
    match r
    case None => forall p: nat {:trigger MatchAt(h, n, p)} :: from <= p ==> !MatchAt(h, n, p)
    case Some(q) =>
      && from <= q && MatchAt(h, n, q)
      && forall p: nat {:trigger MatchAt(h, n, p)} :: from <= p < q ==> !MatchAt(h, n, p)
  }

  ghost predicate IsLast<T>(h: seq<T>, n: seq<T>, r: Option<nat>) {
    match r
    case None => forall p: nat {:trigger MatchAt(h, n, p)} :: !MatchAt(h, n, p)
    case Some(q) => MatchAt(h, n, q) && forall p: nat {:trigger MatchAt(h, n, p)} :: q < p ==> !MatchAt(h, n, p)
  }

  function FirstOcc<T(==)>(h: seq<T>, n: seq<T>, from: nat): (r: Option<nat>)
    ensures r.Some? ==> from <= r.value && r.value + |n| <= |h|
    decreases |h| + 1 - from
  {
    if |h| < from then None
    else if MatchAt(h, n, from) then Some(from)
    else FirstOcc(h, n, from + 1)
  }

  lemma {:induction false} FirstOccIsFirst<T>(h: seq<T>, n: seq<T>, from: nat)
    ensures IsFirst(h, n, from, FirstOcc(h, n, from))
    decreases |h| + 1 - from
  {
    if from <= |h| && !MatchAt(h, n, from) { FirstOccIsFirst(h, n, from + 1); }
  }

  lemma FirstIsUnique<T>(h: seq<T>, n: seq<T>, from: nat, r: Option<nat>)
    requires IsFirst(h, n, from, r)
    ensures r == FirstOcc(h, n, from)
  {
    FirstOccIsFirst(h, n, from);
    var q := FirstOcc(h, n, from);
    if r.Some? { assert MatchAt(h, n, r.value); }
    if q.Some? { assert MatchAt(h, n, q.value); }
  }

  /** First index from `p` that holds `z`, the length if none. */
  function Scan<T(==)>(s: seq<T>, z: T, p: nat): (r: nat)
    requires p <= |s|
    ensures p <= r <= |s| && (r < |s| ==> s[r] == z)
    ensures forall i :: p <= i < r ==> s[i] != z
    decreases |s| - p
  {
    if p < |s| && s[p] != z then Scan(s, z, p + 1) else p
  }

  lemma {:induction false} ScanSkips<T>(s: seq<T>, z: T, p: nat, q: nat)
    requires p <= q <= |s| && forall i :: p <= i < q ==> s[i] != z
    ensures Scan(s, z, p) == Scan(s, z, q)
    decreases q - p
  {
  }

  // ---------------------------------------------------------------------
  // strstr on C strings.

  /** strlen: bytes up to the first NUL. */
  method Strlen(s: Str) returns (n: nat)
    ensures n == Scan(s, 0, 0)
  {
    n := 0;
    while CStr(s, n) != 0
      invariant n <= |s| && Scan(s, 0, 0) == Scan(s, 0, n)
      decreases |s| - n
    {
      n := n + 1;
    }
  }

  lemma Mismatch<T>(h: seq<T>, n: seq<T>, p: nat, i: nat)
    requires i < |n| && p + i < |h| && h[p + i] != n[i]
    ensures !MatchAt(h, n, p)
  {
  }

  lemma MatchInside<T>(h: seq<T>, a: nat, b: nat, n: seq<T>, p: nat)
    requires a <= b <= |h|
    ensures MatchAt(h[a..b], n, p) <==> a + p + |n| <= b && MatchAt(h, n, a + p)
  {
    if a + p + |n| <= b {
      var x, y := h[a..b][p..p + |n|], h[a + p..a + p + |n|];
      assert |x| == |y| && forall i :: 0 <= i < |n| ==> x[i] == h[a + p + i] == y[i];
      assert x == y;
    }
  }

  /** One attempt of strstr: bytes that agree at `p`, and whether the haystack ended first. */
  method Compare(hay: Str, p: nat, needle: Str, nlen: nat) returns (i: nat, ended: bool)
    requires p <= |hay| && nlen == Scan(needle, 0, 0)
    ensures i <= nlen && p + i <= |hay| && hay[p..p + i] == needle[..i] && (ended ==> i < nlen && CStr(hay, p + i) == 0)
    ensures i < nlen && !ended ==> p + i < |hay| && hay[p + i] != 0 && hay[p + i] != needle[i]
    ensures forall j :: p <= j < p + i ==> hay[j] != 0
  {
    i, ended := 0, false;
    while i < nlen
      invariant i <= nlen && p + i <= |hay| && hay[p..p + i] == needle[..i] && !ended
      invariant forall j :: p <= j < p + i ==> hay[j] != 0
      decreases nlen - i
    {
      if CStr(hay, p + i) == 0 { return i, true; }
      if CStr(hay, p + i) != CStr(needle, i) { break; }
      assert hay[p..p + i + 1] == hay[p..p + i] + [hay[p + i]] && needle[..i + 1] == needle[..i] + [needle[i]];
      i := i + 1;
    }
  }

  /** The first occurrence of the needle in the C string at `from`, despite
      giving up as soon as the haystack ends inside an attempt. */
  method Strstr(hay: Str, from: nat, needle: Str) returns (r: Option<nat>)
    requires from <= |hay|
    ensures r == FirstOcc(hay[..Scan(hay, 0, from)], needle[..Scan(needle, 0, 0)], from)
  {
    ghost var z, h, n := Scan(hay, 0, from), hay[..Scan(hay, 0, from)], needle[..Scan(needle, 0, 0)];
    if CStr(needle, 0) == 0 {
      assert MatchAt(h, n, from);
      return Some(from);
    }
    var nlen := Strlen(needle);
    var p := from;
    while CStr(hay, p) != 0
      invariant from <= p <= z
      invariant forall q: nat {:trigger MatchAt(h, n, q)} :: from <= q < p ==> !MatchAt(h, n, q)
      decreases z - p
    {
      var i, ended := Compare(hay, p, needle, nlen);
      assert p + i <= z;
      if ended {
        FirstIsUnique(h, n, from, None);
        return None;
      }
      if i == nlen {
        assert MatchAt(h, n, p);
        FirstIsUnique(h, n, from, Some(p));
        return Some(p);
      }
      Mismatch(h, n, p, i);
      p := p + 1;
    }
    FirstIsUnique(h, n, from, None);
    return None;
  }

  // ---------------------------------------------------------------------
  // indexOf.

  function IndexOfSpec(s: Str, needle: Str, fromIndex: nat): Option<nat> {
    match IndexToByte(s, fromIndex)
    case Some(start) =>
      if needle == [] || |s| < start then None
      else (match FirstOcc(s[..Scan(s, 0, start)], needle[..Scan(needle, 0, 0)], start)
            case Some(p) => ByteToIndex(s, p)
            case None => None)
    case None => None
  }

  method IndexOf(s: Str, needle: Str, fromIndex: nat) returns (r: Option<nat>)
    ensures r == IndexOfSpec(s, needle, fromIndex)
  {
    if s == [] || needle == [] { return None; }
    var start := CodepointIndexToByte(s, fromIndex);
    if start.None? { return None; }
    SeekCount(s, 0, fromIndex);
    var found := Strstr(s, start.value, needle);
    if found.None? { return None; }
    r := ByteToCodepointIndex(s, found.value);
  }

  lemma NonZeroBytes<T>(f: Code<T>, cs: seq<T>, k: nat, i: nat)
    requires Coded(f, cs) && k < |cs| && cs[k] != f.nul
    requires Offset(f, cs, k) <= i < Offset(f, cs, k + 1) <= |EncodeAll(f, cs)|
    ensures EncodeAll(f, cs)[i] != 0
  {
    var o := Offset(f, cs, k);
    OffsetStep(f, cs, k);
    SuffixSplits(f, cs, k);
    assert CharOk(f, cs[k]);
    ByteAt(EncodeAll(f, cs), o, f.enc(cs[k]), EncodeAll(f, cs[k + 1..]), i - o);
  }

  lemma ByteAt(s: seq<Byte>, o: nat, e: seq<Byte>, rest: seq<Byte>, i: nat)
    requires o <= |s| && s[o..] == e + rest && i < |e|
    ensures o + i < |s| && s[o + i] == e[i]
  {
  }

  lemma {:induction false} ScanEncoded<T>(f: Code<T>, cs: seq<T>, k: nat)
    requires Coded(f, cs) && k <= |cs|
    ensures Offset(f, cs, k) <= |EncodeAll(f, cs)|
    ensures Scan(EncodeAll(f, cs), 0, Offset(f, cs, k)) == Offset(f, cs, Scan(cs, f.nul, k))
    decreases |cs| - k
  {
    if k == |cs| {
      assert cs[..k] == cs;
    } else {
      AtBoundary(f, cs, k);
      if cs[k] != f.nul {
        forall i | Offset(f, cs, k) <= i < Offset(f, cs, k + 1) ensures EncodeAll(f, cs)[i] != 0 {
          NonZeroBytes(f, cs, k, i);
        }
        ScanSkips(EncodeAll(f, cs), 0, Offset(f, cs, k), Offset(f, cs, k + 1));
        ScanEncoded(f, cs, k + 1);
      }
    }
  }

  /** A search over encoded text is the search over its code points. */
  lemma FirstOccEncoded<T>(f: Code<T>, h: seq<T>, n: seq<T>, from: nat)
    requires Coded(f, h) && Coded(f, n) && from <= |h|
    ensures FirstOcc(EncodeAll(f, h), EncodeAll(f, n), Offset(f, h, from))
      == match FirstOcc(h, n, from) { case None => None case Some(k) => Some(Offset(f, h, k)) }
  {
    NonEmpty(f, n);
    Between(f, h, from, |h|);
    FirstOccIsFirst(h, n, from);
    if n == [] {
      assert MatchAt(h, n, from) && MatchAt(EncodeAll(f, h), EncodeAll(f, n), Offset(f, h, from));
    } else {
      FirstOccNonEmpty(f, h, n, from);
    }
  }

  lemma FirstOccNonEmpty<T>(f: Code<T>, h: seq<T>, n: seq<T>, from: nat)
    requires Coded(f, h) && Coded(f, n) && n != [] && from <= |h|
    ensures FirstOcc(EncodeAll(f, h), EncodeAll(f, n), Offset(f, h, from))
      == match FirstOcc(h, n, from) { case None => None case Some(k) => Some(Offset(f, h, k)) }
  {
    var s, t, o := EncodeAll(f, h), EncodeAll(f, n), Offset(f, h, from);
    var r := FirstOcc(h, n, from);
    FirstOccIsFirst(h, n, from);
    var q := match r { case None => None case Some(k) => Some(Offset(f, h, k)) };
    if r.Some? {
      CodePointMatch(f, h, n, r.value);
      Between(f, h, from, r.value);
    }
    forall p: nat {:trigger MatchAt(s, t, p)} | o <= p && MatchAt(s, t, p)
      ensures r.Some? && Offset(f, h, r.value) <= p
    {
      var k := ByteMatch(f, h, n, p);
      if k < from { OffsetGrows(f, h, k, from); }
      assert r.Some? && r.value <= k;
      Between(f, h, r.value, k);
    }
    FirstIsUnique(s, t, o, q);
  }

  lemma {:induction false} PrefixOffset<T>(f: Code<T>, cs: seq<T>, z: nat)
    requires Coded(f, cs) && z <= |cs|
    ensures Offset(f, cs, z) <= |EncodeAll(f, cs)|
    ensures EncodeAll(f, cs[..z]) == EncodeAll(f, cs)[..Offset(f, cs, z)]
    ensures forall k :: 0 <= k <= z ==> Offset(f, cs[..z], k) == Offset(f, cs, k)
  {
    Between(f, cs, 0, z);
    assert cs[0..z] == cs[..z] && Offset(f, cs, 0) == 0;
    forall k | 0 <= k <= z ensures Offset(f, cs[..z], k) == Offset(f, cs, k) { assert cs[..z][..k] == cs[..k]; }
  }

  /** What strstr is given and finds, in code points. */
  lemma CutEncoded<T>(f: Code<T>, h: seq<T>, n: seq<T>, from: nat)
    requires Coded(f, h) && Coded(f, n) && from <= |h|
    ensures Offset(f, h, from) <= |EncodeAll(f, h)|
    ensures var (s, t, o) := (EncodeAll(f, h), EncodeAll(f, n), Offset(f, h, from));
      FirstOcc(s[..Scan(s, 0, o)], t[..Scan(t, 0, 0)], o)
      == match FirstOcc(h[..Scan(h, f.nul, from)], n[..Scan(n, f.nul, 0)], from)
         case None => None
         case Some(k) => Some(Offset(f, h, k))
  {
    ScanEncoded(f, h, from);
    ScanEncoded(f, n, 0);
    assert Offset(f, n, 0) == 0;
    PrefixOffset(f, h, Scan(h, f.nul, from));
    PrefixOffset(f, n, Scan(n, f.nul, 0));
    FirstOccEncoded(f, h[..Scan(h, f.nul, from)], n[..Scan(n, f.nul, 0)], from);
  }

  /** indexOf on all well-formed text: the least code-point index at or after
      `from` where the needle, cut at its first NUL, occurs before the first NUL
      that follows `from`; nothing for an empty text or needle. */
  lemma IndexOfRefines<T>(f: Code<T>, h: seq<T>, n: seq<T>, from: nat)
    requires Coded(f, h) && Coded(f, n)
    ensures IndexOfSpec(EncodeAll(f, h), EncodeAll(f, n), from)
      == if h == [] || n == [] || |h| < from then None
         else FirstOcc(h[..Scan(h, f.nul, from)], n[..Scan(n, f.nul, 0)], from)
  {
    IndexToByteRefines(f, h, from);
    NonEmpty(f, n);
    NonEmpty(f, h);
    if h != [] && n != [] && from <= |h| {
      CutEncoded(f, h, n, from);
      var r := FirstOcc(h[..Scan(h, f.nul, from)], n[..Scan(n, f.nul, 0)], from);
      if r.Some? { FoundIndex(f, h, r.value); }
    }
  }

  lemma FoundIndex<T>(f: Code<T>, h: seq<T>, k: nat)
    requires Coded(f, h) && h != [] && k <= |h|
    ensures ByteToIndex(EncodeAll(f, h), Offset(f, h, k)) == Some(k)
  {
    NonEmpty(f, h);
    CountEncoded(f, h, 0, k);
  }

  ghost predicate NulFree<T>(f: Code<T>, cs: seq<T>) { f.nul !in cs }

  /** Without NULs it is the plain first occurrence. */
  lemma IndexOfNulFree<T>(f: Code<T>, h: seq<T>, n: seq<T>, from: nat)
    requires Coded(f, h) && Coded(f, n) && NulFree(f, h) && NulFree(f, n) && n != []
    ensures IndexOfSpec(EncodeAll(f, h), EncodeAll(f, n), from) == FirstOcc(h, n, from)
  {
    IndexOfRefines(f, h, n, from);
    if from <= |h| {
      assert h[..Scan(h, f.nul, from)] == h && n[..Scan(n, f.nul, 0)] == n;
    }
  }

  // ---------------------------------------------------------------------
  // lastIndexOf.

  /** What one search of the loop finds from index `i`, which has not passed the
      first NUL unless the needle is cut to nothing. */
  lemma SearchFrom<T>(f: Code<T>, h: seq<T>, n: seq<T>, i: nat)
    requires Coded(f, h) && Coded(f, n) && h != [] && n != [] && i <= |h|
    requires i <= Scan(h, f.nul, 0) || Scan(n, f.nul, 0) == 0
    ensures var (h', n') := (h[..Scan(h, f.nul, 0)], n[..Scan(n, f.nul, 0)]);
      IndexOfSpec(EncodeAll(f, h), EncodeAll(f, n), i) == if n' == [] then Some(i) else FirstOcc(h', n', i)
  {
    IndexOfRefines(f, h, n, i);
    if Scan(n, f.nul, 0) == 0 {
      assert MatchAt(h[..Scan(h, f.nul, i)], n[..0], i);
    } else {
      ScanSkips(h, f.nul, 0, i);
    }
  }

  /** On well-formed text: the last occurrence of the needle up to its NUL in the
      text up to its first NUL; a needle that starts with a NUL is found before
      the last character of any text. */
  ghost predicate LastFound<T>(f: Code<T>, h: seq<T>, n: seq<T>, last: Option<nat>) {
    if h == [] || n == [] then last == None
    else if n[0] == f.nul then last == Some(|h| - 1)
    else IsLast(h[..Scan(h, f.nul, 0)], n[..Scan(n, f.nul, 0)], last)
  }

  /** The last match of n in h that starts before `i`, seen from a needle that
      may be empty and is then found at every index. */
  ghost predicate LastBefore<T>(h: seq<T>, n: seq<T>, i: nat, last: Option<nat>) {
    if n == [] then last == if i == 0 then None else Some(i - 1)
    else
      && i <= |h| && (last.Some? ==> last.value < i && MatchAt(h, n, last.value))
      && forall p: nat {:trigger MatchAt(h, n, p)} :: p < i && MatchAt(h, n, p) ==> last.Some? && p <= last.value
  }

  lemma LastMoves<T>(h: seq<T>, n: seq<T>, i: nat, last: Option<nat>, found: Option<nat>)
    requires LastBefore(h, n, i, last) && found == if n == [] then Some(i) else FirstOcc(h, n, i)
    ensures found.Some? ==> i <= found.value && LastBefore(h, n, found.value + 1, found)
    ensures found.None? || (n != [] && i == |h|) ==> n != [] && IsLast(h, n, last)
  {
    FirstOccIsFirst(h, n, i);
    if found.Some? { assert n != [] ==> MatchAt(h, n, found.value); }
  }

  method LastIndexOf<T>(s: Str, needle: Str, ghost f: Code<T>, ghost h: seq<T>, ghost n: seq<T>)
    returns (last: Option<nat>)
    requires Coded(f, h) && Coded(f, n) && s == EncodeAll(f, h) && needle == EncodeAll(f, n)
    ensures LastFound(f, h, n, last)
  {
    NonEmpty(f, h);
    NonEmpty(f, n);
    if s == [] || needle == [] { return None; }
    ghost var h', n' := h[..Scan(h, f.nul, 0)], n[..Scan(n, f.nul, 0)];
    last := None;
    LengthRefines(f, h);
    var cpcount := Length(s);
    var i := 0;
    while i < cpcount
      invariant i <= cpcount && LastBefore(h', n', i, last)
      decreases cpcount - i
    {
      SearchFrom(f, h, n, i);
      var idx := IndexOf(s, needle, i);
      LastMoves(h', n', i, last, idx);
      if idx.None? { return; }
      last := idx;
      i := idx.value;
      i := i + 1;
    }
    LastMoves(h', n', i, last, if n' == [] then Some(i) else FirstOcc(h', n', i));
  }

  /** Without NULs it is the plain last occurrence. */
  lemma LastOfPlainText<T>(f: Code<T>, h: seq<T>, n: seq<T>, last: Option<nat>)
    requires NulFree(f, h) && NulFree(f, n) && n != []
    ensures LastFound(f, h, n, last) <==> IsLast(h, n, last)
  {
    assert h[..Scan(h, f.nul, 0)] == h && n[..Scan(n, f.nul, 0)] == n;
    if h == [] { assert forall p: nat :: !MatchAt(h, n, p); }
  }
}
