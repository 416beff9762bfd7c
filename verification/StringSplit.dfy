// split, and what joining its parts gives back.
module StringSplit {
  import opened Options
  import opened Utf8
  import opened Utf8Text
  import opened FeronString
  import opened StringSearch

  // ---------------------------------------------------------------------
  // Splitting any sequence.

  /** The parts of h from `start` on; `find` gives the next delimiter. */
  ghost function Parts<T>(h: seq<T>, find: nat -> Option<nat>, dlen: nat, start: nat): seq<seq<T>>
    requires 0 < dlen && start <= |h|
    decreases |h| - start
  {
    match find(start)
    case None => [h[start..]]
    case Some(k) =>
      if start <= k && k + dlen <= |h| then [h[start..k]] + Parts(h, find, dlen, k + dlen) else [h[start..]]
  }

  ghost function Join<T>(parts: seq<seq<T>>, d: seq<T>): seq<T> {
    if parts == [] then [] else if |parts| == 1 then parts[0] else parts[0] + d + Join(parts[1..], d)
  }

  ghost function Finder<T>(h: seq<T>, d: seq<T>): nat -> Option<nat> { i => FirstOcc(h, d, i) }

  /** `find` is the first occurrence of d in h. */
  ghost predicate Finds<T>(find: nat -> Option<nat>, h: seq<T>, d: seq<T>) {
    forall i: nat {:trigger find(i)} :: i <= |h| ==> IsFirst(h, d, i, find(i))
  }

  lemma FinderFinds<T>(h: seq<T>, d: seq<T>)
    ensures Finds(Finder(h, d), h, d)
  {
    forall i: nat | i <= |h| ensures IsFirst(h, d, i, Finder(h, d)(i)) { FirstOccIsFirst(h, d, i); }
  }

  lemma {:induction false} JoinParts<T>(h: seq<T>, find: nat -> Option<nat>, d: seq<T>, start: nat)
    requires d != [] && start <= |h| && Finds(find, h, d)
    ensures Parts(h, find, |d|, start) != [] && Join(Parts(h, find, |d|, start), d) == h[start..]
    decreases |h| - start
  {
    assert IsFirst(h, d, start, find(start));
    match find(start)
    case None =>
    case Some(k) =>
      JoinParts(h, find, d, k + |d|);
      var rest := Parts(h, find, |d|, k + |d|);
      assert ([h[start..k]] + rest)[1..] == rest;
      assert h[start..] == h[start..k] + h[k..k + |d|] + h[k + |d|..];
  }

  lemma {:induction false} PartsLackDelimiter<T>(h: seq<T>, find: nat -> Option<nat>, d: seq<T>, start: nat,
                                                 i: nat, p: nat)
    requires d != [] && start <= |h| && Finds(find, h, d) && i < |Parts(h, find, |d|, start)|
    ensures !MatchAt(Parts(h, find, |d|, start)[i], d, p)
    decreases |h| - start
  {
    assert IsFirst(h, d, start, find(start));
    match find(start)
    case None => MatchInside(h, start, |h|, d, p);
    case Some(k) =>
      if i == 0 {
        MatchInside(h, start, k, d, p);
      } else {
        PartsLackDelimiter(h, find, d, k + |d|, i - 1, p);
      }
  }

  /** Joining the parts gives back the text, and no part holds the delimiter. */
  lemma SplitJoins<T>(h: seq<T>, d: seq<T>)
    requires d != []
    ensures var parts := Parts(h, Finder(h, d), |d|, 0);
      && Join(parts, d) == h
      && forall i, p: nat {:trigger MatchAt(parts[i], d, p)} :: 0 <= i < |parts| ==> !MatchAt(parts[i], d, p)
  {
    FinderFinds(h, d);
    JoinParts(h, Finder(h, d), d, 0);
    var parts := Parts(h, Finder(h, d), |d|, 0);
    forall i, p: nat | 0 <= i < |parts| ensures !MatchAt(parts[i], d, p) {
      PartsLackDelimiter(h, Finder(h, d), d, 0, i, p);
    }
  }

  // ---------------------------------------------------------------------
  // The code.

  /** charAt: one character, nothing past the end. */
  function CharAtOf(s: Str, i: nat): Str {
    match IndexToByte(s, i)
    case Some(o) => if o < |s| && o + Advance(s[o]) <= |s| then s[o..o + Advance(s[o])] else []
    case None => []
  }

  lemma CharAtRefines<T>(f: Code<T>, cs: seq<T>, i: nat)
    requires Coded(f, cs)
    ensures CharAtOf(EncodeAll(f, cs), i) == if i < |cs| then EncodeAll(f, [cs[i]]) else []
  {
    IndexToByteRefines(f, cs, i);
    if i < |cs| {
      CharBytes(f, cs, i);
    } else if i == |cs| {
      assert cs[..i] == cs;
    }
  }

  lemma CharBytes<T>(f: Code<T>, cs: seq<T>, i: nat)
    requires Coded(f, cs) && i < |cs|
    ensures var (s, o) := (EncodeAll(f, cs), Offset(f, cs, i));
      o < |s| && o + Advance(s[o]) <= |s| && s[o..o + Advance(s[o])] == EncodeAll(f, [cs[i]])
  {
    AtBoundary(f, cs, i);
    Between(f, cs, i, i + 1);
    assert cs[i..i + 1] == [cs[i]];
  }

  method CharAt<T>(s: Str, i: nat, ghost f: Code<T>, ghost cs: seq<T>) returns (r: Str)
    requires Coded(f, cs) && s == EncodeAll(f, cs)
    ensures r == CharAtOf(s, i)
  {
    WholeChar(f, cs, i);
    var off := CodepointIndexToByte(s, i);
    if off.None? { return []; }
    var adv := if off.value >= |s| then 0 else Advance(s[off.value]);
    return s[off.value..off.value + adv];
  }

  lemma WholeChar<T>(f: Code<T>, cs: seq<T>, i: nat)
    requires Coded(f, cs)
    ensures var (s, o) := (EncodeAll(f, cs), IndexToByte(EncodeAll(f, cs), i));
      o.Some? ==> o.value <= |s| && (o.value < |s| ==> o.value + Advance(s[o.value]) <= |s|)
  {
    IndexToByteRefines(f, cs, i);
    if i < |cs| {
      AtBoundary(f, cs, i);
    } else if i == |cs| {
      assert cs[..i] == cs;
    }
  }

  /** The parts split writes, at most `max`, from code point `start`: `find` is
      indexOf of the delimiter, `cut` is slice. */
  ghost function PartsOf(find: nat -> Option<nat>, cut: (int, int) -> Str, dlen: nat, start: nat, max: nat): seq<Str>
    decreases max
  {
    if max == 0 then []
    else match find(start)
      case None => [cut(start, INT64_MAX)]
      case Some(idx) => [cut(start, idx)] + PartsOf(find, cut, dlen, idx + dlen, max - 1)
  }

  ghost function SplitOf(s: Str, delim: Str, max: nat): seq<Str> {
    PartsOf(i => IndexOfSpec(s, delim, i), (a, b) => SliceOf(s, a, b), Count(delim, 0, |delim|), 0, max)
  }

  /** `find` and `cut` are indexOf and slice on s. */
  ghost predicate Reads(find: nat -> Option<nat>, cut: (int, int) -> Str, s: Str, delim: Str) {
    && (forall i: nat {:trigger IndexOfSpec(s, delim, i)} :: find(i) == IndexOfSpec(s, delim, i))
    && (forall a: int, b: int {:trigger SliceOf(s, a, b)} :: cut(a, b) == SliceOf(s, a, b))
  }

  /** split by a delimiter. */
  method SplitBy(s: Str, delim: Str, outParts: array<Str>, maxParts: nat) returns (written: nat)
    requires s != [] && delim != [] && maxParts <= outParts.Length
    modifies outParts
    ensures written <= maxParts && outParts[..written] == SplitOf(s, delim, maxParts)
    ensures outParts[written..] == old(outParts[written..])
  {
    ghost var find: nat -> Option<nat> := i => IndexOfSpec(s, delim, i);
    ghost var cut := (a, b) => SliceOf(s, a, b);
    var dlen := Length(delim);
    written := SplitLoop(s, delim, dlen, outParts, maxParts, find, cut);
  }

  method SplitLoop(s: Str, delim: Str, dlen: nat, outParts: array<Str>, max: nat,
                   ghost find: nat -> Option<nat>, ghost cut: (int, int) -> Str) returns (written: nat)
    requires max <= outParts.Length && Reads(find, cut, s, delim)
    modifies outParts
    ensures written <= max && outParts[..written] == PartsOf(find, cut, dlen, 0, max)
    ensures outParts[written..] == old(outParts[written..])
  {
    ghost var all := PartsOf(find, cut, dlen, 0, max);
    var start: nat, more := 0, true;
    written := 0;
    assert outParts[..0] + all == all;
    while more && written < max
      invariant written <= max
      invariant Progress(outParts[..written], if more then PartsOf(find, cut, dlen, start, max - written) else [], all)
      invariant outParts[written..] == old(outParts[written..])
      decreases max - written
    {
      start, more := SplitTurn(s, delim, dlen, outParts, written, max - written - 1, start, find, cut);
      written := written + 1;
    }
    assert outParts[..written] + [] == outParts[..written];
  }

  ghost predicate Progress(done: seq<Str>, todo: seq<Str>, all: seq<Str>) { done + todo == all }

  /** One turn: writes a part, and says where the next one starts, if there is one. */
  method SplitTurn(s: Str, delim: Str, dlen: nat, outParts: array<Str>, written: nat, room: nat, start: nat,
                   ghost find: nat -> Option<nat>, ghost cut: (int, int) -> Str) returns (next: nat, more: bool)
    requires written < outParts.Length && Reads(find, cut, s, delim)
    modifies outParts
    ensures outParts[..written + 1] + (if more then PartsOf(find, cut, dlen, next, room) else [])
      == old(outParts[..written]) + PartsOf(find, cut, dlen, start, room + 1)
    ensures outParts[written + 1..] == old(outParts[written + 1..])
  {
    ghost var done := outParts[..written];
    var idx, part := NextPart(s, delim, start, find, cut);
    Put(outParts, written, part);
    NextParts(find, cut, dlen, start, room, done, part);
    more := idx.Some?;
    next := if more then idx.value + dlen else start;
  }

  /** Where the next delimiter is, and the part before it. */
  method NextPart(s: Str, delim: Str, start: nat, ghost find: nat -> Option<nat>, ghost cut: (int, int) -> Str)
    returns (idx: Option<nat>, part: Str)
    requires Reads(find, cut, s, delim)
    ensures idx == find(start) && part == cut(start, if idx.None? then INT64_MAX else idx.value)
  {
    idx := IndexOf(s, delim, start);
    part := Slice(s, start, if idx.None? then INT64_MAX else idx.value);
  }

  method Put(a: array<Str>, i: nat, v: Str)
    requires i < a.Length
    modifies a
    ensures a[..i + 1] == old(a[..i]) + [v] && a[i + 1..] == old(a[i + 1..])
  {
    a[i] := v;
  }

  /** One unfolding of the parts, behind those already written. */
  lemma NextParts(find: nat -> Option<nat>, cut: (int, int) -> Str, dlen: nat, start: nat, max: nat,
                  done: seq<Str>, part: Str)
    requires part == cut(start, if find(start).None? then INT64_MAX else find(start).value)
    ensures done + PartsOf(find, cut, dlen, start, max + 1)
      == done + [part] + if find(start).None? then [] else PartsOf(find, cut, dlen, find(start).value + dlen, max)
  {
  }

  /** split without a delimiter: one part per code point. */
  method SplitChars<T>(s: Str, outParts: array<Str>, maxParts: nat, ghost f: Code<T>, ghost cs: seq<T>)
    returns (written: nat)
    requires Coded(f, cs) && s == EncodeAll(f, cs) && maxParts <= outParts.Length
    modifies outParts
    ensures written == if |cs| < maxParts then |cs| else maxParts
    ensures forall i :: 0 <= i < written ==> outParts[i] == EncodeAll(f, [cs[i]])
  {
    LengthRefines(f, cs);
    var cp := Length(s);
    written := 0;
    var i := 0;
    while i < cp && written < maxParts
      invariant written == i <= cp && written <= maxParts
      invariant forall j :: 0 <= j < written ==> outParts[j] == EncodeAll(f, [cs[j]])
      decreases cp - i
    {
      CharAtRefines(f, cs, i);
      var c := CharAt(s, i, f, cs);
      outParts[written] := c;
      written := written + 1;
      i := i + 1;
    }
  }

  /** Nothing for the null string. */
  method Split<T>(s: Str, delim: Str, outParts: array<Str>, maxParts: nat, ghost f: Code<T>, ghost cs: seq<T>)
    returns (written: nat)
    requires maxParts <= outParts.Length && (delim == [] ==> Coded(f, cs) && s == EncodeAll(f, cs))
    modifies outParts
    ensures written <= maxParts
    ensures s == [] ==> written == 0
    ensures s != [] && delim == [] ==> written == if |cs| < maxParts then |cs| else maxParts
    ensures s != [] && delim == [] ==> forall i :: 0 <= i < written && i < |cs| ==> outParts[i] == EncodeAll(f, [cs[i]])
    ensures s != [] && delim != [] ==> outParts[..written] == SplitOf(s, delim, maxParts)
  {
    if s == [] { return 0; }
    if delim == [] {
      written := SplitChars(s, outParts, maxParts, f, cs);
    } else {
      written := SplitBy(s, delim, outParts, maxParts);
    }
  }

  /** `w` are the images of the leading parts. */
  ghost predicate ImagesOf<T>(w: seq<Str>, parts: seq<seq<T>>, enc: seq<T> -> Str) {
    |w| <= |parts| && forall i :: 0 <= i < |w| ==> w[i] == enc(parts[i])
  }

  ghost predicate Cuts<T>(cut: (int, int) -> Str, enc: seq<T> -> Str, h: seq<T>) {
    && (forall a: nat, b: nat {:trigger cut(a, b)} :: a <= b <= |h| ==> cut(a, b) == enc(h[a..b]))
    && (forall a: nat {:trigger cut(a, INT64_MAX)} :: a <= |h| ==> cut(a, INT64_MAX) == enc(h[a..]))
  }

  ghost predicate SameFinds(f: nat -> Option<nat>, g: nat -> Option<nat>, n: nat, dlen: nat) {
    forall i: nat {:trigger f(i)} {:trigger g(i)} :: i <= n ==>
      f(i) == g(i) && (f(i).Some? ==> i <= f(i).value && f(i).value + dlen <= n)
  }

  lemma {:induction false} PartsWritten<T>(f: nat -> Option<nat>, cut: (int, int) -> Str, enc: seq<T> -> Str, h: seq<T>,
                                           g: nat -> Option<nat>, dlen: nat, start: nat, max: nat)
    requires 0 < dlen && start <= |h| && Cuts(cut, enc, h) && SameFinds(f, g, |h|, dlen)
    ensures ImagesOf(PartsOf(f, cut, dlen, start, max), Parts(h, g, dlen, start), enc)
    ensures var n := |Parts(h, g, dlen, start)|; |PartsOf(f, cut, dlen, start, max)| == if max < n then max else n
    decreases max
  {
    if max != 0 {
      match f(start)
      case None => assert cut(start, INT64_MAX) == enc(h[start..]);
      case Some(k) =>
        assert cut(start, k) == enc(h[start..k]);
        PartsWritten(f, cut, enc, h, g, dlen, k + dlen, max - 1);
    }
  }

  ghost function Encoder<T>(f: Code<T>): seq<T> -> Str { cs => EncodeAll(f, cs) }

  /** split writes the encoded code-point parts in order, as many as there is room for. */
  lemma SplitRefines<T>(f: Code<T>, h: seq<T>, d: seq<T>, max: nat)
    requires Coded(f, h) && Coded(f, d) && NulFree(f, h) && NulFree(f, d) && d != [] && |h| < INT64_MAX
    ensures var w, parts := SplitOf(EncodeAll(f, h), EncodeAll(f, d), max), Parts(h, Finder(h, d), |d|, 0);
      ImagesOf(w, parts, Encoder(f)) && |w| == if max < |parts| then max else |parts|
  {
    var s, t := EncodeAll(f, h), EncodeAll(f, d);
    var find: nat -> Option<nat> := i => IndexOfSpec(s, t, i);
    var cut := (a, b) => SliceOf(s, a, b);
    LengthRefines(f, d);
    forall i: nat | i <= |h| ensures find(i) == Finder(h, d)(i) { IndexOfNulFree(f, h, d, i); }
    forall a: nat, b: nat {:trigger cut(a, b)} | a <= b <= |h| ensures cut(a, b) == EncodeAll(f, h[a..b]) {
      CutRefines(f, h, a, b);
    }
    forall a: nat {:trigger cut(a, INT64_MAX)} | a <= |h| ensures cut(a, INT64_MAX) == EncodeAll(f, h[a..]) {
      CutToEnd(f, h, a);
    }
    PartsWritten(find, cut, Encoder(f), h, Finder(h, d), |d|, 0, max);
  }

  lemma CutRefines<T>(f: Code<T>, h: seq<T>, a: nat, b: nat)
    requires Coded(f, h) && a <= b <= |h| < INT64_MAX
    ensures SliceOf(EncodeAll(f, h), a, b) == EncodeAll(f, h[a..b])
  {
    assert Normalize(a, |h|) == a && Normalize(b, |h|) == b;
    SliceRefines(f, h, a, b);
  }

  lemma CutToEnd<T>(f: Code<T>, h: seq<T>, a: nat)
    requires Coded(f, h) && a <= |h|
    ensures SliceOf(EncodeAll(f, h), a, INT64_MAX) == EncodeAll(f, h[a..])
  {
    SliceRefines(f, h, a, INT64_MAX);
    assert h[a..|h|] == h[a..];
  }
}
