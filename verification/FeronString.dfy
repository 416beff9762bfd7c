// feron::string.  A string is its bytes; no bytes is the null string.  Every
// buffer is NUL-terminated: `CStr(s, |s|)` is the terminator.
module FeronString {
  import opened Options
  import opened Utf8
  import opened Utf8Text

  type Str = seq<Byte>

  const INT64_MAX: int := 0x7FFF_FFFF_FFFF_FFFF

  function CStr(s: Str, i: nat): Byte
    requires i <= |s|
  {
    if i == |s| then 0 else s[i]
  }

  // ---------------------------------------------------------------------
  // Indexing.

  method Length(s: Str) returns (count: nat)
    ensures count == Count(s, 0, |s|)
  {
    count := 0;
    var p := 0;
    while p < |s|
      invariant count + Count(s, p, |s|) == Count(s, 0, |s|)
      decreases |s| - p
    {
      var adv := Advance(s[p]);
      if adv == 0 { p := p + 1; continue; }
      p := p + adv;
      count := count + 1;
    }
  }

  function IndexToByte(s: Str, idx: nat): Option<nat> {
    if s == [] then None else Seek(s, 0, idx)
  }

  method CodepointIndexToByte(s: Str, idx: nat) returns (r: Option<nat>)
    ensures r == IndexToByte(s, idx)
  {
    if s == [] { return None; }
    var p, i := 0, 0;
    while p < |s|
      invariant i <= idx && Seek(s, 0, idx) == Seek(s, p, idx - i)
      decreases |s| - p
    {
      if i == idx { return Some(p); }
      var adv := Advance(s[p]);
      if adv == 0 { p := p + 1; continue; }
      p := p + adv;
      i := i + 1;
    }
    if idx == i { return Some(|s|); }
    return None;
  }

  function ByteToIndex(s: Str, off: nat): Option<nat> {
    if s == [] || |s| < off then None else Some(Count(s, 0, off))
  }

  method ByteToCodepointIndex(s: Str, off: nat) returns (r: Option<nat>)
    ensures r == ByteToIndex(s, off)
  {
    if s == [] || off > |s| { return None; }
    var p, i := 0, 0;
    while p < off
      invariant i + Count(s, p, off) == Count(s, 0, off)
      decreases off - p
    {
      var adv := Advance(s[p]);
      if adv == 0 { p := p + 1; continue; }
      p := p + adv;
      i := i + 1;
    }
    return Some(i);
  }

  /** On any non-empty bytes: the offset of every index up to length() exists,
      leads back to the index, and grows with it. */
  lemma IndexRoundTrip(s: Str, i: nat, j: nat)
    requires s != [] && i <= j <= Count(s, 0, |s|)
    ensures IndexToByte(s, i).Some? && IndexToByte(s, j).Some? && IndexToByte(s, j).value <= |s|
    ensures ByteToIndex(s, IndexToByte(s, i).value) == Some(i)
    ensures i < j ==> IndexToByte(s, i).value < IndexToByte(s, j).value
  {
    SeekCount(s, 0, i);
    SeekCount(s, 0, j);
    if i < j { SeekGrows(s, 0, i, j); }
  }

  // ---------------------------------------------------------------------
  // slice and concatenation.

  function Normalize(idx: int, len: nat): nat {
    if idx < 0 then (if len + idx < 0 then 0 else len + idx) else idx
  }

  function SliceOf(s: Str, start: int, end: int): Str {
    var cp := Count(s, 0, |s|);
    var a, b := Normalize(start, cp), if end == INT64_MAX then cp else Normalize(end, cp);
    match (IndexToByte(s, a), IndexToByte(s, b))
    case (Some(sb), Some(eb)) => if a <= b && sb <= eb <= |s| then s[sb..eb] else []
    case _ => []
  }

  method Slice(s: Str, start: int, end: int) returns (r: Str)
    ensures r == SliceOf(s, start, end)
  {
    var cp := Length(s);
    var a := Normalize(start, cp);
    var b := if end == INT64_MAX then cp else Normalize(end, cp);
    if b < a { return []; }
    var sb := CodepointIndexToByte(s, a);
    var eb := CodepointIndexToByte(s, b);
    if s != [] { SeekCount(s, 0, a); SeekCount(s, 0, b); }
    if sb.None? || eb.None? || eb.value < sb.value { return []; }
    return s[sb.value..eb.value];
  }

  /** memcpy of `src` to `off`. */
  method Memcpy(dst: array<Byte>, off: nat, src: Str)
    requires off + |src| <= dst.Length
    modifies dst
    ensures dst[..] == old(dst[..off]) + src + old(dst[off + |src|..])
  {
    for i := 0 to |src|
      invariant dst[..off] == old(dst[..off]) && dst[off + i..] == old(dst[off + i..])
      invariant dst[off..off + i] == src[..i]
    {
      dst[off + i] := src[i];
      assert dst[off..off + i + 1] == dst[off..off + i] + [src[i]];
    }
    assert dst[..] == dst[..off] + dst[off..off + |src|] + dst[off + |src|..];
  }

  /** concat, which makes one buffer; `granted` tells whether malloc gives it. */
  method Concat(s: Str, other: Str, granted: bool) returns (r: Str)
    ensures r == if granted then s + other else []
  {
    if s == [] { return if granted then other else []; }
    if other == [] { return if granted then s else []; }
    if !granted { return []; }
    var nb := |s| + |other|;
    var buf := new Byte[nb + 1];
    Memcpy(buf, 0, s);
    Memcpy(buf, |s|, other);
    buf[nb] := 0;
    r := buf[..nb];
  }

  lemma LengthRefines<T>(f: Code<T>, cs: seq<T>)
    requires Coded(f, cs)
    ensures Count(EncodeAll(f, cs), 0, |EncodeAll(f, cs)|) == |cs|
  {
    CountEncoded(f, cs, 0, |cs|);
    assert cs[..|cs|] == cs;
  }

  lemma IndexToByteRefines<T>(f: Code<T>, cs: seq<T>, i: nat)
    requires Coded(f, cs)
    ensures IndexToByte(EncodeAll(f, cs), i) == if cs != [] && i <= |cs| then Some(Offset(f, cs, i)) else None
  {
    NonEmpty(f, cs);
    SeekEncoded(f, cs, 0, i);
  }

  /** For all bounds: in range, slice is the code-point subsequence (negative
      bounds counting from the end), otherwise it is empty. */
  lemma SliceRefines<T>(f: Code<T>, cs: seq<T>, start: int, end: int)
    requires Coded(f, cs)
    ensures var a, b := Normalize(start, |cs|), if end == INT64_MAX then |cs| else Normalize(end, |cs|);
      SliceOf(EncodeAll(f, cs), start, end) == if a <= b <= |cs| then EncodeAll(f, cs[a..b]) else []
  {
    var a, b := Normalize(start, |cs|), if end == INT64_MAX then |cs| else Normalize(end, |cs|);
    LengthRefines(f, cs);
    IndexToByteRefines(f, cs, a);
    IndexToByteRefines(f, cs, b);
    if a <= b <= |cs| { Between(f, cs, a, b); }
  }

  /** The character an index stands for in a text of n: counted from the start,
      from the end, or from before the start. */
  ghost predicate Denotes(idx: int, n: nat, k: nat) {
    || idx == k
    || (k < n && idx == k - n)
    || (k == 0 && idx < -(n as int))
  }

  ghost predicate DenotesEnd(idx: int, n: nat, k: nat) {
    if idx == INT64_MAX then k == n else Denotes(idx, n, k)
  }

  /** slice is the characters from one bound up to the other, or nothing. */
  lemma SliceIs<T>(f: Code<T>, cs: seq<T>, start: int, end: int, a: nat, b: nat)
    requires Coded(f, cs) && Denotes(start, |cs|, a) && DenotesEnd(end, |cs|, b)
    ensures SliceOf(EncodeAll(f, cs), start, end) == if a <= b <= |cs| then EncodeAll(f, cs[a..b]) else []
  {
    BoundIs(start, |cs|, a);
    if end != INT64_MAX { BoundIs(end, |cs|, b); }
    SliceRefines(f, cs, start, end);
  }

  lemma BoundIs(idx: int, n: nat, k: nat)
    requires Denotes(idx, n, k)
    ensures Normalize(idx, n) == k
  {
  }

  /** slice(-k) is the last k characters. */
  lemma LastCharacters<T>(f: Code<T>, cs: seq<T>, k: int)
    requires Coded(f, cs) && 0 < k <= |cs|
    ensures SliceOf(EncodeAll(f, cs), -k, INT64_MAX) == EncodeAll(f, cs[|cs| - k..])
  {
    SliceIs(f, cs, -k, INT64_MAX, |cs| - k, |cs|);
    assert cs[|cs| - k..|cs|] == cs[|cs| - k..];
  }

  /** slice(a, -k) is what is left from a on without them. */
  lemma ButLastCharacters<T>(f: Code<T>, cs: seq<T>, a: nat, k: int)
    requires Coded(f, cs) && 0 < k <= |cs|
    ensures SliceOf(EncodeAll(f, cs), a, -k) == if a + k <= |cs| then EncodeAll(f, cs[a..|cs| - k]) else []
  {
    SliceIs(f, cs, a, -k, a, |cs| - k);
  }

  // ---------------------------------------------------------------------
  // Iteration.

  class Iterator {
    const data: Str
    var cur: nat

    constructor (data: Str)
      ensures this.data == data && cur == 0
    {
      this.data, cur := data, 0;
    }

    predicate AtEnd()
      reads this
    {
      cur == |data|
    }

    function Current(): CodePoint
      requires cur < |data| && Advance(data[cur]) <= |data| - cur
      reads this
    {
      Decode(data[cur..])
    }

    method Next()
      requires cur < |data|
      modifies this
      ensures cur == old(cur) + if Advance(data[old(cur)]) == 0 then 1 else Advance(data[old(cur)])
    {
      var adv := Advance(data[cur]);
      if adv == 0 { cur := cur + 1; } else { cur := cur + adv; }
    }
  }

  /** A range-for over well-formed text yields its code points and stops. */
  method Iterate(s: Str, ghost cs: seq<CodePoint>) returns (out: seq<CodePoint>)
    requires Scalars(cs) && s == Text(cs)
    ensures out == cs
  {
    var it := new Iterator(s);
    out := [];
    while !it.AtEnd()
      invariant At(cs, it.cur, out) && it.data == s
      decreases |s| - it.cur
    {
      NotLast(cs, it.cur, out);
      out := out + [it.Current()];
      it.Next();
    }
    OnlyLast(cs, it.cur, out);
  }

  /** The iterator stands behind the code points it has yielded. */
  ghost predicate At(cs: seq<CodePoint>, cur: nat, out: seq<CodePoint>)
    requires Scalars(cs)
  {
    |out| <= |cs| && out == cs[..|out|] && cur == Offset(Utf8Code(), cs, |out|) <= |Text(cs)|
  }

  lemma NotLast(cs: seq<CodePoint>, cur: nat, out: seq<CodePoint>)
    requires Scalars(cs) && At(cs, cur, out) && cur != |Text(cs)|
    ensures var s := Text(cs);
      && cur < |s| && 0 < Advance(s[cur]) <= |s| - cur
      && At(cs, cur + Advance(s[cur]), out + [Decode(s[cur..])])
  {
    assert cs[..|cs|] == cs;
    CharacterAt(cs, |out|);
  }

  lemma OnlyLast(cs: seq<CodePoint>, cur: nat, out: seq<CodePoint>)
    requires Scalars(cs) && At(cs, cur, out) && cur == |Text(cs)|
    ensures out == cs
  {
    Utf8Coded(cs);
    if |out| < |cs| { OffsetGrows(Utf8Code(), cs, |out|, |cs|); }
    assert cs[..|cs|] == cs;
  }

  /** decode_codepoint at a character boundary gives the character. */
  lemma CharacterAt(cs: seq<CodePoint>, k: nat)
    requires Scalars(cs) && k < |cs|
    ensures var s, o := Text(cs), Offset(Utf8Code(), cs, k);
      && o < |s| && 0 < Advance(s[o]) <= |s| - o && Decode(s[o..]) == cs[k]
      && Offset(Utf8Code(), cs, k + 1) == o + Advance(s[o])
  {
    Utf8Coded(cs);
    AtBoundary(Utf8Code(), cs, k);
    SuffixSplits(Utf8Code(), cs, k);
    DecodeEncode(cs[k], EncodeAll(Utf8Code(), cs[k + 1..]));
  }
}
