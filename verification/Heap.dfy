// The kernel heap of cpp_runtime.cpp, in place over one flat byte area.
//
// Pointers are absolute addresses, 0 is null.  Headers, footers and list links
// are 64-bit words inside the area; `st` is the state of HeapModel they encode.
module Heap {
  import opened HeapModel
  import opened Options
  import opened HeapTheorems
  import opened HeapLayout
  import opened Words

  /** The payload bytes of every live block, by the cell the block starts at. */
  ghost function ContentsOf(bytes: seq<Octet>, b: Tiling): map<nat, seq<Octet>> {
    map s | s in b && b[s].used && s + HEADER < s + b[s].size && 8 * (s + b[s].size) <= |bytes|
      :: bytes[8 * (s + HEADER)..8 * (s + b[s].size - 1)]
  }

  ghost function Put(bytes: seq<Octet>, off: nat, v: Octet): seq<Octet>
    requires off < |bytes|
  {
    bytes[off := v]
  }

  /** `dst` with its first n bytes taken from `src`. */
  ghost function Splice(src: seq<Octet>, dst: seq<Octet>, n: nat): seq<Octet>
    requires n <= |src| && n <= |dst|
  {
    src[..n] + dst[n..]
  }

  lemma SpliceStep(src: seq<Octet>, dst: seq<Octet>, n: nat)
    requires n < |src| && n < |dst|
    ensures Put(Splice(src, dst, n), n, src[n]) == Splice(src, dst, n + 1)
  {
  }

  /** From contents c0 to c1: block `d` is new, has room for n bytes and starts
      with the bytes of `s`, which is gone; all others are as they were. */
  ghost predicate Relocated(c0: map<nat, seq<Octet>>, c1: map<nat, seq<Octet>>, s: Option<nat>, d: nat, n: nat) {
    && d !in c0 && d in c1 && n <= |c1[d]|
    && c1.Keys == c0.Keys - (if s.Some? then {s.value} else {}) + {d}
    && (forall t :: t in c1 && t != d ==> c1[t] == c0[t])
    && (s.Some? ==> s.value in c0 && StartsLike(c1[d], c0[s.value], n))
  }

  ghost predicate StartsLike(after: seq<Octet>, before: seq<Octet>, n: nat) {
    var k := if |before| < n then |before| else n;
    k <= |after| && after[..k] == before[..k]
  }

  lemma CopyRelocates(c0: map<nat, seq<Octet>>, c1: map<nat, seq<Octet>>, c2: map<nat, seq<Octet>>,
                      s: nat, d: nat, n: nat)
    requires s in c0 && Relocated(c0, c1, None, d, n)
    requires var k := if |c0[s]| < n then |c0[s]| else n;
      c2 == c1[d := Splice(c0[s], c1[d], k)] - {s}
    ensures Relocated(c0, c2, Some(s), d, n)
  {
  }

  lemma SpliceMap(c0: map<nat, seq<Octet>>, c1: map<nat, seq<Octet>>, c2: map<nat, seq<Octet>>,
                  s: nat, d: nat, n: nat, v: Octet)
    requires s in c0 && d in c0 && s != d && n < |c0[s]| && n < |c0[d]|
    requires c1 == c0[d := Splice(c0[s], c0[d], n)] && v == c1[s][n] && c2 == c1[d := Put(c1[d], n, v)]
    ensures c2 == c0[d := Splice(c0[s], c0[d], n + 1)]
  {
    SpliceStep(c0[s], c0[d], n);
  }

  ghost predicate PayloadKept(w: seq<nat>, w': seq<nat>, b: Tiling, s: nat) {
    forall c {:trigger Payload(b, s, c)} :: 0 <= c < |w| && c < |w'| && Payload(b, s, c) ==> w'[c] == w[c]
  }

  /** No payload but that of `x` differs. */
  ghost predicate Spared(w: seq<nat>, w': seq<nat>, b: Tiling, x: nat) {
    forall t {:trigger PayloadKept(w, w', b, t)} :: t in b && b[t].used && t != x ==> PayloadKept(w, w', b, t)
  }

  lemma SparedTrans(w0: seq<nat>, w1: seq<nat>, w2: seq<nat>, b: Tiling, b': Tiling, x: nat)
    requires |w0| == |w1| == |w2| && Spared(w0, w1, b, x) && Spared(w1, w2, b', x)
    requires forall t :: t in b && b[t].used && t != x ==> t in b' && b'[t] == b[t]
    ensures Spared(w0, w2, b, x)
  {
    forall t {:trigger PayloadKept(w0, w2, b, t)} | t in b && b[t].used && t != x
      ensures PayloadKept(w0, w2, b, t)
    {
      assert PayloadKept(w0, w1, b, t) && PayloadKept(w1, w2, b', t);
      forall c {:trigger Payload(b, t, c)} | 0 <= c < |w0| && Payload(b, t, c) ensures w2[c] == w0[c] {
        assert Payload(b', t, c);
      }
    }
  }

  ghost predicate FreeOnly(b: Tiling, fl: seq<nat>) { forall s :: s in fl ==> FreeAt(b, s) }

  /** Rewriting free-list links touches no payload. */
  lemma LinksSpare(n: nat, b: Tiling, fl: seq<nat>, w: seq<nat>, w': seq<nat>, x: nat)
    requires Tiles(n, b) && FreeOnly(b, fl) && |w'| == |w|
    requires forall c :: 0 <= c < |w| && !LinkCell(fl, c) ==> w'[c] == w[c]
    ensures Spared(w, w', b, x)
  {
    forall t, c {:trigger Payload(b, t, c)} | 0 <= c < |w| && Payload(b, t, c) ensures w'[c] == w[c] {
      if LinkCell(fl, c) { LinkCellsInside(n, b, fl, c); }
    }
  }

  /** Rewriting header and footer of one block touches no other payload. */
  lemma TagsSpare(n: nat, b: Tiling, w: seq<nat>, w': seq<nat>, s: nat)
    requires Tiles(n, b) && s in b && |w'| == |w|
    requires forall c :: 0 <= c < |w| && c != s && c != s + b[s].size - 1 ==> w'[c] == w[c]
    ensures Spared(w, w', b, s)
  {
    forall t, c {:trigger Payload(b, t, c)} | 0 <= c < |w| && Payload(b, t, c) && t != s ensures w'[c] == w[c] {
      PayloadIsPrivate(n, b, t, s, c);
    }
  }

  /** A split spares all payloads but that of the block it cuts. */
  lemma SplitSparesAll(n: nat, b: Tiling, fl: seq<nat>, w: seq<nat>, w': seq<nat>, i: nat, k: nat)
    requires Tiles(n, b) && FreeOnly(b, fl) && i < |fl| && fl[i] in b && |w| == |w'| == n
    requires MIN_BLOCK <= k && MIN_BLOCK + k <= b[fl[i]].size && SplitSpares(w, w', b, fl, i, k)
    ensures Spared(w, w', b, fl[i])
  {
    forall t, c {:trigger Payload(b, t, c)} | 0 <= c < n && Payload(b, t, c) ensures w'[c] == w[c] {
      SplitSparesPayload(n, b, fl, i, k, t, c);
    }
  }

  lemma StoredByte(m: seq<Octet>, m': seq<Octet>, w: seq<nat>, w': seq<nat>, a: nat, c: nat)
    requires WordsAre(m, w) && |m'| == |m| && a < |m| && c == a / 8
    requires forall i :: 0 <= i < |m| && i != a ==> m'[i] == m[i]
    requires w' == w[c := ToNat(m'[8 * c..8 * c + 8])]
    ensures WordsAre(m', w')
  {
    forall x {:trigger WordIs(m', w', x)} | 0 <= x < |w'| ensures WordIs(m', w', x) {
      assert WordIs(m, w, x);
      if x != c { assert m[8 * x..8 * x + 8] == m'[8 * x..8 * x + 8]; }
    }
  }

  lemma PatchedContents(n: nat, m: seq<Octet>, w: seq<nat>, m': seq<Octet>, w': seq<nat>, b: Tiling,
                        s: nat, off: nat, v: Octet)
    requires WordsAre(m, w) && WordsAre(m', w') && |w| == |w'| == n && Tiles(n, b)
    requires s in ContentsOf(m, b) && off < |ContentsOf(m, b)[s]| && m' == m[8 * (s + HEADER) + off := v]
    requires forall x :: 0 <= x < n && x != s + HEADER + off / 8 ==> w'[x] == w[x]
    ensures ContentsOf(m', b) == ContentsOf(m, b)[s := Put(ContentsOf(m, b)[s], off, v)]
  {
    var c := s + HEADER + off / 8;
    assert Payload(b, s, c);
    forall t | t in Live(b) && t != s
      ensures t in ContentsOf(m, b) && t in ContentsOf(m', b) && ContentsOf(m', b)[t] == ContentsOf(m, b)[t]
    {
      forall x {:trigger Payload(b, t, x)} | 0 <= x < n && Payload(b, t, x) ensures w'[x] == w[x] {
        PayloadIsPrivate(n, b, s, t, c);
      }
      assert PayloadKept(w, w', b, t);
      ContentsKept(n, m, w, m', w', b, b, t);
    }
    ContentsKeys(n, m, b);
    ContentsKeys(n, m', b);
  }

  /** Writes confined to live payloads never break the allocator. */
  lemma PayloadStoreKeeps(n: nat, b: Tiling, w: seq<nat>, w': seq<nat>, base: nat, head: nat, fl: seq<nat>,
                          s: nat, c: nat)
    requires Tiles(n, b) && Blocks(b, fl) && FreeOnly(b, fl) && |w| == |w'| == n && Payload(b, s, c)
    requires Sizes(w, b) && Links(w, base, head, fl)
    requires forall x :: 0 <= x < n && x != c ==> w'[x] == w[x]
    ensures Sizes(w', b) && Links(w', base, head, fl)
  {
    forall t {:trigger SizeWords(w', b, t)} | t in b ensures SizeWords(w', b, t) {
      assert SizeWords(w, b, t);
      PayloadIsPrivate(n, b, s, t, c);
    }
    if LinkCell(fl, c) { LinkCellsInside(n, b, fl, c); }
    LinksFrame(base, head, fl, w, w');
  }

  lemma ContentsKept(n: nat, a: seq<Octet>, w: seq<nat>, a': seq<Octet>, w': seq<nat>, b: Tiling, b': Tiling, s: nat)
    requires WordsAre(a, w) && WordsAre(a', w') && |w| == |w'| == n && Tiles(n, b) && Tiles(n, b')
    requires s in Live(b) && s in Live(b') && Live(b)[s] == Live(b')[s]
    requires PayloadKept(w, w', b, s)
    ensures s in ContentsOf(a, b) && s in ContentsOf(a', b') && ContentsOf(a', b')[s] == ContentsOf(a, b)[s]
  {
    assert Fits(n, b, s) && Fits(n, b', s);
    forall c | s + HEADER <= c < s + b[s].size - 1 ensures w[c] == w'[c] {
      assert Payload(b, s, c);
    }
    SameWordsSameBytes(a, w, a', w', s + HEADER, s + b[s].size - 1);
  }

  lemma ContentsKeys(n: nat, a: seq<Octet>, b: Tiling)
    requires |a| == 8 * n && Tiles(n, b)
    ensures ContentsOf(a, b).Keys == Live(b).Keys
  {
    forall s | s in b ensures s + HEADER < s + b[s].size <= n { assert Fits(n, b, s); }
  }

  lemma Twice(m: nat, u: nat)
    requires u < 2
    ensures (2 * m + u) % 2 == u
  {
  }

  lemma Parity(n: nat, u: nat)
    requires u < 2
    ensures (8 * n + u) % 2 == u
  {
    Twice(4 * n, u);
  }

  class KernelHeap {
    const initialized: bool
    const heapStart: nat
    const mem: array<Octet>
    const cells: nat
    var freeListHead: nat
    var headerSize: nat
    ghost var words: seq<nat>   // the 64-bit words of mem
    ghost var st: State         // the tiling and free list they encode

    // --- memory ---------------------------------------------------------

    ghost predicate Area()
      reads mem, this`words
    {
      && initialized && 0 < heapStart
      && 64 <= mem.Length == 8 * cells && |words| == cells
      && heapStart + mem.Length <= W64
      && WordsAre(mem[..], words)
    }

    function At(c: nat): nat { heapStart + 8 * c }

    /** An aligned address of eight bytes of the area. */
    ghost predicate IsWord(p: nat) {
      heapStart <= p && p + 8 <= heapStart + mem.Length && exists c: nat {:trigger At(c)} :: p == At(c)
    }

    function LoadWord(p: nat): (v: nat)
      requires IsWord(p)
      reads mem
    {
      ToNat(mem[p - heapStart..p - heapStart + 8])
    }

    lemma WordAt(c: nat)
      requires Area() && c < cells
      ensures IsWord(At(c)) && LoadWord(At(c)) == words[c]
    {
      assert WordIs(mem[..], words, c);
      assert mem[8 * c..8 * c + 8] == mem[..][8 * c..8 * c + 8];
    }

    method StoreWord(p: nat, v: nat, ghost c: nat)
      requires Area() && c < cells && p == At(c) && v < W64
      modifies mem, this`words
      ensures Area() && words == old(words)[c := v]
    {
      var k, bs := p - heapStart, FromNat(v, 8);
      forall j | 0 <= j < 8 { mem[k + j] := bs[j]; }
      Pow256Of8();
      assert mem[..][8 * c..8 * c + 8] == bs;
      ToNatFromNat(v, 8);
      StoredWord(old(mem[..]), mem[..], words, c, v);
      words := words[c := v];
    }

    /** The size word `v` of a block of `size` bytes, and its footer. */
    method WriteTags(p: nat, v: nat, size: nat, ghost c: nat, ghost n: nat)
      requires Area() && 0 < n && c + n <= cells && p == At(c) && size == 8 * n && v < W64
      modifies mem, this`words
      ensures Area() && words == old(words)[c := v][c + n - 1 := 8 * n]
    {
      StoreWord(p, v, c);
      StoreWord(p + size - 8, size, c + n - 1);
    }

    // --- the invariant --------------------------------------------------

    ghost predicate Tiled(b: Tiling)
      reads this`words
    {
      Tiles(cells, b) && Sizes(words, b)
    }

    ghost predicate Listing(b: Tiling, fl: seq<nat>)
      reads this`words, this`freeListHead
    {
      Blocks(b, fl) && Distinct(fl) && Links(words, heapStart, freeListHead, fl)
    }

    ghost predicate Valid()
      reads this, mem
    {
      && Area() && headerSize == HEADER_BYTES
      && st.cells == cells && Inv(st)
      && Tiled(st.blocks) && Listing(st.blocks, st.free)
    }

    ghost function Contents(): map<nat, seq<Octet>>
      reads this, mem
    {
      ContentsOf(mem[..], st.blocks)
    }

    function UserPtr(s: nat): nat { At(s) + HEADER_BYTES }

    // --- header accessors -----------------------------------------------

    function BlockSize(h: nat): nat
      requires IsWord(h)
      reads mem
    {
      LoadWord(h) - LoadWord(h) % 2
    }

    predicate IsAllocated(h: nat)
      requires IsWord(h)
      reads mem
    {
      LoadWord(h) % 2 != 0
    }

    lemma TagWords(b: Tiling, s: nat)
      requires Area() && Tiled(b) && s in b
      ensures MIN_BLOCK <= b[s].size && s + b[s].size <= cells
      ensures IsWord(At(s)) && LoadWord(At(s)) == 8 * b[s].size + (if b[s].used then 1 else 0)
      ensures IsWord(At(s + b[s].size - 1)) && LoadWord(At(s + b[s].size - 1)) == 8 * b[s].size
    {
      assert Fits(cells, b, s) && SizeWords(words, b, s);
      WordAt(s);
      WordAt(s + b[s].size - 1);
    }

    lemma TagBits(h: nat, n: nat, u: bool)
      requires IsWord(h) && LoadWord(h) == 8 * n + (if u then 1 else 0)
      ensures BlockSize(h) == 8 * n && (IsAllocated(h) <==> u)
    {
      Parity(n, if u then 1 else 0);
    }

    /** What header and footer of block `s` read as. */
    lemma HeaderOf(b: Tiling, s: nat)
      requires Area() && Tiled(b) && s in b
      ensures MIN_BLOCK <= b[s].size && s + b[s].size <= cells && 8 * b[s].size + 1 < W64
      ensures IsWord(At(s)) && BlockSize(At(s)) == 8 * b[s].size && (IsAllocated(At(s)) <==> b[s].used)
      ensures IsWord(At(s + b[s].size - 1)) && LoadWord(At(s + b[s].size - 1)) == 8 * b[s].size
    {
      TagWords(b, s);
      TagBits(At(s), b[s].size, b[s].used);
    }

    lemma LinksOf(b: Tiling, fl: seq<nat>, i: nat)
      requires Area() && Listing(b, fl) && i < |fl|
      ensures fl[i] in b && fl[i] + 2 < cells
      ensures IsWord(At(fl[i] + 1)) && LoadWord(At(fl[i] + 1)) == PtrAt(heapStart, fl, i + 1)
      ensures IsWord(At(fl[i] + 2)) && LoadWord(At(fl[i] + 2)) == PtrAt(heapStart, fl, i - 1)
    {
      assert fl[i] in fl;
      assert LinkWords(words, heapStart, fl, i);
      WordAt(fl[i] + 1);
      WordAt(fl[i] + 2);
    }

    lemma PtrBound(b: Tiling, fl: seq<nat>, i: int)
      requires Area() && Listing(b, fl)
      ensures PtrAt(heapStart, fl, i) < W64
    {
      if 0 <= i < |fl| { LinksOf(b, fl, i); }
    }

    method NextPhys(h: nat, ghost b: Tiling, ghost s: nat) returns (nx: int)
      requires Area() && Tiled(b) && s in b && h == At(s)
      ensures nx == if s + b[s].size in b then At(s + b[s].size) else 0
    {
      HeaderOf(b, s);
      assert Fits(cells, b, s);
      if s + b[s].size in b { HeaderOf(b, s + b[s].size); }
      var next := h + BlockSize(h);
      if next >= heapStart + mem.Length { return 0; }
      return next;
    }

    /** What lies in front of a block: nothing, or the footer of its predecessor. */
    lemma InFront(b: Tiling, s: nat)
      requires Area() && Tiled(b) && s in b
      ensures HasPrev(b, s) <==> s != 0
      ensures HasPrev(b, s) ==>
        var n := b[Prev(b, s)].size;
        && IsWord(At(s) - 8) && LoadWord(At(s) - 8) == 8 * n != 0 && At(s) - 8 * n == At(Prev(b, s))
    {
      if s != 0 { HasPrevBlock(cells, b, s); }
      if HasPrev(b, s) {
        TagWords(b, Prev(b, s));
        assert At(s) - 8 == At(s - 1);
      }
    }

    method PrevPhys(h: nat, ghost b: Tiling, ghost s: nat) returns (pv: int)
      requires Area() && Tiled(b) && s in b && h == At(s)
      ensures pv == if HasPrev(b, s) then At(Prev(b, s)) else 0
    {
      InFront(b, s);
      if h == heapStart { return 0; }
      var prevSize := LoadWord(h - 8);
      if prevSize == 0 { return 0; }
      if h - prevSize < heapStart { return 0; }
      return h - prevSize;
    }

    // --- free list ------------------------------------------------------

    method RemoveFromFreelist(p: nat, ghost b: Tiling, ghost fl: seq<nat>, ghost i: nat)
      requires Area() && Tiled(b) && Listing(b, fl) && FreeOnly(b, fl) && i < |fl| && p == At(fl[i])
      modifies mem, this`words, this`freeListHead
      ensures Area() && Tiled(b) && Listing(b, fl[..i] + fl[i + 1..])
      ensures forall x :: Spared(old(words), words, b, x)
    {
      ListSpaced(cells, b, fl);
      LinksOf(b, fl, i);
      PtrBound(b, fl, i + 1);
      PtrBound(b, fl, i - 1);
      UnlinkedLinks(words, heapStart, freeListHead, fl, i);
      StoreUnlink(p, fl, i);
      SizesFrame(cells, b, fl, old(words), words);
      forall x ensures Spared(old(words), words, b, x) { LinksSpare(cells, b, fl, old(words), words, x); }
      DistinctSplice(fl, i);
    }

    /** The stores of remove_from_freelist. */
    method StoreUnlink(p: nat, ghost fl: seq<nat>, ghost i: nat)
      requires Area() && i < |fl| && p == At(fl[i]) && Inside(words, fl)
      requires IsWord(p + 8) && LoadWord(p + 8) == PtrAt(heapStart, fl, i + 1) < W64
      requires IsWord(p + 16) && LoadWord(p + 16) == PtrAt(heapStart, fl, i - 1) < W64
      modifies mem, this`words, this`freeListHead
      ensures Area() && words == Unlinked(old(words), heapStart, fl, i)
      ensures freeListHead == if i == 0 then PtrAt(heapStart, fl, 1) else old(freeListHead)
    {
      var next, prev := LoadWord(p + 8), LoadWord(p + 16);
      if prev != 0 {
        StoreWord(prev + 8, next, fl[i - 1] + 1);
      } else {
        freeListHead := next;
      }
      if next != 0 {
        StoreWord(next + 16, prev, fl[i + 1] + 2);
      }
      StoreWord(p + 8, 0, fl[i] + 1);
      StoreWord(p + 16, 0, fl[i] + 2);
    }

    method InsertIntoFreelist(p: nat, ghost b: Tiling, ghost fl: seq<nat>, ghost s: nat)
      requires Area() && Tiled(b) && Listing(b, fl) && FreeOnly(b, [s] + fl) && s !in fl && p == At(s)
      modifies mem, this`words, this`freeListHead
      ensures Area() && Tiled(b) && Listing(b, [s] + fl)
      ensures forall x :: Spared(old(words), words, b, x)
    {
      ghost var fl' := [s] + fl;
      PushDistinct(fl, s);
      assert s in fl';
      ListSpaced(cells, b, fl');
      assert Fits(cells, b, s);
      PtrBound(b, fl, 0);
      PushedLinks(words, heapStart, freeListHead, fl, s);
      StoreWord(p + 8, freeListHead, s + 1);
      if freeListHead != 0 { StoreWord(freeListHead + 16, p, fl[0] + 2); }
      StoreWord(p + 16, 0, s + 2);
      freeListHead := p;
      forall c | 0 <= c < cells && !LinkCell(fl', c) ensures words[c] == old(words)[c] {
        assert c != fl'[0] + 1 && c != fl'[0] + 2;
        assert fl != [] ==> c != fl'[1] + 2;
      }
      SizesFrame(cells, b, fl', old(words), words);
      forall x ensures Spared(old(words), words, b, x) { LinksSpare(cells, b, fl', old(words), words, x); }
    }

    /** set_allocated and write_footer on one block. */
    method Retag(p: nat, u: bool, ghost b: Tiling, ghost fl: seq<nat>, ghost s: nat)
      requires Area() && Tiled(b) && Listing(b, fl) && s in b && p == At(s)
      modifies mem, this`words
      ensures Area() && Tiled(b[s := Block(b[s].size, u)]) && Listing(b[s := Block(b[s].size, u)], fl)
      ensures Spared(old(words), words, b, s)
    {
      HeaderOf(b, s);
      RetagTiles(cells, b, s, u);
      RetagSizes(cells, b, words, s, u);
      LinksKept(cells, b, heapStart, freeListHead, fl, words, s,
                8 * b[s].size + (if u then 1 else 0), 8 * b[s].size);
      var sz := BlockSize(p);
      WriteTags(p, if u then sz + 1 else sz, sz, s, b[s].size);
      TagsSpare(cells, b, old(words), words, s);
    }

    /** The stores of either merge: `p` swallows the block behind it. */
    method Grow(p: nat, q: nat, ghost b: Tiling, ghost fl: seq<nat>, ghost s: nat)
      requires Area() && Tiled(b) && Listing(b, fl) && s in b && p == At(s)
      requires s + b[s].size in b && q == At(s + b[s].size)
      requires !b[s].used && !b[s + b[s].size].used && s + b[s].size !in fl
      modifies mem, this`words
      ensures s != s + b[s].size
      ensures var b' := (b - {s + b[s].size})[s := Block(b[s].size + b[s + b[s].size].size, false)];
        Area() && Tiled(b') && Listing(b', fl) && Spared(old(words), words, b', s)
    {
      ghost var e := s + b[s].size;
      HeaderOf(b, s);
      HeaderOf(b, e);
      JoinTiles(cells, b, s);
      JoinSizes(cells, b, words, s);
      ghost var b' := (b - {e})[s := Block(b[s].size + b[e].size, false)];
      LinksKept(cells, b', heapStart, freeListHead, fl, words, s, 8 * b'[s].size, 8 * b'[s].size);
      var newSize := BlockSize(p) + BlockSize(q);
      assert Fits(cells, b', s);
      WriteTags(p, newSize, newSize, s, b'[s].size);
      TagsSpare(cells, b', old(words), words, s);
    }

    // --- free -----------------------------------------------------------

    /** free, first half: a free block behind `p` is merged into it. */
    method AbsorbNext(p: nat, ghost b: Tiling, ghost fl: seq<nat>, ghost s: nat)
      requires Area() && Tiled(b) && Listing(b, fl) && p == At(s)
      requires FreeAt(b, s) && Coalesced(b, {s}) && Listed(b, fl, {s})
      modifies mem, this`words, this`freeListHead
      ensures var (b', fl') := MergeNext(b, fl, s);
        Area() && Tiled(b') && Listing(b', fl') && Spared(old(words), words, b, s)
    {
      ghost var e := s + b[s].size;
      var nx := NextPhys(p, b, s);
      if e in b { HeaderOf(b, e); }
      if nx != 0 && !IsAllocated(nx) {
        assert e != s by { HeaderOf(b, s); }
        assert e in fl;
        UnlistAndGrow(nx, p, nx, b, fl, e, s);
      }
    }

    /** Takes block `x` off the list, then lets `s` swallow the block behind it:
        one of the two is `x`, the other is on no list. */
    method UnlistAndGrow(xp: nat, p: nat, q: nat, ghost b: Tiling, ghost fl: seq<nat>, ghost x: nat, ghost s: nat)
      requires Area() && Tiled(b) && Listing(b, fl) && FreeOnly(b, fl) && x in fl && xp == At(x)
      requires FreeAt(b, s) && FreeAt(b, s + b[s].size) && p == At(s) && q == At(s + b[s].size)
      requires x == s + b[s].size || s + b[s].size !in fl
      modifies mem, this`words, this`freeListHead
      ensures s != s + b[s].size
      ensures var b' := (b - {s + b[s].size})[s := Block(b[s].size + b[s + b[s].size].size, false)];
        Area() && Tiled(b') && Listing(b', Remove(fl, x)) && Spared(old(words), words, b, s)
    {
      ghost var i :| 0 <= i < |fl| && fl[i] == x;
      RemoveAt(fl, i);
      RemoveSpec(fl, x);
      RemoveFromFreelist(xp, b, fl, i);
      ghost var w1 := words;
      Grow(p, q, b, Remove(fl, x), s);
      ghost var b' := (b - {s + b[s].size})[s := Block(b[s].size + b[s + b[s].size].size, false)];
      SparedTrans(old(words), w1, words, b, b', s);
    }

    /** A free block in front swallows `p` and heads the list. */
    method MergeBack(pv: nat, p: nat, ghost b: Tiling, ghost fl: seq<nat>, ghost s: nat)
      requires Area() && Tiled(b) && Listing(b, fl) && Listed(b, fl, {s}) && FreeAt(b, s) && p == At(s)
      requires HasPrev(b, s) && FreeAt(b, Prev(b, s)) && pv == At(Prev(b, s))
      modifies mem, this`words, this`freeListHead
      ensures var (b', fl') := MergePrev(b, fl, s);
        Area() && Tiled(b') && Listing(b', fl') && Spared(old(words), words, b, s)
    {
      ghost var q := Prev(b, s);
      assert q != s by { HeaderOf(b, q); }
      assert q in fl;
      RemoveSpec(fl, q);
      UnlistAndGrow(pv, pv, p, b, fl, q, q);
      ghost var w1, b' := words, MergePrev(b, fl, s).0;
      InsertIntoFreelist(pv, b', Remove(fl, q), q);
      SparedTrans(old(words), w1, words, b, b', s);
    }

    /** free, second half: merge with a free block in front, and list the result. */
    method AbsorbPrev(p: nat, ghost b: Tiling, ghost fl: seq<nat>, ghost s: nat)
      requires Area() && Tiled(b) && Listing(b, fl) && p == At(s)
      requires FreeAt(b, s) && Coalesced(b, {s}) && Listed(b, fl, {s}) && !FreeAt(b, s + b[s].size)
      modifies mem, this`words, this`freeListHead
      ensures var (b', fl') := MergePrev(b, fl, s);
        Area() && Tiled(b') && Listing(b', fl') && Spared(old(words), words, b, s)
    {
      var pv := PrevPhys(p, b, s);
      if HasPrev(b, s) { HeaderOf(b, Prev(b, s)); }
      if pv != 0 && !IsAllocated(pv) {
        MergeBack(pv, p, b, fl, s);
      } else {
        InsertIntoFreelist(p, b, fl, s);
      }
    }

    method CoalesceAndFree(p: nat, ghost s: nat)
      requires Valid() && s in st.blocks && st.blocks[s].used && p == At(s)
      modifies mem, this`words, this`freeListHead, this`st
      ensures Valid() && st == FreeStep(old(st), s)
      ensures Spared(old(words), words, old(st.blocks), s)
    {
      FreeInv(st, s);
      UntagKeeps(st, s);
      ghost var b, fl := st.blocks, st.free;
      ghost var b1 := b[s := Block(b[s].size, false)];
      Retag(p, false, b, fl, s);
      ghost var w1 := words;
      MergeNextKeeps(cells, b1, fl, s);
      AbsorbNext(p, b1, fl, s);
      ghost var w2 := words;
      ghost var (b2, fl2) := MergeNext(b1, fl, s);
      AbsorbPrev(p, b2, fl2, s);
      st := FreeStep(st, s);
      SparedTrans(w1, w2, words, b1, b2, s);
      SparedTrans(old(words), w1, words, b, b1, s);
    }

    // --- initialisation and malloc --------------------------------------

    /** Nothing but what kernel_heap_init leaves behind, or a working heap. */
    ghost predicate Ready()
      reads this, mem
    {
      && Area() && st.cells == cells
      && (headerSize == 0 || headerSize == HEADER_BYTES)
      && (if freeListHead == 0 then st.free == [] else Valid())
    }

    /** kernel_heap_init, which does nothing for a null or a tiny region. */
    constructor (start: nat, region: array<Octet>, ghost w: seq<nat>)
      requires start + region.Length <= W64 && WordsAre(region[..], w)
      ensures initialized <==> start != 0 && 64 <= region.Length
      ensures Untouched() && heapStart == start && mem == region && st.blocks == map[]
    {
      heapStart, mem, cells := start, region, region.Length / 8;
      initialized := start != 0 && region.Length >= 64;
      freeListHead, headerSize := 0, 0;
      words := w;
      st := State(|w|, map[], []);
    }

    /** No call has been made yet. */
    ghost predicate Untouched()
      reads this, mem
    {
      headerSize == 0 && freeListHead == 0 && (initialized ==> Ready())
    }

    /** Sets the header size and lays one free block over a heap with no list. */
    method AllocatorInit()
      requires initialized ==> Ready()
      modifies mem, this`words, this`freeListHead, this`headerSize, this`st
      ensures initialized ==> Valid() && st == Reset(old(st)) && headerSize == HEADER_BYTES
      ensures !initialized || old(st.free) != [] ==> words == old(words)
      ensures !initialized || old(st.free) != [] ==> mem[..] == old(mem[..])
      ensures !initialized ==> freeListHead == old(freeListHead) && headerSize == old(headerSize) && st == old(st)
    {
      if !initialized { return; }
      if headerSize == 0 {
        headerSize := AlignUp(24, 16);
      }
      if freeListHead != 0 {
        HeadIsNull(st.blocks, st.free);
        return;
      }
      var n := cells;
      StoreWord(At(0), mem.Length, 0);
      StoreWord(At(0) + 8, 0, 1);
      StoreWord(At(0) + 16, 0, 2);
      StoreWord(At(0) + mem.Length - 8, mem.Length, n - 1);
      freeListHead := At(0);
      st := Reset(st);
      InitialInv(n);
      assert SizeWords(words, st.blocks, 0);
      assert LinkWords(words, heapStart, st.free, 0);
    }

    lemma HeadIsNull(b: Tiling, fl: seq<nat>)
      requires Area() && Listing(b, fl)
      ensures freeListHead == 0 <==> fl == []
    {
    }

    /** malloc, after the search: hand out the block at list position `i`. */
    method Take(cur: nat, total: nat, ghost i: nat, ghost k: nat)
      requires Valid() && i < |st.free| && cur == At(st.free[i]) && st.free[i] in st.blocks
      requires total == 8 * k && MIN_BLOCK <= k <= st.blocks[st.free[i]].size
      modifies mem, this`words, this`freeListHead, this`st
      ensures Valid() && st == Place(old(st), k, i)
      ensures Spared(old(words), words, old(st.blocks), old(st.free)[i])
    {
      ghost var b, fl := st.blocks, st.free;
      ghost var s := fl[i];
      PlaceInv(st, k, i);
      HeaderOf(b, s);
      assert s in fl;
      var remaining := BlockSize(cur) - total;
      if remaining >= headerSize + FOOTER_BYTES + 16 {
        CutBlock(cur, total, remaining, b, fl, i, k);
        ghost var b1, w1 := b[s := Block(k, false)][s + k := Block(b[s].size - k, false)], words;
        SplitTiles(cells, b, s, k, false);
        assert b1[s := Block(k, true)] == Place(st, k, i).blocks;
        Retag(cur, true, b1, fl[i := s + k], s);
        SparedTrans(old(words), w1, words, b, b1, s);
      } else {
        RemoveFromFreelist(cur, b, fl, i);
        ghost var w1 := words;
        Retag(cur, true, b, fl[..i] + fl[i + 1..], s);
        SparedTrans(old(words), w1, words, b, b, s);
      }
      st := Place(st, k, i);
    }

    /** The stores that make the remainder a listed free block. */
    method StoreRemainder(cur: nat, newFree: nat, remaining: nat,
                          ghost fl: seq<nat>, ghost i: nat, ghost k: nat, ghost n: nat)
      requires Area() && i < |fl| && cur == At(fl[i]) && fl[i] + n <= cells && Inside(words, fl)
      requires 0 < k && k + MIN_BLOCK <= n && newFree == At(fl[i] + k) && remaining == 8 * (n - k)
      requires IsWord(cur + 8) && LoadWord(cur + 8) == PtrAt(heapStart, fl, i + 1) < W64
      requires IsWord(cur + 16) && LoadWord(cur + 16) == PtrAt(heapStart, fl, i - 1) < W64
      modifies mem, this`words, this`freeListHead
      ensures Area() && words == RemainderStores(old(words), heapStart, fl, i, k, n)
      ensures freeListHead == if i == 0 then newFree else old(freeListHead)
    {
      var next, prev := LoadWord(cur + 8), LoadWord(cur + 16);
      WriteTags(newFree, remaining, remaining, fl[i] + k, n - k);
      LinkForward(newFree, next, fl, i, fl[i] + k);
      LinkBack(newFree, prev, fl, i, fl[i] + k);
    }

    /** `f` takes the successor of list entry `i`. */
    method LinkForward(newFree: nat, next: nat, ghost fl: seq<nat>, ghost i: nat, ghost f: nat)
      requires Area() && i < |fl| && f + 2 < cells && newFree == At(f) && Inside(words, fl)
      requires next == PtrAt(heapStart, fl, i + 1) < W64
      modifies mem, this`words
      ensures Area() && words == Forwarded(old(words), heapStart, fl, i, f)
    {
      StoreWord(newFree + 8, next, f + 1);
      if next != 0 { StoreWord(next + 16, newFree, fl[i + 1] + 2); }
    }

    /** `f` takes the predecessor of list entry `i`, or the head. */
    method LinkBack(newFree: nat, prev: nat, ghost fl: seq<nat>, ghost i: nat, ghost f: nat)
      requires Area() && i < |fl| && f + 2 < cells && newFree == At(f) && Inside(words, fl)
      requires prev == PtrAt(heapStart, fl, i - 1) < W64
      modifies mem, this`words, this`freeListHead
      ensures Area() && words == Backed(old(words), heapStart, fl, i, f)
      ensures freeListHead == if i == 0 then newFree else old(freeListHead)
    {
      StoreWord(newFree + 16, prev, f + 2);
      if prev != 0 {
        StoreWord(prev + 8, newFree, fl[i - 1] + 1);
      } else {
        freeListHead := newFree;
      }
    }

    /** The split: the tail of the block becomes a free block and takes its
        place on the list. */
    method CutBlock(cur: nat, total: nat, remaining: nat,
                    ghost b: Tiling, ghost fl: seq<nat>, ghost i: nat, ghost k: nat)
      requires Area() && Tiled(b) && Listing(b, fl) && FreeOnly(b, fl)
      requires i < |fl| && cur == At(fl[i]) && fl[i] in b
      requires total == 8 * k && MIN_BLOCK <= k && k + MIN_BLOCK <= b[fl[i]].size
      requires remaining == 8 * (b[fl[i]].size - k)
      modifies mem, this`words, this`freeListHead
      ensures var b' := b[fl[i] := Block(k, false)][fl[i] + k := Block(b[fl[i]].size - k, false)];
        Area() && Tiled(b') && Listing(b', fl[i := fl[i] + k])
      ensures Spared(old(words), words, b, fl[i])
    {
      ghost var h := freeListHead;
      CutStores(cur, total, remaining, b, fl, i, k);
      SplitLayout(cells, b, heapStart, h, fl, old(words), words, i, k);
      SplitSparesAll(cells, b, fl, old(words), words, i, k);
    }

    /** Its stores. */
    method CutStores(cur: nat, total: nat, remaining: nat,
                     ghost b: Tiling, ghost fl: seq<nat>, ghost i: nat, ghost k: nat)
      requires Area() && Tiled(b) && Listing(b, fl) && i < |fl| && cur == At(fl[i]) && fl[i] in b
      requires total == 8 * k && MIN_BLOCK <= k && k + MIN_BLOCK <= b[fl[i]].size
      requires remaining == 8 * (b[fl[i]].size - k)
      modifies mem, this`words, this`freeListHead
      ensures Area() && SplitWords(old(words), words, heapStart, b, fl, i, k)
      ensures freeListHead == if i == 0 then At(fl[i] + k) else old(freeListHead)
    {
      LinksOf(b, fl, i);
      PtrBound(b, fl, i + 1);
      PtrBound(b, fl, i - 1);
      SplitStoresAre(cells, b, heapStart, fl, words, i, k);
      StoreRemainder(cur, cur + total, remaining, fl, i, k, b[fl[i]].size);
      WriteTags(cur, total, total, fl[i], k);
    }

    // --- the interface --------------------------------------------------

    /** The block whose payload starts at `p`. */
    ghost function CellOf(p: nat): int {
      if exists c: nat {:trigger UserPtr(c)} :: p == UserPtr(c) then
        var c: nat {:trigger UserPtr(c)} :| p == UserPtr(c); c
      else -1
    }

    ghost predicate Held(p: nat)
      reads this`st
    {
      0 <= CellOf(p) && CellOf(p) in Live(st.blocks) && p == UserPtr(CellOf(p))
    }

    /** The search of malloc: walk the links to the first block that is large enough. */
    method FindFit(total: nat, ghost k: nat) returns (cur: nat, ghost i: nat)
      requires Valid() && total == 8 * k
      ensures i == FirstFit(st.blocks, st.free, k, 0)
      ensures cur == PtrAt(heapStart, st.free, FirstFit(st.blocks, st.free, k, 0))
    {
      HeadIsNull(st.blocks, st.free);
      cur, i := freeListHead, 0;
      while cur != 0
        invariant i <= |st.free| && cur == PtrAt(heapStart, st.free, i)
        invariant FirstFit(st.blocks, st.free, k, 0) == FirstFit(st.blocks, st.free, k, i)
        decreases |st.free| - i
      {
        assert st.free[i] in st.free;
        HeaderOf(st.blocks, st.free[i]);
        LinksOf(st.blocks, st.free, i);
        if BlockSize(cur) >= total { return; }
        cur := LoadWord(cur + 8);
        i := i + 1;
      }
    }

    method AllocBlock(total: nat, ghost k: nat) returns (p: nat)
      requires Valid() && total == 8 * k && MIN_BLOCK <= k
      modifies mem, this`words, this`freeListHead, this`headerSize, this`st
      ensures Valid() && st == MallocStep(old(st), k).0
      ensures p == match MallocStep(old(st), k).1 { case None => 0 case Some(s) => At(s) }
      ensures old(st.free) != [] && p == 0 ==> mem[..] == old(mem[..])
      ensures old(st.free) != [] && p != 0 ==> Spared(old(words), words, old(st.blocks), MallocStep(old(st), k).1.value)
    {
      AllocatorInit();
      ghost var i;
      p, i := FindFit(total, k);
      if p != 0 {
        Take(p, total, i, k);
      }
    }

    lemma CellOfUserPtr(s: nat)
      ensures CellOf(UserPtr(s)) == s
    {
    }

    /** After a step that spared all payloads but that of `x`, the other live
        blocks still hold what they held. */
    lemma KeptBySpared(m: seq<Octet>, w: seq<nat>, st0: State, x: nat)
      requires Area() && Tiled(st.blocks) && Tiles(cells, st0.blocks) && WordsAre(m, w) && |w| == cells
      requires Spared(w, words, st0.blocks, x)
      requires forall s :: s in Live(st0.blocks) && s != x ==>
        s in Live(st.blocks) && Live(st.blocks)[s] == Live(st0.blocks)[s]
      ensures forall s :: s in Live(st0.blocks) && s != x ==>
        s in ContentsOf(m, st0.blocks) && s in Contents() && Contents()[s] == ContentsOf(m, st0.blocks)[s]
      ensures Contents().Keys == Live(st.blocks).Keys && ContentsOf(m, st0.blocks).Keys == Live(st0.blocks).Keys
    {
      ContentsKeys(cells, m, st0.blocks);
      ContentsKeys(cells, mem[..], st.blocks);
      forall s | s in Live(st0.blocks) && s != x
        ensures s in ContentsOf(m, st0.blocks) && s in Contents() && Contents()[s] == ContentsOf(m, st0.blocks)[s]
      {
        assert PayloadKept(w, words, st0.blocks, s);
        ContentsKept(cells, m, w, mem[..], words, st0.blocks, st.blocks, s);
      }
    }

    lemma MallocRoom(st0: State, k: nat)
      requires Area() && Inv(st0) && MIN_BLOCK <= k && st0.cells == cells && st == MallocStep(st0, k).0
      ensures var r := MallocStep(st0, k).1;
        r.Some? ==> r.value in Live(st.blocks) && r.value in Contents() && 8 * (k - HEADER - 1) <= |Contents()[r.value]|
    {
      MallocInv(st0, k);
      MallocLive(st0, k);
      var r := MallocStep(st0, k).1;
      if r.Some? {
        assert k <= st.blocks[r.value].size;
        assert Fits(cells, st.blocks, r.value);
      }
    }

    lemma AfterMalloc(m: seq<Octet>, w: seq<nat>, st0: State, k: nat)
      requires Area() && Tiled(st.blocks) && Inv(st0) && st0.cells == cells && WordsAre(m, w) && |w| == cells
      requires MIN_BLOCK <= k && st0.free != [] && st == MallocStep(st0, k).0 && MallocStep(st0, k).1.Some?
      requires Spared(w, words, st0.blocks, MallocStep(st0, k).1.value)
      ensures var s := MallocStep(st0, k).1.value;
        && s !in ContentsOf(m, st0.blocks)
        && Contents().Keys == ContentsOf(m, st0.blocks).Keys + {s}
        && forall t :: t in ContentsOf(m, st0.blocks) ==>
            t in Contents() && Contents()[t] == ContentsOf(m, st0.blocks)[t]
    {
      MallocLive(st0, k);
      KeptBySpared(m, w, st0, MallocStep(st0, k).1.value);
    }

    lemma AfterFree(m: seq<Octet>, w: seq<nat>, st0: State, s: nat)
      requires Valid() && Inv(st0) && st0.cells == cells && WordsAre(m, w) && |w| == cells
      requires s in st0.blocks && st0.blocks[s].used && st == FreeStep(st0, s)
      requires Spared(w, words, st0.blocks, s)
      ensures Contents() == ContentsOf(m, st0.blocks) - {s}
    {
      FreeLive(st0, s);
      KeptBySpared(m, w, st0, s);
    }

    /** A pointer is what a step hands out. */
    ghost predicate Returns(p: nat, r: Option<nat>) { p == match r case None => 0 case Some(s) => UserPtr(s) }

    /** No free block has n bytes; an empty list counts as a heap all free. */
    ghost predicate NoneReaches(st0: State, n: nat) {
      if st0.free == [] then 8 * st0.cells < n
      else forall s :: FreeAt(st0.blocks, s) ==> 8 * st0.blocks[s].size < n
    }

    /** What a request gets of a heap in state st0, told by the bytes it must have:
        null exactly when no free block has them, otherwise a block that wastes less
        than a smallest block. */
    ghost predicate Served(st0: State, size: nat, p: nat, st1: State) {
      exists n: nat :: BlockFor(HEADER_BYTES, size, n)
        && (p == 0 <==> NoneReaches(st0, n))
        && (p != 0 ==> CellOf(p) in st1.blocks && n <= 8 * st1.blocks[CellOf(p)].size < n + 8 * MIN_BLOCK)
    }

    lemma ServedBy(st0: State, size: nat, p: nat, st1: State)
      requires Inv(st0) && size <= W64 - 56
      requires st1 == MallocStep(st0, Need(size)).0 && Returns(p, MallocStep(st0, Need(size)).1) && 0 < heapStart
      ensures Served(st0, size, p, st1)
    {
      NeedInCells(size);
      assert Fits(st0.cells, st0.blocks, 0);
      InitialInv(st0.cells);
      FirstFitMalloc(Reset(st0), Need(size));
      if p != 0 { CellOfUserPtr(MallocStep(st0, Need(size)).1.value); }
      assert BlockFor(HEADER_BYTES, size, 8 * Need(size));
    }

    method Malloc(size: nat) returns (p: nat)
      requires Valid() && size < W64
      modifies mem, this`words, this`freeListHead, this`headerSize, this`st
      ensures Valid() && st == MallocStep(old(st), Need(size)).0
      ensures p == match MallocStep(old(st), Need(size)).1 { case None => 0 case Some(s) => UserPtr(s) }
      ensures size <= W64 - 56 ==> Served(old(st), size, p, st)
      ensures p != 0 ==> Held(p) && CellOf(p) in Contents()
      ensures p != 0 && size <= W64 - 56 ==> size <= |Contents()[CellOf(p)]|
      ensures old(st.free) != [] && p == 0 ==> Contents() == old(Contents())
      ensures old(st.free) != [] && p != 0 ==>
        && CellOf(p) !in old(Contents()) && Contents().Keys == old(Contents()).Keys + {CellOf(p)}
        && forall s :: s in old(Contents()) ==> s in Contents() && Contents()[s] == old(Contents())[s]
    {
      ghost var k, m0, w0, st0 := Need(size), mem[..], words, st;
      NeedInCells(size);
      RequestFits(size);
      p := AllocBlock(TotalNeeded(headerSize, size), k);
      MallocRoom(st0, k);
      if p != 0 {
        if st0.free != [] { AfterMalloc(m0, w0, st0, k); }
        CellOfUserPtr(MallocStep(st0, k).1.value);
        p := p + HEADER_BYTES;
      }
      if size <= W64 - 56 { ServedBy(st0, size, p, st); }
    }

    /** A live pointer is freed; null and what lies before the first possible
        payload are ignored. */
    method Free(ptr: nat)
      requires heapStart + headerSize <= ptr ==> Valid() && Held(ptr)
      modifies mem, this`words, this`freeListHead, this`st
      ensures old(Valid()) ==> Valid()
      ensures ptr < heapStart + headerSize ==>
        st == old(st) && words == old(words) && mem[..] == old(mem[..]) && freeListHead == old(freeListHead)
      ensures heapStart + headerSize <= ptr ==>
        st == FreeStep(old(st), CellOf(ptr)) && Contents() == old(Contents()) - {CellOf(ptr)}
    {
      if ptr == 0 { return; }
      if ptr < heapStart + headerSize { return; }
      ghost var s := CellOf(ptr);
      ghost var m0, w0, st0 := mem[..], words, st;
      HeaderOf(st.blocks, s);
      var h := ptr - headerSize;
      if h < heapStart { return; }
      var sz := BlockSize(h);
      if sz == 0 || h + sz > heapStart + mem.Length { return; }
      CoalesceAndFree(h, s);
      AfterFree(m0, w0, st0, s);
    }

    /** A held pointer is behind a header. */
    lemma HeldIsBehind(p: nat)
      requires Held(p)
      ensures heapStart + HEADER_BYTES <= p && CellOf(p) in st.blocks && st.blocks[CellOf(p)].used
    {
    }

    // --- the first call ---------------------------------------------------

    /** The cells of a first block that needs k: less than a smallest block is not split off. */
    ghost function FirstSize(k: nat): nat { if cells < k + MIN_BLOCK then cells else k }

    /** The first malloc ever made: it sizes the block, and places the payload,
        with a header size of 0.  Where a heap has been set up and is large enough
        it returns the address of the block's own size word, and free ignores it.
        The heap is then a working one exactly if the block is not too small. */
    method FirstMalloc(size: nat) returns (p: nat)
      requires Untouched() && size < W64
      modifies mem, this`words, this`freeListHead, this`headerSize, this`st
      ensures !initialized ==> p == 0 && headerSize == 0 && mem[..] == old(mem[..])
      ensures initialized ==> Area() && headerSize == HEADER_BYTES
      ensures initialized && cells < NeedAtFirst(size) ==> p == 0 && Valid() && st == Initial(cells)
      ensures initialized && NeedAtFirst(size) <= cells ==> TookFirst(p, NeedAtFirst(size))
    {
      if !initialized { return 0; }
      var payloadOffset := headerSize;
      FirstNeed(size);
      p := AllocFirst(TotalNeeded(payloadOffset, size), NeedAtFirst(size));
      if p != 0 { p := p + payloadOffset; }
    }

    /** `p` points at the size word of a block at the heap start, and the rest is
        free.  A block of at least the smallest size is placed as any other; after
        a smaller one the memory holds no tiling at all. */
    ghost predicate TookFirst(p: nat, k: nat)
      reads this, mem
    {
      && p == heapStart < heapStart + headerSize && IsWord(p) && IsAllocated(p) && BlockSize(p) == 8 * FirstSize(k)
      && freeListHead == (if cells < k + MIN_BLOCK then 0 else At(k))
      && (MIN_BLOCK <= FirstSize(k) && k <= cells ==> Valid() && st == Place(Initial(cells), k, 0))
      && (FirstSize(k) < MIN_BLOCK ==> forall b :: !Tiled(b))
    }

    method AllocFirst(total: nat, ghost k: nat) returns (p: nat)
      requires Untouched() && initialized && total == 8 * k && 3 <= k
      modifies mem, this`words, this`freeListHead, this`headerSize, this`st
      ensures Area() && headerSize == HEADER_BYTES
      ensures cells < k ==> p == 0 && Valid() && st == Initial(cells)
      ensures k <= cells ==> TookFirst(p, k)
    {
      AllocatorInit();
      ghost var i;
      p, i := FindFit(total, k);
      if p != 0 { FirstTake(p, total, k); }
    }

    /** What malloc does after the search, on the one block of an unused heap, for
        a block that may be smaller than the smallest. */
    method FirstTake(cur: nat, total: nat, ghost k: nat)
      requires Valid() && st == Initial(cells) && cur == At(0) && total == 8 * k && 3 <= k <= cells
      modifies mem, this`words, this`freeListHead, this`st
      ensures Area() && TookFirst(cur, k)
    {
      FirstCut(cur, total, k);
      FirstTag(cur, FirstSize(k));
      if MIN_BLOCK <= FirstSize(k) {
        FirstPlaced(k);
        st := Place(st, k, 0);
      } else {
        forall b ensures !Tiled(b) { StartsLarge(b); }
      }
    }

    method FirstCut(cur: nat, total: nat, ghost k: nat)
      requires Valid() && st == Initial(cells) && cur == At(0) && total == 8 * k && 3 <= k <= cells
      modifies mem, this`words, this`freeListHead
      ensures Area() && words[0] == 8 * FirstSize(k)
      ensures k + MIN_BLOCK <= cells ==> RestIsFree(k)
      ensures freeListHead == if cells < k + MIN_BLOCK then 0 else At(k)
    {
      HeaderOf(st.blocks, 0);
      LinksOf(st.blocks, st.free, 0);
      assert SizeWords(words, st.blocks, 0);
      var remaining := BlockSize(cur) - total;
      if remaining >= headerSize + FOOTER_BYTES + 16 {
        StoreRemainder(cur, cur + total, remaining, st.free, 0, k, cells);
        WriteTags(cur, total, total, 0, k);
      } else {
        StoreUnlink(cur, st.free, 0);
      }
    }

    /** A block from cell k to the end, alone on the list. */
    ghost predicate RestIsFree(k: nat)
      requires k + MIN_BLOCK <= cells == |words|
      reads this`words
    {
      words[k] == words[cells - 1] == 8 * (cells - k) && words[k + 1] == words[k + 2] == 0
    }

    /** set_allocated and write_footer on a block of n cells at the heap start. */
    method FirstTag(cur: nat, ghost n: nat)
      requires Area() && cur == At(0) && 3 <= n <= cells && words[0] == 8 * n
      modifies mem, this`words
      ensures Area() && IsWord(cur) && IsAllocated(cur) && BlockSize(cur) == 8 * n
      ensures words == old(words)[0 := 8 * n + 1][n - 1 := 8 * n]
    {
      WordAt(0);
      TagBits(cur, n, false);
      var sz := BlockSize(cur);
      WriteTags(cur, sz + 1, sz, 0, n);
      WordAt(0);
      TagBits(cur, n, true);
    }

    /** The words the first call leaves are those of a block placed as any other. */
    lemma FirstPlaced(k: nat)
      requires Area() && 3 <= k <= cells && MIN_BLOCK <= FirstSize(k)
      requires words[0] == 8 * FirstSize(k) + 1 && words[FirstSize(k) - 1] == 8 * FirstSize(k)
      requires k + MIN_BLOCK <= cells ==> RestIsFree(k)
      requires freeListHead == if cells < k + MIN_BLOCK then 0 else At(k)
      ensures var st' := Place(Initial(cells), k, 0);
        Inv(st') && Tiled(st'.blocks) && Listing(st'.blocks, st'.free)
    {
      var st0, st' := Initial(cells), Place(Initial(cells), k, 0);
      InitialInv(cells);
      PlaceInv(st0, if MIN_BLOCK <= k then k else cells, 0);
      assert st' == Place(st0, if MIN_BLOCK <= k then k else cells, 0);
      forall s {:trigger SizeWords(words, st'.blocks, s)} | s in st'.blocks ensures SizeWords(words, st'.blocks, s) {}
      forall i {:trigger LinkWords(words, heapStart, st'.free, i)} | 0 <= i < |st'.free|
        ensures LinkWords(words, heapStart, st'.free, i) {}
    }

    /** A tiling starts with a block of at least the smallest size. */
    lemma StartsLarge(b: Tiling)
      requires Area()
      ensures Tiled(b) ==> 8 * MIN_BLOCK <= words[0]
    {
      if Tiled(b) { assert Fits(cells, b, 0) && SizeWords(words, b, 0); }
    }

    // --- clients --------------------------------------------------------

    /** A client stores a byte into the payload of a live block. */
    method StorePayload(ptr: nat, off: nat, v: Octet)
      requires Valid() && Held(ptr) && CellOf(ptr) in Contents() && off < |Contents()[CellOf(ptr)]|
      modifies mem, this`words
      ensures Valid()
      ensures var s := CellOf(ptr); Contents() == old(Contents())[s := Put(old(Contents())[s], off, v)]
    {
      ghost var s, b := CellOf(ptr), st.blocks;
      ghost var c, m0, w0 := s + HEADER + off / 8, mem[..], words;
      PayloadCell(s, off);
      StoreByte(ptr + off - heapStart, v, c);
      PayloadStoreKeeps(cells, b, w0, words, heapStart, freeListHead, st.free, s, c);
      PatchedContents(cells, m0, w0, mem[..], words, b, s, off, v);
    }

    lemma PayloadCell(s: nat, off: nat)
      requires Valid() && s in Contents() && off < |Contents()[s]|
      ensures Payload(st.blocks, s, s + HEADER + off / 8) && s + HEADER + off / 8 < cells
    {
    }

    method StoreByte(a: nat, v: Octet, ghost c: nat)
      requires Area() && a < mem.Length && c == a / 8
      modifies mem, this`words
      ensures Area() && mem[..] == Put(old(mem[..]), a, v)
      ensures forall x :: 0 <= x < cells && x != c ==> words[x] == old(words)[x]
    {
      mem[a] := v;
      words := words[c := ToNat(mem[8 * c..8 * c + 8])];
      StoredByte(old(mem[..]), mem[..], old(words), words, a, c);
    }

    lemma PayloadByte(s: nat, i: nat)
      requires Valid() && s in Contents() && i < |Contents()[s]|
      ensures 8 * (s + HEADER) + i < mem.Length && Contents()[s][i] == mem[8 * (s + HEADER) + i]
    {
    }

    lemma CapacityOf(s: nat)
      requires Valid() && s in Live(st.blocks)
      ensures IsWord(At(s)) && s in Contents() && |Contents()[s]| == BlockSize(At(s)) - HEADER_BYTES - FOOTER_BYTES
    {
      HeaderOf(st.blocks, s);
    }

    method LoadPayload(ptr: nat, off: nat) returns (v: Octet)
      requires Valid() && Held(ptr) && CellOf(ptr) in Contents() && off < |Contents()[CellOf(ptr)]|
      ensures v == Contents()[CellOf(ptr)][off]
    {
      PayloadByte(CellOf(ptr), off);
      v := mem[ptr + off - heapStart];
    }

    /** The capacity of a block, from its header. */
    method OldSize(ptr: nat) returns (n: nat)
      requires Valid() && Held(ptr)
      ensures CellOf(ptr) in Contents() && n == |Contents()[CellOf(ptr)]|
    {
      ghost var s := CellOf(ptr);
      assert ptr - headerSize == At(s);
      CapacityOf(s);
      n := BlockSize(ptr - headerSize) - headerSize - FOOTER_BYTES;
    }

    /** The contents are c0 but for the first i bytes of `d`, copied from `s`. */
    ghost predicate Copied(c0: map<nat, seq<Octet>>, d: nat, s: nat, i: nat)
      reads this, mem
    {
      && d in c0 && s in c0 && i <= |c0[d]| && i <= |c0[s]|
      && Contents() == c0[d := Splice(c0[s], c0[d], i)]
    }

    method CopyByte(dst: nat, src: nat, i: nat, ghost c0: map<nat, seq<Octet>>, ghost d: nat, ghost s: nat)
      requires Valid() && Held(dst) && Held(src) && CellOf(dst) == d && CellOf(src) == s && d != s
      requires Copied(c0, d, s, i) && i < |c0[d]| && i < |c0[s]|
      modifies mem, this`words
      ensures Valid() && Copied(c0, d, s, i + 1)
    {
      ghost var c1 := Contents();
      var v := LoadPayload(src, i);
      StorePayload(dst, i, v);
      SpliceMap(c0, c1, Contents(), s, d, i, v);
    }

    /** The copying loop of realloc. */
    method CopyPayload(dst: nat, src: nat, n: nat)
      requires Valid() && Held(dst) && Held(src) && dst != src
      requires CellOf(dst) in Contents() && n <= |Contents()[CellOf(dst)]|
      requires CellOf(src) in Contents() && n <= |Contents()[CellOf(src)]|
      modifies mem, this`words
      ensures Valid() && Copied(old(Contents()), CellOf(dst), CellOf(src), n)
    {
      ghost var c0, d, s := Contents(), CellOf(dst), CellOf(src);
      assert c0[d] == Splice(c0[s], c0[d], 0);
      for i := 0 to n
        invariant Valid() && Copied(c0, d, s, i)
      {
        CopyByte(dst, src, i, c0, d, s);
      }
    }

    /** realloc from its new block `p` on; before that was there, the contents
        were c0. */
    method MoveTo(p: nat, ptr: nat, newSize: nat, ghost c0: map<nat, seq<Octet>>)
      requires Valid() && Held(p) && Held(ptr) && p != ptr && CellOf(ptr) in c0
      requires Relocated(c0, Contents(), None, CellOf(p), newSize)
      modifies mem, this`words, this`freeListHead, this`st
      ensures Valid() && Held(p) && st == FreeStep(old(st), CellOf(ptr))
      ensures Relocated(c0, Contents(), Some(CellOf(ptr)), CellOf(p), newSize)
    {
      ghost var c1 := Contents();
      var oldSize := OldSize(ptr);
      var toCopy := if oldSize < newSize then oldSize else newSize;
      CopyPayload(p, ptr, toCopy);
      HeldIsBehind(ptr);
      FreeLive(st, CellOf(ptr));
      Free(ptr);
      CopyRelocates(c0, c1, Contents(), CellOf(ptr), CellOf(p), newSize);
    }

    /** On success the old block is gone and a new one starts with its bytes;
        on failure everything is as it was; no size at all frees. */
    method Realloc(ptr: nat, newSize: nat) returns (p: nat)
      requires Valid() && newSize <= W64 - 56 && (ptr == 0 || Held(ptr))
      requires ptr == 0 || newSize != 0 ==> st.free != []
      modifies mem, this`words, this`freeListHead, this`headerSize, this`st
      ensures Valid()
      ensures p != 0 ==> Held(p)
      ensures p != 0 ==>
        Relocated(old(Contents()), Contents(), if ptr == 0 then None else Some(CellOf(ptr)), CellOf(p), newSize)
      ensures p == 0 && (ptr == 0 || newSize != 0) ==> Contents() == old(Contents()) && st == old(st)
      ensures ptr != 0 && newSize == 0 ==>
        p == 0 && Contents() == old(Contents()) - {CellOf(ptr)} && st == FreeStep(old(st), CellOf(ptr))
      ensures ptr == 0 ==>
        st == MallocStep(old(st), Need(newSize)).0 && Returns(p, MallocStep(old(st), Need(newSize)).1)
      ensures ptr != 0 && newSize != 0 ==>
        Reallocated(old(st), CellOf(ptr), Need(newSize), st, p)
    {
      if ptr == 0 {
        p := MallocFresh(newSize, None);
        return;
      }
      HeldIsBehind(ptr);
      if newSize == 0 {
        Free(ptr);
        return 0;
      }
      p := MoveToNew(ptr, newSize);
    }

    /** realloc of a block to some size. */
    method MoveToNew(ptr: nat, newSize: nat) returns (p: nat)
      requires Valid() && st.free != [] && newSize <= W64 - 56 && Held(ptr)
      modifies mem, this`words, this`freeListHead, this`headerSize, this`st
      ensures Valid() && (p != 0 ==> Held(p))
      ensures p != 0 ==> Relocated(old(Contents()), Contents(), Some(CellOf(ptr)), CellOf(p), newSize)
      ensures p == 0 ==> Contents() == old(Contents()) && st == old(st)
      ensures Reallocated(old(st), CellOf(ptr), Need(newSize), st, p)
    {
      CapacityOf(CellOf(ptr));
      ghost var c0, st0 := Contents(), st;
      p := MallocFresh(newSize, Some(CellOf(ptr)));
      ghost var st1 := st;
      if p != 0 {
        MoveTo(p, ptr, newSize, c0);
        ReallocOf(st0, CellOf(ptr), Need(newSize), st1, p);
      }
    }

    lemma ReallocOf(st0: State, s: nat, need: nat, st1: State, p: nat)
      requires MallocStep(st0, need).0 == st1 && Returns(p, MallocStep(st0, need).1) && p != 0 && s in st1.blocks
      ensures Reallocated(st0, s, need, FreeStep(st1, s), p)
    {
    }

    /** The state and pointer realloc leaves behind. */
    ghost predicate Reallocated(st0: State, s: nat, need: nat, st1: State, p: nat) {
      st1 == ReallocStep(st0, s, need).0 && Returns(p, ReallocStep(st0, s, need).1)
    }

    /** malloc as its callers see it, `s` being a block they may hold. */
    method MallocFresh(size: nat, ghost s: Option<nat>) returns (p: nat)
      requires Valid() && st.free != [] && size <= W64 - 56 && (s.Some? ==> s.value in Live(st.blocks))
      modifies mem, this`words, this`freeListHead, this`headerSize, this`st
      ensures Valid()
      ensures p != 0 ==> Held(p)
      ensures p != 0 && s.Some? ==> s.value in Live(st.blocks) && CellOf(p) != s.value
      ensures p != 0 ==> Relocated(old(Contents()), Contents(), None, CellOf(p), size)
      ensures p == 0 ==> Contents() == old(Contents()) && st == old(st)
      ensures st == MallocStep(old(st), Need(size)).0 && Returns(p, MallocStep(old(st), Need(size)).1)
    {
      MallocFails(size);
      if s.Some? { MallocSpares(s.value, size); }
      p := Malloc(size);
    }

    lemma MallocFails(size: nat)
      requires Valid() && st.free != []
      ensures MallocStep(st, Need(size)).1.None? ==> MallocStep(st, Need(size)).0 == st
    {
    }

    lemma MallocSpares(s: nat, size: nat)
      requires Valid() && st.free != [] && s in Live(st.blocks) && size < W64
      ensures s in Contents() && s in Live(MallocStep(st, Need(size)).0.blocks)
      ensures MallocStep(st, Need(size)).1 != Some(s)
    {
      NeedInCells(size);
      MallocLive(st, Need(size));
      CapacityOf(s);
    }
  }
}
