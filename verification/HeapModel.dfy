// The heap of cpp_runtime.cpp as a state machine over a tiling.
//
// Memory is counted in 8-byte cells from the start of the heap.  A block is
// known by the cell it starts at; its first four cells are the header, its
// last cell is the footer, everything between is payload.
module HeapModel {

  import opened Options
  import opened Words

  const HEADER_BYTES: nat := 32
  const FOOTER_BYTES: nat := 8
  const HEADER: nat := 4
  const MIN_BLOCK: nat := 7

  datatype Block = Block(size: nat, used: bool)
  type Tiling = map<nat, Block>
  datatype State = State(cells: nat, blocks: Tiling, free: seq<nat>)

  // ---------------------------------------------------------------------
  // Request sizes, in bytes, with the wrap-around of size_t.

  function AlignUp(n: nat, a: nat): nat
    requires 0 < a
  {
    var x := (n + (a - 1)) % W64;
    x - x % a
  }

  function TotalNeeded(headerSize: nat, request: nat): nat {
    var n := if request == 0 then 1 else request;
    var t := AlignUp((headerSize + n + FOOTER_BYTES) % W64, 16);
    if t < headerSize + FOOTER_BYTES + 16 then headerSize + FOOTER_BYTES + 16 else t
  }

  /** The two roundings below, with the multiples they are. */
  lemma Sixteenths(n: nat)
    ensures AlignUp(n, 16) == 16 * ((n + 15) % W64 / 16)
  {
    var x := (n + 15) % W64;
    assert x == 16 * (x / 16) + x % 16;
  }

  lemma HalfOfSixteen(q: nat)
    ensures (16 * q) % 8 == 0 && (16 * q) / 8 == 2 * q
  {
    assert 16 * q == 8 * (2 * q);
  }

  lemma RoundedUp(n: nat)
    requires n + 15 < W64
    ensures n <= AlignUp(n, 16) < n + 16
  {
    assert (n + 15) % W64 == n + 15;
  }

  /** n + 15 wraps: nothing is left of it. */
  lemma RoundedToNothing(n: nat)
    requires n < W64 <= n + 15
    ensures AlignUp(n, 16) == 0
  {
    assert (n + 15) % W64 == n + 15 - W64;
  }

  function Need(request: nat): nat { TotalNeeded(HEADER_BYTES, request) / 8 }

  function NeedAtFirst(request: nat): nat { TotalNeeded(0, request) / 8 }

  function Sixteen(q: nat): nat { 16 * q }

  /** The bytes of a block for a request behind a header of h bytes: the least
      multiple of 16 with room for header, request (one byte at least) and footer,
      but not less than header, footer and 16 bytes. */
  ghost predicate BlockFor(h: nat, request: nat, n: nat) {
    var least := h + (if request == 0 then 1 else request) + FOOTER_BYTES;
    exists q: nat {:trigger Sixteen(q)} ::
      least <= Sixteen(q) < least + 16 && n == if Sixteen(q) < h + 24 then h + 24 else Sixteen(q)
  }

  lemma OneBlockFor(h: nat, request: nat, n: nat, n': nat)
    requires BlockFor(h, request, n) && BlockFor(h, request, n')
    ensures n == n'
  {
  }

  /** That is what is computed exactly as long as the additions do not wrap; when
      they do it is the smallest block. */
  lemma TotalNeededIs(h: nat, request: nat)
    requires (h == 0 || h == HEADER_BYTES) && request < W64
    ensures h + request <= W64 - 24 ==> BlockFor(h, request, TotalNeeded(h, request))
    ensures h + request > W64 - 24 ==> TotalNeeded(h, request) == h + 24
  {
    var sum := h + (if request == 0 then 1 else request) + FOOTER_BYTES;
    if h + request <= W64 - 24 {
      assert sum % W64 == sum;
      RoundedUp(sum);
      Sixteenths(sum);
      assert AlignUp(sum, 16) == Sixteen((sum + 15) % W64 / 16);
    } else if sum < W64 {
      assert sum % W64 == sum;
      RoundedToNothing(sum);
    } else {
      assert sum % W64 == sum - W64;
      RoundedUp(sum - W64);
      Sixteenths(sum - W64);
      AtMost(AlignUp(sum - W64, 16), (sum - W64 + 15) % W64 / 16, h);
    }
  }

  /** A multiple of 16 below h + 24 is no more than h + 16 when h is one. */
  lemma AtMost(n: nat, q: nat, h: nat)
    requires n == 16 * q && n < h + 24 && (h == 0 || h == HEADER_BYTES)
    ensures n <= h + 16
  {
  }

  /** Once the header size is set, a block of `TotalNeeded` bytes has room for the
      request exactly when the additions do not wrap:
      a request in the last 55 values of size_t comes back as a block too small. */
  lemma RequestFits(request: nat)
    requires request < W64
    ensures HEADER_BYTES + request + FOOTER_BYTES <= TotalNeeded(HEADER_BYTES, request) <==> request <= W64 - 56
  {
    TotalNeededIs(HEADER_BYTES, request);
  }

  /** The largest request there is comes back as the smallest block. */
  lemma LargestRequest()
    ensures TotalNeeded(HEADER_BYTES, W64 - 1) == 8 * MIN_BLOCK
  {
    TotalNeededIs(HEADER_BYTES, W64 - 1);
  }

  /** Every request becomes a whole number of cells, at least the smallest block:
      as many as it must have, or the smallest block when it wraps. */
  lemma NeedInCells(request: nat)
    requires request < W64
    ensures MIN_BLOCK <= Need(request)
    ensures 8 * Need(request) == TotalNeeded(HEADER_BYTES, request)
    ensures if request <= W64 - 56 then BlockFor(HEADER_BYTES, request, 8 * Need(request))
            else Need(request) == MIN_BLOCK
  {
    var sum := (HEADER_BYTES + (if request == 0 then 1 else request) + FOOTER_BYTES) % W64;
    Sixteenths(sum);
    HalfOfSixteen((sum + 15) % W64 / 16);
    TotalNeededIs(HEADER_BYTES, request);
  }

  /** On the first call ever the header size is still 0: the block is of whole
      cells, of three at least, and smaller than a header, a footer and the
      smallest payload for small and for wrapping requests. */
  lemma FirstNeed(request: nat)
    requires request < W64
    ensures 3 <= NeedAtFirst(request) && 8 * NeedAtFirst(request) == TotalNeeded(0, request)
    ensures NeedAtFirst(request) < MIN_BLOCK <==> request <= 40 || W64 - 23 <= request
    ensures if request <= W64 - 24 then BlockFor(0, request, 8 * NeedAtFirst(request)) else NeedAtFirst(request) == 3
  {
    var sum := ((if request == 0 then 1 else request) + FOOTER_BYTES) % W64;
    Sixteenths(sum);
    HalfOfSixteen((sum + 15) % W64 / 16);
    TotalNeededIs(0, request);
  }

  // ---------------------------------------------------------------------
  // The invariant.

  ghost predicate Fits(n: nat, b: Tiling, s: nat)
    requires s in b
  {
    && MIN_BLOCK <= b[s].size
    && s + b[s].size <= n
    && (s + b[s].size < n ==> s + b[s].size in b)
  }

  ghost predicate Clear(b: Tiling, s: nat, t: nat)
    requires s in b && t in b
  {
    s < t ==> s + b[s].size <= t
  }

  /** Blocks of at least 56 bytes cover the heap exactly, without overlap. */
  ghost predicate Tiles(n: nat, b: Tiling) {
    && 0 in b
    && (forall s {:trigger Fits(n, b, s)} :: s in b ==> Fits(n, b, s))
    && (forall s, t {:trigger Clear(b, s, t)} :: s in b && t in b ==> Clear(b, s, t))
  }

  ghost predicate FreeAt(b: Tiling, s: nat) { s in b && !b[s].used }

  ghost predicate Parted(b: Tiling, s: nat, except: set<nat>)
    requires s in b
  {
    FreeAt(b, s) && FreeAt(b, s + b[s].size) ==> s in except || s + b[s].size in except
  }

  /** No two neighbouring blocks are both free, not counting pairs with `except`. */
  ghost predicate Coalesced(b: Tiling, except: set<nat>) {
    forall s {:trigger Parted(b, s, except)} :: s in b ==> Parted(b, s, except)
  }

  ghost predicate Distinct(fl: seq<nat>) {
    forall i, j :: 0 <= i < j < |fl| ==> fl[i] != fl[j]
  }

  /** The list holds each free block once and nothing else, not counting `except`. */
  ghost predicate Listed(b: Tiling, fl: seq<nat>, except: set<nat>) {
    && Distinct(fl)
    && forall s :: s in fl <==> FreeAt(b, s) && s !in except
  }

  ghost predicate Inv(st: State) {
    && Tiles(st.cells, st.blocks)
    && Coalesced(st.blocks, {})
    && Listed(st.blocks, st.free, {})
  }

  /** What the clients hold: start and size of every allocated block. */
  function Live(b: Tiling): map<nat, nat> {
    map s | s in b && b[s].used :: b[s].size
  }

  function Initial(cells: nat): State {
    State(cells, map[0 := Block(cells, false)], [0])
  }

  // ---------------------------------------------------------------------
  // The steps, in the order of the code.

  /** Index of the first block in list order, from `i`, that reaches `need`. */
  function FirstFit(b: Tiling, fl: seq<nat>, need: nat, i: nat): (k: nat)
    requires i <= |fl|
    ensures i <= k <= |fl|
    ensures forall j :: i <= j < k ==> !(fl[j] in b && need <= b[fl[j]].size)
    ensures k < |fl| ==> fl[k] in b && need <= b[fl[k]].size
    decreases |fl| - i
  {
    if i == |fl| then i
    else if fl[i] in b && need <= b[fl[i]].size then i
    else FirstFit(b, fl, need, i + 1)
  }

  function Place(st: State, need: nat, i: nat): State
    requires i < |st.free| && st.free[i] in st.blocks && need <= st.blocks[st.free[i]].size
  {
    var s, n := st.free[i], st.blocks[st.free[i]].size;
    if MIN_BLOCK <= n - need then
      State(st.cells, st.blocks[s := Block(need, true)][s + need := Block(n - need, false)], st.free[i := s + need])
    else
      State(st.cells, st.blocks[s := Block(n, true)], st.free[..i] + st.free[i + 1..])
  }

  /** allocator_init: an empty free list is taken for an unused heap. */
  function Reset(st: State): State {
    if st.free == [] then Initial(st.cells) else st
  }

  function MallocStep(st: State, need: nat): (State, Option<nat>) {
    var r := Reset(st);
    var i := FirstFit(r.blocks, r.free, need, 0);
    if i == |r.free| then (r, None) else (Place(r, need, i), Some(r.free[i]))
  }

  function Remove(fl: seq<nat>, x: nat): seq<nat> {
    if fl == [] then [] else if fl[0] == x then fl[1..] else [fl[0]] + Remove(fl[1..], x)
  }

  ghost predicate HasPrev(b: Tiling, s: nat) { exists p :: p in b && p + b[p].size == s }

  ghost function Prev(b: Tiling, s: nat): (p: nat)
    requires HasPrev(b, s)
    ensures p in b && p + b[p].size == s
  {
    var p :| p in b && p + b[p].size == s; p
  }

  function MergeNext(b: Tiling, fl: seq<nat>, s: nat): (Tiling, seq<nat>)
    requires s in b
  {
    var e := s + b[s].size;
    if e in b && !b[e].used then
      ((b - {e})[s := Block(b[s].size + b[e].size, false)], Remove(fl, e))
    else (b, fl)
  }

  ghost function MergePrev(b: Tiling, fl: seq<nat>, s: nat): (Tiling, seq<nat>)
    requires s in b
  {
    if HasPrev(b, s) && !b[Prev(b, s)].used then
      var p := Prev(b, s);
      ((b - {s})[p := Block(b[p].size + b[s].size, false)], [p] + Remove(fl, p))
    else (b, [s] + fl)
  }

  ghost function FreeStep(st: State, s: nat): State
    requires s in st.blocks
  {
    var (b, fl) := MergeNext(st.blocks[s := Block(st.blocks[s].size, false)], st.free, s);
    var (b', fl') := MergePrev(b, fl, s);
    State(st.cells, b', fl')
  }

  /** realloc of a held block: allocate, then free the old one. */
  ghost function ReallocStep(st: State, s: nat, need: nat): (State, Option<nat>) {
    var (st', r) := MallocStep(st, need);
    if r.Some? && s in st'.blocks then (FreeStep(st', s), r) else (st', r)
  }

  // ---------------------------------------------------------------------
  // Every step keeps the invariant.

  lemma InitialInv(cells: nat)
    requires MIN_BLOCK <= cells
    ensures Inv(Initial(cells))
  {
  }

  lemma {:induction false} RemoveSpec(fl: seq<nat>, x: nat)
    requires Distinct(fl)
    ensures Distinct(Remove(fl, x))
    ensures forall s :: s in Remove(fl, x) <==> s in fl && s != x
  {
    if fl != [] && fl[0] != x {
      var t := fl[1..];
      assert fl == [fl[0]] + t;
      assert fl[0] !in t;
      RemoveSpec(t, x);
      assert fl[0] !in Remove(t, x);
    }
  }

  lemma {:induction false} RemoveAt(fl: seq<nat>, i: nat)
    requires Distinct(fl) && i < |fl|
    ensures Remove(fl, fl[i]) == fl[..i] + fl[i + 1..]
  {
    if i != 0 {
      RemoveAt(fl[1..], i - 1);
      assert fl[1..][i - 1] == fl[i] && fl[1..][i..] == fl[i + 1..];
      assert fl[..i] == [fl[0]] + fl[1..][..i - 1];
    }
  }

  lemma DistinctSplice(fl: seq<nat>, i: nat)
    requires Distinct(fl) && i < |fl|
    ensures Distinct(fl[..i] + fl[i + 1..])
    ensures forall s :: s in fl[..i] + fl[i + 1..] <==> s in fl && s != fl[i]
  {
  }

  lemma SplitTiles(n: nat, b: Tiling, s: nat, k: nat, u: bool)
    requires Tiles(n, b) && s in b && MIN_BLOCK <= k && k + MIN_BLOCK <= b[s].size
    ensures s + k !in b
    ensures Tiles(n, b[s := Block(k, u)][s + k := Block(b[s].size - k, false)])
  {
    assert Fits(n, b, s);
    var f := s + k;
    var b' := b[s := Block(k, u)][f := Block(b[s].size - k, false)];
    assert f !in b by { assert f in b ==> Clear(b, s, f); }
    forall x {:trigger Fits(n, b', x)} | x in b' ensures Fits(n, b', x) {
      if x != s && x != f { assert Fits(n, b, x); }
    }
    forall x, y {:trigger Clear(b', x, y)} | x in b' && y in b' ensures Clear(b', x, y) {
      if x in b && y in b { assert Clear(b, x, y); }
      if x in b { assert Clear(b, x, s) && Clear(b, s, x); }
      if y in b { assert Clear(b, s, y) && Clear(b, y, s); }
    }
  }

  lemma SplitListed(b: Tiling, fl: seq<nat>, i: nat, k: nat)
    requires i < |fl| && Listed(b, fl, {}) && fl[i] in b && k <= b[fl[i]].size && fl[i] + k !in b
    ensures Listed(b[fl[i] := Block(k, true)][fl[i] + k := Block(b[fl[i]].size - k, false)], fl[i := fl[i] + k], {})
  {
    var s, f := fl[i], fl[i] + k;
    var b' := b[s := Block(k, true)][f := Block(b[s].size - k, false)];
    var fl' := fl[i := f];
    assert f !in fl;
    forall x | x in fl' ensures FreeAt(b', x) {
      var j :| 0 <= j < |fl'| && fl'[j] == x;
      if j != i { assert fl[j] in fl; }
    }
    forall x | FreeAt(b', x) ensures x in fl' {
      if x == f {
        assert fl'[i] == f;
      } else {
        assert FreeAt(b, x) && x in fl;
        var j :| 0 <= j < |fl| && fl[j] == x;
        assert fl'[j] == x;
      }
    }
  }

  lemma RetagTiles(n: nat, b: Tiling, s: nat, u: bool)
    requires Tiles(n, b) && s in b
    ensures Tiles(n, b[s := Block(b[s].size, u)])
  {
    var b' := b[s := Block(b[s].size, u)];
    forall x {:trigger Fits(n, b', x)} | x in b' ensures Fits(n, b', x) { assert Fits(n, b, x); }
    forall x, y {:trigger Clear(b', x, y)} | x in b' && y in b' ensures Clear(b', x, y) { assert Clear(b, x, y); }
  }

  lemma PlaceInv(st: State, need: nat, i: nat)
    requires Inv(st) && MIN_BLOCK <= need
    requires i < |st.free| && st.free[i] in st.blocks && need <= st.blocks[st.free[i]].size
    ensures Inv(Place(st, need, i))
  {
    var b, s := st.blocks, st.free[i];
    var n := b[s].size;
    var b' := Place(st, need, i).blocks;
    assert FreeAt(b, s) && Parted(b, s, {});
    if MIN_BLOCK <= n - need {
      SplitTiles(st.cells, b, s, need, true);
      SplitListed(b, st.free, i, need);
    } else {
      RetagTiles(st.cells, b, s, true);
      DistinctSplice(st.free, i);
      forall x ensures x in Place(st, need, i).free <==> FreeAt(b', x) {
        assert x in st.free <==> FreeAt(b, x);
      }
    }
    forall x {:trigger Parted(b', x, {})} | x in b' ensures Parted(b', x, {}) {
      if x in b { assert Parted(b, x, {}) && Clear(b, x, s) && Clear(b, s, x); }
    }
  }

  lemma JoinTiles(n: nat, b: Tiling, p: nat)
    requires Tiles(n, b) && p in b && p + b[p].size in b
    ensures var e := p + b[p].size;
      p != e && Tiles(n, (b - {e})[p := Block(b[p].size + b[e].size, false)])
  {
    var e := p + b[p].size;
    assert Fits(n, b, p) && Fits(n, b, e) && Clear(b, p, e);
    var b' := (b - {e})[p := Block(b[p].size + b[e].size, false)];
    assert 0 in b' by { assert Clear(b, p, 0) && Clear(b, 0, e); }
    assert p < e < e + b[e].size;
    forall x {:trigger Fits(n, b', x)} | x in b' ensures Fits(n, b', x) {
      assert Fits(n, b, x);
      assert Clear(b, x, p) && Clear(b, p, x);
    }
    forall x, y {:trigger Clear(b', x, y)} | x in b' && y in b' ensures Clear(b', x, y) {
      assert Clear(b, x, y);
      if x == p { assert Clear(b, p, y) && Clear(b, e, y); }
    }
  }

  lemma MergeNextKeeps(n: nat, b: Tiling, fl: seq<nat>, s: nat)
    requires Tiles(n, b) && FreeAt(b, s) && Coalesced(b, {s}) && Listed(b, fl, {s})
    ensures var (b', fl') := MergeNext(b, fl, s);
      && Tiles(n, b') && FreeAt(b', s) && Coalesced(b', {s}) && Listed(b', fl', {s})
      && !FreeAt(b', s + b'[s].size)
  {
    var e := s + b[s].size;
    if FreeAt(b, e) {
      JoinTiles(n, b, s);
      RemoveSpec(fl, e);
      var b' := MergeNext(b, fl, s).0;
      assert Fits(n, b, e) && Parted(b, e, {s});
      forall x {:trigger Parted(b', x, {s})} | x in b' ensures Parted(b', x, {s}) {
        assert Parted(b, x, {s}) && Clear(b, x, s) && Clear(b, s, x);
      }
      forall x ensures x in MergeNext(b, fl, s).1 <==> FreeAt(b', x) && x !in {s} {
        assert x in fl <==> FreeAt(b, x) && x !in {s};
      }
    }
  }

  /** The block in front is the only one that ends where `p` ends. */
  lemma PrevOf(n: nat, b: Tiling, p: nat)
    requires Tiles(n, b) && p in b
    ensures HasPrev(b, p + b[p].size) && Prev(b, p + b[p].size) == p
  {
    var q := Prev(b, p + b[p].size);
    assert Clear(b, p, q) && Clear(b, q, p) && Fits(n, b, p) && Fits(n, b, q);
  }

  /** Every block but the first has one in front of it. */
  lemma HasPrevBlock(n: nat, b: Tiling, s: nat)
    requires Tiles(n, b) && s in b && 0 < s
    ensures HasPrev(b, s)
  {
    var p: nat := 0;
    while p + b[p].size != s
      invariant p in b && p < s
      decreases s - p
    {
      assert Clear(b, p, s) && Fits(n, b, p) && Fits(n, b, s);
      p := p + b[p].size;
    }
  }

  lemma PushDistinct(fl: seq<nat>, x: nat)
    requires Distinct(fl) && x !in fl
    ensures Distinct([x] + fl)
    ensures forall y :: y in [x] + fl <==> y == x || y in fl
  {
  }

  lemma MergePrevKeeps(n: nat, b: Tiling, fl: seq<nat>, s: nat)
    requires Tiles(n, b) && FreeAt(b, s) && Coalesced(b, {s}) && Listed(b, fl, {s})
    requires !FreeAt(b, s + b[s].size)
    ensures var (b', fl') := MergePrev(b, fl, s);
      Tiles(n, b') && Coalesced(b', {}) && Listed(b', fl', {})
  {
    var (b', fl') := MergePrev(b, fl, s);
    if HasPrev(b, s) && !b[Prev(b, s)].used {
      var p := Prev(b, s);
      JoinTiles(n, b, p);
      RemoveSpec(fl, p);
      assert Fits(n, b, p) && Fits(n, b, s);
      forall x {:trigger Parted(b', x, {})} | x in b' ensures Parted(b', x, {}) {
        assert Parted(b, x, {s}) && Fits(n, b, x);
      }
      PushDistinct(Remove(fl, p), p);
      forall x ensures x in fl' <==> FreeAt(b', x) {
        assert x in fl <==> FreeAt(b, x) && x !in {s};
      }
    } else {
      PushDistinct(fl, s);
      forall x ensures x in fl' <==> FreeAt(b', x) {
        assert x in fl <==> FreeAt(b, x) && x !in {s};
      }
      forall x {:trigger Parted(b', x, {})} | x in b' ensures Parted(b', x, {}) {
        assert Parted(b, x, {s});
        if x + b[x].size == s { PrevOf(n, b, x); }
      }
    }
  }

  /** Clearing the flag alone leaves the block unlisted and perhaps unmerged. */
  lemma UntagKeeps(st: State, s: nat)
    requires Inv(st) && s in st.blocks && st.blocks[s].used
    ensures var b := st.blocks[s := Block(st.blocks[s].size, false)];
      Tiles(st.cells, b) && FreeAt(b, s) && Coalesced(b, {s}) && Listed(b, st.free, {s})
  {
    var b := st.blocks;
    var b1 := b[s := Block(b[s].size, false)];
    RetagTiles(st.cells, b, s, false);
    forall x {:trigger Parted(b1, x, {s})} | x in b1 ensures Parted(b1, x, {s}) { assert Parted(b, x, {}); }
    forall x ensures x in st.free <==> FreeAt(b1, x) && x !in {s} {
      assert x in st.free <==> FreeAt(b, x) && x !in {};
    }
  }

  /** free keeps the invariant: the list is rebuilt and no free neighbours remain. */
  lemma FreeInv(st: State, s: nat)
    requires Inv(st) && s in st.blocks && st.blocks[s].used
    ensures Inv(FreeStep(st, s))
  {
    var b1 := st.blocks[s := Block(st.blocks[s].size, false)];
    UntagKeeps(st, s);
    MergeNextKeeps(st.cells, b1, st.free, s);
    var (b2, fl2) := MergeNext(b1, st.free, s);
    MergePrevKeeps(st.cells, b2, fl2, s);
  }

  /** malloc keeps the invariant for every request and every state of the list. */
  lemma MallocInv(st: State, need: nat)
    requires Inv(st) && MIN_BLOCK <= need
    ensures Inv(Reset(st)) && Inv(MallocStep(st, need).0)
  {
    assert Fits(st.cells, st.blocks, 0);
    InitialInv(st.cells);
    var r := Reset(st);
    var i := FirstFit(r.blocks, r.free, need, 0);
    if i < |r.free| { PlaceInv(r, need, i); }
  }
}
