// What the heap steps mean for the clients: first fit, canonical form,
// round trip, and runs of any length.
module HeapTheorems {
  import opened HeapModel
  import opened Options
  import opened Words

  // ---------------------------------------------------------------------
  // Canonical form.

  lemma SameBlockAt(n: nat, b: Tiling, c: Tiling, s: nat)
    requires Tiles(n, b) && Tiles(n, c) && Coalesced(b, {}) && Coalesced(c, {})
    requires Live(b) == Live(c) && s in b && s in c
    requires b[s].size <= c[s].size
    ensures b[s] == c[s]
  {
    if b[s].used {
      assert s in Live(b) && Live(b)[s] == b[s].size;
      assert Live(c)[s] == c[s].size;
    } else {
      assert s !in Live(b) && s !in Live(c);
      var e := s + b[s].size;
      assert Fits(n, b, s) && Fits(n, c, s) && Parted(b, s, {});
      assert e in Live(b) ==> e in Live(c);
      assert e in c ==> Clear(c, s, e);
    }
  }

  lemma SameBlock(n: nat, b: Tiling, c: Tiling, s: nat)
    requires Tiles(n, b) && Tiles(n, c) && Coalesced(b, {}) && Coalesced(c, {})
    requires Live(b) == Live(c) && s in b
    ensures s in c && b[s] == c[s]
    decreases s
  {
    if 0 < s {
      HasPrevBlock(n, b, s);
      var p := Prev(b, s);
      assert Fits(n, b, p) && Fits(n, b, s);
      SameBlock(n, b, c, p);
      assert Fits(n, c, p);
    }
    if b[s].size <= c[s].size {
      SameBlockAt(n, b, c, s);
    } else {
      SameBlockAt(n, c, b, s);
    }
  }

  /** The tiling of a coalesced heap is a function of its live blocks alone. */
  lemma Canonical(n: nat, b: Tiling, c: Tiling)
    requires Tiles(n, b) && Tiles(n, c) && Coalesced(b, {}) && Coalesced(c, {})
    ensures Live(b) == Live(c) <==> b == c
  {
    if Live(b) == Live(c) {
      forall s | s in b ensures s in c && b[s] == c[s] { SameBlock(n, b, c, s); }
      forall s | s in c ensures s in b { SameBlock(n, c, b, s); }
    }
  }

  // ---------------------------------------------------------------------
  // What one call does to the live blocks.

  ghost predicate IsFirstFit(st: State, need: nat, i: nat) {
    && i < |st.free| && st.free[i] in st.blocks && need <= st.blocks[st.free[i]].size
    && forall j :: 0 <= j < i ==> st.free[j] in st.blocks && st.blocks[st.free[j]].size < need
  }

  /** st' is st with block `s` = st.free[i] allocated: of exactly the cells needed,
      or whole where less than a smallest block would be left, a remainder standing
      on the list where it stood. */
  ghost predicate Taken(st: State, need: nat, i: nat, st': State) {
    && i < |st.free|
    && var s := st.free[i];
    && s in st.blocks && s in st'.blocks && st'.blocks[s].used
    && st'.blocks[s].size == (if st.blocks[s].size < need + MIN_BLOCK then st.blocks[s].size else need)
    && st'.free == (if st'.blocks[s].size == st.blocks[s].size then st.free[..i] + st.free[i + 1..]
                    else st.free[i := s + st'.blocks[s].size])
  }

  /** First fit: null exactly when nothing on the list is large enough,
      otherwise the earliest block that is. */
  lemma FirstFitMalloc(st: State, need: nat)
    requires Inv(st) && st.free != [] && MIN_BLOCK <= need
    ensures var (st', r) := MallocStep(st, need);
      && (r.None? <==> forall s :: FreeAt(st.blocks, s) ==> st.blocks[s].size < need)
      && (r.None? ==> st' == st)
      && (r.Some? ==> exists i: nat :: IsFirstFit(st, need, i) && r == Some(st.free[i]) && Taken(st, need, i, st'))
  {
    var i := FirstFit(st.blocks, st.free, need, 0);
    forall j | 0 <= j < |st.free| ensures FreeAt(st.blocks, st.free[j]) { assert st.free[j] in st.free; }
    if i == |st.free| {
      forall s | FreeAt(st.blocks, s) ensures st.blocks[s].size < need {
        assert s in st.free;
      }
    } else {
      assert IsFirstFit(st, need, i) && Taken(st, need, i, MallocStep(st, need).0);
    }
  }

  lemma PlaceLive(st: State, need: nat, i: nat)
    requires Inv(st) && MIN_BLOCK <= need
    requires i < |st.free| && st.free[i] in st.blocks && need <= st.blocks[st.free[i]].size
    ensures var (s, b') := (st.free[i], Place(st, need, i).blocks);
      && s !in Live(st.blocks) && FreeAt(st.blocks, s) && s in b' && b'[s].used
      && Live(b') == Live(st.blocks)[s := b'[s].size]
  {
    var s, b := st.free[i], st.blocks;
    assert s in st.free;
    if MIN_BLOCK <= b[s].size - need { SplitTiles(st.cells, b, s, need, true); }
  }

  lemma MallocLive(st: State, need: nat)
    requires Inv(st) && MIN_BLOCK <= need
    ensures var (st', r) := MallocStep(st, need);
      && (r.None? ==> Live(st'.blocks) == Live(Reset(st).blocks))
      && (r.Some? ==>
            && r.value !in Live(Reset(st).blocks) && FreeAt(Reset(st).blocks, r.value)
            && r.value in st'.blocks && st'.blocks[r.value].used
            && Live(st'.blocks) == Live(Reset(st).blocks)[r.value := st'.blocks[r.value].size])
  {
    MallocInv(st, need);
    var r := Reset(st);
    var i := FirstFit(r.blocks, r.free, need, 0);
    if i < |r.free| { PlaceLive(r, need, i); }
  }

  lemma FreeLive(st: State, s: nat)
    requires Inv(st) && s in st.blocks && st.blocks[s].used
    ensures Live(FreeStep(st, s).blocks) == Live(st.blocks) - {s}
  {
  }

  /** The entries of a list that are in `keep`, in order. */
  function Restrict(fl: seq<nat>, keep: set<nat>): seq<nat> {
    if fl == [] then [] else (if fl[0] in keep then [fl[0]] else []) + Restrict(fl[1..], keep)
  }

  lemma {:induction false} RestrictAll(fl: seq<nat>, keep: set<nat>)
    requires forall x :: x in fl ==> x in keep
    ensures Restrict(fl, keep) == fl
  {
    if fl != [] { RestrictAll(fl[1..], keep); }
  }

  lemma {:induction false} RestrictRemove(fl: seq<nat>, x: nat, keep: set<nat>)
    requires x !in keep
    ensures Restrict(Remove(fl, x), keep) == Restrict(fl, keep)
  {
    if fl != [] && fl[0] != x {
      RestrictRemove(fl[1..], x, keep);
      assert ([fl[0]] + Remove(fl[1..], x))[1..] == Remove(fl[1..], x);
    }
  }

  lemma MergeNextList(n: nat, b: Tiling, fl: seq<nat>, s: nat, keep: set<nat>)
    requires Tiles(n, b) && s in b && keep <= MergeNext(b, fl, s).0.Keys
    ensures Restrict(MergeNext(b, fl, s).1, keep) == Restrict(fl, keep)
  {
    var e := s + b[s].size;
    if e in b && !b[e].used {
      assert Fits(n, b, s) && e !in MergeNext(b, fl, s).0;
      RestrictRemove(fl, e, keep);
    }
  }

  lemma MergePrevList(n: nat, b: Tiling, fl: seq<nat>, s: nat, keep: set<nat>)
    requires Tiles(n, b) && s in b
    ensures var (b', fl') := MergePrev(b, fl, s);
      && fl' != [] && Owns(b', fl'[0], s) && b'.Keys <= b.Keys
      && (fl'[0] !in keep ==> Restrict(fl'[1..], keep) == Restrict(fl, keep))
  {
    assert Fits(n, b, s);
    if HasPrev(b, s) && !b[Prev(b, s)].used && Prev(b, s) !in keep { RestrictRemove(fl, Prev(b, s), keep); }
  }

  /** After free the block that now holds the freed cells heads the list, and
      behind it stand the old entries that are still blocks, in their old order. */
  lemma FreeList(st: State, s: nat)
    requires Inv(st) && s in st.blocks && st.blocks[s].used
    ensures var st' := FreeStep(st, s);
      && st'.free != [] && Owns(st'.blocks, st'.free[0], s)
      && st'.free[1..] == Restrict(st.free, st'.blocks.Keys - {st'.free[0]})
  {
    var b1, st' := st.blocks[s := Block(st.blocks[s].size, false)], FreeStep(st, s);
    UntagKeeps(st, s);
    MergeNextKeeps(st.cells, b1, st.free, s);
    var (b2, fl2) := MergeNext(b1, st.free, s);
    MergePrevList(st.cells, b2, fl2, s, {});
    var rest, keep := st'.free[1..], st'.blocks.Keys - {st'.free[0]};
    MergePrevList(st.cells, b2, fl2, s, keep);
    MergeNextList(st.cells, b1, st.free, s, keep);
    FreeInv(st, s);
    RestIsBlocks(st');
    RestrictAll(rest, keep);
  }

  lemma RestIsBlocks(st: State)
    requires Inv(st) && st.free != []
    ensures forall x :: x in st.free[1..] ==> x in st.blocks.Keys - {st.free[0]}
  {
    forall x | x in st.free[1..] ensures x in st.blocks && x != st.free[0] { assert x in st.free; }
  }

  /** malloc hands out a block nobody holds and leaves everyone else's alone
      exactly when the free list is not empty on entry; on an empty list
      allocator_init rebuilds the heap under the live blocks. */
  lemma MallocSparesTheLive(st: State, need: nat)
    requires Inv(st) && MIN_BLOCK <= need
    ensures var (st', r) := MallocStep(st, need);
      ((r.Some? ==> r.value !in Live(st.blocks))
        && forall s :: s in Live(st.blocks) ==> s in Live(st'.blocks) && Live(st'.blocks)[s] == Live(st.blocks)[s])
      <==> st.free != []
  {
    MallocLive(st, need);
    if st.free == [] {
      assert 0 in st.blocks && !FreeAt(st.blocks, 0) by { assert 0 !in st.free; }
      assert 0 in Live(st.blocks);
      assert Live(Initial(st.cells).blocks) == map[];
    }
  }

  /** Merging a block just cut, its flag cleared, with what is behind it: nothing
      but its own remainder, which gives the old block back. */
  lemma CutMergesBack(n: nat, b: Tiling, fl: seq<nat>, i: nat, k: nat)
    requires Tiles(n, b) && Listed(b, fl, {}) && i < |fl| && FreeAt(b, fl[i])
    requires MIN_BLOCK <= k && MIN_BLOCK + k <= b[fl[i]].size
    ensures var s := fl[i];
      var b1 := b[s := Block(k, false)][s + k := Block(b[s].size - k, false)];
      MergeNext(b1, fl[i := s + k], s) == (b, fl[..i] + fl[i + 1..])
  {
    var s := fl[i];
    SplitTiles(n, b, s, k, false);
    var b1, fl1 := b[s := Block(k, false)][s + k := Block(b[s].size - k, false)], fl[i := s + k];
    assert (b1 - {s + k})[s := Block(b[s].size, false)] == b;
    assert s + k !in fl;
    assert Distinct(fl1);
    RemoveAt(fl1, i);
    assert fl1[..i] == fl[..i] && fl1[i + 1..] == fl[i + 1..];
  }

  /** Freeing the block just placed merges it with nothing but its own
      remainder, so the list is the old one with the block moved to the head. */
  lemma FreeAfterPlaceList(st: State, need: nat, i: nat)
    requires Inv(st) && MIN_BLOCK <= need
    requires i < |st.free| && st.free[i] in st.blocks && need <= st.blocks[st.free[i]].size
    ensures FreeStep(Place(st, need, i), st.free[i]).free == [st.free[i]] + (st.free[..i] + st.free[i + 1..])
  {
    var s, b, st' := st.free[i], st.blocks, Place(st, need, i);
    assert s in st.free;
    assert FreeAt(b, s) && Parted(b, s, {}) && Fits(st.cells, b, s);
    var b1 := st'.blocks[s := Block(st'.blocks[s].size, false)];
    if MIN_BLOCK <= b[s].size - need {
      CutMergesBack(st.cells, b, st.free, i, need);
      assert b1 == b[s := Block(need, false)][s + need := Block(b[s].size - need, false)];
    } else {
      assert b1 == b;
    }
    assert MergeNext(b1, st'.free, s) == (b, st.free[..i] + st.free[i + 1..]);
    if HasPrev(b, s) { assert Parted(b, Prev(b, s), {}); }
  }

  lemma FreeUndoesPlace(st: State, need: nat, i: nat)
    requires Inv(st) && MIN_BLOCK <= need
    requires i < |st.free| && st.free[i] in st.blocks && need <= st.blocks[st.free[i]].size
    ensures var s := st.free[i];
      FreeStep(Place(st, need, i), s) == State(st.cells, st.blocks, [s] + (st.free[..i] + st.free[i + 1..]))
  {
    var s, st' := st.free[i], Place(st, need, i);
    PlaceInv(st, need, i);
    PlaceLive(st, need, i);
    FreeInv(st', s);
    FreeLive(st', s);
    var st2 := FreeStep(st', s);
    assert Live(st2.blocks) == Live(st.blocks);
    Canonical(st.cells, st2.blocks, st.blocks);
    FreeAfterPlaceList(st, need, i);
  }

  /** free(malloc(n)) restores the tiling; on the list the block moves to the head. */
  lemma FreeUndoesMalloc(st: State, need: nat)
    requires Inv(st) && st.free != [] && MIN_BLOCK <= need && MallocStep(st, need).1.Some?
    ensures var (st', r) := MallocStep(st, need);
      && r.value in st'.blocks && st'.blocks[r.value].used
      && exists i: nat :: IsFirstFit(st, need, i) && st.free[i] == r.value
          && FreeStep(st', r.value) == State(st.cells, st.blocks, [r.value] + (st.free[..i] + st.free[i + 1..]))
  {
    var i := FirstFit(st.blocks, st.free, need, 0);
    PlaceLive(st, need, i);
    FreeUndoesPlace(st, need, i);
    forall j | 0 <= j < i ensures st.free[j] in st.blocks {
      assert st.free[j] in st.free && FreeAt(st.blocks, st.free[j]);
    }
    assert IsFirstFit(st, need, i);
  }

  // ---------------------------------------------------------------------
  // Who owns a cell.

  ghost predicate Owns(b: Tiling, s: nat, c: nat) { s in b && s <= c < s + b[s].size }

  ghost predicate Payload(b: Tiling, s: nat, c: nat) {
    s in b && b[s].used && s + HEADER <= c < s + b[s].size - 1
  }

  /** Every cell of the heap lies in exactly one block. */
  lemma OneOwner(n: nat, b: Tiling, c: nat)
    requires Tiles(n, b) && c < n
    ensures exists s :: Owns(b, s, c)
    ensures forall s, t :: Owns(b, s, c) && Owns(b, t, c) ==> s == t
  {
    var s: nat := 0;
    while s + b[s].size <= c
      invariant s in b && s <= c
      decreases c - s
    {
      assert Fits(n, b, s);
      s := s + b[s].size;
    }
    assert Owns(b, s, c);
    forall s, t | Owns(b, s, c) && Owns(b, t, c) ensures s == t {
      assert Clear(b, s, t) && Clear(b, t, s);
    }
  }

  /** A payload cell is in no other payload and is no header, link or footer. */
  lemma PayloadIsPrivate(n: nat, b: Tiling, s: nat, t: nat, c: nat)
    requires Tiles(n, b) && Payload(b, s, c) && t in b
    ensures !(t <= c < t + HEADER) && c != t + b[t].size - 1
    ensures t != s ==> !Owns(b, t, c) && !Payload(b, t, c)
  {
    assert Fits(n, b, s) && Fits(n, b, t);
    assert Clear(b, s, t) && Clear(b, t, s);
  }

  // ---------------------------------------------------------------------
  // Runs.

  datatype Op = Malloc(request: nat) | Free(start: nat)

  /** Clients free live blocks only; a request is any value of size_t. */
  ghost predicate Allowed(st: State, op: Op) {
    match op
    case Malloc(n) => n < W64
    case Free(s) => s in st.blocks && st.blocks[s].used
  }

  ghost function Step(st: State, op: Op): State
    requires Allowed(st, op)
  {
    match op
    case Malloc(n) => MallocStep(st, Need(n)).0
    case Free(s) => FreeStep(st, s)
  }

  ghost predicate Legal(st: State, ops: seq<Op>)
    decreases |ops|
  {
    ops == [] || (Allowed(st, ops[0]) && Legal(Step(st, ops[0]), ops[1..]))
  }

  ghost function Run(st: State, ops: seq<Op>): State
    requires Legal(st, ops)
    decreases |ops|
  {
    if ops == [] then st else Run(Step(st, ops[0]), ops[1..])
  }

  lemma StepInv(st: State, op: Op)
    requires Inv(st) && Allowed(st, op)
    ensures Inv(Step(st, op)) && Step(st, op).cells == st.cells
  {
    match op
    case Malloc(n) => NeedInCells(n); MallocInv(st, Need(n));
    case Free(s) => FreeInv(st, s);
  }

  lemma {:induction false} RunInv(st: State, ops: seq<Op>)
    requires Inv(st) && Legal(st, ops)
    ensures Inv(Run(st, ops)) && Run(st, ops).cells == st.cells
    decreases |ops|
  {
    if ops != [] {
      StepInv(st, ops[0]);
      RunInv(Step(st, ops[0]), ops[1..]);
    }
  }

  /** Two runs that end with the same live blocks end with the same tiling,
      whatever they did and in whatever order they freed; with nothing live
      the heap is one block again. */
  lemma RunsAreCanonical(cells: nat, xs: seq<Op>, ys: seq<Op>)
    requires MIN_BLOCK <= cells && Legal(Initial(cells), xs) && Legal(Initial(cells), ys)
    ensures var b, c := Run(Initial(cells), xs).blocks, Run(Initial(cells), ys).blocks;
      && (Live(b) == Live(c) <==> b == c)
      && (Live(b) == map[] <==> b == map[0 := Block(cells, false)])
  {
    var init := Initial(cells);
    InitialInv(cells);
    RunInv(init, xs);
    RunInv(init, ys);
    Canonical(cells, Run(init, xs).blocks, Run(init, ys).blocks);
    Canonical(cells, Run(init, xs).blocks, init.blocks);
    assert Live(init.blocks) == map[];
  }

  /** What the clients can add up for themselves from the calls and results. */
  ghost function Ledger(st: State, ops: seq<Op>, held: map<nat, nat>): map<nat, nat>
    requires Legal(st, ops)
    decreases |ops|
  {
    if ops == [] then held
    else
      var st' := Step(st, ops[0]);
      var held' := match ops[0]
        case Malloc(n) =>
          var r := MallocStep(st, Need(n)).1;
          if r.Some? && r.value in st'.blocks then held[r.value := st'.blocks[r.value].size] else held
        case Free(s) => held - {s};
      Ledger(st', ops[1..], held')
  }

  ghost predicate NeverStarved(st: State, ops: seq<Op>)
    requires Legal(st, ops)
    decreases |ops|
  {
    ops == [] || ((ops[0].Malloc? ==> st.free != []) && NeverStarved(Step(st, ops[0]), ops[1..]))
  }

  /** As long as no malloc meets an empty list, the allocator's live blocks are
      what the clients were given and have not returned: nothing leaks, nothing
      is handed out twice. */
  lemma {:induction false} NothingIsLost(st: State, ops: seq<Op>)
    requires Inv(st) && Legal(st, ops) && NeverStarved(st, ops)
    ensures Live(Run(st, ops).blocks) == Ledger(st, ops, Live(st.blocks))
    decreases |ops|
  {
    if ops != [] {
      StepInv(st, ops[0]);
      match ops[0]
      case Malloc(n) =>
        NeedInCells(n);
        MallocLive(st, Need(n));
        NothingIsLost(Step(st, ops[0]), ops[1..]);
      case Free(s) =>
        FreeLive(st, s);
        NothingIsLost(Step(st, ops[0]), ops[1..]);
    }
  }

  /** The smallest heap there is, of 64 bytes: the first request takes it whole, so
      that the list is empty, and the next request is given the same block again. */
  lemma SecondMallocTakesTheLive()
    ensures var ops := [Malloc(8)];
      && Legal(Initial(8), ops)
      && var st := Run(Initial(8), ops);
      && st.free == [] && 0 in Live(st.blocks) && MallocStep(st, Need(8)).1 == Some(0)
      && !NeverStarved(Initial(8), [Malloc(8), Malloc(8)])
  {
    var st0 := Initial(8);
    assert Need(8) == MIN_BLOCK;
    assert FirstFit(st0.blocks, st0.free, MIN_BLOCK, 0) == 0;
    var st := Step(st0, Malloc(8));
    assert [Malloc(8)][1..] == [] && [Malloc(8), Malloc(8)][1..] == [Malloc(8)];
    assert Run(st, []) == st && Legal(st, [Malloc(8)]) && !NeverStarved(st, [Malloc(8)]);
  }
}
