// Clients of the heap: any sequence of malloc, free, realloc and stores.
module HeapClient {
  import opened Options
  import opened HeapModel
  import opened HeapTheorems
  import opened Words
  import opened Heap

  /** Pointers are kept in slots; an allocation opens the next slot. */
  datatype Action =
    | Alloc(size: nat)
    | Release(slot: nat)
    | Store(slot: nat, off: nat, v: Octet)
    | Resize(slot: nat, size: nat)

  /** The heap, the block in each slot, and the size each was last asked for. */
  datatype World = World(st: State, slots: seq<Option<nat>>, asked: seq<nat>)

  type Bytes = map<nat, Octet>
  type Memory = map<nat, seq<Octet>>

  predicate SizeOk(a: Action) {
    (a.Alloc? ==> a.size <= W64 - 56) && (a.Resize? ==> a.size <= W64 - 56)
  }

  // ---------------------------------------------------------------------
  // What each action does and answers.

  ghost predicate HasBlock(w: World, k: nat) {
    k < |w.slots| && w.slots[k].Some? && w.slots[k].value in w.st.blocks
  }

  /** The payload bytes of a block. */
  function Capacity(st: State, s: nat): int
    requires s in st.blocks
  {
    8 * (st.blocks[s].size - HEADER - 1)
  }

  ghost function Freed(w: World, k: nat): World
    requires HasBlock(w, k)
  {
    w.(st := FreeStep(w.st, w.slots[k].value), slots := w.slots[k := None])
  }

  ghost function Resized(w: World, k: nat, n: nat): (World, bool)
    requires HasBlock(w, k) && |w.asked| == |w.slots|
  {
    var (st', r) := ReallocStep(w.st, w.slots[k].value, Need(n));
    if r.Some? then (World(st', w.slots[k := r], w.asked[k := n]), true) else (w.(st := st'), false)
  }

  /** The world after an action, and its answer: an allocation succeeds when the
      heap hands out a block, a release or resize needs one in the slot, a store
      succeeds when it falls inside the block. */
  ghost function Act(w: World, a: Action): (World, bool) {
    match a
    case Alloc(n) =>
      var (st', r) := MallocStep(w.st, Need(n));
      (World(st', w.slots + [r], w.asked + [n]), r.Some?)
    case Release(k) => if HasBlock(w, k) then (Freed(w, k), true) else (w, false)
    case Store(k, off, _) => (w, HasBlock(w, k) && off < Capacity(w.st, w.slots[k].value))
    case Resize(k, n) =>
      if !HasBlock(w, k) || |w.asked| != |w.slots| then (w, false)
      else if n == 0 then (Freed(w, k), true)
      else Resized(w, k, n)
  }

  ghost function ActAll(w: World, acts: seq<Action>): World
    decreases |acts|
  {
    if acts == [] then w else Act(ActAll(w, acts[..|acts| - 1]), acts[|acts| - 1]).0
  }

  ghost function Answers(w: World, acts: seq<Action>): seq<bool>
    decreases |acts|
  {
    if acts == [] then []
    else
      var front := acts[..|acts| - 1];
      Answers(w, front) + [Act(ActAll(w, front), acts[|acts| - 1]).1]
  }

  predicate Allocates(a: Action) { a.Alloc? || (a.Resize? && a.size != 0) }

  /** No allocation of the run meets an empty free list. */
  ghost predicate NeverStarves(w: World, acts: seq<Action>)
    decreases |acts|
  {
    acts == [] ||
    var front := acts[..|acts| - 1];
    NeverStarves(w, front) && (Allocates(acts[|acts| - 1]) ==> ActAll(w, front).st.free != [])
  }

  /** What is known after the first n actions of a run. */
  ghost predicate Reached(w: World, acts: seq<Action>, n: nat, now: World, oks: seq<bool>) {
    && n <= |acts| && |oks| == n && now == ActAll(w, acts[..n]) && oks == Answers(w, acts[..n])
    && NeverStarves(w, acts[..n])
  }

  lemma ReachedNext(w: World, acts: seq<Action>, n: nat, now: World, oks: seq<bool>)
    requires Reached(w, acts, n, now, oks) && n < |acts| && (Allocates(acts[n]) ==> now.st.free != [])
    ensures Reached(w, acts, n + 1, Act(now, acts[n]).0, oks + [Act(now, acts[n]).1])
  {
    var more := acts[..n + 1];
    assert more[..|more| - 1] == acts[..n] && more[|more| - 1] == acts[n];
  }

  ghost predicate Roomy(w: World, k: nat)
    requires k < |w.slots| == |w.asked|
  {
    w.slots[k].Some? ==>
      var s := w.slots[k].value;
      s in w.st.blocks && w.st.blocks[s].used && w.asked[k] <= Capacity(w.st, s)
  }

  /** Every slot in use is a live block of its own, with the room asked for. */
  ghost predicate Sound(w: World) {
    && Inv(w.st) && |w.slots| == |w.asked|
    && (forall k: nat {:trigger Roomy(w, k)} :: k < |w.slots| ==> Roomy(w, k))
    && (forall i, j :: 0 <= i < j < |w.slots| && w.slots[i].Some? ==> w.slots[i] != w.slots[j])
  }

  lemma AllocSound(w: World, n: nat)
    requires Sound(w) && w.st.free != [] && n <= W64 - 56
    ensures Sound(Act(w, Alloc(n)).0)
  {
    var (st', r) := MallocStep(w.st, Need(n));
    var w' := Act(w, Alloc(n)).0;
    NeedInCells(n);
    RequestFits(n);
    MallocInv(w.st, Need(n));
    MallocLive(w.st, Need(n));
    forall k: nat {:trigger Roomy(w', k)} | k < |w'.slots| ensures Roomy(w', k) {
      if k < |w.slots| { assert Roomy(w, k); StaysLive(w.st, st', w.slots[k]); }
      if r.Some? { FirstFitMalloc(w.st, Need(n)); }
    }
    forall k: nat | k < |w.slots| && w.slots[k].Some? ensures w.slots[k] != r { assert Roomy(w, k); }
  }

  /** Equal entries among the live blocks are equal blocks. */
  lemma StaysLive(st: State, st': State, slot: Option<nat>)
    requires slot.Some? ==> slot.value in Live(st.blocks)
    requires slot.Some? && slot.value in Live(st'.blocks) ==>
      Live(st'.blocks)[slot.value] == Live(st.blocks)[slot.value]
    ensures slot.Some? && slot.value in Live(st'.blocks) ==>
      st'.blocks[slot.value].used && st'.blocks[slot.value].size == st.blocks[slot.value].size
  {
  }

  lemma FreedSound(w: World, k: nat)
    requires Sound(w) && HasBlock(w, k)
    ensures Sound(Freed(w, k))
  {
    var s, w' := w.slots[k].value, Freed(w, k);
    assert Roomy(w, k);
    FreeInv(w.st, s);
    FreeLive(w.st, s);
    forall j: nat {:trigger Roomy(w', j)} | j < |w'.slots| ensures Roomy(w', j) {
      assert Roomy(w, j);
      if j != k && w.slots[j].Some? {
        assert w.slots[j].value in Live(w'.st.blocks);
        StaysLive(w.st, w'.st, w.slots[j]);
      }
    }
  }

  /** A resize is an allocation into a new slot, a release, and a change of slots. */
  lemma ResizedSound(w: World, k: nat, n: nat)
    requires Sound(w) && HasBlock(w, k) && w.st.free != [] && n <= W64 - 56
    ensures Sound(Resized(w, k, n).0)
  {
    AllocSound(w, n);
    var w1 := Act(w, Alloc(n)).0;
    assert Roomy(w, k) && Roomy(w1, k) && Roomy(w1, |w.slots|);
    FirstFitMalloc(w.st, Need(n)) by { NeedInCells(n); }
    var r := w1.slots[|w.slots|];
    var w' := Resized(w, k, n).0;
    if r.Some? {
      FreedSound(w1, k);
      var w2 := Freed(w1, k);
      assert w'.st == w2.st;
      forall j: nat {:trigger Roomy(w', j)} | j < |w'.slots| ensures Roomy(w', j) {
        assert Roomy(w2, j) && Roomy(w2, |w.slots|);
      }
      assert forall j :: 0 <= j < |w.slots| && j != k ==> w'.slots[j] == w2.slots[j];
      assert w2.slots[|w.slots|] == r;
    }
  }

  lemma ActSound(w: World, a: Action)
    requires Sound(w) && SizeOk(a) && (Allocates(a) ==> w.st.free != [])
    ensures Sound(Act(w, a).0)
  {
    match a
    case Alloc(n) => AllocSound(w, n);
    case Release(k) => if HasBlock(w, k) { FreedSound(w, k); }
    case Store(_, _, _) =>
    case Resize(k, n) =>
      if HasBlock(w, k) {
        if n == 0 { FreedSound(w, k); } else { ResizedSound(w, k, n); }
      }
  }

  /** Over any run that does not starve, a block has the room it was asked for as
      long as its slot is not released or resized: stores inside it succeed. */
  lemma {:induction false} RunIsSound(w: World, acts: seq<Action>)
    requires Sound(w) && NeverStarves(w, acts) && forall a :: a in acts ==> SizeOk(a)
    ensures Sound(ActAll(w, acts))
    ensures forall k: nat, off: nat, v: Octet {:trigger Store(k, off, v)} ::
      var w' := ActAll(w, acts);
      k < |w'.slots| && w'.slots[k].Some? && off < w'.asked[k] ==> Act(w', Store(k, off, v)).1
    decreases |acts|
  {
    if acts != [] {
      var front, last := acts[..|acts| - 1], acts[|acts| - 1];
      assert last in acts;
      RunIsSound(w, front);
      ActSound(ActAll(w, front), last);
    }
    var w' := ActAll(w, acts);
    forall k: nat, off: nat, v: Octet {:trigger Store(k, off, v)}
      | k < |w'.slots| && w'.slots[k].Some? && off < w'.asked[k]
      ensures Act(w', Store(k, off, v)).1
    {
      assert Roomy(w', k);
    }
  }

  // ---------------------------------------------------------------------
  // What the clients know.

  function Learnt(m: Bytes, off: nat, v: Octet): Bytes { m[off := v] }

  function Below(m: Bytes, n: nat): Bytes { map o | o in m && o < n :: m[o] }

  /** What the client may rely on after an action: the bytes it stored since the
      slot was opened, those a successful realloc keeps, nothing after free. */
  function Learn(known: seq<Bytes>, a: Action, ok: bool): seq<Bytes> {
    match a
    case Alloc(_) => known + [map[]]
    case Release(s) => if s < |known| then known[s := map[]] else known
    case Store(s, off, v) => if ok && s < |known| then known[s := Learnt(known[s], off, v)] else known
    case Resize(s, n) => if s < |known| && ok then known[s := Below(known[s], n)] else known
  }

  function LearnAll(acts: seq<Action>, oks: seq<bool>): seq<Bytes>
    requires |oks| <= |acts|
    decreases |oks|
  {
    if oks == [] then []
    else Learn(LearnAll(acts, oks[..|oks| - 1]), acts[|oks| - 1], oks[|oks| - 1])
  }

  /** An action that does not touch byte `off` of slot k. */
  predicate Leaves(a: Action, ok: bool, k: nat, off: nat) {
    match a
    case Alloc(_) => true
    case Release(s) => s != k
    case Store(s, o, _) => s != k || o != off || !ok
    case Resize(s, n) => s != k || !ok || off < n
  }

  /** Action i stored v at byte `off` of slot k, and none since touched it. */
  ghost predicate LastStored(acts: seq<Action>, oks: seq<bool>, i: nat, k: nat, off: nat, v: Octet) {
    && i < |oks| <= |acts| && acts[i] == Store(k, off, v) && oks[i]
    && forall j :: i < j < |oks| ==> Leaves(acts[j], oks[j], k, off)
  }

  /** The slots a run opens. */
  function Opened(acts: seq<Action>): nat
    decreases |acts|
  {
    if acts == [] then 0
    else Opened(acts[..|acts| - 1]) + if acts[|acts| - 1].Alloc? then 1 else 0
  }

  lemma ActOpens(w: World, a: Action)
    ensures |Act(w, a).0.slots| == |w.slots| + if a.Alloc? then 1 else 0
    ensures a.Store? && Act(w, a).1 ==> a.slot < |w.slots|
  {
  }

  lemma {:induction false} RunOpens(w: World, acts: seq<Action>)
    ensures |ActAll(w, acts).slots| == |w.slots| + Opened(acts)
    decreases |acts|
  {
    if acts != [] {
      RunOpens(w, acts[..|acts| - 1]);
      ActOpens(ActAll(w, acts[..|acts| - 1]), acts[|acts| - 1]);
    }
  }

  /** The last answer, seen from the slots open before. */
  lemma LastAnswer(w: World, acts: seq<Action>)
    requires acts != [] && w.slots == []
    ensures var (front, last) := (acts[..|acts| - 1], acts[|acts| - 1]);
      exists ok :: Answers(w, acts) == Answers(w, front) + [ok] && (last.Store? && ok ==> last.slot < Opened(front))
  {
    var front, last := acts[..|acts| - 1], acts[|acts| - 1];
    RunOpens(w, front);
    ActOpens(ActAll(w, front), last);
    var ok := Act(ActAll(w, front), last).1;
    assert Answers(w, acts) == Answers(w, front) + [ok];
  }

  ghost predicate StoresInSlots(acts: seq<Action>, oks: seq<bool>) {
    && |oks| == |acts|
    && forall i :: 0 <= i < |acts| && acts[i].Store? && oks[i] ==> acts[i].slot < Opened(acts[..i])
  }

  lemma OneMoreInSlots(acts: seq<Action>, oks: seq<bool>)
    requires |oks| == |acts| != 0
    requires var n := |acts| - 1;
      StoresInSlots(acts[..n], oks[..n]) && (acts[n].Store? && oks[n] ==> acts[n].slot < Opened(acts[..n]))
    ensures StoresInSlots(acts, oks)
  {
    var n := |acts| - 1;
    forall i | 0 <= i < |acts| && acts[i].Store? && oks[i] ensures acts[i].slot < Opened(acts[..i]) {
      if i < n {
        assert acts[..n][i].Store? && oks[..n][i];
        assert acts[..n][..i] == acts[..i];
      }
    }
  }

  /** A store succeeds in a slot that has been opened. */
  lemma {:induction false} AnswersInSlots(w: World, acts: seq<Action>)
    requires w.slots == []
    ensures StoresInSlots(acts, Answers(w, acts))
    decreases |acts|
  {
    if acts != [] {
      var front := acts[..|acts| - 1];
      AnswersInSlots(w, front);
      LastAnswer(w, acts);
      var ok :| Answers(w, acts) == Answers(w, front) + [ok]
        && (acts[|acts| - 1].Store? && ok ==> acts[|acts| - 1].slot < Opened(front));
      ByFront(acts, Answers(w, front), ok);
    }
  }

  lemma ByFront(acts: seq<Action>, oks: seq<bool>, ok: bool)
    requires acts != [] && StoresInSlots(acts[..|acts| - 1], oks)
    requires acts[|acts| - 1].Store? && ok ==> acts[|acts| - 1].slot < Opened(acts[..|acts| - 1])
    ensures StoresInSlots(acts, oks + [ok])
  {
    assert (oks + [ok])[..|oks|] == oks;
    OneMoreInSlots(acts, oks + [ok]);
  }

  lemma {:induction false} KnownSlots(acts: seq<Action>, oks: seq<bool>)
    requires |oks| <= |acts|
    ensures |LearnAll(acts, oks)| == Opened(acts[..|oks|])
    decreases |oks|
  {
    if oks != [] {
      var n := |oks| - 1;
      KnownSlots(acts, oks[..n]);
      assert acts[..n + 1][..n] == acts[..n];
    }
  }

  /** What was stored last is known. */
  lemma {:induction false} StoredIsKnown(acts: seq<Action>, oks: seq<bool>, i: nat, k: nat, off: nat, v: Octet)
    requires LastStored(acts, oks, i, k, off, v) && k < Opened(acts[..i])
    ensures var known := LearnAll(acts, oks); k < |known| && off in known[k] && known[k][off] == v
    decreases |oks|
  {
    var n := |oks| - 1;
    KnownSlots(acts, oks[..n]);
    if i < n {
      assert Leaves(acts[n], oks[n], k, off);
      StoredIsKnown(acts, oks[..n], i, k, off, v);
    }
  }

  ghost predicate HoldsBytes(c: Memory, slot: Option<nat>, m: Bytes) {
    match slot
    case None => m == map[]
    case Some(s) => s in c && forall o {:trigger m[o]} :: o in m ==> o < |c[s]| && c[s][o] == m[o]
  }

  /** The slots are distinct blocks holding what the client knows, and all other
      blocks are as they were in `c0`. */
  ghost predicate Sees(c: Memory, slots: seq<Option<nat>>, known: seq<Bytes>, c0: Memory) {
    && |slots| == |known|
    && (forall i {:trigger slots[i]} :: 0 <= i < |slots| ==> HoldsBytes(c, slots[i], known[i]))
    && (forall i, j :: 0 <= i < j < |slots| && slots[i].Some? ==> slots[i] != slots[j])
    && (forall i {:trigger slots[i]} :: 0 <= i < |slots| && slots[i].Some? ==> slots[i].value !in c0)
    && (forall t :: t in c0 ==> t in c && c[t] == c0[t])
  }

  lemma SeesAlloc(c: Memory, c': Memory, slots: seq<Option<nat>>, known: seq<Bytes>, c0: Memory, d: nat, n: nat)
    requires Sees(c, slots, known, c0) && Relocated(c, c', None, d, n)
    ensures Sees(c', slots + [Some(d)], known + [map[]], c0)
  {
  }

  lemma SeesNothing(c: Memory, slots: seq<Option<nat>>, known: seq<Bytes>, c0: Memory)
    requires Sees(c, slots, known, c0)
    ensures Sees(c, slots + [None], known + [map[]], c0)
  {
  }

  lemma SeesRelease(c: Memory, slots: seq<Option<nat>>, known: seq<Bytes>, c0: Memory, k: nat)
    requires Sees(c, slots, known, c0) && k < |slots| && slots[k].Some?
    ensures Sees(c - {slots[k].value}, slots[k := None], known[k := map[]], c0)
  {
  }

  lemma SeesStore(c: Memory, slots: seq<Option<nat>>, known: seq<Bytes>, c0: Memory, k: nat, off: nat, v: Octet)
    requires Sees(c, slots, known, c0) && k < |slots| && slots[k].Some?
    requires slots[k].value in c && off < |c[slots[k].value]|
    ensures var s := slots[k].value;
      Sees(c[s := Put(c[s], off, v)], slots, known[k := Learnt(known[k], off, v)], c0)
  {
  }

  lemma SeesResize(c: Memory, c': Memory, slots: seq<Option<nat>>, known: seq<Bytes>, c0: Memory,
                   k: nat, d: nat, n: nat)
    requires Sees(c, slots, known, c0) && k < |slots| && slots[k].Some?
    requires Relocated(c, c', slots[k], d, n)
    ensures Sees(c', slots[k := Some(d)], known[k := Below(known[k], n)], c0)
  {
  }

  ghost predicate PointsTo(h: KernelHeap, p: nat, slot: Option<nat>) {
    match slot
    case None => p == 0
    case Some(s) => p == h.UserPtr(s)
  }

  ghost predicate Pointers(h: KernelHeap, ptrs: seq<nat>, slots: seq<Option<nat>>) {
    && |ptrs| == |slots|
    && forall i {:trigger PointsTo(h, ptrs[i], slots[i])} :: 0 <= i < |slots| ==> PointsTo(h, ptrs[i], slots[i])
  }

  lemma PointerSet(h: KernelHeap, ptrs: seq<nat>, slots: seq<Option<nat>>, k: nat, p: nat, slot: Option<nat>)
    requires Pointers(h, ptrs, slots) && k < |ptrs| && PointsTo(h, p, slot)
    ensures Pointers(h, ptrs[k := p], slots[k := slot])
  {
  }

  lemma PointerAdded(h: KernelHeap, ptrs: seq<nat>, slots: seq<Option<nat>>, p: nat, slot: Option<nat>)
    requires Pointers(h, ptrs, slots) && PointsTo(h, p, slot)
    ensures Pointers(h, ptrs + [p], slots + [slot])
  {
  }

  class Client {
    const heap: KernelHeap
    var ptrs: seq<nat>
    ghost var slots: seq<Option<nat>>
    ghost var asked: seq<nat>
    ghost var known: seq<Bytes>
    ghost var others: Memory

    ghost predicate Valid()
      reads this, heap, heap.mem
    {
      && heap.Valid() && Pointers(heap, ptrs, slots) && |asked| == |slots|
      && Sees(heap.Contents(), slots, known, others)
    }

    ghost function Now(): World
      reads this, heap
    {
      World(heap.st, slots, asked)
    }

    constructor (heap: KernelHeap)
      requires heap.Valid()
      ensures Valid() && this.heap == heap && ptrs == [] && known == [] && others == heap.Contents()
      ensures Now() == World(heap.st, [], [])
    {
      this.heap, ptrs, slots, asked, known, others := heap, [], [], [], [], heap.Contents();
    }

    lemma SlotCell(k: nat)
      requires Valid() && k < |ptrs|
      ensures ptrs[k] != 0 <==> HasBlock(Now(), k)
      ensures ptrs[k] != 0 ==>
        && slots[k].Some? && heap.CellOf(ptrs[k]) == slots[k].value && heap.Held(ptrs[k])
        && slots[k].value in heap.Contents() && slots[k].value in Live(heap.st.blocks)
        && |heap.Contents()[slots[k].value]| == Capacity(heap.st, slots[k].value)
    {
      assert PointsTo(heap, ptrs[k], slots[k]);
      if ptrs[k] != 0 {
        var s := slots[k].value;
        heap.CellOfUserPtr(s);
        assert HoldsBytes(heap.Contents(), slots[k], known[k]);
        ContentsKeys(heap.cells, heap.mem[..], heap.st.blocks);
        heap.CapacityOf(s);
        heap.HeaderOf(heap.st.blocks, s);
      }
    }

    /** The slots after the heap did its part. */
    method SetSlot(k: nat, p: nat, ghost slot: Option<nat>, ghost n: nat, ghost m: Bytes)
      requires heap.Valid() && k < |ptrs| == |known| == |asked|
      requires Pointers(heap, ptrs, slots) && PointsTo(heap, p, slot)
      requires Sees(heap.Contents(), slots[k := slot], known[k := m], others)
      modifies this
      ensures Valid() && others == old(others) && known == old(known)[k := m]
      ensures slots == old(slots)[k := slot] && asked == old(asked)[k := n]
    {
      PointerSet(heap, ptrs, slots, k, p, slot);
      ptrs, slots, asked, known := ptrs[k := p], slots[k := slot], asked[k := n], known[k := m];
    }

    method DoAlloc(size: nat) returns (ok: bool)
      requires Valid() && heap.st.free != [] && size <= W64 - 56
      modifies this, heap, heap.mem
      ensures Valid() && others == old(others) && known == old(known) + [map[]]
      ensures (Now(), ok) == Act(old(Now()), Alloc(size))
    {
      ghost var c, r := heap.Contents(), MallocStep(heap.st, Need(size)).1;
      var p := heap.MallocFresh(size, None);
      if p == 0 {
        SeesNothing(c, slots, known, others);
      } else {
        heap.CellOfUserPtr(r.value);
        SeesAlloc(c, heap.Contents(), slots, known, others, r.value, size);
      }
      AddSlot(p, r, size);
      ok := p != 0;
    }

    method AddSlot(p: nat, ghost slot: Option<nat>, ghost n: nat)
      requires heap.Valid() && Pointers(heap, ptrs, slots) && |asked| == |slots| && PointsTo(heap, p, slot)
      requires Sees(heap.Contents(), slots + [slot], known + [map[]], others)
      modifies this
      ensures Valid() && others == old(others) && known == old(known) + [map[]]
      ensures slots == old(slots) + [slot] && asked == old(asked) + [n]
    {
      PointerAdded(heap, ptrs, slots, p, slot);
      ptrs, slots, asked, known := ptrs + [p], slots + [slot], asked + [n], known + [map[]];
    }

    method DoRelease(k: nat) returns (ok: bool)
      requires Valid()
      modifies this, heap, heap.mem
      ensures Valid() && others == old(others) && known == Learn(old(known), Release(k), ok)
      ensures (Now(), ok) == Act(old(Now()), Release(k))
    {
      if k >= |ptrs| { return false; }
      SlotCell(k);
      if ptrs[k] == 0 {
        assert PointsTo(heap, ptrs[k], slots[k]);
        assert HoldsBytes(heap.Contents(), slots[k], known[k]);
        assert known[k := map[]] == known;
        return false;
      }
      SeesRelease(heap.Contents(), slots, known, others, k);
      heap.HeldIsBehind(ptrs[k]);
      heap.Free(ptrs[k]);
      SetSlot(k, 0, None, asked[k], map[]);
      assert asked == old(asked);
      return true;
    }

    method DoStore(k: nat, off: nat, v: Octet) returns (ok: bool)
      requires Valid()
      modifies this, heap, heap.mem
      ensures Valid() && others == old(others) && known == Learn(old(known), Store(k, off, v), ok)
      ensures (Now(), ok) == Act(old(Now()), Store(k, off, v))
    {
      if k >= |ptrs| { return false; }
      SlotCell(k);
      if ptrs[k] == 0 { return false; }
      var size := heap.OldSize(ptrs[k]);
      if off >= size { return false; }
      SeesStore(heap.Contents(), slots, known, others, k, off, v);
      heap.StorePayload(ptrs[k], off, v);
      assert slots[k := slots[k]] == slots && asked[k := asked[k]] == asked && PointsTo(heap, ptrs[k], slots[k]);
      SetSlot(k, ptrs[k], slots[k], asked[k], Learnt(known[k], off, v));
      return true;
    }

    method DoResize(k: nat, size: nat) returns (ok: bool)
      requires Valid() && (size != 0 ==> heap.st.free != []) && size <= W64 - 56
      modifies this, heap, heap.mem
      ensures Valid() && others == old(others) && known == Learn(old(known), Resize(k, size), ok)
      ensures (Now(), ok) == Act(old(Now()), Resize(k, size))
    {
      if k >= |ptrs| { return false; }
      SlotCell(k);
      if ptrs[k] == 0 { return false; }
      if size == 0 {
        FreeByResize(k);
        ok := true;
      } else {
        ok := Move(k, size);
      }
    }

    /** realloc to no size. */
    method FreeByResize(k: nat)
      requires Valid() && k < |ptrs| && ptrs[k] != 0
      modifies this, heap, heap.mem
      ensures Valid() && others == old(others) && known == Learn(old(known), Resize(k, 0), true)
      ensures HasBlock(old(Now()), k) && Now() == Freed(old(Now()), k)
    {
      SlotCell(k);
      SeesRelease(heap.Contents(), slots, known, others, k);
      var p := heap.Realloc(ptrs[k], 0);
      assert Below(known[k], 0) == map[];
      SetSlot(k, 0, None, asked[k], map[]);
      assert asked == old(asked);
    }

    method Move(k: nat, size: nat) returns (ok: bool)
      requires Valid() && k < |ptrs| && ptrs[k] != 0 && heap.st.free != [] && 0 < size <= W64 - 56
      modifies this, heap, heap.mem
      ensures Valid() && others == old(others)
      ensures k < |old(known)| && known == if ok then old(known)[k := Below(old(known)[k], size)] else old(known)
      ensures (Now(), ok) == Act(old(Now()), Resize(k, size))
    {
      SlotCell(k);
      ghost var c, r := heap.Contents(), ReallocStep(heap.st, slots[k].value, Need(size)).1;
      var p := heap.Realloc(ptrs[k], size);
      ok := p != 0;
      if ok {
        heap.CellOfUserPtr(r.value);
        SeesResize(c, heap.Contents(), slots, known, others, k, r.value, size);
        SetSlot(k, p, r, size, Below(known[k], size));
      }
    }

    /** Byte `off` of the block in slot k is v. */
    ghost predicate ReadsAs(k: nat, off: nat, v: Octet)
      reads this, heap, heap.mem
    {
      && k < |slots| && slots[k].Some? && slots[k].value in heap.Contents()
      && off < |heap.Contents()[slots[k].value]| && heap.Contents()[slots[k].value][off] == v
    }

    lemma StoredReadsBack(w: World, acts: seq<Action>, oks: seq<bool>, i: nat, k: nat, off: nat, v: Octet)
      requires Valid() && w.slots == [] && |oks| <= |acts| && known == LearnAll(acts, oks)
      requires oks == Answers(w, acts[..|oks|]) && LastStored(acts, oks, i, k, off, v)
      ensures ReadsAs(k, off, v)
    {
      AnswersInSlots(w, acts[..|oks|]);
      assert acts[..|oks|][i].Store? && oks[i];
      assert acts[..|oks|][..i] == acts[..i];
      StoredIsKnown(acts, oks, i, k, off, v);
      assert HoldsBytes(heap.Contents(), slots[k], known[k]);
    }

    /** Any run up to the first allocation that would meet an empty free list.
        The heap, the slots and the answers are those of the run; every byte reads
        back as it was last stored, since when its block has neither been released
        nor resized to less; and no block that was live before is touched. */
    method Perform(acts: seq<Action>) returns (oks: seq<bool>)
      requires Valid() && known == [] && forall a :: a in acts ==> SizeOk(a)
      modifies this, heap, heap.mem
      ensures Valid() && others == old(others) && |oks| <= |acts|
      ensures Reached(old(Now()), acts, |oks|, Now(), oks)
      ensures known == LearnAll(acts, oks)
      ensures forall i: nat, k: nat, off: nat, v: Octet {:trigger LastStored(acts, oks, i, k, off, v)} ::
        LastStored(acts, oks, i, k, off, v) ==> ReadsAs(k, off, v)
      ensures |oks| < |acts| ==> heap.st.free == [] && Allocates(acts[|oks|])
    {
      oks := PerformAll(acts);
      forall i: nat, k: nat, off: nat, v: Octet {:trigger LastStored(acts, oks, i, k, off, v)}
        | LastStored(acts, oks, i, k, off, v) ensures ReadsAs(k, off, v)
      {
        StoredReadsBack(old(Now()), acts, oks, i, k, off, v);
      }
    }

    method PerformAll(acts: seq<Action>) returns (oks: seq<bool>)
      requires Valid() && known == [] && forall a :: a in acts ==> SizeOk(a)
      modifies this, heap, heap.mem
      ensures Valid() && others == old(others) && |oks| <= |acts|
      ensures Reached(old(Now()), acts, |oks|, Now(), oks)
      ensures known == LearnAll(acts, oks)
      ensures |oks| < |acts| ==> heap.st.free == [] && Allocates(acts[|oks|])
    {
      oks := [];
      while |oks| < |acts|
        invariant |oks| <= |acts| && Valid() && others == old(others) && known == LearnAll(acts, oks)
        invariant Reached(old(Now()), acts, |oks|, Now(), oks)
        decreases |acts| - |oks|
      {
        ghost var before := oks;
        assert acts[|oks|] in acts;
        heap.HeadIsNull(heap.st.blocks, heap.st.free);
        if heap.freeListHead == 0 && Allocates(acts[|oks|]) { return; }
        ReachedNext(old(Now()), acts, |oks|, Now(), oks);
        var ok := Do(acts[|oks|]);
        oks := oks + [ok];
        assert oks[..|oks| - 1] == before && oks[|oks| - 1] == ok;
      }
    }

    method Do(a: Action) returns (ok: bool)
      requires Valid() && SizeOk(a) && (Allocates(a) ==> heap.st.free != [])
      modifies this, heap, heap.mem
      ensures Valid() && others == old(others) && known == Learn(old(known), a, ok)
      ensures (Now(), ok) == Act(old(Now()), a)
    {
      match a {
        case Alloc(n) => ok := DoAlloc(n);
        case Release(k) => ok := DoRelease(k);
        case Store(k, off, v) => ok := DoStore(k, off, v);
        case Resize(k, n) => ok := DoResize(k, n);
      }
    }
  }
}
