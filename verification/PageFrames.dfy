// The bitmap page-frame allocator of mm/pfa.hpp.
module PageFrames {
  import opened Words

  const PAGE: nat := 4096
  const BOOT: nat := 16 * 1024 * 1024
  const VGA: nat := 0xB8000

  /** One memory-map entry; kind 1 is usable memory. */
  datatype Entry = Entry(addr: nat, len: nat, kind: nat)

  predicate Entries64(es: seq<Entry>) { forall e :: e in es ==> e.addr < W64 && e.len < W64 }

  /** addr + len in 64 bits. */
  function End(e: Entry): nat { (e.addr + e.len) % W64 }

  lemma EndIs(e: Entry)
    requires e.addr < W64 && e.len < W64
    ensures End(e) == e.addr + e.len - if e.addr + e.len < W64 then 0 else W64
  {
  }

  function PageFloor(a: nat): nat { a - a % PAGE }

  /** The bytes of q pages. */
  function Page(q: nat): nat { q * PAGE }

  // ---------------------------------------------------------------------
  // Bits.

  /** 1u << k. */
  function Mask(k: nat): bv8
    requires k < 8
  {
    if k == 0 then 0x01 else if k == 1 then 0x02 else if k == 2 then 0x04 else if k == 3 then 0x08
    else if k == 4 then 0x10 else if k == 5 then 0x20 else if k == 6 then 0x40 else 0x80
  }

  predicate Bit(b: bv8, k: nat)
    requires k < 8
  {
    b & Mask(k) != 0
  }

  /** Bit k is the one a right shift by k brings last. */
  lemma BitIs(b: bv8, k: nat)
    requires k < 8
    ensures Mask(k) == (1 as bv8) << (k as bv4) && (Bit(b, k) <==> (b >> (k as bv4)) & 1 == 1)
  {
  }

  lemma SetBit(b: bv8, k: nat, j: nat)
    requires k < 8 && j < 8
    ensures Bit(b | Mask(k), j) <==> j == k || Bit(b, j)
  {
  }

  lemma ClearBit(b: bv8, k: nat, j: nat)
    requires k < 8 && j < 8
    ensures Bit(b & !Mask(k), j) <==> j != k && Bit(b, j)
  {
  }

  predicate BitAt(bm: seq<bv8>, i: nat) { i / 8 < |bm| && Bit(bm[i / 8], i % 8) }

  lemma BitStored(bm: seq<bv8>, i: nat, on: bool)
    requires i / 8 < |bm|
    ensures var v := if on then bm[i / 8] | Mask(i % 8) else bm[i / 8] & !Mask(i % 8);
      forall j: nat :: BitAt(bm[i / 8 := v], j) <==> if j == i then on else BitAt(bm, j)
  {
    var v := if on then bm[i / 8] | Mask(i % 8) else bm[i / 8] & !Mask(i % 8);
    forall j: nat ensures BitAt(bm[i / 8 := v], j) <==> if j == i then on else BitAt(bm, j) {
      if j / 8 == i / 8 {
        SetBit(bm[i / 8], i % 8, j % 8);
        ClearBit(bm[i / 8], i % 8, j % 8);
      }
    }
  }

  // ---------------------------------------------------------------------
  // What init reserves.

  /** Page `idx` is in the clipped range [start, end), both ends rounded down. */
  predicate InRange(base: nat, limit: nat, start: nat, end: nat, idx: nat)
    requires base <= limit
  {
    var s, e := if start < base then base else start, if limit < end then limit else end;
    s < e && (s - base) / PAGE <= idx < (e - base) / PAGE
  }

  predicate EntryReserves(e: Entry, base: nat, limit: nat, idx: nat)
    requires base <= limit
  {
    e.kind != 1 && e.len != 0 && InRange(base, limit, e.addr, End(e), idx)
  }

  /** One of the first n entries reserves the page. */
  ghost predicate ReservedUpTo(es: seq<Entry>, n: nat, base: nat, limit: nat, idx: nat)
    requires base <= limit && n <= |es|
  {
    exists k :: 0 <= k < n && EntryReserves(es[k], base, limit, idx)
  }

  ghost predicate Reserved(es: seq<Entry>, base: nat, limit: nat, idx: nat)
    requires base <= limit
  {
    || ReservedUpTo(es, |es|, base, limit, idx)
    || InRange(base, limit, base, (base + BOOT) % W64, idx)
    || InRange(base, limit, PageFloor(VGA), PageFloor(VGA) + PAGE, idx)
  }

  function MinAddr(es: seq<Entry>): nat {
    if es == [] then W64 - 1
    else
      var m, e := MinAddr(es[..|es| - 1]), es[|es| - 1];
      if e.kind == 1 && e.len != 0 && e.addr < m then e.addr else m
  }

  function MaxEnd(es: seq<Entry>): nat {
    if es == [] then 0
    else
      var m, e := MaxEnd(es[..|es| - 1]), es[|es| - 1];
      if e.kind == 1 && e.len != 0 && m < End(e) then End(e) else m
  }

  function Base(es: seq<Entry>): nat { PageFloor((MinAddr(es) + PAGE) % W64) }

  function Limit(es: seq<Entry>): nat { PageFloor(MaxEnd(es)) }

  predicate Disabled(es: seq<Entry>) {
    MinAddr(es) == W64 - 1 || MaxEnd(es) <= MinAddr(es) || Limit(es) <= Base(es)
  }

  /** No sum of the memory map or of init leaves 64 bits. */
  predicate NoOverflow(es: seq<Entry>) {
    && (forall e :: e in es ==> e.addr + e.len < W64)
    && MinAddr(es) + PAGE < W64 && Base(es) + BOOT < W64
  }

  class PageAllocator {
    var physBase: nat
    var physLimit: nat
    var totalPages: nat
    var bitmap: array?<bv8>

    ghost predicate Valid()
      reads this
    {
      && physBase % PAGE == 0
      && (bitmap != null ==> physLimit == physBase + PAGE * totalPages && bitmap.Length == (totalPages + 7) / 8)
    }

    predicate BitGet(i: nat)
      requires bitmap != null && i / 8 < bitmap.Length
      reads this, bitmap
      ensures BitGet(i) <==> BitAt(bitmap[..], i)
    {
      Bit(bitmap[i / 8], i % 8)
    }

    method BitSet(i: nat)
      requires bitmap != null && i / 8 < bitmap.Length
      modifies bitmap
      ensures forall j: nat :: BitAt(bitmap[..], j) <==> j == i || BitAt(old(bitmap[..]), j)
    {
      BitStored(bitmap[..], i, true);
      ghost var bm := bitmap[..];
      bitmap[i / 8] := bitmap[i / 8] | Mask(i % 8);
      assert bitmap[..] == bm[i / 8 := bm[i / 8] | Mask(i % 8)];
    }

    method BitClear(i: nat)
      requires bitmap != null && i / 8 < bitmap.Length
      modifies bitmap
      ensures forall j: nat :: BitAt(bitmap[..], j) <==> j != i && BitAt(old(bitmap[..]), j)
    {
      BitStored(bitmap[..], i, false);
      ghost var bm := bitmap[..];
      bitmap[i / 8] := bitmap[i / 8] & !Mask(i % 8);
      assert bitmap[..] == bm[i / 8 := bm[i / 8] & !Mask(i % 8)];
    }

    /** Free pages, by index. */
    ghost function FreePages(): set<nat>
      reads this, bitmap
    {
      if bitmap == null then {} else set i: nat | i < totalPages && !BitAt(bitmap[..], i)
    }

    /** Sets the bits of a range of addresses, clipped and rounded down. */
    method ReserveRange(start: nat, end: nat)
      requires Valid() && bitmap != null
      modifies bitmap
      ensures forall j: nat :: BitAt(bitmap[..], j) <==>
        BitAt(old(bitmap[..]), j) || InRange(physBase, physLimit, start, end, j)
    {
      var s := if start < physBase then physBase else start;
      var e := if end > physLimit then physLimit else end;
      if e <= s { return; }
      var sidx, eidx := (s - physBase) / PAGE, (e - physBase) / PAGE;
      var idx := sidx;
      while idx < eidx
        invariant sidx <= idx && (idx <= eidx || idx == sidx)
        invariant forall j: nat :: BitAt(bitmap[..], j) <==> BitAt(old(bitmap[..]), j) || sidx <= j < idx
        decreases eidx - idx
      {
        BitSet(idx);
        idx := idx + 1;
      }
    }

    constructor ()
      ensures Valid() && bitmap == null && totalPages == 0
    {
      physBase, physLimit, totalPages, bitmap := 0, 0, 0, null;
    }

    /** The lowest start and the highest end of usable memory. */
    method UsableRange(es: seq<Entry>) returns (minAddr: nat, maxAddr: nat)
      ensures minAddr == MinAddr(es) && maxAddr == MaxEnd(es)
    {
      minAddr, maxAddr := W64 - 1, 0;
      for i := 0 to |es|
        invariant minAddr == MinAddr(es[..i]) && maxAddr == MaxEnd(es[..i])
      {
        var e := es[i];
        if e.kind == 1 && e.len != 0 {
          if e.addr < minAddr { minAddr := e.addr; }
          if End(e) > maxAddr { maxAddr := End(e); }
        }
        assert es[..i + 1][..i] == es[..i] && es[..i + 1][i] == e;
      }
      assert es[..|es|] == es;
    }

    method Disable()
      modifies this
      ensures Valid() && bitmap == null && totalPages == 0
    {
      physBase, physLimit, totalPages, bitmap := 0, 0, 0, null;
    }

    /** For any memory map, with `granted` telling whether malloc gives the bitmap:
        a page bit is set exactly when the page is reserved. */
    method Init(es: seq<Entry>, granted: bool)
      requires Entries64(es)
      modifies this
      ensures Valid()
      ensures Disabled(es) || !granted ==> bitmap == null && totalPages == 0
      ensures !Disabled(es) && granted ==>
        && physBase == Base(es) < physLimit == Limit(es) && totalPages == (physLimit - physBase) / PAGE
        && bitmap != null && fresh(bitmap)
        && forall j: nat :: j < totalPages ==> (BitAt(bitmap[..], j) <==> Reserved(es, physBase, physLimit, j))
    {
      var minAddr, maxAddr := UsableRange(es);
      if minAddr == W64 - 1 || maxAddr <= minAddr {
        Disable();
        return;
      }
      physBase := PageFloor((minAddr + PAGE) % W64);
      physLimit := PageFloor(maxAddr);
      if physLimit <= physBase {
        Disable();
        return;
      }
      if !granted {
        totalPages, bitmap := 0, null;
        return;
      }
      AllocBitmap();
      ReserveAll(es);
    }

    /** A cleared bitmap for the range. */
    method AllocBitmap()
      requires physBase % PAGE == 0 && physLimit % PAGE == 0 && physBase < physLimit
      modifies this`totalPages, this`bitmap
      ensures Valid() && bitmap != null && fresh(bitmap) && totalPages == (physLimit - physBase) / PAGE
      ensures forall j: nat :: !BitAt(bitmap[..], j)
    {
      totalPages := (physLimit - physBase) / PAGE;
      PageCount(physBase, physLimit);
      var bytes := (totalPages + 7) / 8;
      bitmap := new bv8[bytes](_ => 0);
      NoBits(bitmap[..]);
    }

    lemma NoBits(bm: seq<bv8>)
      requires forall i :: 0 <= i < |bm| ==> bm[i] == 0
      ensures forall j: nat :: !BitAt(bm, j)
    {
    }

    /** All the reservations of init. */
    method ReserveAll(es: seq<Entry>)
      requires Valid() && bitmap != null && forall j: nat :: !BitAt(bitmap[..], j)
      modifies bitmap
      ensures forall j: nat :: BitAt(bitmap[..], j) <==> Reserved(es, physBase, physLimit, j)
    {
      ReserveEntries(es);
      ReserveRange(physBase, (physBase + BOOT) % W64);
      ReserveRange(PageFloor(VGA), PageFloor(VGA) + PAGE);
    }

    /** The reservations for entries that are not usable. */
    method ReserveEntries(es: seq<Entry>)
      requires Valid() && bitmap != null
      modifies bitmap
      ensures forall j: nat :: BitAt(bitmap[..], j) <==>
        BitAt(old(bitmap[..]), j) || ReservedUpTo(es, |es|, physBase, physLimit, j)
    {
      for i := 0 to |es|
        invariant forall j: nat :: BitAt(bitmap[..], j) <==>
          BitAt(old(bitmap[..]), j) || ReservedUpTo(es, i, physBase, physLimit, j)
      {
        var e := es[i];
        if e.kind != 1 && e.len != 0 { ReserveRange(e.addr, End(e)); }
        assert forall j: nat :: ReservedUpTo(es, i + 1, physBase, physLimit, j) <==>
          (ReservedUpTo(es, i, physBase, physLimit, j) || EntryReserves(e, physBase, physLimit, j));
      }
    }

    /** The lowest free page, or 0. */
    method AllocPage() returns (pa: nat)
      requires Valid()
      modifies bitmap
      ensures Valid() && (old(FreePages()) == {} <==> FreePages() == old(FreePages()))
      ensures old(FreePages()) == {} ==> pa == 0
      ensures old(FreePages()) != {} ==>
        exists i: nat :: IsLowest(old(FreePages()), i)
          && pa == physBase + i * PAGE && FreePages() == old(FreePages()) - {i}
      ensures old(FreePages()) != {} ==> physBase <= pa && pa + PAGE <= physLimit && pa % PAGE == 0
    {
      ghost var free := FreePages();
      if bitmap == null || totalPages == 0 { return 0; }
      var idx := 0;
      while idx < totalPages
        invariant idx <= totalPages && forall j: nat :: j < idx ==> BitAt(bitmap[..], j)
        invariant bitmap[..] == old(bitmap[..])
        decreases totalPages - idx
      {
        if !BitGet(idx) {
          assert IsLowest(free, idx);
          BitSet(idx);
          assert FreePages() == free - {idx};
          assert idx in free && idx !in FreePages();
          PageAddress(physBase, idx);
          return physBase + idx * PAGE;
        }
        idx := idx + 1;
      }
      return 0;
    }

    lemma PageAddress(base: nat, idx: nat)
      requires base % PAGE == 0
      ensures (base + idx * PAGE) % PAGE == 0
    {
    }

    /** Any address of a page in range gives that page back. */
    method FreePage(pa: nat)
      requires Valid()
      modifies bitmap
      ensures Valid()
      ensures FreePages() == if bitmap != null && physBase <= pa < physLimit
                             then old(FreePages()) + {(pa - physBase) / PAGE} else old(FreePages())
      ensures bitmap != null && physBase <= pa < physLimit ==>
        exists i: nat :: physBase + Page(i) <= pa < physBase + Page(i + 1) && FreePages() == old(FreePages()) + {i}
    {
      if bitmap == null || pa < physBase || pa >= physLimit { return; }
      PageAround(physBase, pa);
      BitClear((pa - physBase) / PAGE);
    }
  }

  lemma PagesExact(q: nat)
    ensures (PAGE * q) / PAGE == q
  {
  }

  lemma PageCount(base: nat, limit: nat)
    requires base % PAGE == 0 && limit % PAGE == 0 && base <= limit
    ensures limit == base + PAGE * ((limit - base) / PAGE)
  {
    var b, l := base / PAGE, limit / PAGE;
    assert base == PAGE * b && limit == PAGE * l;
    assert limit - base == PAGE * (l - b) && b <= l;
    PagesExact(l - b);
  }

  ghost predicate IsLowest(s: set<nat>, i: nat) { i in s && forall j :: j in s ==> i <= j }

  // ---------------------------------------------------------------------
  // What the reservation means, sums staying within 64 bits.

  predicate Usable(e: Entry) { e.kind == 1 && e.len != 0 }

  /** The managed range spans the usable entries and no more. */
  lemma {:induction false} UsableRangeIs(es: seq<Entry>)
    requires Entries64(es)
    ensures forall e :: e in es && Usable(e) ==> MinAddr(es) <= e.addr && End(e) <= MaxEnd(es)
    ensures MinAddr(es) == W64 - 1 || exists e :: e in es && Usable(e) && e.addr == MinAddr(es)
    ensures MaxEnd(es) == 0 || exists e :: e in es && Usable(e) && End(e) == MaxEnd(es)
  {
    if es != [] {
      var front, last := es[..|es| - 1], es[|es| - 1];
      assert es == front + [last];
      assert forall e :: e in front ==> e in es;
      UsableRangeIs(front);
      assert MinAddr(front) == MinAddr(es) || (Usable(last) && last.addr == MinAddr(es));
      assert MaxEnd(front) == MaxEnd(es) || (Usable(last) && End(last) == MaxEnd(es));
      if e :| e in front && Usable(e) && e.addr == MinAddr(front) { assert e in es; }
      if e :| e in front && Usable(e) && End(e) == MaxEnd(front) { assert e in es; }
    }
  }

  ghost predicate Overlaps(e: Entry, lo: nat, hi: nat) { e.addr < hi && lo < e.addr + e.len }

  /** A non-usable entry that begins before the page ending at `hi` does, and
      covers the page to its end. */
  predicate CoversEnd(e: Entry, hi: nat) { e.kind != 1 && e.len != 0 && e.addr < hi <= e.addr + e.len }

  /** What the clipping and rounding of one entry's range come to: of the pages a
      non-usable entry touches, the one it leaves before its end is not reserved. */
  lemma EntryReservesIff(e: Entry, base: nat, limit: nat, idx: nat)
    requires e.addr + e.len < W64 && base % PAGE == 0 && limit % PAGE == 0
    requires base < limit && idx < (limit - base) / PAGE
    ensures EntryReserves(e, base, limit, idx) <==> CoversEnd(e, base + (idx + 1) * PAGE)
  {
    if e.kind != 1 && e.len != 0 {
      var s, t := if e.addr < base then base else e.addr, if limit < e.addr + e.len then limit else e.addr + e.len;
      assert End(e) == e.addr + e.len;
      PagesBelow(base, s, idx);
      assert e.addr < base + (idx + 1) * PAGE <==> (s - base) / PAGE <= idx;
      if base <= t { PagesBelow(base, t, idx); }
      assert base + (idx + 1) * PAGE <= limit by { PagesBelow(base, limit, idx); }
    }
  }

  lemma PagesBelow(base: nat, a: nat, idx: nat)
    requires base <= a
    ensures (a - base) / PAGE <= idx <==> a < base + (idx + 1) * PAGE
  {
  }

  /** Over the whole map: a page is reserved exactly when it is one of the first
      4096 or some non-usable entry covers its end.  The VGA range adds nothing. */
  lemma ReservedExactly(es: seq<Entry>, idx: nat)
    requires Entries64(es) && NoOverflow(es) && !Disabled(es) && idx < (Limit(es) - Base(es)) / PAGE
    ensures Reserved(es, Base(es), Limit(es), idx)
      <==> idx < 4096 || exists k :: 0 <= k < |es| && CoversEnd(es[k], Base(es) + (idx + 1) * PAGE)
    ensures 0 < Base(es)
  {
    var base, limit := Base(es), Limit(es);
    RangeIsPages(es);
    BootRange(base, limit, idx);
    EntriesReserve(es, base, limit, idx);
  }

  lemma PageAround(base: nat, pa: nat)
    requires base <= pa
    ensures var i := (pa - base) / PAGE; base + Page(i) <= pa < base + Page(i + 1)
  {
  }

  lemma FloorIs(a: nat)
    ensures PageFloor(a) % PAGE == 0 && PageFloor(a) <= a < PageFloor(a) + PAGE
  {
  }

  /** The managed range: of the whole pages from above the lowest usable address to
      the highest usable end, all. */
  lemma RangeIsPages(es: seq<Entry>)
    requires NoOverflow(es) && !Disabled(es)
    ensures Base(es) % PAGE == 0 && Limit(es) % PAGE == 0 && 0 < Base(es) < Limit(es) && Base(es) + BOOT < W64
    ensures MinAddr(es) < Base(es) <= MinAddr(es) + PAGE && Limit(es) <= MaxEnd(es) < Limit(es) + PAGE
  {
    FloorIs(MinAddr(es) + PAGE);
    FloorIs(MaxEnd(es));
  }

  lemma PageInUsable(es: seq<Entry>, idx: nat)
    requires NoOverflow(es) && !Disabled(es) && idx < (Limit(es) - Base(es)) / PAGE
    ensures MinAddr(es) < Base(es) + idx * PAGE && Base(es) + (idx + 1) * PAGE <= MaxEnd(es)
  {
    RangeIsPages(es);
    PagesBelow(Base(es), Limit(es), idx);
  }

  /** The allocator is disabled exactly when there is no such page. */
  lemma DisabledIff(es: seq<Entry>)
    requires MinAddr(es) == W64 - 1 || MinAddr(es) + PAGE < W64
    requires MaxEnd(es) < W64
    ensures Disabled(es) <==> forall q: nat :: MinAddr(es) < Page(q) ==> MaxEnd(es) < Page(q + 1)
  {
    var lo, hi := MinAddr(es), MaxEnd(es);
    FloorIs(hi);
    if lo != W64 - 1 {
      FloorIs(lo + PAGE);
      assert (lo + PAGE) % W64 == lo + PAGE;
      var b, l := Base(es) / PAGE, Limit(es) / PAGE;
      assert Base(es) == Page(b) && Limit(es) == Page(l);
      forall q: nat | lo < Page(q) ensures b <= q { assert Page(b) <= lo + PAGE < Page(q) + PAGE == Page(q + 1); }
      if !Disabled(es) { assert lo < Page(b) && Page(b + 1) <= Page(l); }
    }
  }

  lemma EntriesReserve(es: seq<Entry>, base: nat, limit: nat, idx: nat)
    requires (forall e :: e in es ==> e.addr + e.len < W64) && base % PAGE == 0 && limit % PAGE == 0
    requires base < limit && idx < (limit - base) / PAGE
    ensures ReservedUpTo(es, |es|, base, limit, idx)
      <==> exists k :: 0 <= k < |es| && CoversEnd(es[k], base + (idx + 1) * PAGE)
  {
    forall k | 0 <= k < |es|
      ensures EntryReserves(es[k], base, limit, idx) <==> CoversEnd(es[k], base + (idx + 1) * PAGE)
    {
      assert es[k] in es;
      EntryReservesIff(es[k], base, limit, idx);
    }
  }

  lemma BootRange(base: nat, limit: nat, idx: nat)
    requires base % PAGE == 0 && 0 < base < limit && base + BOOT < W64 && idx < (limit - base) / PAGE
    ensures InRange(base, limit, base, (base + BOOT) % W64, idx) <==> idx < 4096
    ensures InRange(base, limit, PageFloor(VGA), PageFloor(VGA) + PAGE, idx) ==> idx < 4096
  {
  }

  /** No page lying wholly inside a non-usable entry starts out free. */
  lemma NoFreePageInside(es: seq<Entry>, e: Entry, idx: nat)
    requires Entries64(es) && NoOverflow(es) && !Disabled(es) && idx < (Limit(es) - Base(es)) / PAGE
    requires e in es && e.kind != 1 && e.len != 0
    requires e.addr <= Base(es) + idx * PAGE && Base(es) + (idx + 1) * PAGE <= e.addr + e.len
    ensures Reserved(es, Base(es), Limit(es), idx)
  {
    ReservedExactly(es, idx);
    var k :| 0 <= k < |es| && es[k] == e;
    assert CoversEnd(es[k], Base(es) + (idx + 1) * PAGE);
  }

  /** The half page of the map below that is not usable starts out free. */
  lemma PartialPageStartsFree()
    ensures var es := [Entry(0, 0x4000_0000, 1), Entry(0x2000_0000, 0x800, 2)];
      && Entries64(es) && NoOverflow(es) && !Disabled(es) && Base(es) == 0x1000 && Limit(es) == 0x4000_0000
      && Overlaps(es[1], 0x2000_0000, 0x2000_1000) && Base(es) + 0x1_FFFF * PAGE == 0x2000_0000
      && !Reserved(es, Base(es), Limit(es), 0x1_FFFF)
  {
    var es := [Entry(0, 0x4000_0000, 1), Entry(0x2000_0000, 0x800, 2)];
    assert es[..1] == [es[0]] && es[..1][..0] == [];
    assert MinAddr(es[..1]) == 0 && MaxEnd(es[..1]) == 0x4000_0000;
    assert MinAddr(es) == 0 && MaxEnd(es) == 0x4000_0000;
    assert NoOverflow(es);
    ReservedExactly(es, 0x1_FFFF);
  }

  /** A page that no entry mentions starts out free: the map below has nothing
      between 1 MiB and 1 GiB. */
  lemma HoleStartsFree()
    ensures var es := [Entry(0, 0x10_0000, 1), Entry(0x4000_0000, 0x10_0000, 1)];
      && Entries64(es) && !Disabled(es) && Base(es) == 0x1000 && Limit(es) == 0x4010_0000
      && !Reserved(es, Base(es), Limit(es), 0x1_0000)
      && forall e :: e in es ==> !Overlaps(e, 0x1000_1000, 0x1000_2000)
  {
    var es := [Entry(0, 0x10_0000, 1), Entry(0x4000_0000, 0x10_0000, 1)];
    assert es[..1] == [es[0]] && es[..1][..0] == [];
    assert MinAddr(es[..1]) == 0 && MaxEnd(es[..1]) == 0x10_0000;
    assert MinAddr(es) == 0 && MaxEnd(es) == 0x4010_0000;
    assert NoOverflow(es);
    ReservedExactly(es, 0x1_0000);
  }

  // ---------------------------------------------------------------------
  // Runs: pages handed out and given back.

  datatype Op = Take | GiveBack(k: nat)

  /** The free pages, and the pages held in the order they were handed out. */
  datatype Pages = Pages(free: set<nat>, held: seq<nat>)

  ghost function Lowest(s: set<nat>): (i: nat)
    requires s != {}
    ensures IsLowest(s, i)
    decreases |s|
  {
    var x :| x in s;
    if s == {x} then x
    else
      var y := Lowest(s - {x});
      assert s == (s - {x}) + {x};
      if x < y then x else y
  }

  function Without(s: seq<nat>, k: nat): seq<nat>
    requires k < |s|
  {
    s[..k] + s[k + 1..]
  }

  ghost function Step(p: Pages, op: Op): Pages {
    match op
    case Take => if p.free == {} then p else Pages(p.free - {Lowest(p.free)}, p.held + [Lowest(p.free)])
    case GiveBack(k) => if k < |p.held| then Pages(p.free + {p.held[k]}, Without(p.held, k)) else p
  }

  ghost function Run(p: Pages, ops: seq<Op>): Pages
    decreases ops
  {
    if ops == [] then p else Run(Step(p, ops[0]), ops[1..])
  }

  ghost function Elems(s: seq<nat>): set<nat> { set i | i in s }

  /** No page is held twice, none is held and free, and together they are `all`. */
  ghost predicate Shared(p: Pages, all: set<nat>) {
    && (forall j, k :: 0 <= j < k < |p.held| ==> p.held[j] != p.held[k])
    && p.free !! Elems(p.held) && p.free + Elems(p.held) == all
  }

  lemma GivenBack(s: seq<nat>, k: nat)
    requires k < |s| && forall i, j :: 0 <= i < j < |s| ==> s[i] != s[j]
    ensures s[k] !in Without(s, k) && Elems(Without(s, k)) + {s[k]} == Elems(s)
    ensures forall i, j :: 0 <= i < j < |Without(s, k)| ==> Without(s, k)[i] != Without(s, k)[j]
  {
    assert s == s[..k] + [s[k]] + s[k + 1..];
    assert forall x :: x in s <==> x in Without(s, k) || x == s[k];
  }

  lemma StepShares(p: Pages, op: Op, all: set<nat>)
    requires Shared(p, all)
    ensures Shared(Step(p, op), all)
  {
    match op
    case Take =>
      if p.free != {} {
        var i := Lowest(p.free);
        assert Elems(p.held + [i]) == Elems(p.held) + {i};
        assert forall k :: 0 <= k < |p.held| ==> p.held[k] in Elems(p.held);
      }
    case GiveBack(k) => if k < |p.held| { GivenBack(p.held, k); }
  }

  /** Over any run no page is held twice or held and free, and free plus held is
      what it was. */
  lemma {:induction false} PagesConserved(p: Pages, ops: seq<Op>, all: set<nat>)
    requires Shared(p, all)
    ensures Shared(Run(p, ops), all)
    decreases ops
  {
    if ops != [] {
      StepShares(p, ops[0], all);
      PagesConserved(Step(p, ops[0]), ops[1..], all);
    }
  }

  /** A caller that gives back only pages it was handed. */
  class PageHolder {
    const pages: PageAllocator
    var held: seq<nat>        // addresses
    ghost var idx: seq<nat>   // the pages at them

    ghost predicate Valid()
      reads this, pages, pages.bitmap
    {
      && pages.Valid() && pages.bitmap != null && 0 < pages.physBase && |held| == |idx|
      && forall k :: 0 <= k < |idx| ==> held[k] == pages.physBase + idx[k] * PAGE && idx[k] < pages.totalPages
    }

    ghost function Now(): Pages
      reads this, pages, pages.bitmap
    {
      Pages(pages.FreePages(), idx)
    }

    constructor (pages: PageAllocator)
      requires pages.Valid() && pages.bitmap != null && 0 < pages.physBase
      ensures Valid() && this.pages == pages && held == [] && Now() == Pages(pages.FreePages(), [])
    {
      this.pages, held, idx := pages, [], [];
    }

    method DoTake() returns (pa: nat)
      requires Valid()
      modifies this, pages.bitmap
      ensures Valid() && Now() == Step(old(Now()), Take)
      ensures pa == 0 <==> old(pages.FreePages()) == {}
      ensures held == if pa == 0 then old(held) else old(held) + [pa]
    {
      ghost var free := pages.FreePages();
      pa := pages.AllocPage();
      if pa != 0 {
        held, idx := held + [pa], idx + [Lowest(free)];
      }
    }

    method DoGiveBack(k: nat)
      requires Valid()
      modifies this, pages.bitmap
      ensures Valid() && Now() == Step(old(Now()), GiveBack(k))
      ensures held == if k < |old(held)| then Without(old(held), k) else old(held)
    {
      if k >= |held| { return; }
      PageOf(pages.physBase, idx[k], pages.totalPages);
      pages.FreePage(held[k]);
      held, idx := Without(held, k), Without(idx, k);
    }

    /** Any sequence of takes and returns: the free pages and the held ones are
        those of the run, the held addresses being theirs. */
    method Perform(ops: seq<Op>)
      requires Valid()
      modifies this, pages.bitmap
      ensures Valid() && Now() == Run(old(Now()), ops)
    {
      for i := 0 to |ops|
        invariant Valid() && Run(Now(), ops[i..]) == Run(old(Now()), ops)
      {
        assert ops[i..][0] == ops[i] && ops[i..][1..] == ops[i + 1..];
        match ops[i] {
          case Take => var pa := DoTake();
          case GiveBack(k) => DoGiveBack(k);
        }
      }
    }
  }

  lemma PageOf(base: nat, i: nat, total: nat)
    requires i < total
    ensures (base + i * PAGE - base) / PAGE == i && base <= base + i * PAGE < base + PAGE * total
  {
  }
}
