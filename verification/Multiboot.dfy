// The Multiboot2 information walk of boot/mb2.hpp, and what pfa::init reads
// through the memory map it finds.
module Multiboot {
  import opened Sequences
  import opened Words
  import PageFrames

  const HEADER: nat := 8
  const ENTRY: nat := 24

  /** Little-endian fields. */
  function U32(mem: seq<Octet>, o: nat): (v: nat)
    requires o + 4 <= |mem|
    ensures v < 0x1_0000_0000
  {
    var (b0: nat, b1: nat, b2: nat, b3: nat) := (mem[o], mem[o + 1], mem[o + 2], mem[o + 3]);
    b0 + 256 * b1 + 65536 * b2 + 16777216 * b3
  }

  function U64(mem: seq<Octet>, o: nat): (v: nat)
    requires o + 8 <= |mem|
    ensures v < 0x1_0000_0000_0000_0000
  {
    U32(mem, o) + 0x1_0000_0000 * U32(mem, o + 4)
  }

  /** align_up(n, 8). */
  function Align8(n: nat): nat { n + 7 - (n + 7) % 8 }

  /** How many whole entries fit. */
  function Quotient(n: nat, size: nat): nat
    requires 0 < size
  {
    n / size
  }

  datatype Framebuffer = Framebuffer(addr: nat, width: nat, height: nat, pitch: nat, bpp: nat, kind: nat)

  /** Pointers are offsets from the start of the information, 0 is null. */
  datatype Info = Info(cmdline: nat, bootloader: nat, mmap: nat, mmapCount: nat,
                       modules: nat, modulesCount: nat, framebuffer: Framebuffer)

  const NOTHING: Info := Info(0, 0, 0, 0, 0, 0, Framebuffer(0, 0, 0, 0, 0, 0))

  // ---------------------------------------------------------------------
  // The walk.

  /** A tag the walk accepts at `o`: not the end tag, and inside the area. */
  predicate Accepts(mem: seq<Octet>, total: nat, o: nat)
    requires total < |mem|
  {
    && o + HEADER <= total && U32(mem, o) != 0
    && HEADER <= U32(mem, o + 4) && o + U32(mem, o + 4) <= total
  }

  /** The offsets of the accepted tags from `o` on. */
  function Tags(mem: seq<Octet>, total: nat, o: nat): seq<nat>
    requires total < |mem|
    decreases |mem| - o
  {
    if Accepts(mem, total, o) then [o] + Tags(mem, total, o + Align8(U32(mem, o + 4))) else []
  }

  /** What one tag adds to the information. */
  function Apply(mem: seq<Octet>, total: nat, info: Info, o: nat): Info
    requires total < |mem| && Accepts(mem, total, o)
  {
    match U32(mem, o)
    case 1 => if mem[o + 8] != 0 then info.(cmdline := o + 8) else info
    case 2 => if mem[o + 8] != 0 then info.(bootloader := o + 8) else info
    case 3 => ApplyModule(info, o, U32(mem, o + 4))
    case 6 => ApplyMap(mem, info, o, U32(mem, o + 4))
    case 8 => ApplyFramebuffer(mem, info, o, U32(mem, o + 4))
    case _ => info
  }

  function ApplyModule(info: Info, o: nat, size: nat): Info {
    if size < 16 then info
    else info.(modules := if info.modules == 0 then o else info.modules, modulesCount := info.modulesCount + 1)
  }

  function ApplyMap(mem: seq<Octet>, info: Info, o: nat, size: nat): Info
    requires o + size <= |mem|
  {
    if 16 < size && ENTRY <= U32(mem, o + 8) then
      info.(mmap := o + 16, mmapCount := Quotient(size - 16, U32(mem, o + 8)))
    else info
  }

  function FramebufferAt(mem: seq<Octet>, o: nat): Framebuffer
    requires o + 40 <= |mem|
  {
    var (addr, pitch, width, height) := (U64(mem, o + 8), U32(mem, o + 16), U32(mem, o + 20), U32(mem, o + 24));
    Framebuffer(addr, width, height, pitch, mem[o + 28], 1)
  }

  function ApplyFramebuffer(mem: seq<Octet>, info: Info, o: nat, size: nat): Info
    requires o + size <= |mem|
  {
    if size < 40 then info
    else info.(framebuffer := FramebufferAt(mem, o))
  }

  function ApplyAll(mem: seq<Octet>, total: nat, info: Info, o: nat): Info
    requires total < |mem|
    decreases |mem| - o
  {
    if Accepts(mem, total, o) then ApplyAll(mem, total, Apply(mem, total, info, o), o + Align8(U32(mem, o + 4)))
    else info
  }

  /** parse, on memory of which the information and one byte more is readable:
      the walk looks one byte past a string tag that is all header. */
  method Parse(mem: seq<Octet>) returns (info: Info)
    requires 4 <= |mem| && U32(mem, 0) < |mem|
    ensures info == if U32(mem, 0) < 8 then NOTHING else ApplyAll(mem, U32(mem, 0), NOTHING, 8)
  {
    info := NOTHING;
    var total := U32(mem, 0);
    if total < 8 { return; }
    var cur := 8;
    while cur + HEADER <= total
      invariant ApplyAll(mem, total, info, cur) == ApplyAll(mem, total, NOTHING, 8)
      decreases |mem| - cur
    {
      var kind := U32(mem, cur);
      if kind == 0 { break; }
      var size := U32(mem, cur + 4);
      if size < HEADER { break; }
      if cur + size > total { break; }
      if kind == 1 {
        if mem[cur + 8] != 0 { info := info.(cmdline := cur + 8); }
      } else if kind == 2 {
        if mem[cur + 8] != 0 { info := info.(bootloader := cur + 8); }
      } else if kind == 3 {
        if size >= 16 {
          if info.modules == 0 { info := info.(modules := cur); }
          info := info.(modulesCount := info.modulesCount + 1);
        }
      } else if kind == 6 {
        if size >= 16 {
          var entrySize := U32(mem, cur + 8);
          if entrySize >= ENTRY && cur + 16 < cur + size {
            info := info.(mmap := cur + 16, mmapCount := Quotient(size - 16, entrySize));
          }
        }
      } else if kind == 8 {
        if size >= 40 {
          info := info.(framebuffer := Framebuffer(U64(mem, cur + 8), U32(mem, cur + 20), U32(mem, cur + 24),
                                                   U32(mem, cur + 16), mem[cur + 28], 1));
        }
      }
      cur := cur + Align8(size);
    }
  }

  // ---------------------------------------------------------------------
  // Safety on every tag area.

  /** The tags the walk accepts are aligned, disjoint and inside the area. */
  lemma {:induction false} TagsInside(mem: seq<Octet>, total: nat, o: nat, i: nat)
    requires total < |mem| && o % 8 == 0 && i < |Tags(mem, total, o)|
    ensures TagInside(mem, total, o, Tags(mem, total, o)[i])
    ensures i + 1 < |Tags(mem, total, o)| ==> TagBefore(mem, total, Tags(mem, total, o)[i], Tags(mem, total, o)[i + 1])
    decreases |mem| - o
  {
    var size := U32(mem, o + 4);
    var next := o + Align8(size);
    AlignStep(o, size);
    assert Tags(mem, total, o) == [o] + Tags(mem, total, next);
    if i != 0 {
      TagsInside(mem, total, next, i - 1);
    } else if Tags(mem, total, next) != [] {
      assert Tags(mem, total, next)[0] == next;
    }
  }

  lemma AlignStep(o: nat, n: nat)
    requires o % 8 == 0
    ensures (o + Align8(n)) % 8 == 0 && n <= Align8(n) < n + 8
  {
    Eighths(o, (n + 7) / 8);
    assert Align8(n) == 8 * ((n + 7) / 8);
  }

  lemma Eighths(o: nat, q: nat)
    requires o % 8 == 0
    ensures (o + 8 * q) % 8 == 0
  {
  }

  ghost predicate TagInside(mem: seq<Octet>, total: nat, from: nat, o: nat)
    requires total < |mem|
  {
    && from <= o && o % 8 == 0 && o + 8 <= total
    && U32(mem, o) != 0 && 8 <= U32(mem, o + 4) && o + U32(mem, o + 4) <= total
  }

  /** `p` is the first aligned place behind the tag at `o`. */
  ghost predicate TagBefore(mem: seq<Octet>, total: nat, o: nat, p: nat)
    requires total < |mem|
  {
    o + 8 <= total && p % 8 == 0 && o + U32(mem, o + 4) <= p < o + U32(mem, o + 4) + 8
  }

  /** The place behind the last of the tags, `from` when there is none. */
  ghost predicate Behind(mem: seq<Octet>, total: nat, from: nat, tags: seq<nat>, p: nat)
    requires total < |mem|
  {
    if tags == [] then p == from else TagBefore(mem, total, tags[|tags| - 1], p)
  }

  /** Nothing there is a tag: there is no room for one, it is the end tag, or it
      is smaller than its header or reaches out of the area. */
  ghost predicate NoTag(mem: seq<Octet>, total: nat, p: nat)
    requires total < |mem|
  {
    total < p + 8 || U32(mem, p) == 0 || U32(mem, p + 4) < 8 || total < p + U32(mem, p + 4)
  }

  /** The walk starts with the tag at `o` and stops at the first place behind a
      tag where there is none. */
  lemma {:induction false} WalkStops(mem: seq<Octet>, total: nat, o: nat)
    requires total < |mem| && o % 8 == 0
    ensures Tags(mem, total, o) == [] || Tags(mem, total, o)[0] == o
    ensures exists p :: Behind(mem, total, o, Tags(mem, total, o), p) && NoTag(mem, total, p)
    decreases |mem| - o
  {
    var tags := Tags(mem, total, o);
    if tags == [] {
      assert Behind(mem, total, o, tags, o) && NoTag(mem, total, o);
    } else {
      var next := o + Align8(U32(mem, o + 4));
      AlignStep(o, U32(mem, o + 4));
      WalkStops(mem, total, next);
      var rest := Tags(mem, total, next);
      var p :| Behind(mem, total, next, rest, p) && NoTag(mem, total, p);
      assert tags == [o] + rest;
      assert Behind(mem, total, o, tags, p);
    }
  }

  /** The information is that of the tags walked, one after the other. */
  lemma {:induction false} WalkAppliesTags(mem: seq<Octet>, total: nat, info: Info, o: nat)
    requires total < |mem|
    ensures ApplyAll(mem, total, info, o) == ApplyEach(mem, total, info, Tags(mem, total, o))
    decreases |mem| - o
  {
    if Accepts(mem, total, o) {
      var next := o + Align8(U32(mem, o + 4));
      WalkAppliesTags(mem, total, Apply(mem, total, info, o), next);
      assert ([o] + Tags(mem, total, next))[1..] == Tags(mem, total, next);
    }
  }

  function ApplyEach(mem: seq<Octet>, total: nat, info: Info, tags: seq<nat>): Info
    requires total < |mem|
    decreases tags
  {
    if tags == [] || !Accepts(mem, total, tags[0]) then info
    else ApplyEach(mem, total, Apply(mem, total, info, tags[0]), tags[1..])
  }

  /** The information has no memory map, or one that lies in a tag of the area
      even at the 24-byte stride, with all the whole entries there are. */
  ghost predicate MapInside(mem: seq<Octet>, total: nat, info: Info)
    requires total < |mem|
  {
    (info.mmap == 0 && info.mmapCount == 0) || exists o :: MapOf(mem, total, info, o)
  }

  ghost predicate MapOf(mem: seq<Octet>, total: nat, info: Info, o: nat)
    requires total < |mem|
  {
    && Accepts(mem, total, o) && U32(mem, o) == 6 && 16 <= U32(mem, o + 4) && info.mmap == o + 16
    && ENTRY <= U32(mem, o + 8) && Whole(U32(mem, o + 4) - 16, U32(mem, o + 8), info.mmapCount)
    && info.mmap + ENTRY * info.mmapCount <= o + U32(mem, o + 4) <= total
  }

  /** `count` is how many pieces of a size fit into n. */
  ghost predicate Whole(n: nat, size: nat, count: nat) { size * count <= n < size * (count + 1) }

  lemma CountTimes(n: nat, size: nat)
    requires 0 < size
    ensures Whole(n, size, Quotient(n, size))
  {
    var q := n / size;
    assert q * size + n % size == n;
    assert size * (q + 1) == size * q + size;
  }

  lemma MulSum(a: nat, i: nat, n: nat)
    requires 0 < n
    ensures a * (i + n) == a * i + a * n && a <= a * n
  {
  }

  lemma MulMono(a: nat, b: nat, i: nat)
    requires a <= b
    ensures a * i <= b * i
  {
  }

  lemma MulLess(a: nat, b: nat, size: nat)
    ensures a < b ==> size * a + size <= size * b
  {
    if a < b {
      MulSum(size, a, b - a);
      assert a + (b - a) == b;
    }
  }

  /** There is one such number, k where k pieces fit exactly. */
  lemma WholeIs(n: nat, size: nat, count: nat, k: nat)
    requires 0 < size && Whole(n, size, count) && (n == size * k || Whole(n, size, k))
    ensures count == k
  {
    MulLess(count, k, size);
    MulLess(k, count, size);
    MulSum(size, count, 1);
    MulSum(size, k, 1);
  }

  lemma {:induction false} MapStaysInside(mem: seq<Octet>, total: nat, info: Info, o: nat)
    requires total < |mem| && MapInside(mem, total, info)
    ensures MapInside(mem, total, ApplyAll(mem, total, info, o))
    decreases |mem| - o
  {
    if Accepts(mem, total, o) {
      var info' := Apply(mem, total, info, o);
      assert MapInside(mem, total, info') by {
        if info'.mmap != info.mmap || info'.mmapCount != info.mmapCount {
          CountTimes(U32(mem, o + 4) - 16, U32(mem, o + 8));
          MulMono(ENTRY, U32(mem, o + 8), info'.mmapCount);
          assert MapOf(mem, total, info', o);
        } else if info.mmap != 0 || info.mmapCount != 0 {
          var p :| MapOf(mem, total, info, p);
          assert MapOf(mem, total, info', p);
        }
      }
      MapStaysInside(mem, total, info', o + Align8(U32(mem, o + 4)));
    }
  }

  // ---------------------------------------------------------------------
  // The entries of the memory map.

  function Place(at: nat, step: nat, i: nat): nat { at + step * i }

  ghost predicate Readable(mem: seq<Octet>, at: nat, step: nat, count: nat) {
    forall i: nat {:trigger Place(at, step, i)} :: i < count ==> Place(at, step, i) + ENTRY <= |mem|
  }

  function EntryAt(mem: seq<Octet>, o: nat): PageFrames.Entry
    requires o + ENTRY <= |mem|
  {
    PageFrames.Entry(U64(mem, o), U64(mem, o + 8), U32(mem, o + 16))
  }

  /** `count` entries, `step` bytes apart. */
  function EntriesAt(mem: seq<Octet>, at: nat, step: nat, count: nat): (es: seq<PageFrames.Entry>)
    requires Readable(mem, at, step, count)
    ensures |es| == count && forall i :: 0 <= i < count ==> es[i] == EntryAt(mem, Place(at, step, i))
  {
    seq(count, i requires 0 <= i < count => EntryAt(mem, Place(at, step, i)))
  }

  /** The entry size the map's own tag announces. */
  function Announced(mem: seq<Octet>, info: Info): nat
    requires 8 <= info.mmap <= |mem|
  {
    U32(mem, info.mmap - 8)
  }

  lemma PlaceInside(at: nat, step: nat, count: nat, i: nat, end: nat)
    requires ENTRY <= step && at + step * count <= end && i < count
    ensures Place(at, ENTRY, i) <= Place(at, step, i) && Place(at, step, i) + ENTRY <= end
  {
    MulSum(step, i, count - i);
    MulMono(ENTRY, step, i);
    assert i + (count - i) == count;
  }

  lemma MapReadable(mem: seq<Octet>, total: nat, info: Info, o: nat)
    requires total < |mem| && MapOf(mem, total, info, o)
    ensures Announced(mem, info) == U32(mem, o + 8) >= ENTRY
    ensures Readable(mem[..total], info.mmap, ENTRY, info.mmapCount)
    ensures Readable(mem[..total], info.mmap, Announced(mem, info), info.mmapCount)
  {
    var step := U32(mem, o + 8);
    CountTimes(U32(mem, o + 4) - 16, step);
    forall i: nat | i < info.mmapCount
      ensures Place(info.mmap, ENTRY, i) <= Place(info.mmap, step, i)
      ensures Place(info.mmap, step, i) + ENTRY <= total
    {
      PlaceInside(info.mmap, step, info.mmapCount, i, total);
    }
  }

  /** Whatever the tag area: all entries pfa::init reads at 24 bytes, and all
      those the tag announces, are inside it, and each field read has its width;
      they are as many as fit into the tag. */
  lemma EntriesReadable(mem: seq<Octet>)
    requires 4 <= |mem| && 8 <= U32(mem, 0) < |mem|
    ensures var (info, area) := (ApplyAll(mem, U32(mem, 0), NOTHING, 8), mem[..U32(mem, 0)]);
      info.mmapCount != 0 ==>
        && 8 <= info.mmap <= |mem| && ENTRY <= Announced(mem, info)
        && Readable(area, info.mmap, ENTRY, info.mmapCount)
        && Readable(area, info.mmap, Announced(mem, info), info.mmapCount)
        && PageFrames.Entries64(EntriesAt(area, info.mmap, ENTRY, info.mmapCount))
    ensures var info := ApplyAll(mem, U32(mem, 0), NOTHING, 8);
      if info.mmap == 0 then info.mmapCount == 0 else exists o :: MapOf(mem, U32(mem, 0), info, o)
  {
    var total := U32(mem, 0);
    MapStaysInside(mem, total, NOTHING, 8);
    var info := ApplyAll(mem, total, NOTHING, 8);
    if info.mmapCount != 0 {
      var o :| MapOf(mem, total, info, o);
      MapReadable(mem, total, info, o);
    }
  }

  /** pfa::init looks for the entries where the tag says they are exactly when
      the announced size is 24 or there is at most one entry; then what it reads
      is what the tag announces. */
  lemma StrideAgrees(mem: seq<Octet>)
    requires 4 <= |mem| && 8 <= U32(mem, 0) < |mem|
    ensures var (info, area) := (ApplyAll(mem, U32(mem, 0), NOTHING, 8), mem[..U32(mem, 0)]);
      var (at, count) := (info.mmap, info.mmapCount);
      count != 0 ==>
        && 8 <= at <= |mem| && Readable(area, at, ENTRY, count) && Readable(area, at, Announced(mem, info), count)
        && var agrees := Announced(mem, info) == ENTRY || count <= 1;
        && (agrees <==> forall i: nat :: i < count ==> Place(at, ENTRY, i) == Place(at, Announced(mem, info), i))
        && (agrees ==> EntriesAt(area, at, ENTRY, count) == EntriesAt(area, at, Announced(mem, info), count))
  {
    EntriesReadable(mem);
    var info := ApplyAll(mem, U32(mem, 0), NOTHING, 8);
    if info.mmapCount != 0 {
      SamePlaces(info.mmap, Announced(mem, info), info.mmapCount);
    }
  }

  lemma SamePlaces(at: nat, step: nat, count: nat)
    requires ENTRY <= step
    ensures (forall i: nat :: i < count ==> Place(at, ENTRY, i) == Place(at, step, i)) <==> step == ENTRY || count <= 1
  {
    assert Place(at, ENTRY, 1) == at + ENTRY && Place(at, step, 1) == at + step;
    assert Place(at, ENTRY, 0) == Place(at, step, 0);
    if count <= 1 {
      forall i: nat | i < count ensures Place(at, ENTRY, i) == Place(at, step, i) { assert i == 0; }
    }
  }

  // ---------------------------------------------------------------------
  // Well-formed information (section 3.6 of the Multiboot2 Specification).

  datatype Tag = Tag(kind: nat, payload: seq<Octet>)

  function Size(t: Tag): nat { HEADER + |t.payload| }

  /** Widths fit, no early end tag, strings carry at least their terminator. */
  predicate WellFormed(t: Tag) {
    && 0 < t.kind < 0x1_0000_0000 && Size(t) < 0x1_0000_0000
    && (t.kind == 1 || t.kind == 2 ==> t.payload != [])
  }

  predicate AllWellFormed(ts: seq<Tag>) { forall i :: 0 <= i < |ts| ==> WellFormed(ts[i]) }

  function LE(v: nat): (r: seq<Octet>)
    ensures |r| == 4
  {
    var (q1, q2, q3) := (v / 256, v / 256 / 256, v / 256 / 256 / 256);
    [v % 256, q1 % 256, q2 % 256, q3 % 256]
  }

  function Zeros(n: nat): (r: seq<Octet>)
    ensures |r| == n
  {
    seq(n, _ => 0)
  }

  function EncodeTag(t: Tag): seq<Octet> {
    LE(t.kind) + LE(Size(t)) + t.payload + Zeros(Align8(Size(t)) - Size(t))
  }

  function EncodeTags(ts: seq<Tag>): seq<Octet> {
    if ts == [] then LE(0) + LE(8) else EncodeTag(ts[0]) + EncodeTags(ts[1..])
  }

  function EncodeInfo(ts: seq<Tag>): seq<Octet> {
    LE(8 + |EncodeTags(ts)|) + LE(0) + EncodeTags(ts)
  }

  /** The offset of tag `i` when the first is at `o`. */
  function TagOffset(ts: seq<Tag>, i: nat, o: nat): nat
    requires i <= |ts|
  {
    if i == 0 then o else TagOffset(ts[1..], i - 1, o + Align8(Size(ts[0])))
  }

  ghost predicate TagAt(mem: seq<Octet>, total: nat, t: Tag, o: nat)
    requires total < |mem|
  {
    && o + Size(t) <= total && U32(mem, o) == t.kind && U32(mem, o + 4) == Size(t)
    && mem[o + HEADER..o + Size(t)] == t.payload
  }

  /** The tag area from `o` on holds the tags and the end tag. */
  ghost predicate Holds(mem: seq<Octet>, total: nat, ts: seq<Tag>, o: nat)
    requires total < |mem|
    decreases ts
  {
    if ts == [] then o + HEADER <= total && U32(mem, o) == 0
    else TagAt(mem, total, ts[0], o) && Holds(mem, total, ts[1..], o + Align8(Size(ts[0])))
  }

  lemma U32OfLE(v: nat, a: seq<Octet>, b: seq<Octet>)
    requires v < 0x1_0000_0000
    ensures U32(a + LE(v) + b, |a|) == v
  {
  }

  /** Five parts in a row: the second and third are numbers, the fourth a payload. */
  lemma PartsAt(pre: seq<Octet>, kind: nat, size: nat, p: seq<Octet>, post: seq<Octet>)
    requires kind < 0x1_0000_0000 && size < 0x1_0000_0000
    ensures var mem := pre + LE(kind) + LE(size) + p + post;
      && U32(mem, |pre|) == kind && U32(mem, |pre| + 4) == size
      && mem[|pre| + HEADER..|pre| + HEADER + |p|] == p
  {
    var mem := pre + LE(kind) + LE(size) + p + post;
    U32OfLE(kind, pre, LE(size) + p + post);
    assert mem == pre + LE(kind) + (LE(size) + p + post);
    U32OfLE(size, pre + LE(kind), p + post);
    assert mem == (pre + LE(kind)) + LE(size) + (p + post);
  }

  lemma TagEncodedAt(pre: seq<Octet>, t: Tag, rest: seq<Octet>, total: nat)
    requires WellFormed(t) && |pre| + |EncodeTag(t)| <= total < |pre + EncodeTag(t) + rest|
    ensures TagAt(pre + EncodeTag(t) + rest, total, t, |pre|)
  {
    var zs := Zeros(Align8(Size(t)) - Size(t));
    PartsAt(pre, t.kind, Size(t), t.payload, zs + rest);
    assert pre + EncodeTag(t) + rest == pre + LE(t.kind) + LE(Size(t)) + t.payload + (zs + rest);
  }

  lemma HoldsCons(mem: seq<Octet>, total: nat, ts: seq<Tag>, o: nat)
    requires total < |mem| && ts != []
    requires TagAt(mem, total, ts[0], o) && Holds(mem, total, ts[1..], o + |EncodeTag(ts[0])|)
    ensures Holds(mem, total, ts, o)
  {
  }

  lemma EncodedFirst(pre: seq<Octet>, t: Tag, more: seq<Octet>, rest: seq<Octet>)
    requires WellFormed(t) && rest != []
    ensures TagAt(pre + EncodeTag(t) + more + rest, |pre + EncodeTag(t) + more|, t, |pre|)
  {
    var e := EncodeTag(t);
    TagEncodedAt(pre, t, more + rest, |pre + e + more|);
    Regroup(pre + e, more, rest);
  }

  lemma EncodedEnd(pre: seq<Octet>, rest: seq<Octet>)
    requires rest != []
    ensures Holds(pre + EncodeTags([]) + rest, |pre + EncodeTags([])|, [], |pre|)
  {
  }

  lemma EncodedCons(pre: seq<Octet>, ts: seq<Tag>, more: seq<Octet>, rest: seq<Octet>)
    requires ts != [] && WellFormed(ts[0]) && rest != []
    requires var e := EncodeTag(ts[0]); Holds(pre + e + more + rest, |pre + e + more|, ts[1..], |pre + e|)
    ensures var e := EncodeTag(ts[0]); Holds(pre + e + more + rest, |pre + e + more|, ts, |pre|)
  {
    EncodedFirst(pre, ts[0], more, rest);
    HoldsCons(pre + EncodeTag(ts[0]) + more + rest, |pre + EncodeTag(ts[0]) + more|, ts, |pre|);
  }

  lemma {:induction false} EncodedHolds(pre: seq<Octet>, ts: seq<Tag>, rest: seq<Octet>)
    requires AllWellFormed(ts) && rest != []
    ensures Holds(pre + EncodeTags(ts) + rest, |pre + EncodeTags(ts)|, ts, |pre|)
    decreases ts
  {
    if ts == [] {
      EncodedEnd(pre, rest);
    } else {
      var e, more := EncodeTag(ts[0]), EncodeTags(ts[1..]);
      EncodedHolds(pre + e, ts[1..], rest);
      EncodedCons(pre, ts, more, rest);
      assert EncodeTags(ts) == e + more;
      Regroup(pre, e, more);
    }
  }

  predicate IsText(t: Tag, kind: nat) { t.kind == kind && t.payload != [] && t.payload[0] != 0 }

  predicate IsModule(t: Tag) { t.kind == 3 && 8 <= |t.payload| }

  predicate IsMap(t: Tag) { t.kind == 6 && 8 < |t.payload| && ENTRY <= U32(t.payload, 0) }

  predicate IsFramebuffer(t: Tag) { t.kind == 8 && 32 <= |t.payload| }

  function Modules(ts: seq<Tag>): nat {
    if ts == [] then 0 else (if IsModule(ts[0]) then 1 else 0) + Modules(ts[1..])
  }

  /** What the specification of each tag says it contributes, from its payload
      and its place alone. */
  function Effect(info: Info, t: Tag, o: nat): Info {
    if IsText(t, 1) then info.(cmdline := o + 8)
    else if IsText(t, 2) then info.(bootloader := o + 8)
    else if IsModule(t) then info.(modules := if info.modules == 0 then o else info.modules,
                                   modulesCount := info.modulesCount + 1)
    else if IsMap(t) then info.(mmap := o + 16, mmapCount := EntryCount(t))
    else if IsFramebuffer(t) then info.(framebuffer := FramebufferOf(t.payload))
    else info
  }

  function EntryCount(t: Tag): nat
    requires IsMap(t)
  {
    Quotient(|t.payload| - 8, U32(t.payload, 0))
  }

  function FramebufferOf(p: seq<Octet>): Framebuffer
    requires 32 <= |p|
  {
    Framebuffer(U64(p, 0), U32(p, 12), U32(p, 16), U32(p, 8), p[20], 1)
  }

  function EffectAll(info: Info, ts: seq<Tag>, o: nat): Info
    decreases ts
  {
    if ts == [] then info else EffectAll(Effect(info, ts[0], o), ts[1..], o + Align8(Size(ts[0])))
  }

  /** One held tag is accepted and applied as what it is. */
  lemma AppliedTag(mem: seq<Octet>, total: nat, t: Tag, info: Info, o: nat)
    requires total < |mem| && WellFormed(t) && TagAt(mem, total, t, o)
    ensures Accepts(mem, total, o) && Apply(mem, total, info, o) == Effect(info, t, o)
  {
  }

  /** So the walk over the bytes computes what the tags mean. */
  lemma {:induction false} AppliedAll(mem: seq<Octet>, total: nat, ts: seq<Tag>, info: Info, o: nat)
    requires total < |mem| && AllWellFormed(ts) && Holds(mem, total, ts, o)
    ensures ApplyAll(mem, total, info, o) == EffectAll(info, ts, o)
    decreases ts
  {
    if ts != [] {
      AppliedTag(mem, total, ts[0], info, o);
      AppliedAll(mem, total, ts[1..], Effect(info, ts[0], o), o + Align8(Size(ts[0])));
    }
  }

  lemma {:induction false} CountsModules(info: Info, ts: seq<Tag>, o: nat)
    ensures EffectAll(info, ts, o).modulesCount == info.modulesCount + Modules(ts)
    decreases ts
  {
    if ts != [] { CountsModules(Effect(info, ts[0], o), ts[1..], o + Align8(Size(ts[0]))); }
  }

  /** `first` is the first module, |ts| if there is none. */
  ghost predicate FirstModule(ts: seq<Tag>, first: nat) {
    && first <= |ts| && (first < |ts| ==> IsModule(ts[first]))
    && forall j :: 0 <= j < first ==> !IsModule(ts[j])
  }

  lemma {:induction false} FindsFirstModule(info: Info, ts: seq<Tag>, o: nat, first: nat)
    requires (info.modules != 0 || FirstModule(ts, first)) && 0 < o
    ensures EffectAll(info, ts, o).modules ==
      if info.modules != 0 then info.modules else if first == |ts| then 0 else TagOffset(ts, first, o)
    decreases ts
  {
    if ts != [] {
      assert forall j :: 0 <= j < |ts[1..]| ==> ts[1..][j] == ts[j + 1];
      FindsFirstModule(Effect(info, ts[0], o), ts[1..], o + Align8(Size(ts[0])), if first == 0 then 0 else first - 1);
    }
  }

  /** `last` is the last tag of a kind, |ts| if there is none. */
  ghost predicate LastSuch(ts: seq<Tag>, such: Tag -> bool, last: nat) {
    && last <= |ts| && (last < |ts| ==> such(ts[last]))
    && forall j :: 0 <= j < |ts| && (last == |ts| || last < j) ==> !such(ts[j])
  }

  /** A part of the information that exactly such tags set. */
  ghost predicate SetBy<V(!new)>(get: Info -> V, such: Tag -> bool, value: (Tag, nat) -> V) {
    forall info: Info, t: Tag, o: nat :: get(Effect(info, t, o)) == if such(t) then value(t, o) else get(info)
  }

  /** Such a part ends with the value of the last such tag. */
  lemma {:induction false} FindsLast<V(!new)>(info: Info, ts: seq<Tag>, o: nat, get: Info -> V, such: Tag -> bool,
                                              value: (Tag, nat) -> V, last: nat)
    requires SetBy(get, such, value) && LastSuch(ts, such, last)
    ensures get(EffectAll(info, ts, o)) == if last == |ts| then get(info) else value(ts[last], TagOffset(ts, last, o))
    decreases ts
  {
    if ts != [] {
      var rest := ts[1..];
      var last' := if last == 0 then |rest| else last - 1;
      assert forall j :: 0 <= j < |rest| ==> rest[j] == ts[j + 1];
      FindsLast(Effect(info, ts[0], o), rest, o + Align8(Size(ts[0])), get, such, value, last');
    }
  }

  function Entries(t: Tag, o: nat): (nat, nat) { if IsMap(t) then (o + 16, EntryCount(t)) else (0, 0) }

  function Screen(t: Tag): Framebuffer {
    if IsFramebuffer(t) then FramebufferOf(t.payload) else NOTHING.framebuffer
  }

  lemma {:induction false} HeldPayload(mem: seq<Octet>, total: nat, ts: seq<Tag>, o: nat, i: nat)
    requires total < |mem| && Holds(mem, total, ts, o) && i < |ts|
    ensures TagAt(mem, total, ts[i], TagOffset(ts, i, o))
    decreases ts
  {
    if i != 0 { HeldPayload(mem, total, ts[1..], o + Align8(Size(ts[0])), i - 1); }
  }

  /** The string at `at` is the payload of tag `last`; null when there is none. */
  ghost predicate TextRecovered(mem: seq<Octet>, total: nat, ts: seq<Tag>, at: nat, last: nat) {
    && total <= |mem| && (at == 0 <==> |ts| <= last)
    && (last < |ts| ==> var n := |ts[last].payload|; at + n <= total && mem[at..at + n] == ts[last].payload)
  }

  /** The entries at `at` are those of tag `last`, as many as it has whole ones. */
  ghost predicate MapRecovered(mem: seq<Octet>, total: nat, ts: seq<Tag>, at: nat, count: nat, last: nat)
    requires last < |ts| ==> IsMap(ts[last])
  {
    && total <= |mem| && (at == 0 <==> |ts| <= last)
    && (last < |ts| ==> var p := ts[last].payload;
        && Whole(|p| - 8, U32(p, 0), count)
        && at + |p| - 8 <= total && mem[at..at + |p| - 8] == p[8..])
  }

  lemma RecoversText(mem: seq<Octet>, total: nat, ts: seq<Tag>, kind: nat, last: nat)
    requires total < |mem| && Holds(mem, total, ts, 8) && LastSuch(ts, t => IsText(t, kind), last)
    requires kind == 1 || kind == 2
    ensures var info := EffectAll(NOTHING, ts, 8);
      TextRecovered(mem, total, ts, if kind == 1 then info.cmdline else info.bootloader, last)
  {
    var get := (info: Info) => if kind == 1 then info.cmdline else info.bootloader;
    var value := (t: Tag, o: nat) => o + 8;
    var such := (t: Tag) => IsText(t, kind);
    assert LastSuch(ts, such, last);
    FindsLast(NOTHING, ts, 8, get, such, value, last);
    if last < |ts| { HeldPayload(mem, total, ts, 8, last); }
  }

  lemma RecoversMap(mem: seq<Octet>, total: nat, ts: seq<Tag>, last: nat)
    requires total < |mem| && Holds(mem, total, ts, 8) && LastSuch(ts, IsMap, last)
    ensures var info := EffectAll(NOTHING, ts, 8); MapRecovered(mem, total, ts, info.mmap, info.mmapCount, last)
  {
    FindsLast(NOTHING, ts, 8, (info: Info) => (info.mmap, info.mmapCount), IsMap, Entries, last);
    if last < |ts| {
      HeldPayload(mem, total, ts, 8, last);
      CountTimes(|ts[last].payload| - 8, U32(ts[last].payload, 0));
      var o := TagOffset(ts, last, 8);
      assert mem[o + 16..o + Size(ts[last])] == mem[o + HEADER..o + Size(ts[last])][8..];
    }
  }

  lemma RecoversScreen(ts: seq<Tag>, last: nat)
    requires LastSuch(ts, IsFramebuffer, last)
    ensures EffectAll(NOTHING, ts, 8).framebuffer
      == if last == |ts| then NOTHING.framebuffer else FramebufferOf(ts[last].payload)
  {
    FindsLast(NOTHING, ts, 8, (info: Info) => info.framebuffer, IsFramebuffer, (t, o) => Screen(t), last);
  }

  lemma EncodedInfoHolds(ts: seq<Tag>, rest: seq<Octet>)
    requires AllWellFormed(ts) && rest != [] && |EncodeInfo(ts)| < 0x1_0000_0000
    ensures |EncodeInfo(ts)| >= 8 && U32(EncodeInfo(ts) + rest, 0) == |EncodeInfo(ts)|
    ensures Holds(EncodeInfo(ts) + rest, |EncodeInfo(ts)|, ts, 8)
  {
    var total, tags := |EncodeInfo(ts)|, EncodeTags(ts);
    var pre := LE(total) + LE(0);
    assert EncodeInfo(ts) + rest == [] + LE(total) + (LE(0) + tags + rest);
    U32OfLE(total, [], LE(0) + tags + rest);
    EncodedHolds(pre, ts, rest);
  }

  /** On the encoding of any well-formed tag list parse recovers the last
      non-empty command line and boot loader name, the last valid memory map, the
      last framebuffer, the first module and the number of modules. */
  lemma ParseRecovers(ts: seq<Tag>, rest: seq<Octet>, line: nat, loader: nat, memory: nat, screen: nat, first: nat)
    requires AllWellFormed(ts) && rest != [] && |EncodeInfo(ts)| < 0x1_0000_0000
    requires LastSuch(ts, t => IsText(t, 1), line) && LastSuch(ts, t => IsText(t, 2), loader)
    requires LastSuch(ts, IsMap, memory) && LastSuch(ts, IsFramebuffer, screen) && FirstModule(ts, first)
    ensures var (mem, total) := (EncodeInfo(ts) + rest, |EncodeInfo(ts)|);
      && U32(mem, 0) == total >= 8
      && var info := ApplyAll(mem, total, NOTHING, 8);
      && TextRecovered(mem, total, ts, info.cmdline, line)
      && TextRecovered(mem, total, ts, info.bootloader, loader)
      && MapRecovered(mem, total, ts, info.mmap, info.mmapCount, memory)
      && info.framebuffer == (if screen == |ts| then NOTHING.framebuffer else FramebufferOf(ts[screen].payload))
      && info.modules == (if first == |ts| then 0 else TagOffset(ts, first, 8))
      && info.modulesCount == Modules(ts)
  {
    var mem, total := EncodeInfo(ts) + rest, |EncodeInfo(ts)|;
    EncodedInfoHolds(ts, rest);
    AppliedAll(mem, total, ts, NOTHING, 8);
    RecoversText(mem, total, ts, 1, line);
    RecoversText(mem, total, ts, 2, loader);
    RecoversMap(mem, total, ts, memory);
    RecoversScreen(ts, screen);
    FindsFirstModule(NOTHING, ts, 8, first);
    CountsModules(NOTHING, ts, 8);
  }

  // ---------------------------------------------------------------------
  // Encoded memory maps and framebuffers.

  function LE64(v: nat): (r: seq<Octet>)
    ensures |r| == 8
  {
    LE(v % 0x1_0000_0000) + LE(v / 0x1_0000_0000)
  }

  function EncodeEntry(e: PageFrames.Entry): (r: seq<Octet>)
    ensures |r| == ENTRY
  {
    LE64(e.addr) + LE64(e.len) + LE(e.kind) + LE(0)
  }

  function EncodeEntries(es: seq<PageFrames.Entry>): (r: seq<Octet>)
    ensures |r| == ENTRY * |es|
  {
    if es == [] then [] else EncodeEntry(es[0]) + EncodeEntries(es[1..])
  }

  predicate EntryFits(e: PageFrames.Entry) { e.addr < W64 && e.len < W64 && e.kind < 0x1_0000_0000 }

  /** Fields are little-endian. */
  lemma FieldIs(mem: seq<Octet>, o: nat)
    ensures o + 4 <= |mem| ==> U32(mem, o) == ToNat(mem[o..o + 4])
    ensures o + 8 <= |mem| ==> U64(mem, o) == ToNat(mem[o..o + 8])
  {
    if o + 4 <= |mem| { FourDigits(mem, o); }
    if o + 8 <= |mem| {
      FourDigits(mem, o);
      FourDigits(mem, o + 4);
      ToNatAppend(mem[o..o + 4], mem[o + 4..o + 8]);
      assert mem[o..o + 4] + mem[o + 4..o + 8] == mem[o..o + 8];
      assert Pow256(4) == 0x1_0000_0000;
    }
  }

  lemma FourDigits(mem: seq<Octet>, o: nat)
    requires o + 4 <= |mem|
    ensures ToNat(mem[o..o + 4]) == U32(mem, o)
  {
    var b := mem[o..o + 4];
    assert b[1..][1..] == b[2..] && b[2..][1..] == b[3..] && b[3..][1..] == [];
    assert b[0] == mem[o] && b[1..][0] == mem[o + 1] && b[2..][0] == mem[o + 2] && b[3..][0] == mem[o + 3];
    assert ToNat(b[3..]) == mem[o + 3];
    assert ToNat(b[2..]) == mem[o + 2] + 256 * ToNat(b[3..]);
    assert ToNat(b[1..]) == mem[o + 1] + 256 * ToNat(b[2..]);
  }

  lemma U64OfLE(v: nat, a: seq<Octet>, b: seq<Octet>)
    requires v < W64
    ensures U64(a + LE64(v) + b, |a|) == v
  {
    var (lo, hi) := (v % 0x1_0000_0000, v / 0x1_0000_0000);
    U32OfLE(lo, a, LE(hi) + b);
    assert a + LE64(v) + b == a + LE(lo) + (LE(hi) + b);
    U32OfLE(hi, a + LE(lo), b);
    assert a + LE64(v) + b == (a + LE(lo)) + LE(hi) + b;
  }

  /** An encoded entry reads back. */
  lemma EntryReadsBack(pre: seq<Octet>, e: PageFrames.Entry, rest: seq<Octet>)
    requires EntryFits(e)
    ensures EntryAt(pre + EncodeEntry(e) + rest, |pre|) == e
  {
    var mem, x, y, z := pre + EncodeEntry(e) + rest, LE64(e.addr), LE64(e.len), LE(e.kind);
    U64OfLE(e.addr, pre, y + z + LE(0) + rest);
    assert mem == pre + x + (y + z + LE(0) + rest);
    U64OfLE(e.len, pre + x, z + LE(0) + rest);
    assert mem == (pre + x) + y + (z + LE(0) + rest);
    U32OfLE(e.kind, pre + x + y, LE(0) + rest);
    assert mem == (pre + x + y) + z + (LE(0) + rest);
  }

  ghost predicate Reads(mem: seq<Octet>, o: nat, e: PageFrames.Entry) { o + ENTRY <= |mem| && EntryAt(mem, o) == e }

  lemma {:induction false} EntriesReadBack(mem: seq<Octet>, pre: seq<Octet>, es: seq<PageFrames.Entry>,
                                           rest: seq<Octet>, i: nat)
    requires mem == pre + EncodeEntries(es) + rest && i < |es| && forall e :: e in es ==> EntryFits(e)
    ensures Reads(mem, Place(|pre|, ENTRY, i), es[i])
    decreases es
  {
    var e, more := EncodeEntry(es[0]), EncodeEntries(es[1..]);
    Regroup(pre, e, more);
    if i == 0 {
      EntryReadsBack(pre, es[0], more + rest);
      Regroup(pre + e, more, rest);
    } else {
      assert forall x :: x in es[1..] ==> x in es;
      EntriesReadBack(mem, pre + e, es[1..], rest, i - 1);
      assert Place(|pre + e|, ENTRY, i - 1) == Place(|pre|, ENTRY, i);
    }
  }

  lemma EntriesPlaced(mem: seq<Octet>, at: nat, es: seq<PageFrames.Entry>)
    requires forall i: nat :: i < |es| ==> Reads(mem, Place(at, ENTRY, i), es[i])
    ensures Readable(mem, at, ENTRY, |es|) && EntriesAt(mem, at, ENTRY, |es|) == es
  {
  }

  lemma EntriesInside(mem: seq<Octet>, at: nat, end: nat, es: seq<PageFrames.Entry>)
    requires at <= end <= |mem| && mem[at..end] == EncodeEntries(es) && forall e :: e in es ==> EntryFits(e)
    ensures Readable(mem, at, ENTRY, |es|) && EntriesAt(mem, at, ENTRY, |es|) == es
  {
    Cut(mem, at, end);
    forall i: nat | i < |es| ensures Reads(mem, Place(at, ENTRY, i), es[i]) {
      EntriesReadBack(mem, mem[..at], es, mem[end..], i);
    }
    EntriesPlaced(mem, at, es);
  }

  /** The memory-map tag of the entries. */
  function MapTag(es: seq<PageFrames.Entry>): Tag { Tag(6, LE(ENTRY) + LE(0) + EncodeEntries(es)) }

  lemma MapHeader(es: seq<PageFrames.Entry>)
    ensures var p := MapTag(es).payload; U32(p, 0) == ENTRY && p[8..] == EncodeEntries(es)
  {
    U32OfLE(ENTRY, [], LE(0) + EncodeEntries(es));
    assert MapTag(es).payload == [] + LE(ENTRY) + (LE(0) + EncodeEntries(es));
  }

  lemma RecoveredReads(mem: seq<Octet>, total: nat, ts: seq<Tag>, at: nat, count: nat, last: nat,
                       es: seq<PageFrames.Entry>)
    requires last < |ts| && IsMap(ts[last]) && ts[last] == MapTag(es) && MapRecovered(mem, total, ts, at, count, last)
    requires forall e :: e in es ==> EntryFits(e)
    ensures count == |es|
    ensures Readable(mem[..total], at, ENTRY, |es|) && EntriesAt(mem[..total], at, ENTRY, |es|) == es
  {
    var p := ts[last].payload;
    MapHeader(es);
    WholeIs(|p| - 8, ENTRY, count, |es|);
    assert mem[..total][at..at + |p| - 8] == mem[at..at + |p| - 8];
    EntriesInside(mem[..total], at, at + |p| - 8, es);
  }

  /** k entries of the announced size are counted as k. */
  lemma RecoveredCount(mem: seq<Octet>, total: nat, ts: seq<Tag>, at: nat, count: nat, last: nat, k: nat)
    requires last < |ts| && IsMap(ts[last]) && MapRecovered(mem, total, ts, at, count, last)
    requires |ts[last].payload| == 8 + U32(ts[last].payload, 0) * k
    ensures count == k
  {
    WholeIs(|ts[last].payload| - 8, U32(ts[last].payload, 0), count, k);
  }

  /** Whatever well-formed tags there are: if the last valid memory map encodes the
      entries es, pfa::init reads exactly them. */
  lemma MapReadsBack(ts: seq<Tag>, rest: seq<Octet>, memory: nat, es: seq<PageFrames.Entry>)
    requires AllWellFormed(ts) && rest != [] && |EncodeInfo(ts)| < 0x1_0000_0000
    requires LastSuch(ts, IsMap, memory) && memory < |ts| && ts[memory] == MapTag(es)
    requires forall e :: e in es ==> EntryFits(e)
    ensures var (mem, total) := (EncodeInfo(ts) + rest, |EncodeInfo(ts)|);
      && U32(mem, 0) == total >= 8
      && var info := ApplyAll(mem, total, NOTHING, 8);
      && info.mmapCount == |es|
      && Readable(mem[..total], info.mmap, ENTRY, |es|) && EntriesAt(mem[..total], info.mmap, ENTRY, |es|) == es
  {
    var mem, total := EncodeInfo(ts) + rest, |EncodeInfo(ts)|;
    EncodedInfoHolds(ts, rest);
    AppliedAll(mem, total, ts, NOTHING, 8);
    RecoversMap(mem, total, ts, memory);
    var info := ApplyAll(mem, total, NOTHING, 8);
    RecoveredReads(mem, total, ts, info.mmap, info.mmapCount, memory, es);
  }

  /** The fields of an encoded framebuffer read back. */
  lemma FramebufferReadsBack(b: Framebuffer, bits: Octet, rest: seq<Octet>)
    requires b.addr < W64 && b.pitch < 0x1_0000_0000 && b.width < 0x1_0000_0000 && b.height < 0x1_0000_0000
    requires b.bpp == bits && b.kind == 1 && 11 <= |rest|
    ensures FramebufferOf(LE64(b.addr) + LE(b.pitch) + LE(b.width) + LE(b.height) + [bits] + rest) == b
  {
    var x, y, z, u, v := LE64(b.addr), LE(b.pitch), LE(b.width), LE(b.height), [bits];
    var p := x + y + z + u + v + rest;
    U64OfLE(b.addr, [], y + z + u + v + rest);
    assert p == [] + x + (y + z + u + v + rest);
    U32OfLE(b.pitch, x, z + u + v + rest);
    assert p == x + y + (z + u + v + rest);
    U32OfLE(b.width, x + y, u + v + rest);
    assert p == (x + y) + z + (u + v + rest);
    U32OfLE(b.height, x + y + z, v + rest);
    assert p == (x + y + z) + u + (v + rest);
  }

  // A map of two 32-byte entries, the second at address 1.

  const WIDE: Tag := Tag(6, LE(32) + LE(0) + Zeros(32) + [1] + Zeros(31))

  lemma WideTag()
    ensures AllWellFormed([WIDE]) && IsMap(WIDE) && EntryCount(WIDE) == 2 && U32(WIDE.payload, 0) == 32
  {
    U32OfLE(32, [], LE(0) + Zeros(32) + [1] + Zeros(31));
    assert WIDE.payload == [] + LE(32) + (LE(0) + Zeros(32) + [1] + Zeros(31));
  }

  lemma WideEntries(mem: seq<Octet>)
    requires 88 <= |mem| && mem[16..88] == WIDE.payload
    ensures U32(mem, 16) == 32
    ensures EntryAt(mem, 48) == PageFrames.Entry(0, 1, 0) && EntryAt(mem, 56) == PageFrames.Entry(1, 0, 0)
  {
    var p := WIDE.payload;
    assert forall k :: 16 <= k < 88 ==> mem[k] == p[k - 16];
    assert forall k :: 8 <= k < 72 ==> p[k] == if k == 40 then 1 else 0;
    assert LE(32) == [32, 0, 0, 0];
  }

  /** On it the second entry pfa::init reads is not the second one announced. */
  lemma StrideDiffers()
    ensures var mem := EncodeInfo([WIDE]) + [0];
      && 4 <= |mem| && 8 <= U32(mem, 0) < |mem|
      && var (info, area) := (ApplyAll(mem, U32(mem, 0), NOTHING, 8), mem[..U32(mem, 0)]);
      && info.mmapCount == 2 && 8 <= info.mmap <= |mem| && Announced(mem, info) == 32
      && Readable(area, info.mmap, ENTRY, 2) && Readable(area, info.mmap, 32, 2)
      && EntriesAt(area, info.mmap, 32, 2)[1] == PageFrames.Entry(1, 0, 0)
      && EntriesAt(area, info.mmap, ENTRY, 2)[1] == PageFrames.Entry(0, 1, 0)
  {
    WideTag();
    var ts, mem := [WIDE], EncodeInfo([WIDE]) + [0];
    WideLength();
    EncodedInfoHolds(ts, [0]);
    var total := U32(mem, 0);
    assert TagAt(mem, total, WIDE, 8);
    AppliedAll(mem, total, ts, NOTHING, 8);
    assert EffectAll(NOTHING, ts, 8) == Effect(NOTHING, WIDE, 8);
    EntriesReadable(mem);
    WideEntries(mem[..total]);
    assert mem[..total][16..88] == mem[16..88];
  }

  lemma WideLength()
    ensures |EncodeInfo([WIDE])| == 96
  {
    assert EncodeTags([WIDE]) == EncodeTag(WIDE) + EncodeTags([]);
  }
}
