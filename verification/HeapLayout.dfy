// How a heap state lies in memory: size words, footers and free-list links.
module HeapLayout {
  import opened HeapModel
  import opened HeapTheorems

  ghost predicate SizeWords(w: seq<nat>, b: Tiling, s: nat)
    requires s in b
  {
    var n := b[s].size;
    && 0 < n && s + n <= |w|
    && w[s] == 8 * n + (if b[s].used then 1 else 0)
    && w[s + n - 1] == 8 * n
  }

  /** Every block starts with its size and flag and ends with its size. */
  ghost predicate Sizes(w: seq<nat>, b: Tiling) {
    forall s {:trigger SizeWords(w, b, s)} :: s in b ==> SizeWords(w, b, s)
  }

  /** The address of entry `i` of the free list, null outside it. */
  function PtrAt(base: nat, fl: seq<nat>, i: int): nat {
    if 0 <= i < |fl| then base + 8 * fl[i] else 0
  }

  ghost predicate LinkWords(w: seq<nat>, base: nat, fl: seq<nat>, i: nat)
    requires i < |fl|
  {
    && fl[i] + 2 < |w|
    && w[fl[i] + 1] == PtrAt(base, fl, i + 1)
    && w[fl[i] + 2] == PtrAt(base, fl, i - 1)
  }

  /** The in-place doubly linked list is `fl`. */
  ghost predicate Links(w: seq<nat>, base: nat, head: nat, fl: seq<nat>) {
    && head == PtrAt(base, fl, 0)
    && forall i {:trigger LinkWords(w, base, fl, i)} :: 0 <= i < |fl| ==> LinkWords(w, base, fl, i)
  }

  ghost predicate Apart(s: nat, t: nat) { s + MIN_BLOCK <= t || t + MIN_BLOCK <= s }

  ghost predicate Spaced(fl: seq<nat>) {
    forall i, j {:trigger Apart(fl[i], fl[j])} :: 0 <= i < |fl| && 0 <= j < |fl| && i != j ==> Apart(fl[i], fl[j])
  }

  ghost predicate LinkCell(fl: seq<nat>, c: nat) {
    exists i :: 0 <= i < |fl| && (c == fl[i] + 1 || c == fl[i] + 2)
  }

  ghost predicate Blocks(b: Tiling, fl: seq<nat>) { forall s :: s in fl ==> s in b }

  lemma ListSpaced(n: nat, b: Tiling, fl: seq<nat>)
    requires Tiles(n, b) && Blocks(b, fl) && Distinct(fl)
    ensures Spaced(fl)
  {
    forall i, j {:trigger Apart(fl[i], fl[j])} | 0 <= i < |fl| && 0 <= j < |fl| && i != j
      ensures Apart(fl[i], fl[j])
    {
      assert fl[i] in fl && fl[j] in fl;
      assert Fits(n, b, fl[i]) && Fits(n, b, fl[j]);
      assert Clear(b, fl[i], fl[j]) && Clear(b, fl[j], fl[i]);
      assert fl[i] != fl[j];
    }
  }

  /** Link cells are neither size words nor footers, and no client's payload. */
  lemma LinkCellsInside(n: nat, b: Tiling, fl: seq<nat>, c: nat)
    requires Tiles(n, b) && Blocks(b, fl) && LinkCell(fl, c)
    ensures c < n
    ensures forall s :: s in b ==> c != s && c != s + b[s].size - 1
    ensures (forall s :: s in fl ==> !b[s].used) ==> forall s :: !Payload(b, s, c)
  {
    var i :| 0 <= i < |fl| && (c == fl[i] + 1 || c == fl[i] + 2);
    var t := fl[i];
    assert t in fl;
    assert Fits(n, b, t);
    forall s | s in b ensures c != s && c != s + b[s].size - 1 && (s == t || !Payload(b, s, c)) {
      assert Fits(n, b, s) && Clear(b, s, t) && Clear(b, t, s);
    }
  }

  lemma SizesFrame(n: nat, b: Tiling, fl: seq<nat>, w: seq<nat>, w': seq<nat>)
    requires Tiles(n, b) && Blocks(b, fl) && Sizes(w, b) && |w'| == |w|
    requires forall c :: 0 <= c < |w| && !LinkCell(fl, c) ==> w'[c] == w[c]
    ensures Sizes(w', b)
  {
    forall s {:trigger SizeWords(w', b, s)} | s in b ensures SizeWords(w', b, s) {
      assert SizeWords(w, b, s);
      if LinkCell(fl, s) { LinkCellsInside(n, b, fl, s); }
      if LinkCell(fl, s + b[s].size - 1) { LinkCellsInside(n, b, fl, s + b[s].size - 1); }
    }
  }

  lemma LinksFrame(base: nat, head: nat, fl: seq<nat>, w: seq<nat>, w': seq<nat>)
    requires Links(w, base, head, fl) && |w'| == |w|
    requires forall c :: 0 <= c < |w| && LinkCell(fl, c) ==> w'[c] == w[c]
    ensures Links(w', base, head, fl)
  {
    forall i {:trigger LinkWords(w', base, fl, i)} | 0 <= i < |fl| ensures LinkWords(w', base, fl, i) {
      assert LinkWords(w, base, fl, i);
      assert LinkCell(fl, fl[i] + 1) && LinkCell(fl, fl[i] + 2);
    }
  }

  /** Rewriting size word and footer of blocks leaves the links alone. */
  lemma LinksKept(n: nat, b: Tiling, base: nat, head: nat, fl: seq<nat>, w: seq<nat>, s: nat, x: nat, y: nat)
    requires Tiles(n, b) && Blocks(b, fl) && |w| == n && s in b
    requires Links(w, base, head, fl)
    ensures s + b[s].size <= n && 0 < b[s].size
    ensures Links(w[s := x][s + b[s].size - 1 := y], base, head, fl)
  {
    assert Fits(n, b, s);
    var w' := w[s := x][s + b[s].size - 1 := y];
    forall c | 0 <= c < |w| && LinkCell(fl, c) ensures w'[c] == w[c] { LinkCellsInside(n, b, fl, c); }
    LinksFrame(base, head, fl, w, w');
  }

  /** The size words after a block is given a new flag. */
  lemma RetagSizes(n: nat, b: Tiling, w: seq<nat>, s: nat, u: bool)
    requires Tiles(n, b) && |w| == n && Sizes(w, b) && s in b
    ensures s + b[s].size <= n && 0 < b[s].size
    ensures Sizes(w[s := 8 * b[s].size + (if u then 1 else 0)][s + b[s].size - 1 := 8 * b[s].size],
                  b[s := Block(b[s].size, u)])
  {
    var k := b[s].size;
    var b' := b[s := Block(k, u)];
    assert Fits(n, b, s);
    var w' := w[s := 8 * k + (if u then 1 else 0)][s + k - 1 := 8 * k];
    forall t {:trigger SizeWords(w', b', t)} | t in b' ensures SizeWords(w', b', t) {
      assert SizeWords(w, b, t) && Fits(n, b, t) && Clear(b, s, t) && Clear(b, t, s);
    }
  }

  /** The size words after a block swallows the one behind it. */
  lemma JoinSizes(n: nat, b: Tiling, w: seq<nat>, p: nat)
    requires Tiles(n, b) && |w| == n && Sizes(w, b) && p in b && p + b[p].size in b
    ensures var k := b[p].size + b[p + b[p].size].size;
      && p + k <= n && 0 < k
      && Sizes(w[p := 8 * k][p + k - 1 := 8 * k], (b - {p + b[p].size})[p := Block(k, false)])
  {
    var e := p + b[p].size;
    var k := b[p].size + b[e].size;
    assert Fits(n, b, p) && Fits(n, b, e);
    var b' := (b - {e})[p := Block(k, false)];
    var w' := w[p := 8 * k][p + k - 1 := 8 * k];
    forall t {:trigger SizeWords(w', b', t)} | t in b' ensures SizeWords(w', b', t) {
      assert SizeWords(w, b, t) && Fits(n, b, t);
      assert Clear(b, p, t) && Clear(b, t, p) && Clear(b, e, t) && Clear(b, t, e);
    }
  }

  // ---------------------------------------------------------------------
  // The list operations on the words.

  /** The link words of the entries are words of the area. */
  ghost predicate Inside(w: seq<nat>, fl: seq<nat>) { forall j :: 0 <= j < |fl| ==> fl[j] + 2 < |w| }

  function Unlinked(w: seq<nat>, base: nat, fl: seq<nat>, i: nat): seq<nat>
    requires i < |fl| && Inside(w, fl)
  {
    var w1 := if 0 < i then w[fl[i - 1] + 1 := PtrAt(base, fl, i + 1)] else w;
    var w2 := if i + 1 < |fl| then w1[fl[i + 1] + 2 := PtrAt(base, fl, i - 1)] else w1;
    w2[fl[i] + 1 := 0][fl[i] + 2 := 0]
  }

  lemma UnlinkedAt(w: seq<nat>, base: nat, fl: seq<nat>, i: nat, k: nat)
    requires i < |fl| && Spaced(fl) && k < |fl| && k != i
    requires Inside(w, fl)
    requires LinkWords(w, base, fl, k)
    ensures LinkWords(Unlinked(w, base, fl, i), base, fl[..i] + fl[i + 1..], if k < i then k else k - 1)
  {
    assert Apart(fl[k], fl[i]);
    assert 0 < i && k != i - 1 ==> Apart(fl[k], fl[i - 1]);
    assert i + 1 < |fl| && k != i + 1 ==> Apart(fl[k], fl[i + 1]);
  }

  lemma UnlinkedLinks(w: seq<nat>, base: nat, head: nat, fl: seq<nat>, i: nat)
    requires i < |fl| && Spaced(fl) && Links(w, base, head, fl)
    ensures Inside(w, fl)
    ensures Links(Unlinked(w, base, fl, i), base, if i == 0 then PtrAt(base, fl, 1) else head, fl[..i] + fl[i + 1..])
    ensures forall c :: 0 <= c < |w| && !LinkCell(fl, c) ==> Unlinked(w, base, fl, i)[c] == w[c]
  {
    forall j | 0 <= j < |fl| ensures fl[j] + 2 < |w| { assert LinkWords(w, base, fl, j); }
    var w' := Unlinked(w, base, fl, i);
    var fl' := fl[..i] + fl[i + 1..];
    forall j {:trigger LinkWords(w', base, fl', j)} | 0 <= j < |fl'| ensures LinkWords(w', base, fl', j) {
      var k := if j < i then j else j + 1;
      assert LinkWords(w, base, fl, k);
      UnlinkedAt(w, base, fl, i, k);
    }
  }

  lemma PushedLinks(w: seq<nat>, base: nat, head: nat, fl: seq<nat>, s: nat)
    requires Spaced([s] + fl) && Links(w, base, head, fl) && s + 2 < |w|
    ensures fl != [] ==> fl[0] + 2 < |w|
    ensures var w1 := w[s + 1 := head];
      var w2 := if fl != [] then w1[fl[0] + 2 := base + 8 * s] else w1;
      Links(w2[s + 2 := 0], base, base + 8 * s, [s] + fl)
  {
    if fl != [] { assert LinkWords(w, base, fl, 0); }
    var fl' := [s] + fl;
    var w1 := w[s + 1 := head];
    var w' := (if fl != [] then w1[fl[0] + 2 := base + 8 * s] else w1)[s + 2 := 0];
    forall j {:trigger LinkWords(w', base, fl', j)} | 0 <= j < |fl'| ensures LinkWords(w', base, fl', j) {
      assert PtrAt(base, fl', j + 1) == PtrAt(base, fl, j);
      assert j != 0 ==> fl'[j] == fl[j - 1] && LinkWords(w, base, fl, j - 1) && Apart(fl'[0], fl'[j]);
      assert 0 < |fl| ==> fl'[1] == fl[0] && Apart(fl'[0], fl'[1]);
      assert 1 < j ==> Apart(fl'[1], fl'[j]);
      assert 1 < j ==> PtrAt(base, fl', j - 1) == PtrAt(base, fl, j - 2);
    }
  }

  // ---------------------------------------------------------------------
  // Splitting block `s` = fl[i] after `k` cells.

  ghost predicate Touched(b: Tiling, fl: seq<nat>, i: nat, k: nat, c: nat)
    requires i < |fl| && fl[i] in b
  {
    var s, f, e := fl[i], fl[i] + k, fl[i] + b[fl[i]].size;
    || c == s || c == f - 1 || c == f || c == f + 1 || c == f + 2 || c == e - 1
    || (0 < i && c == fl[i - 1] + 1) || (i + 1 < |fl| && c == fl[i + 1] + 2)
  }

  ghost predicate SplitSpares(w: seq<nat>, w': seq<nat>, b: Tiling, fl: seq<nat>, i: nat, k: nat)
    requires i < |fl| && fl[i] in b && |w'| == |w|
  {
    forall c :: 0 <= c < |w| && !Touched(b, fl, i, k, c) ==> w'[c] == w[c]
  }

  ghost predicate SplitWords(w: seq<nat>, w': seq<nat>, base: nat, b: Tiling, fl: seq<nat>, i: nat, k: nat)
    requires i < |fl| && fl[i] in b
  {
    var s, n := fl[i], b[fl[i]].size;
    var f := s + k;
    && |w'| == |w| && MIN_BLOCK <= k && MIN_BLOCK + k <= n && s + n <= |w|
    && w'[s] == 8 * k && w'[f - 1] == 8 * k
    && w'[f] == 8 * (n - k) && w'[s + n - 1] == 8 * (n - k)
    && w'[f + 1] == PtrAt(base, fl, i + 1) && w'[f + 2] == PtrAt(base, fl, i - 1)
    && (0 < i ==> fl[i - 1] + 1 < |w| && w'[fl[i - 1] + 1] == base + 8 * f)
    && (i + 1 < |fl| ==> fl[i + 1] + 2 < |w| && w'[fl[i + 1] + 2] == base + 8 * f)
    && SplitSpares(w, w', b, fl, i, k)
  }

  /** `f` linked in front of the successor of entry `i`. */
  function Forwarded(w: seq<nat>, base: nat, fl: seq<nat>, i: nat, f: nat): (r: seq<nat>)
    requires i < |fl| && f + 2 < |w| && Inside(w, fl)
    ensures |r| == |w|
  {
    var w' := w[f + 1 := PtrAt(base, fl, i + 1)];
    if i + 1 < |fl| then w'[fl[i + 1] + 2 := base + 8 * f] else w'
  }

  /** `f` linked behind the predecessor of entry `i`. */
  function Backed(w: seq<nat>, base: nat, fl: seq<nat>, i: nat, f: nat): (r: seq<nat>)
    requires i < |fl| && f + 2 < |w| && Inside(w, fl)
    ensures |r| == |w|
  {
    var w' := w[f + 2 := PtrAt(base, fl, i - 1)];
    if 0 < i then w'[fl[i - 1] + 1 := base + 8 * f] else w'
  }

  /** The stores of a split in their order: the remainder and its links. */
  function RemainderStores(w: seq<nat>, base: nat, fl: seq<nat>, i: nat, k: nat, n: nat): (r: seq<nat>)
    requires i < |fl| && Inside(w, fl)
    requires 0 < k && k + MIN_BLOCK <= n && fl[i] + n <= |w|
    ensures |r| == |w|
  {
    var f := fl[i] + k;
    Backed(Forwarded(w[f := 8 * (n - k)][fl[i] + n - 1 := 8 * (n - k)], base, fl, i, f), base, fl, i, f)
  }

  /** A list entry other than `i` does not reach into block i. */
  lemma EntryOutside(n: nat, b: Tiling, fl: seq<nat>, i: nat, j: nat)
    requires Tiles(n, b) && Blocks(b, fl) && Distinct(fl) && i < |fl| && j < |fl|
    ensures fl[i] in b && MIN_BLOCK <= b[fl[i]].size && fl[i] + b[fl[i]].size <= n && fl[j] + 2 < n
    ensures j != i ==> fl[j] + MIN_BLOCK <= fl[i] || fl[i] + b[fl[i]].size <= fl[j]
  {
    assert fl[i] in fl && fl[j] in fl;
    assert Fits(n, b, fl[i]) && Fits(n, b, fl[j]) && Clear(b, fl[i], fl[j]) && Clear(b, fl[j], fl[i]);
    assert j != i ==> fl[i] != fl[j];
  }

  /** The header at list entry `j` is clear of the n cells at entry `i`. */
  ghost predicate Off(fl: seq<nat>, i: nat, n: nat, j: nat)
    requires i < |fl| && j < |fl|
  {
    fl[j] + MIN_BLOCK <= fl[i] || fl[i] + n <= fl[j]
  }

  lemma EntriesOutside(n: nat, b: Tiling, fl: seq<nat>, i: nat)
    requires Tiles(n, b) && Blocks(b, fl) && Distinct(fl) && i < |fl|
    ensures fl[i] in b && MIN_BLOCK <= b[fl[i]].size && fl[i] + b[fl[i]].size <= n
    ensures forall j :: 0 <= j < |fl| ==> fl[j] + 2 < n
    ensures forall j: nat {:trigger Off(fl, i, b[fl[i]].size, j)} :: j < |fl| && j != i ==> Off(fl, i, b[fl[i]].size, j)
  {
    forall j | 0 <= j < |fl| ensures fl[j] + 2 < n { EntryOutside(n, b, fl, i, j); }
    EntryOutside(n, b, fl, i, i);
    forall j: nat {:trigger Off(fl, i, b[fl[i]].size, j)} | j < |fl| && j != i ensures Off(fl, i, b[fl[i]].size, j) {
      EntryOutside(n, b, fl, i, j);
    }
  }

  /** The stores of the remainder and then of the block's own tags touch nothing else. */
  lemma SplitStoresSpare(b: Tiling, base: nat, fl: seq<nat>, w: seq<nat>, i: nat, k: nat)
    requires i < |fl| && fl[i] in b && Inside(w, fl)
    requires MIN_BLOCK <= k && k + MIN_BLOCK <= b[fl[i]].size && fl[i] + b[fl[i]].size <= |w|
    ensures var w' := RemainderStores(w, base, fl, i, k, b[fl[i]].size)[fl[i] := 8 * k][fl[i] + k - 1 := 8 * k];
      SplitSpares(w, w', b, fl, i, k)
  {
    var w' := RemainderStores(w, base, fl, i, k, b[fl[i]].size)[fl[i] := 8 * k][fl[i] + k - 1 := 8 * k];
    forall c | 0 <= c < |w| && !Touched(b, fl, i, k, c) ensures w'[c] == w[c] {}
  }

  lemma SplitStoresAre(n: nat, b: Tiling, base: nat, fl: seq<nat>, w: seq<nat>, i: nat, k: nat)
    requires Tiles(n, b) && Blocks(b, fl) && Distinct(fl) && |w| == n && i < |fl| && fl[i] in b
    requires MIN_BLOCK <= k && k + MIN_BLOCK <= b[fl[i]].size
    ensures fl[i] + b[fl[i]].size <= |w|
    ensures Inside(w, fl)
    ensures var w' := RemainderStores(w, base, fl, i, k, b[fl[i]].size)[fl[i] := 8 * k][fl[i] + k - 1 := 8 * k];
      SplitWords(w, w', base, b, fl, i, k)
  {
    EntriesOutside(n, b, fl, i);
    ListSpaced(n, b, fl);
    SplitStoresSpare(b, base, fl, w, i, k);
    SplitStoresValues(b[fl[i]].size, base, fl, w, i, k);
  }

  /** No store overwrites what another one of them left. */
  lemma SplitStoresValues(n: nat, base: nat, fl: seq<nat>, w: seq<nat>, i: nat, k: nat)
    requires i < |fl| && fl[i] + n <= |w| && MIN_BLOCK <= k && k + MIN_BLOCK <= n && Spaced(fl)
    requires Inside(w, fl)
    requires forall j: nat {:trigger Off(fl, i, n, j)} :: j < |fl| && j != i ==> Off(fl, i, n, j)
    ensures var (s, f) := (fl[i], fl[i] + k);
      var w' := RemainderStores(w, base, fl, i, k, n)[s := 8 * k][f - 1 := 8 * k];
      && w'[s] == 8 * k && w'[f - 1] == 8 * k && w'[f] == 8 * (n - k) && w'[s + n - 1] == 8 * (n - k)
      && w'[f + 1] == PtrAt(base, fl, i + 1) && w'[f + 2] == PtrAt(base, fl, i - 1)
      && (0 < i ==> w'[fl[i - 1] + 1] == base + 8 * f)
      && (i + 1 < |fl| ==> w'[fl[i + 1] + 2] == base + 8 * f)
  {
    if 0 < i { assert Off(fl, i, n, i - 1); }
    if i + 1 < |fl| { assert Off(fl, i, n, i + 1); }
    if 0 < i && i + 1 < |fl| { assert Apart(fl[i - 1], fl[i + 1]); }
  }

  lemma SplitSizes(n: nat, b: Tiling, base: nat, fl: seq<nat>, w: seq<nat>, w': seq<nat>, i: nat, k: nat)
    requires Tiles(n, b) && Blocks(b, fl) && |w| == n && Sizes(w, b) && i < |fl| && fl[i] in b
    requires SplitWords(w, w', base, b, fl, i, k)
    ensures Sizes(w', b[fl[i] := Block(k, false)][fl[i] + k := Block(b[fl[i]].size - k, false)])
  {
    var s, f := fl[i], fl[i] + k;
    var b' := b[s := Block(k, false)][f := Block(b[s].size - k, false)];
    SplitTiles(n, b, s, k, false);
    assert Fits(n, b, s);
    forall t {:trigger SizeWords(w', b', t)} | t in b' ensures SizeWords(w', b', t) {
      if t != s && t != f {
        assert SizeWords(w, b, t) && Fits(n, b, t) && Clear(b, s, t) && Clear(b, t, s);
        if 0 < i { LinkCellsInside(n, b, fl, fl[i - 1] + 1); }
        if i + 1 < |fl| { LinkCellsInside(n, b, fl, fl[i + 1] + 2); }
        assert !Touched(b, fl, i, k, t) && !Touched(b, fl, i, k, t + b[t].size - 1);
      }
    }
  }

  lemma SplitLinkAt(n: nat, b: Tiling, base: nat, fl: seq<nat>, w: seq<nat>, w': seq<nat>, i: nat, k: nat, j: nat)
    requires Tiles(n, b) && Blocks(b, fl) && Distinct(fl) && |w| == n && i < |fl| && fl[i] in b
    requires j < |fl| && LinkWords(w, base, fl, j)
    requires SplitWords(w, w', base, b, fl, i, k)
    ensures LinkWords(w', base, fl[i := fl[i] + k], j)
  {
    EntryOutside(n, b, fl, i, j);
    assert Fits(n, b, fl[i]);
    if j != i {
      if 0 < i { EntryOutside(n, b, fl, i - 1, j); }
      if i + 1 < |fl| { EntryOutside(n, b, fl, i + 1, j); }
      assert Fits(n, b, fl[j]);
      assert j != i - 1 ==> !Touched(b, fl, i, k, fl[j] + 1);
      assert j != i + 1 ==> !Touched(b, fl, i, k, fl[j] + 2);
    }
  }

  lemma SplitLinks(n: nat, b: Tiling, base: nat, head: nat, fl: seq<nat>, w: seq<nat>, w': seq<nat>, i: nat, k: nat)
    requires Tiles(n, b) && Blocks(b, fl) && Distinct(fl) && |w| == n && i < |fl| && fl[i] in b
    requires Links(w, base, head, fl)
    requires SplitWords(w, w', base, b, fl, i, k)
    ensures Links(w', base, if i == 0 then base + 8 * (fl[i] + k) else head, fl[i := fl[i] + k])
  {
    var fl' := fl[i := fl[i] + k];
    forall j {:trigger LinkWords(w', base, fl', j)} | 0 <= j < |fl'| ensures LinkWords(w', base, fl', j) {
      assert LinkWords(w, base, fl, j);
      SplitLinkAt(n, b, base, fl, w, w', i, k, j);
    }
  }

  lemma SplitLayout(n: nat, b: Tiling, base: nat, head: nat, fl: seq<nat>, w: seq<nat>, w': seq<nat>, i: nat, k: nat)
    requires Tiles(n, b) && Blocks(b, fl) && Distinct(fl) && |w| == n && i < |fl| && fl[i] in b
    requires Sizes(w, b) && Links(w, base, head, fl)
    requires SplitWords(w, w', base, b, fl, i, k)
    ensures var b' := b[fl[i] := Block(k, false)][fl[i] + k := Block(b[fl[i]].size - k, false)];
      var fl' := fl[i := fl[i] + k];
      && Tiles(n, b') && Sizes(w', b')
      && Blocks(b', fl') && Distinct(fl') && Links(w', base, if i == 0 then base + 8 * (fl[i] + k) else head, fl')
  {
    SplitTiles(n, b, fl[i], k, false);
    SplitSizes(n, b, base, fl, w, w', i, k);
    SplitLinks(n, b, base, head, fl, w, w', i, k);
    var fl' := fl[i := fl[i] + k];
    forall j | 0 <= j < |fl'| && j != i ensures fl'[j] in b && fl'[j] != fl'[i] { assert fl[j] in fl; }
  }

  /** A split writes into the block on the list and its list neighbours only. */
  lemma SplitSparesPayload(n: nat, b: Tiling, fl: seq<nat>, i: nat, k: nat, s: nat, c: nat)
    requires Tiles(n, b) && Blocks(b, fl) && (forall t :: t in fl ==> !b[t].used)
    requires i < |fl| && fl[i] in b && MIN_BLOCK <= k && MIN_BLOCK + k <= b[fl[i]].size
    requires Payload(b, s, c)
    ensures !Touched(b, fl, i, k, c)
  {
    var t := fl[i];
    assert t in fl;
    assert Fits(n, b, t) && Clear(b, s, t) && Clear(b, t, s);
    if 0 < i { assert LinkCell(fl, fl[i - 1] + 1); LinkCellsInside(n, b, fl, fl[i - 1] + 1); }
    if i + 1 < |fl| { assert LinkCell(fl, fl[i + 1] + 2); LinkCellsInside(n, b, fl, fl[i + 1] + 2); }
  }
}
