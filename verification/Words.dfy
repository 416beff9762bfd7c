// Bytes and the little-endian 64-bit words laid over them.
module Words {

  const W64: nat := 0x1_0000_0000_0000_0000

  type Octet = x: int | 0 <= x < 256

  function Pow256(k: nat): nat { if k == 0 then 1 else 256 * Pow256(k - 1) }

  function ToNat(bs: seq<Octet>): nat {
    if bs == [] then 0 else bs[0] + 256 * ToNat(bs[1..])
  }

  function FromNat(v: nat, k: nat): (bs: seq<Octet>)
    ensures |bs| == k
  {
    if k == 0 then [] else [v % 256] + FromNat(v / 256, k - 1)
  }

  lemma {:induction false} ToNatFromNat(v: nat, k: nat)
    requires v < Pow256(k)
    ensures ToNat(FromNat(v, k)) == v
  {
    if k != 0 {
      assert FromNat(v, k)[1..] == FromNat(v / 256, k - 1);
      ToNatFromNat(v / 256, k - 1);
    }
  }

  /** The i-th byte is the i-th digit, the least significant one first. */
  lemma {:induction false} ByteOf(v: nat, k: nat, i: nat)
    requires i < k
    ensures FromNat(v, k)[i] == Digit(v, i) % 256
  {
    if i != 0 { ByteOf(v / 256, k - 1, i - 1); }
  }

  /** v divided by 256 i times. */
  function Digit(v: nat, i: nat): nat { if i == 0 then v else Digit(v / 256, i - 1) }

  lemma {:induction false} ToNatAppend(a: seq<Octet>, b: seq<Octet>)
    ensures ToNat(a + b) == ToNat(a) + Pow256(|a|) * ToNat(b)
  {
    if a == [] {
      assert a + b == b;
    } else {
      assert (a + b)[1..] == a[1..] + b;
      ToNatAppend(a[1..], b);
      Associate(256, Pow256(|a| - 1), ToNat(b));
    }
  }

  lemma Associate(x: nat, y: nat, z: nat)
    ensures x * y * z == x * (y * z)
  {
  }

  lemma {:induction false} ToNatInjective(a: seq<Octet>, b: seq<Octet>)
    requires |a| == |b| && ToNat(a) == ToNat(b)
    ensures a == b
  {
    if a != [] {
      ToNatInjective(a[1..], b[1..]);
      assert a == [a[0]] + a[1..] && b == [b[0]] + b[1..];
    }
  }

  lemma {:induction false} ToNatBound(bs: seq<Octet>)
    ensures ToNat(bs) < Pow256(|bs|)
  {
    if bs != [] { ToNatBound(bs[1..]); }
  }

  lemma Pow256Of8()
    ensures Pow256(8) == W64
  {
  }

  ghost predicate WordIs(bytes: seq<Octet>, w: seq<nat>, c: nat) {
    c < |w| && 8 * c + 8 <= |bytes| && w[c] == ToNat(bytes[8 * c..8 * c + 8])
  }

  /** `w` are the 64-bit words of the byte area. */
  ghost predicate WordsAre(bytes: seq<Octet>, w: seq<nat>) {
    && |bytes| == 8 * |w|
    && forall c {:trigger WordIs(bytes, w, c)} :: 0 <= c < |w| ==> WordIs(bytes, w, c)
  }

  /** Storing eight bytes changes one word and no other byte. */
  lemma StoredWord(a: seq<Octet>, b: seq<Octet>, w: seq<nat>, k: nat, v: nat)
    requires WordsAre(a, w) && |b| == |a| && k < |w|
    requires ToNat(b[8 * k..8 * k + 8]) == v
    requires forall i :: 0 <= i < |a| && !(8 * k <= i < 8 * k + 8) ==> a[i] == b[i]
    ensures WordsAre(b, w[k := v])
  {
    var w' := w[k := v];
    forall c {:trigger WordIs(b, w', c)} | 0 <= c < |w'| ensures WordIs(b, w', c) {
      assert WordIs(a, w, c);
      if c != k { assert a[8 * c..8 * c + 8] == b[8 * c..8 * c + 8]; }
    }
  }

  /** Equal words over a range of cells mean equal bytes over it. */
  lemma SameWordsSameBytes(a: seq<Octet>, w: seq<nat>, b: seq<Octet>, w': seq<nat>, lo: nat, hi: nat)
    requires WordsAre(a, w) && WordsAre(b, w') && |a| == |b| && lo <= hi <= |w|
    requires forall c :: lo <= c < hi ==> w[c] == w'[c]
    ensures a[8 * lo..8 * hi] == b[8 * lo..8 * hi]
  {
    forall k | 8 * lo <= k < 8 * hi ensures a[k] == b[k] {
      var c := k / 8;
      assert WordIs(a, w, c) && WordIs(b, w', c) && w[c] == w'[c];
      ToNatInjective(a[8 * c..8 * c + 8], b[8 * c..8 * c + 8]);
      assert a[8 * c..8 * c + 8][k - 8 * c] == a[k] && b[8 * c..8 * c + 8][k - 8 * c] == b[k];
    }
  }
}
