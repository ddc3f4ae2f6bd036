/** Byte strings, the splice that describes every in-place write, and the
    little-endian fields of the on-disk structures (gpt/endian.h). */
module Bytes {

  type byte = b: int | 0 <= b < 256

  const U32: nat := 0x1_0000_0000

  function Zeros(n: nat): (s: seq<byte>)
    ensures |s| == n
    ensures forall i :: 0 <= i < n ==> s[i] == 0
  {
    seq(n, i => 0)
  }

  /** `s` with the bytes from `off` on overwritten by `d`. */
  function Splice(s: seq<byte>, off: nat, d: seq<byte>): (r: seq<byte>)
    requires off + |d| <= |s|
    ensures |r| == |s|
    ensures forall i :: 0 <= i < |s| ==> r[i] == if off <= i < off + |d| then d[i - off] else s[i]
  {
    s[..off] + d + s[off + |d|..]
  }

  /** `a` and `b` may differ only inside [lo, hi). */
  ghost predicate OnlyIn(a: seq<byte>, b: seq<byte>, lo: nat, hi: nat) {
    && |a| == |b|
    && forall i :: 0 <= i < |a| && !(lo <= i < hi) ==> a[i] == b[i]
  }

  /** Slices that avoid the changed range are untouched. */
  lemma OnlyInSlice(a: seq<byte>, b: seq<byte>, lo: nat, hi: nat, x: nat, y: nat)
    requires OnlyIn(a, b, lo, hi)
    requires x <= y <= |a|
    requires y <= lo || hi <= x
    ensures a[x..y] == b[x..y]
  {
  }

  // ----- little-endian fields -----

  /** The `w` low-order bytes of `v`, least significant first. */
  function Le(v: nat, w: nat): (s: seq<byte>)
    ensures |s| == w
  {
    seq(w, i requires 0 <= i => Digit(v, i))
  }

  /** Byte `i` of `v`, counted from the least significant. */
  function Digit(v: nat, i: nat): byte
    decreases i
  {
    if i == 0 then v % 256 else Digit(v / 256, i - 1)
  }

  function FromLe(s: seq<byte>): nat {
    if s == [] then 0 else s[0] + 256 * FromLe(s[1..])
  }

  function Pow256(w: nat): (p: nat)
    ensures p >= 1
  {
    if w == 0 then 1 else 256 * Pow256(w - 1)
  }

  lemma Pow256Values()
    ensures Pow256(1) == 0x100 && Pow256(2) == 0x1_0000
    ensures Pow256(4) == U32 && Pow256(8) == U32 * U32
  {
    assert Pow256(3) == 256 * Pow256(2);
    assert Pow256(5) == 256 * Pow256(4);
    assert Pow256(6) == 256 * Pow256(5);
    assert Pow256(7) == 256 * Pow256(6);
  }

  lemma {:induction false} LeZero(w: nat)
    ensures Le(0, w) == Zeros(w)
    decreases w
  {
    if w > 0 {
      LeZero(w - 1);
      LeTail(0, w);
      var s := Le(0, w);
      assert s == [s[0]] + s[1..];
    }
  }

  lemma LeTail(v: nat, w: nat)
    requires w > 0
    ensures Le(v, w)[0] == v % 256 && Le(v, w)[1..] == Le(v / 256, w - 1)
  {
  }

  /** Store then load is the identity on every value that fits the field. */
  lemma {:induction false} LoadStored(v: nat, w: nat)
    requires v < Pow256(w)
    ensures FromLe(Le(v, w)) == v
  {
    if w > 0 {
      LoadStored(v / 256, w - 1);
      LeTail(v, w);
    }
  }

  lemma DivMod256(b: byte, q: nat)
    ensures (b + 256 * q) % 256 == b && (b + 256 * q) / 256 == q
  {
  }

  /** Load then store is the identity on every field. */
  lemma {:induction false} StoreLoaded(s: seq<byte>)
    ensures FromLe(s) < Pow256(|s|)
    ensures Le(FromLe(s), |s|) == s
  {
    if s != [] {
      StoreLoaded(s[1..]);
      DivMod256(s[0], FromLe(s[1..]));
      LeTail(FromLe(s), |s|);
      var t := Le(FromLe(s), |s|);
      assert t == [t[0]] + t[1..] && s == [s[0]] + s[1..];
    }
  }

  /** The `w`-byte little-endian field of `s` at `off`. */
  function Field(s: seq<byte>, off: nat, w: nat): nat
    requires off + w <= |s|
  {
    FromLe(s[off..off + w])
  }

  lemma FieldStored(s: seq<byte>, off: nat, w: nat, v: nat)
    requires off + w <= |s|
    requires s[off..off + w] == Le(v, w)
    requires v < Pow256(w)
    ensures Field(s, off, w) == v
  {
    LoadStored(v, w);
  }

  lemma Stored4(s: seq<byte>, off: nat, v: nat)
    requires off + 4 <= |s| && v < U32
    requires s[off..off + 4] == Le(v, 4)
    ensures Field(s, off, 4) == v
  {
    Pow256Values();
    LoadStored(v, 4);
  }

  lemma Stored2(s: seq<byte>, off: nat, v: nat)
    requires off + 2 <= |s| && v < 0x1_0000
    requires s[off..off + 2] == Le(v, 2)
    ensures Field(s, off, 2) == v
  {
    Pow256Values();
    LoadStored(v, 2);
  }

  lemma {:induction false} ZeroField(s: seq<byte>, off: nat, w: nat)
    requires off + w <= |s| && forall i :: off <= i < off + w ==> s[i] == 0
    ensures Field(s, off, w) == 0
    decreases w
  {
    if w > 0 {
      ZeroField(s, off + 1, w - 1);
      assert s[off..off + w][1..] == s[off + 1..off + 1 + (w - 1)];
    }
  }

  lemma SliceOfSlice(d: seq<byte>, a: nat, b: nat, x: nat, y: nat)
    requires a <= b <= |d| && x <= y <= b - a
    ensures d[a..b][x..y] == d[a + x..a + y]
  {
    var s, t := d[a..b][x..y], d[a + x..a + y];
    forall i | 0 <= i < |s|
      ensures s[i] == t[i]
    {
      assert s[i] == d[a..b][x + i] == d[a + x + i];
    }
  }
}
