/** The byte-order accessors of gpt/endian.h on a host of either byte order. */
module Endian {
  import opened Arith
  import opened Bytes
  import Memory

  datatype Host = Little | Big

  /** The machine that builds the volume; nothing is known of its byte order. */
  const HOST: Host

  predicate Width(w: nat) {
    w == 1 || w == 2 || w == 4 || w == 8
  }

  function Reversed(s: seq<byte>): (r: seq<byte>)
    ensures |r| == |s| && forall i :: 0 <= i < |s| ==> r[i] == s[|s| - 1 - i]
  {
    seq(|s|, i requires 0 <= i < |s| => s[|s| - 1 - i])
  }

  lemma ReversedTwice(s: seq<byte>)
    ensures Reversed(Reversed(s)) == s
  {
  }

  /** The bytes of an unsigned variable of `w` bytes, as this host keeps them. */
  function Native(host: Host, v: nat, w: nat): (s: seq<byte>)
    ensures |s| == w
  {
    if host.Little? then Le(v, w) else Reversed(Le(v, w))
  }

  /** The value this host reads from the bytes of an unsigned variable. */
  function Value(host: Host, s: seq<byte>): nat {
    if host.Little? then FromLe(s) else FromLe(Reversed(s))
  }

  lemma NativeOfValue(host: Host, s: seq<byte>)
    ensures Value(host, s) < Pow256(|s|)
    ensures Native(host, Value(host, s), |s|) == s
  {
    StoreLoaded(s);
    StoreLoaded(Reversed(s));
    ReversedTwice(s);
  }

  // ----- the swaps: reversed bytes, read back as a number -----

  method Swap16(host: Host, src: seq<byte>) returns (v: nat)
    requires |src| == 2
    ensures v < Pow256(2) && Native(host, v, 2) == Reversed(src)
  {
    var dst := new byte[2](_ => 0);
    dst[0] := src[1];
    dst[1] := src[0];
    v := Value(host, dst[..]);
    NativeOfValue(host, dst[..]);
    assert dst[..] == Reversed(src);
  }

  method Swap32(host: Host, src: seq<byte>) returns (v: nat)
    requires |src| == 4
    ensures v < Pow256(4) && Native(host, v, 4) == Reversed(src)
  {
    var dst := new byte[4](_ => 0);
    dst[0] := src[3];
    dst[3] := src[0];
    dst[1] := src[2];
    dst[2] := src[1];
    v := Value(host, dst[..]);
    NativeOfValue(host, dst[..]);
    assert dst[..] == Reversed(src);
  }

  method Swap64(host: Host, src: seq<byte>) returns (v: nat)
    requires |src| == 8
    ensures v < Pow256(8) && Native(host, v, 8) == Reversed(src)
  {
    var dst := new byte[8](_ => 0);
    for i := 0 to 8
      invariant forall k :: 0 <= k < i ==> dst[k] == src[7 - k]
    {
      dst[i] := src[7 - i];
    }
    v := Value(host, dst[..]);
    NativeOfValue(host, dst[..]);
    assert dst[..] == Reversed(src);
  }

  method Swap(host: Host, src: seq<byte>) returns (v: nat)
    requires |src| == 2 || |src| == 4 || |src| == 8
    ensures v < Pow256(|src|) && Native(host, v, |src|) == Reversed(src)
  {
    if |src| == 2 {
      v := Swap16(host, src);
    } else if |src| == 4 {
      v := Swap32(host, src);
    } else {
      v := Swap64(host, src);
    }
  }

  // ----- loads and stores -----

  /** `*s` on this host. */
  function NativeLoad(host: Host, buf: array<byte>, at: nat, w: nat): nat
    requires at + w <= buf.Length
    reads buf
  {
    Value(host, buf[at..at + w])
  }

  lemma SwappedLoad(host: Host, s: seq<byte>, v: nat)
    requires host.Big? && v < Pow256(|s|) && Native(host, v, |s|) == Reversed(s)
    ensures v == FromLe(s)
  {
    ReversedTwice(s);
    ReversedTwice(Le(v, |s|));
    LoadStored(v, |s|);
  }

  lemma SwappedStore(host: Host, v: nat, w: nat, x: nat)
    requires host.Big? && Native(host, x, w) == Reversed(Native(host, v, w))
    ensures Native(host, x, w) == Le(v, w)
  {
    ReversedTwice(Le(v, w));
  }

  /** _generic_load_le: either host gets the little-endian value of the bytes in memory. */
  method Load(host: Host, buf: array<byte>, at: nat, w: nat) returns (v: nat)
    requires Width(w) && at + w <= buf.Length
    ensures v == Field(buf[..], at, w) && v < Pow256(w)
  {
    hide Value, FromLe;
    ghost var s := buf[at..at + w];
    assert s == buf[..][at..at + w];
    StoreLoaded(s);
    if w == 1 {
      v := buf[at];
      OneByte(s);
    } else if host.Little? {
      v := NativeLoad(host, buf, at, w);
      LittleValue(s);
    } else {
      v := Swap(host, buf[at..at + w]);
      SwappedLoad(host, s, v);
    }
  }

  lemma OneByte(s: seq<byte>)
    requires |s| == 1
    ensures FromLe(s) == s[0]
  {
    assert FromLe(s[1..]) == 0;
  }

  lemma LittleValue(s: seq<byte>)
    ensures Value(Little, s) == FromLe(s)
  {
  }

  /** _generic_store_le: either host lays down the same little-endian bytes, cut to the width of the field. */
  method Store(host: Host, buf: array<byte>, at: nat, w: nat, v: nat)
    requires Width(w) && at + w <= buf.Length
    modifies buf
    ensures forall k :: 0 <= k < buf.Length ==> buf[k] == if at <= k < at + w then Le(v, w)[k - at] else old(buf[k])
  {
    if w == 1 {
      buf[at] := v % 256;
    } else if host.Little? {
      Memory.Store(buf, at, Native(host, v, w));
    } else {
      var x := Swap(host, Native(host, v, w));
      SwappedStore(host, v, w, x);
      Memory.Store(buf, at, Native(host, x, w));
    }
  }

  /** A field of four bytes, as a load finds it. */
  method Store4(host: Host, buf: array<byte>, at: nat, v: nat)
    requires at + 4 <= buf.Length && v < U32
    modifies buf
    ensures OnlyIn(old(buf[..]), buf[..], at, at + 4)
    ensures Field(buf[..], at, 4) == v
  {
    Store(host, buf, at, 4, v);
    assert buf[..][at..at + 4] == Le(v, 4);
    Stored4(buf[..], at, v);
  }

  lemma SplitLow(v: nat, p: nat)
    requires p > 0
    ensures v % (256 * p) == v % 256 + 256 * (v / 256 % p)
  {
    var q, b := v / 256, v % 256;
    var t, r := q / p, q % p;
    assert q == t * p + r;
    assert t * (256 * p) == 256 * (t * p);
    ModUnique(v, 256 * p, t, b + 256 * r);
  }

  /** What a load finds after a store: the value, cut to the width of the field. */
  lemma {:induction false} LoadTruncated(v: nat, w: nat)
    ensures FromLe(Le(v, w)) == v % Pow256(w)
    decreases w
  {
    if w > 0 {
      LoadTruncated(v / 256, w - 1);
      LeTail(v, w);
      SplitLow(v, Pow256(w - 1));
    }
  }

  /** A field stored on one host and loaded on another keeps its value, up to the width of the field. */
  method Exchange(writer: Host, reader: Host, buf: array<byte>, at: nat, w: nat, v: nat) returns (x: nat)
    requires Width(w) && at + w <= buf.Length
    modifies buf
    ensures x == v % Pow256(w)
    ensures v < Pow256(w) ==> x == v
  {
    Store(writer, buf, at, w, v);
    assert buf[..][at..at + w] == Le(v, w);
    LoadTruncated(v, w);
    x := Load(reader, buf, at, w);
    SmallMod(v, Pow256(w));
  }

  lemma SmallMod(v: nat, m: nat)
    requires m > 0
    ensures v < m ==> v % m == v
  {
  }
}
