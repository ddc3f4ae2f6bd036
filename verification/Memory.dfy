/** The C library's block operations on a byte buffer. */
module Memory {
  import opened Bytes

  /** Assignment through a pointer: `d` is written at `off`. */
  method Store(buf: array<byte>, off: nat, d: seq<byte>)
    requires off + |d| <= buf.Length
    modifies buf
    ensures forall k :: 0 <= k < buf.Length ==>
      buf[k] == if off <= k < off + |d| then d[k - off] else old(buf[k])
  {
    for i := 0 to |d|
      invariant forall k :: 0 <= k < buf.Length ==>
        buf[k] == if off <= k < off + i then d[k - off] else old(buf[k])
    {
      buf[off + i] := d[i];
    }
  }

  /** memset(buf + off, 0, n) */
  method Clear(buf: array<byte>, off: nat, n: nat)
    requires off + n <= buf.Length
    modifies buf
    ensures forall k :: 0 <= k < buf.Length ==> buf[k] == if off <= k < off + n then 0 else old(buf[k])
  {
    for i := 0 to n
      invariant forall k :: 0 <= k < buf.Length ==> buf[k] == if off <= k < off + i then 0 else old(buf[k])
    {
      buf[off + i] := 0;
    }
  }

  /** memcpy(buf + dst, buf + src, n) for blocks that do not overlap */
  method Copy(buf: array<byte>, dst: nat, src: nat, n: nat)
    requires dst + n <= buf.Length && src + n <= buf.Length
    requires dst + n <= src || src + n <= dst
    modifies buf
    ensures forall k :: 0 <= k < buf.Length ==>
      buf[k] == if dst <= k < dst + n then old(buf[src + (k - dst)]) else old(buf[k])
  {
    for i := 0 to n
      invariant forall k :: 0 <= k < buf.Length ==>
        buf[k] == if dst <= k < dst + i then old(buf[src + (k - dst)]) else old(buf[k])
    {
      buf[dst + i] := buf[src + i];
    }
  }

  /** A load on a little-endian machine. */
  function LoadLe(buf: array<byte>, off: nat, w: nat): (x: nat)
    reads buf
    requires off + w <= buf.Length
    ensures x == Field(buf[..], off, w)
  {
    assert buf[off..off + w] == buf[..][off..off + w];
    FromLe(buf[off..off + w])
  }
}
