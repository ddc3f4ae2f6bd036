/** Laws of the finished checksum that fix its start value, its final inversion
    and the order of its bytes: the residue, leading zeros, the check value. */
module CrcLaws {
  import opened Bytes
  import opened Crc32

  // ----- words and their bytes -----

  lemma LowByteWord(x: bv32)
    ensures Word(LowByte(x)) == Low8(x)
  {
    IntToWord(Low8(x));
  }

  lemma Reassembled(x: bv32)
    ensures var y := Shr8(x); var z := Shr8(y);
      Xor(Low8(x), Shl8(Xor(Low8(y), Shl8(Xor(Low8(z), Shl8(Low8(Shr8(z)))))))) == x
  {}

  lemma PackedFour(u: seq<byte>)
    requires |u| == 4
    ensures PackedWord(u) == Xor(Word(u[0]), Shl8(Xor(Word(u[1]), Shl8(Xor(Word(u[2]), Shl8(Word(u[3])))))))
  {
    assert u[1..][1..] == u[2..] && u[2..][1..] == u[3..] && u[3..][1..] == [];
    assert PackedWord(u[3..]) == Xor(Word(u[3]), Shl8(0));
    assert Xor(Word(u[3]), Shl8(0)) == Word(u[3]);
    assert PackedWord(u[2..]) == Xor(Word(u[2]), Shl8(PackedWord(u[3..])));
  }

  /** Packing the bytes of a word gives the word back. */
  lemma PackedBytes(x: bv32)
    ensures PackedWord(WordBytes(x)) == x
  {
    hide LowByte;
    PackedFour(WordBytes(x));
    var y := Shr8(x);
    var z := Shr8(y);
    LowByteWord(x);
    LowByteWord(y);
    LowByteWord(z);
    LowByteWord(Shr8(z));
    Reassembled(x);
  }

  /** What is stored of a checksum are its bytes, and they tell checksums apart. */
  lemma NumberBytes(x: bv32)
    ensures Le(Number(x), 4) == WordBytes(x)
  {
    StoreLoaded(WordBytes(x));
  }

  lemma NumberInjective(a: bv32, b: bv32)
    requires Number(a) == Number(b)
    ensures a == b
  {
    hide WordBytes, Number;
    NumberBytes(a);
    NumberBytes(b);
    PackedBytes(a);
    PackedBytes(b);
  }

  // ----- four bytes at once -----

  lemma {:induction false} BitsAdd(x: bv32, m: nat, n: nat)
    ensures Bits(x, m + n) == Bits(Bits(x, m), n)
    decreases m
  {
    if m > 0 {
      BitsAdd(Bit(x), m - 1, n);
    }
  }

  /** Up to four bytes go in together: exclusive-or them in, then shift all their bits out. */
  lemma {:induction false} BitwisePacked(u: seq<byte>, a: bv32)
    requires |u| <= 4
    ensures Bitwise(u, a) == Bits(Xor(a, PackedWord(u)), 8 * |u|)
    decreases |u|
  {
    if u == [] {
      assert Xor(a, 0) == a;
    } else {
      var p, x := Word(u[0]), PackedWord(u[1..]);
      BitwisePacked(u[1..], Bits(Xor(a, p), 8));
      PackedTail(u);
      ShiftBack(x);
      BitsXor(Xor(a, p), Shl8(x), 8);
      XorAssoc(a, p, Shl8(x));
      BitsAdd(Xor(a, PackedWord(u)), 8, 8 * (|u| - 1));
    }
  }

  // ----- the residue -----

  lemma OnesShifted()
    ensures Bits(0xffffffff, 32) == 0xDEBB20E3
  {
    BitsAdd(0xffffffff, 8, 24);
    BitsAdd(0x2dfd1072, 8, 16);
    BitsAdd(0xbe26ed00, 8, 8);
    ByteShifted(0xffffffff, 0x2dfd1072);
    ByteShifted(0x2dfd1072, 0xbe26ed00);
    ByteShifted(0xbe26ed00, 0x00be26ed);
    ByteShifted(0x00be26ed, 0xDEBB20E3);
  }

  lemma ByteShifted(x: bv32, y: bv32)
    requires Bits8(x) == y
    ensures Bits(x, 8) == y
  {
    Bits8IsBits(x);
  }

  lemma XorBack(x: bv32)
    ensures Xor(x, Xor(x, 0xffffffff)) == 0xffffffff
  {}

  /**
   * The residue: a buffer followed by its own checksum, least significant byte
   * first, always ends in the same state. It fixes the final inversion and the
   * order of the bytes.
   */
  lemma Residue(s: seq<byte>)
    ensures Bitwise(s + Le(Number(Crc(s)), 4), 0xffffffff) == 0xDEBB20E3
  {
    var x, c := Bitwise(s, 0xffffffff), Crc(s);
    hide WordBytes, Number, Bits, Bitwise, Le;
    var u := WordBytes(c);
    NumberBytes(c);
    BitwiseConcat(s, u, 0xffffffff);
    BitwisePacked(u, x);
    PackedBytes(c);
    XorBack(x);
    OnesShifted();
  }

  // ----- the start value -----

  lemma OnesMove()
    ensures Bits(Xor(0xffffffff, Word(0)), 8) != 0xffffffff
  {
    assert Xor(0xffffffff, Word(0)) == 0xffffffff;
    ByteShifted(0xffffffff, 0x2dfd1072);
  }

  /** A zero byte in front never goes unnoticed. */
  lemma LeadingZero(s: seq<byte>)
    ensures Crc([0] + s) != Crc(s)
  {
    var t := [0] + s;
    assert t[1..] == s;
    if Crc(t) == Crc(s) {
      CrcInjective(t, s);
      BitwiseInjective(s, Bits(Xor(0xffffffff, Word(0)), 8), 0xffffffff);
      OnesMove();
    }
  }

  lemma NextState(s: seq<byte>, b: byte, t: seq<byte>, x: bv32, y: bv32)
    requires t == s + [b] && Bitwise(s, 0xffffffff) == x && Bits8(Xor(x, Word(b))) == y
    ensures Bitwise(t, 0xffffffff) == y
  {
    BitwiseLast(s, b, 0xffffffff);
    Bits8IsBits(Xor(x, Word(b)));
  }

  lemma NoBytes()
    ensures Bitwise([], 0xffffffff) == 0xffffffff && Xor(0xffffffff, 0xffffffff) == 0
  {}

  lemma ThreeDigits()
    ensures Bitwise([0x31, 0x32, 0x33], 0xffffffff) == 0x77b79c2d
  {
    hide Bitwise;
    NoBytes();
    NextState([], 0x31, [0x31], 0xffffffff, 0x7c231048);
    NextState([0x31], 0x32, [0x31, 0x32], 0x7c231048, 0xb0acbb32);
    NextState([0x31, 0x32], 0x33, [0x31, 0x32, 0x33], 0xb0acbb32, 0x77b79c2d);
  }

  lemma SixDigits()
    ensures Bitwise([0x31, 0x32, 0x33, 0x34, 0x35, 0x36], 0xffffffff) == 0xf68d2c9e
  {
    hide Bitwise;
    ThreeDigits();
    NextState([0x31, 0x32, 0x33], 0x34, [0x31, 0x32, 0x33, 0x34], 0x77b79c2d, 0x641c1f5c);
    NextState([0x31, 0x32, 0x33, 0x34], 0x35, [0x31, 0x32, 0x33, 0x34, 0x35], 0x641c1f5c, 0x340ac5e3);
    NextState([0x31, 0x32, 0x33, 0x34, 0x35], 0x36, [0x31, 0x32, 0x33, 0x34, 0x35, 0x36], 0x340ac5e3, 0xf68d2c9e);
  }

  lemma NineDigits()
    ensures Bitwise([0x31, 0x32, 0x33, 0x34, 0x35, 0x36, 0x37, 0x38, 0x39], 0xffffffff) == 0x340bc6d9
  {
    hide Bitwise;
    SixDigits();
    var six, seven := [0x31, 0x32, 0x33, 0x34, 0x35, 0x36], [0x31, 0x32, 0x33, 0x34, 0x35, 0x36, 0x37];
    var eight := [0x31, 0x32, 0x33, 0x34, 0x35, 0x36, 0x37, 0x38];
    NextState(six, 0x37, seven, 0xf68d2c9e, 0xaffc9660);
    NextState(seven, 0x38, eight, 0xaffc9660, 0x651f2550);
    NextState(eight, 0x39, [0x31, 0x32, 0x33, 0x34, 0x35, 0x36, 0x37, 0x38, 0x39], 0x651f2550, 0x340bc6d9);
  }

  /** The published check value: the checksum of the nine digits "123456789"; and that of nothing. */
  lemma CheckValue()
    ensures Crc([0x31, 0x32, 0x33, 0x34, 0x35, 0x36, 0x37, 0x38, 0x39]) == 0xCBF43926
    ensures Crc([]) == 0
  {
    hide Bitwise;
    NoBytes();
    NineDigits();
  }
}
