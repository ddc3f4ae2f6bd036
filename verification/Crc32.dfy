/** The CRC-32 of gpt/gpt.c: the table-driven loop, the bit-by-bit checksum it
    must agree with, and what the checksum is for, namely noticing damage. */
module Crc32 {
  import opened Bytes

  /** The constants of `crc32_tab`, eight to a row. */
  function TableRow(r: nat): (row: seq<bv32>)
    requires r < 32
    ensures |row| == 8
  {
    match r
    case 0 => [0x00000000, 0x77073096, 0xee0e612c, 0x990951ba, 0x076dc419, 0x706af48f, 0xe963a535, 0x9e6495a3]
    case 1 => [0x0edb8832, 0x79dcb8a4, 0xe0d5e91e, 0x97d2d988, 0x09b64c2b, 0x7eb17cbd, 0xe7b82d07, 0x90bf1d91]
    case 2 => [0x1db71064, 0x6ab020f2, 0xf3b97148, 0x84be41de, 0x1adad47d, 0x6ddde4eb, 0xf4d4b551, 0x83d385c7]
    case 3 => [0x136c9856, 0x646ba8c0, 0xfd62f97a, 0x8a65c9ec, 0x14015c4f, 0x63066cd9, 0xfa0f3d63, 0x8d080df5]
    case 4 => [0x3b6e20c8, 0x4c69105e, 0xd56041e4, 0xa2677172, 0x3c03e4d1, 0x4b04d447, 0xd20d85fd, 0xa50ab56b]
    case 5 => [0x35b5a8fa, 0x42b2986c, 0xdbbbc9d6, 0xacbcf940, 0x32d86ce3, 0x45df5c75, 0xdcd60dcf, 0xabd13d59]
    case 6 => [0x26d930ac, 0x51de003a, 0xc8d75180, 0xbfd06116, 0x21b4f4b5, 0x56b3c423, 0xcfba9599, 0xb8bda50f]
    case 7 => [0x2802b89e, 0x5f058808, 0xc60cd9b2, 0xb10be924, 0x2f6f7c87, 0x58684c11, 0xc1611dab, 0xb6662d3d]
    case 8 => [0x76dc4190, 0x01db7106, 0x98d220bc, 0xefd5102a, 0x71b18589, 0x06b6b51f, 0x9fbfe4a5, 0xe8b8d433]
    case 9 => [0x7807c9a2, 0x0f00f934, 0x9609a88e, 0xe10e9818, 0x7f6a0dbb, 0x086d3d2d, 0x91646c97, 0xe6635c01]
    case 10 => [0x6b6b51f4, 0x1c6c6162, 0x856530d8, 0xf262004e, 0x6c0695ed, 0x1b01a57b, 0x8208f4c1, 0xf50fc457]
    case 11 => [0x65b0d9c6, 0x12b7e950, 0x8bbeb8ea, 0xfcb9887c, 0x62dd1ddf, 0x15da2d49, 0x8cd37cf3, 0xfbd44c65]
    case 12 => [0x4db26158, 0x3ab551ce, 0xa3bc0074, 0xd4bb30e2, 0x4adfa541, 0x3dd895d7, 0xa4d1c46d, 0xd3d6f4fb]
    case 13 => [0x4369e96a, 0x346ed9fc, 0xad678846, 0xda60b8d0, 0x44042d73, 0x33031de5, 0xaa0a4c5f, 0xdd0d7cc9]
    case 14 => [0x5005713c, 0x270241aa, 0xbe0b1010, 0xc90c2086, 0x5768b525, 0x206f85b3, 0xb966d409, 0xce61e49f]
    case 15 => [0x5edef90e, 0x29d9c998, 0xb0d09822, 0xc7d7a8b4, 0x59b33d17, 0x2eb40d81, 0xb7bd5c3b, 0xc0ba6cad]
    case 16 => [0xedb88320, 0x9abfb3b6, 0x03b6e20c, 0x74b1d29a, 0xead54739, 0x9dd277af, 0x04db2615, 0x73dc1683]
    case 17 => [0xe3630b12, 0x94643b84, 0x0d6d6a3e, 0x7a6a5aa8, 0xe40ecf0b, 0x9309ff9d, 0x0a00ae27, 0x7d079eb1]
    case 18 => [0xf00f9344, 0x8708a3d2, 0x1e01f268, 0x6906c2fe, 0xf762575d, 0x806567cb, 0x196c3671, 0x6e6b06e7]
    case 19 => [0xfed41b76, 0x89d32be0, 0x10da7a5a, 0x67dd4acc, 0xf9b9df6f, 0x8ebeeff9, 0x17b7be43, 0x60b08ed5]
    case 20 => [0xd6d6a3e8, 0xa1d1937e, 0x38d8c2c4, 0x4fdff252, 0xd1bb67f1, 0xa6bc5767, 0x3fb506dd, 0x48b2364b]
    case 21 => [0xd80d2bda, 0xaf0a1b4c, 0x36034af6, 0x41047a60, 0xdf60efc3, 0xa867df55, 0x316e8eef, 0x4669be79]
    case 22 => [0xcb61b38c, 0xbc66831a, 0x256fd2a0, 0x5268e236, 0xcc0c7795, 0xbb0b4703, 0x220216b9, 0x5505262f]
    case 23 => [0xc5ba3bbe, 0xb2bd0b28, 0x2bb45a92, 0x5cb36a04, 0xc2d7ffa7, 0xb5d0cf31, 0x2cd99e8b, 0x5bdeae1d]
    case 24 => [0x9b64c2b0, 0xec63f226, 0x756aa39c, 0x026d930a, 0x9c0906a9, 0xeb0e363f, 0x72076785, 0x05005713]
    case 25 => [0x95bf4a82, 0xe2b87a14, 0x7bb12bae, 0x0cb61b38, 0x92d28e9b, 0xe5d5be0d, 0x7cdcefb7, 0x0bdbdf21]
    case 26 => [0x86d3d2d4, 0xf1d4e242, 0x68ddb3f8, 0x1fda836e, 0x81be16cd, 0xf6b9265b, 0x6fb077e1, 0x18b74777]
    case 27 => [0x88085ae6, 0xff0f6a70, 0x66063bca, 0x11010b5c, 0x8f659eff, 0xf862ae69, 0x616bffd3, 0x166ccf45]
    case 28 => [0xa00ae278, 0xd70dd2ee, 0x4e048354, 0x3903b3c2, 0xa7672661, 0xd06016f7, 0x4969474d, 0x3e6e77db]
    case 29 => [0xaed16a4a, 0xd9d65adc, 0x40df0b66, 0x37d83bf0, 0xa9bcae53, 0xdebb9ec5, 0x47b2cf7f, 0x30b5ffe9]
    case 30 => [0xbdbdf21c, 0xcabac28a, 0x53b39330, 0x24b4a3a6, 0xbad03605, 0xcdd70693, 0x54de5729, 0x23d967bf]
    case _ => [0xb3667a2e, 0xc4614ab8, 0x5d681b02, 0x2a6f2b94, 0xb40bbe37, 0xc30c8ea1, 0x5a05df1b, 0x2d02ef8d]
  }

  /** `crc32_tab[y]` */
  function Table(y: bv32): bv32
    requires y <= 0xff
  {
    TableRow((y >> 3) as int)[(y & 7) as int]
  }

  // The word operations carry names: the proofs below reason with the few
  // algebraic laws stated here and never look at single bits twice.

  function Xor(a: bv32, b: bv32): bv32 { a ^ b }
  function Half(x: bv32): bv32 { x >> 1 }
  predicate Odd(x: bv32) { x & 1 == 1 }
  function Low8(x: bv32): bv32 { x & 0xff }
  function Shr8(x: bv32): bv32 { x >> 8 }
  function Shl8(x: bv32): bv32 { x << 8 }
  function Word(b: byte): bv32 { b as bv32 }

  /** One bit of reflected CRC-32, polynomial 0xEDB88320. */
  function Bit(x: bv32): bv32 {
    if x & 1 == 1 then (x >> 1) ^ 0xEDB88320 else x >> 1
  }

  function Bits(x: bv32, n: nat): bv32
    decreases n
  {
    if n == 0 then x else Bits(Bit(x), n - 1)
  }

  /** The reference checksum: exclusive-or each byte in, then shift its eight bits out. */
  function Bitwise(s: seq<byte>, seed: bv32): bv32
    decreases |s|
  {
    if s == [] then seed else Bitwise(s[1..], Bits(Xor(seed, Word(s[0])), 8))
  }

  function Crc(s: seq<byte>): bv32 {
    Xor(Bitwise(s, 0xffffffff), 0xffffffff)
  }

  /** The lowest byte of a word. */
  function LowByte(x: bv32): byte {
    assert x & 0xff <= 0xff;
    Low8(x) as int
  }

  /** The bytes of a word, least significant first. */
  function WordBytes(x: bv32): (s: seq<byte>)
    ensures |s| == 4
  {
    [LowByte(x), LowByte(Shr8(x)), LowByte(Shr8(Shr8(x))), LowByte(Shr8(Shr8(Shr8(x))))]
  }

  /** A checksum as the number that is stored. */
  function Number(crc: bv32): (n: nat)
    ensures n < U32
  {
    StoreLoaded(WordBytes(crc));
    Pow256Values();
    FromLe(WordBytes(crc))
  }

  /** One step of the table-driven loop. */
  function TableStep(x: bv32, b: byte): bv32 {
    Xor(Table(Low8(Xor(x, Word(b)))), Shr8(x))
  }

  // ----- laws of the word operations -----

  lemma XorAssoc(a: bv32, b: bv32, c: bv32)
    ensures Xor(Xor(a, b), c) == Xor(a, Xor(b, c))
  {}

  lemma XorComm(a: bv32, b: bv32)
    ensures Xor(a, b) == Xor(b, a)
  {}

  lemma XorCancel(a: bv32, b: bv32)
    ensures Xor(Xor(a, b), b) == a
  {}

  lemma XorSwap(a: bv32, b: bv32, p: bv32)
    ensures Xor(Xor(a, p), b) == Xor(Xor(a, b), p)
  {
    XorAssoc(a, p, b);
    XorAssoc(a, b, p);
    XorComm(p, b);
  }

  lemma XorBoth(a: bv32, b: bv32, p: bv32, q: bv32)
    ensures Xor(Xor(a, p), Xor(b, q)) == Xor(Xor(a, b), Xor(p, q))
  {
    XorSwap(a, Xor(b, q), p);
    XorAssoc(a, b, q);
    XorSwap(Xor(a, b), p, q);
    XorAssoc(Xor(a, b), p, q);
  }

  lemma HalfXor(a: bv32, b: bv32)
    ensures Half(Xor(a, b)) == Xor(Half(a), Half(b))
    ensures Odd(Xor(a, b)) <==> Odd(a) != Odd(b)
  {}

  lemma BitNamed(x: bv32)
    ensures Bit(x) == if Odd(x) then Xor(Half(x), 0xEDB88320) else Half(x)
  {}

  lemma BitXor(a: bv32, b: bv32)
    ensures Bit(Xor(a, b)) == Xor(Bit(a), Bit(b))
  {
    BitNamed(a);
    BitNamed(b);
    BitNamed(Xor(a, b));
    HalfXor(a, b);
    var p := 0xEDB88320;
    XorSwap(Half(a), Half(b), p);
    XorAssoc(Half(a), Half(b), p);
    XorBoth(Half(a), Half(b), p, p);
    XorCancel(Xor(Half(a), Half(b)), Xor(p, p));
  }

  /** The shift register is linear. */
  lemma {:induction false} BitsXor(a: bv32, b: bv32, n: nat)
    ensures Bits(Xor(a, b), n) == Xor(Bits(a, n), Bits(b, n))
    decreases n
  {
    if n > 0 {
      BitXor(a, b);
      BitsXor(Bit(a), Bit(b), n - 1);
    }
  }

  lemma BitInjective(a: bv32, b: bv32)
    requires Bit(a) == Bit(b)
    ensures a == b
  {}

  /** The shift register loses nothing: the polynomial has its top bit set. */
  lemma {:induction false} BitsInjective(a: bv32, b: bv32, n: nat)
    requires Bits(a, n) == Bits(b, n)
    ensures a == b
    decreases n
  {
    if n > 0 {
      BitsInjective(Bit(a), Bit(b), n - 1);
      BitInjective(a, b);
    }
  }


  // ----- the table -----

  function Bits8(x: bv32): bv32 { Bit(Bit(Bit(Bit(Bit(Bit(Bit(Bit(x)))))))) }

  lemma Bits8IsBits(x: bv32)
    ensures Bits(x, 8) == Bits8(x)
  {
    assert Bits(x, 8) == Bits(Bit(Bit(x)), 6);
    assert Bits(Bit(Bit(x)), 6) == Bits(Bit(Bit(Bit(Bit(x)))), 4);
  }

  function RowOf(f: bv32 -> bv32, x: bv32): seq<bv32> {
    [f(x), f(x + 1), f(x + 2), f(x + 3), f(x + 4), f(x + 5), f(x + 6), f(x + 7)]
  }

  function ComputedRow(x: bv32): seq<bv32> {
    RowOf(Bits8, x)
  }

  lemma Row0() ensures TableRow(0) == ComputedRow(0) {}
  lemma Row1() ensures TableRow(1) == ComputedRow(8) {}
  lemma Row2() ensures TableRow(2) == ComputedRow(16) {}
  lemma Row3() ensures TableRow(3) == ComputedRow(24) {}
  lemma Row4() ensures TableRow(4) == ComputedRow(32) {}
  lemma Row5() ensures TableRow(5) == ComputedRow(40) {}
  lemma Row6() ensures TableRow(6) == ComputedRow(48) {}
  lemma Row7() ensures TableRow(7) == ComputedRow(56) {}
  lemma Row8() ensures TableRow(8) == ComputedRow(64) {}
  lemma Row9() ensures TableRow(9) == ComputedRow(72) {}
  lemma Row10() ensures TableRow(10) == ComputedRow(80) {}
  lemma Row11() ensures TableRow(11) == ComputedRow(88) {}
  lemma Row12() ensures TableRow(12) == ComputedRow(96) {}
  lemma Row13() ensures TableRow(13) == ComputedRow(104) {}
  lemma Row14() ensures TableRow(14) == ComputedRow(112) {}
  lemma Row15() ensures TableRow(15) == ComputedRow(120) {}
  lemma Row16() ensures TableRow(16) == ComputedRow(128) {}
  lemma Row17() ensures TableRow(17) == ComputedRow(136) {}
  lemma Row18() ensures TableRow(18) == ComputedRow(144) {}
  lemma Row19() ensures TableRow(19) == ComputedRow(152) {}
  lemma Row20() ensures TableRow(20) == ComputedRow(160) {}
  lemma Row21() ensures TableRow(21) == ComputedRow(168) {}
  lemma Row22() ensures TableRow(22) == ComputedRow(176) {}
  lemma Row23() ensures TableRow(23) == ComputedRow(184) {}
  lemma Row24() ensures TableRow(24) == ComputedRow(192) {}
  lemma Row25() ensures TableRow(25) == ComputedRow(200) {}
  lemma Row26() ensures TableRow(26) == ComputedRow(208) {}
  lemma Row27() ensures TableRow(27) == ComputedRow(216) {}
  lemma Row28() ensures TableRow(28) == ComputedRow(224) {}
  lemma Row29() ensures TableRow(29) == ComputedRow(232) {}
  lemma Row30() ensures TableRow(30) == ComputedRow(240) {}
  lemma Row31() ensures TableRow(31) == ComputedRow(248) {}

  lemma Rows0(x: bv32)
    requires x & 7 == 0 && 0 <= x <= 63
    ensures TableRow((x >> 3) as int) == ComputedRow(x)
  {
    if x == 0 { Row0(); }
    else if x == 8 { Row1(); }
    else if x == 16 { Row2(); }
    else if x == 24 { Row3(); }
    else if x == 32 { Row4(); }
    else if x == 40 { Row5(); }
    else if x == 48 { Row6(); }
    else if x == 56 { Row7(); }
  }

  lemma Rows8(x: bv32)
    requires x & 7 == 0 && 64 <= x <= 127
    ensures TableRow((x >> 3) as int) == ComputedRow(x)
  {
    if x == 64 { Row8(); }
    else if x == 72 { Row9(); }
    else if x == 80 { Row10(); }
    else if x == 88 { Row11(); }
    else if x == 96 { Row12(); }
    else if x == 104 { Row13(); }
    else if x == 112 { Row14(); }
    else if x == 120 { Row15(); }
  }

  lemma Rows16(x: bv32)
    requires x & 7 == 0 && 128 <= x <= 191
    ensures TableRow((x >> 3) as int) == ComputedRow(x)
  {
    if x == 128 { Row16(); }
    else if x == 136 { Row17(); }
    else if x == 144 { Row18(); }
    else if x == 152 { Row19(); }
    else if x == 160 { Row20(); }
    else if x == 168 { Row21(); }
    else if x == 176 { Row22(); }
    else if x == 184 { Row23(); }
  }

  lemma Rows24(x: bv32)
    requires x & 7 == 0 && 192 <= x <= 255
    ensures TableRow((x >> 3) as int) == ComputedRow(x)
  {
    if x == 192 { Row24(); }
    else if x == 200 { Row25(); }
    else if x == 208 { Row26(); }
    else if x == 216 { Row27(); }
    else if x == 224 { Row28(); }
    else if x == 232 { Row29(); }
    else if x == 240 { Row30(); }
    else if x == 248 { Row31(); }
  }

  lemma InRow(f: bv32 -> bv32, x: bv32, j: bv32)
    requires j <= 7
    ensures RowOf(f, x)[j as int] == f(x + j)
  {
    assert j == 0 || j == 1 || j == 2 || j == 3 || j == 4 || j == 5 || j == 6 || j == 7;
  }

  lemma RowComputed(x: bv32)
    requires x & 7 == 0 && x <= 0xff
    ensures TableRow((x >> 3) as int) == ComputedRow(x)
  {
    if x < 64 { Rows0(x); } else if x < 128 { Rows8(x); } else if x < 192 { Rows16(x); } else { Rows24(x); }
  }

  lemma SplitIndex(y: bv32)
    requires y <= 0xff
    ensures (y & 0xf8) >> 3 == y >> 3 && (y & 0xf8) + (y & 7) == y
    ensures (y & 0xf8) & 7 == 0 && y & 0xf8 <= 0xff
  {}

  /** Every entry of `crc32_tab` is its index with eight bits shifted out. */
  lemma TableComputed(y: bv32)
    requires y <= 0xff
    ensures Table(y) == Bits(y, 8)
  {
    SplitIndex(y);
    RowComputed(y & 0xf8);
    InRow(Bits8, y & 0xf8, y & 7);
    Bits8IsBits(y);
  }

  lemma SplitByte(y: bv32)
    ensures Xor(Low8(y), y & 0xffffff00) == y
    ensures Shr8(y & 0xffffff00) == Shr8(y)
    ensures Low8(y & 0xffffff00) == 0
  {}

  lemma ShiftOut(x: bv32)
    requires Low8(x) == 0
    ensures Bits(x, 8) == Shr8(x)
  {
    Bits8IsBits(x);
    ShiftOutExpanded(x);
  }

  lemma ShiftOutExpanded(x: bv32)
    requires x & 0xff == 0
    ensures Bits8(x) == x >> 8
  {}

  lemma WordIsSmall(b: byte)
    ensures Word(b) <= 0xff
  {}

  lemma Shr8Ignores(x: bv32, w: bv32)
    requires w <= 0xff
    ensures Shr8(Xor(x, w)) == Shr8(x)
  {}

  /** The table-driven step shifts eight bits at once. */
  lemma TableStepIsBits(x: bv32, b: byte)
    ensures TableStep(x, b) == Bits(Xor(x, Word(b)), 8)
  {
    var y := Xor(x, Word(b));
    SplitByte(y);
    BitsXor(Low8(y), y & 0xffffff00, 8);
    ShiftOut(y & 0xffffff00);
    TableComputed(Low8(y));
    WordIsSmall(b);
    Shr8Ignores(x, Word(b));
  }

  // ----- the loop -----

  lemma {:induction false} BitwiseConcat(s: seq<byte>, t: seq<byte>, seed: bv32)
    ensures Bitwise(s + t, seed) == Bitwise(t, Bitwise(s, seed))
    decreases |s|
  {
    if s == [] {
      assert s + t == t;
    } else {
      assert (s + t)[1..] == s[1..] + t;
      BitwiseConcat(s[1..], t, Bits(Xor(seed, Word(s[0])), 8));
    }
  }

  lemma BitwiseLast(s: seq<byte>, b: byte, seed: bv32)
    ensures Bitwise(s + [b], seed) == Bits(Xor(Bitwise(s, seed), Word(b)), 8)
  {
    BitwiseConcat(s, [b], seed);
    var x := Bitwise(s, seed);
    assert [b][1..] == [];
    assert Bitwise([b], x) == Bitwise([b][1..], Bits(Xor(x, Word(b)), 8));
  }

  lemma BitwiseNone(s: seq<byte>, seed: bv32)
    requires s == []
    ensures Bitwise(s, seed) == seed
  {}

  method TableRound(x: bv32, b: byte) returns (y: bv32)
    ensures y == Bits(Xor(x, Word(b)), 8)
  {
    TableStepIsBits(x, b);
    y := TableStep(x, b);
  }

  /** `__efi_crc32`: the table-driven loop computes the bit-by-bit checksum. */
  method EfiCrc32(buf: array<byte>, off: nat, len: nat, seed: bv32) returns (crc: bv32)
    requires off + len <= buf.Length
    ensures crc == Bitwise(buf[off..off + len], seed)
  {
    hide Bitwise, Bits;
    crc := seed;
    BitwiseNone(buf[off..off + 0], seed);
    for i := 0 to len
      invariant crc == Bitwise(buf[off..off + i], seed)
    {
      BitwiseLast(buf[off..off + i], buf[off + i], seed);
      assert buf[off..off + i + 1] == buf[off..off + i] + [buf[off + i]];
      crc := TableRound(crc, buf[off + i]);
    }
  }

  /** `crc32` */
  method Checksum(buf: array<byte>, off: nat, len: nat) returns (crc: bv32)
    requires off + len <= buf.Length
    ensures crc == Crc(buf[off..off + len])
  {
    crc := EfiCrc32(buf, off, len, 0xffffffff);
    crc := Xor(crc, 0xffffffff);
  }

  // ----- damage is noticed -----

  lemma {:induction false} BitwiseInjective(s: seq<byte>, a: bv32, b: bv32)
    requires Bitwise(s, a) == Bitwise(s, b)
    ensures a == b
    decreases |s|
  {
    if s != [] {
      var w := Word(s[0]);
      BitwiseInjective(s[1..], Bits(Xor(a, w), 8), Bits(Xor(b, w), 8));
      BitsInjective(Xor(a, w), Xor(b, w), 8);
      XorCancel(a, w);
      XorCancel(b, w);
    }
  }

  /** Up to four bytes, first byte lowest. */
  function PackedWord(u: seq<byte>): bv32
    decreases |u|
  {
    if u == [] then 0 else Xor(Word(u[0]), Shl8(PackedWord(u[1..])))
  }

  predicate Bounded(x: bv32, n: nat) {
    if n == 0 then x == 0
    else if n == 1 then x <= 0xff
    else if n == 2 then x <= 0xffff
    else if n == 3 then x <= 0xffffff
    else true
  }

  lemma PackStep(w: bv32, x: bv32, n: nat)
    requires w <= 0xff && Bounded(x, n)
    ensures Bounded(Xor(w, Shl8(x)), n + 1)
  {}

  lemma {:induction false} PackedWithin(u: seq<byte>)
    ensures Bounded(PackedWord(u), |u|)
    decreases |u|
  {
    if u != [] {
      PackedWithin(u[1..]);
      WordIsSmall(u[0]);
      PackStep(Word(u[0]), PackedWord(u[1..]), |u| - 1);
    }
  }

  lemma PackedTail(u: seq<byte>)
    requires 0 < |u| <= 4
    ensures PackedWord(u[1..]) <= 0xffffff
  {
    PackedWithin(u[1..]);
    WithinThree(PackedWord(u[1..]), |u| - 1);
  }

  lemma WithinThree(x: bv32, n: nat)
    requires Bounded(x, n) && n <= 3
    ensures x <= 0xffffff
  {}

  lemma {:induction false} WordValue(b: byte)
    ensures Word(b) as int == b
  {
    if b > 0 {
      WordValue(b - 1);
      WordIsSmall(b - 1);
      WordSuccessor(Word(b - 1), b);
    }
  }

  lemma WordSuccessor(y: bv32, b: byte)
    requires y <= 0xff && y as int + 1 == b
    ensures Word(b) as int == b
  {
    assert (y + 1) as int == y as int + 1;
    IntToWord(y + 1);
  }

  lemma IntToWord(y: bv32)
    ensures (y as int) as bv32 == y
  {}

  lemma WordInjective(a: byte, b: byte)
    requires Word(a) == Word(b)
    ensures a == b
  {
    WordValue(a);
    WordValue(b);
  }

  lemma PackStepInjective(w: bv32, x: bv32, w': bv32, x': bv32)
    requires w <= 0xff && w' <= 0xff && x <= 0xffffff && x' <= 0xffffff
    requires Xor(w, Shl8(x)) == Xor(w', Shl8(x'))
    ensures w == w' && x == x'
  {}

  lemma {:induction false} PackedInjective(u: seq<byte>, v: seq<byte>)
    requires |u| == |v| <= 4
    requires PackedWord(u) == PackedWord(v)
    ensures u == v
    decreases |u|
  {
    if u != [] {
      PackedTail(u);
      PackedTail(v);
      WordIsSmall(u[0]);
      WordIsSmall(v[0]);
      PackStepInjective(Word(u[0]), PackedWord(u[1..]), Word(v[0]), PackedWord(v[1..]));
      WordInjective(u[0], v[0]);
      PackedInjective(u[1..], v[1..]);
      assert u == [u[0]] + u[1..] && v == [v[0]] + v[1..];
    }
  }

  lemma ShiftBack(x: bv32)
    requires x <= 0xffffff
    ensures Bits(Shl8(x), 8) == x
  {
    ShiftBackExpanded(x);
    ShiftOut(Shl8(x));
  }

  lemma ShiftBackExpanded(x: bv32)
    requires x <= 0xffffff
    ensures Low8(Shl8(x)) == 0 && Shr8(Shl8(x)) == x
  {}

  lemma XorWithin(x: bv32, y: bv32)
    requires x <= 0xffffff && y <= 0xffffff
    ensures Xor(x, y) <= 0xffffff
  {}

  lemma Shl8Xor(x: bv32, y: bv32)
    ensures Shl8(Xor(x, y)) == Xor(Shl8(x), Shl8(y))
  {}

  lemma ShiftedApart(a: bv32, b: bv32, x: bv32, y: bv32)
    requires Xor(Bits(a, 8), Bits(b, 8)) == Xor(x, y)
    requires x <= 0xffffff && y <= 0xffffff
    ensures Xor(a, b) == Shl8(Xor(x, y))
  {
    BitsXor(a, b, 8);
    XorWithin(x, y);
    ShiftBack(Xor(x, y));
    BitsInjective(Xor(a, b), Shl8(Xor(x, y)), 8);
  }

  lemma SameEndStep(a: bv32, b: bv32, p: bv32, q: bv32, x: bv32, y: bv32)
    requires Xor(Xor(a, p), Xor(b, q)) == Shl8(Xor(x, y))
    ensures Xor(a, b) == Xor(Xor(p, Shl8(x)), Xor(q, Shl8(y)))
  {
    Shl8Xor(x, y);
    XorBoth(a, b, p, q);
    XorBoth(p, q, Shl8(x), Shl8(y));
    XorCancel(Xor(a, b), Xor(p, q));
    XorComm(Xor(p, q), Xor(Shl8(x), Shl8(y)));
  }

  lemma XorZero(x: bv32, y: bv32)
    ensures Xor(x, x) == 0
    ensures Xor(x, y) == 0 ==> x == y
  {}

  /** Two runs over at most four bytes that end alike started exactly as far
      apart as the bytes themselves are. */
  lemma {:induction false} SameEnd(u: seq<byte>, v: seq<byte>, a: bv32, b: bv32)
    requires |u| == |v| <= 4
    requires Bitwise(u, a) == Bitwise(v, b)
    ensures Xor(a, b) == Xor(PackedWord(u), PackedWord(v))
    decreases |u|
  {
    if u == [] {
      XorZero(a, b);
      XorZero(0, 0);
    } else {
      var p, q := Word(u[0]), Word(v[0]);
      var x, y := PackedWord(u[1..]), PackedWord(v[1..]);
      SameEnd(u[1..], v[1..], Bits(Xor(a, p), 8), Bits(Xor(b, q), 8));
      PackedTail(u);
      PackedTail(v);
      ShiftedApart(Xor(a, p), Xor(b, q), x, y);
      SameEndStep(a, b, p, q, x, y);
    }
  }

  lemma CrcInjective(s: seq<byte>, t: seq<byte>)
    requires Crc(s) == Crc(t)
    ensures Bitwise(s, 0xffffffff) == Bitwise(t, 0xffffffff)
  {
    XorCancel(Bitwise(s, 0xffffffff), 0xffffffff);
    XorCancel(Bitwise(t, 0xffffffff), 0xffffffff);
  }

  /** Damage confined to four consecutive bytes always changes the checksum,
      whatever the length of the buffer and wherever the damage lies. */
  lemma BurstDetected(s: seq<byte>, t: seq<byte>, lo: nat)
    requires |s| == |t| && s != t
    requires OnlyIn(s, t, lo, lo + 4)
    ensures Crc(s) != Crc(t)
  {
    var hi := if lo + 4 <= |s| then lo + 4 else |s|;
    var lo := if lo <= |s| then lo else |s|;
    var p, q := s[..lo], s[hi..];
    var u, v := s[lo..hi], t[lo..hi];
    assert s == p + (u + q);
    assert t == p + (v + q);
    var x := Bitwise(p, 0xffffffff);
    BitwiseConcat(p, u + q, 0xffffffff);
    BitwiseConcat(p, v + q, 0xffffffff);
    BitwiseConcat(u, q, x);
    BitwiseConcat(v, q, x);
    if Crc(s) == Crc(t) {
      CrcInjective(s, t);
      BitwiseInjective(q, Bitwise(u, x), Bitwise(v, x));
      SameEnd(u, v, x, x);
      XorZero(x, x);
      XorZero(PackedWord(u), PackedWord(v));
      PackedInjective(u, v);
    }
  }
}
