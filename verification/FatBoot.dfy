/** The boot sector of a volume: its bytes, and what a reader after section 3 of
    the FAT specification finds in them. */
module FatBoot {
  import opened Arith
  import opened Bytes
  import opened FatLayout

  function Ascii(s: string): (b: seq<byte>)
    ensures |b| == |s|
  {
    seq(|s|, i requires 0 <= i < |s| => s[i] as int % 256)
  }

  /** Byte `i` of the boot sector. */
  function BootByte(g: Geometry, i: nat): byte
    requires i < 512
  {
    if i < 3 then [0xEB, 0x00, 0x90][i]
    else if i < 11 then Ascii("mkfs.fat")[i - 3]
    else if i < 13 then Le(g.sector, 2)[i - 11]
    else if i < 14 then Le(g.spc, 1)[i - 13]
    else if i < 16 then Le(8, 2)[i - 14]
    else if i < 17 then Le(2, 1)[i - 16]
    else if i < 21 then 0
    else if i < 22 then g.media
    else if i < 24 then 0
    else if i < 26 then Le(32, 2)[i - 24]
    else if i < 28 then Le(8, 2)[i - 26]
    else if i < 32 then 0
    else if i < 36 then Le(g.nSector, 4)[i - 32]
    else if i < 40 then Le(g.fatSectors, 4)[i - 36]
    else if i < 44 then 0
    else if i < 48 then Le(2, 4)[i - 44]
    else if i < 50 then Le(1, 2)[i - 48]
    else if i < 52 then Le(6, 2)[i - 50]
    else if i == 64 then 0x80
    else if i == 66 then 0x29
    else if 67 <= i < 71 then Le(0xe5792f15, 4)[i - 67]
    else if 71 <= i < 82 then Ascii("NO NAME    ")[i - 71]
    else if 82 <= i < 90 then Ascii("FAT32   ")[i - 82]
    else if i == 510 then 0x55
    else if i == 511 then 0xAA
    else 0
  }

  function BootSector(g: Geometry): (s: seq<byte>)
    ensures |s| == 512
  {
    seq(512, i requires 0 <= i < 512 => BootByte(g, i))
  }

  // ----- the reader -----

  /** Bytes 0 to 10: jump and OEM name. */
  predicate NameTells(s: seq<byte>)
    requires |s| == 512
  {
    s[0..3] == [0xEB, 0x00, 0x90] && s[3..11] == [0x6D, 0x6B, 0x66, 0x73, 0x2E, 0x66, 0x61, 0x74]
  }

  /** Bytes 11 to 23: the parameters all FAT volumes share. */
  predicate HeadTells(s: seq<byte>, g: Geometry)
    requires |s| == 512
  {
    && Field(s, 11, 2) == g.sector && s[13] == g.spc && Field(s, 14, 2) == 8 && s[16] == 2
    && Field(s, 17, 2) == 0 && Field(s, 19, 2) == 0 && s[21] == g.media && Field(s, 22, 2) == 0
  }

  /** Bytes 24 to 35: the disk's shape and the sector count. */
  predicate ShapeTells(s: seq<byte>, g: Geometry)
    requires |s| == 512
  {
    && Field(s, 24, 2) == 32 && Field(s, 26, 2) == 8 && Field(s, 28, 4) == 0 && Field(s, 32, 4) == g.nSector
  }

  /** Bytes 36 to 70: the parameters of FAT32. */
  predicate Fat32Tells(s: seq<byte>, g: Geometry)
    requires |s| == 512
  {
    && Field(s, 36, 4) == g.fatSectors && Field(s, 40, 2) == 0 && Field(s, 42, 2) == 0 && Field(s, 44, 4) == 2
    && Field(s, 48, 2) == 1 && Field(s, 50, 2) == 6 && s[52..64] == Zeros(12) && s[64] == 0x80 && s[65] == 0
    && s[66] == 0x29 && Field(s, 67, 4) == 0xE579_2F15
  }

  /** Bytes 71 to 511: the labels and the signature. */
  predicate LabelsTell(s: seq<byte>)
    requires |s| == 512
  {
    && s[71..82] == [0x4E, 0x4F, 0x20, 0x4E, 0x41, 0x4D, 0x45, 0x20, 0x20, 0x20, 0x20]
    && s[82..90] == [0x46, 0x41, 0x54, 0x33, 0x32, 0x20, 0x20, 0x20] && s[90..510] == Zeros(420)
    && s[510] == 0x55 && s[511] == 0xAA
  }

  lemma BootSlice(g: Geometry, a: nat, b: nat, s: seq<byte>)
    requires a <= b <= 512 && |s| == b - a
    requires forall k :: a <= k < b ==> BootByte(g, k) == s[k - a]
    ensures BootSector(g)[a..b] == s
  {
    hide BootByte;
    var t := BootSector(g)[a..b];
    forall i | 0 <= i < b - a
      ensures t[i] == s[i]
    {
      assert t[i] == BootSector(g)[a + i] == BootByte(g, a + i);
    }
  }

  lemma BootNumber(g: Geometry, a: nat, w: nat, v: nat)
    requires a + w <= 512 && v < Pow256(w)
    requires forall k :: a <= k < a + w ==> BootByte(g, k) == Le(v, w)[k - a]
    ensures Field(BootSector(g), a, w) == v
  {
    hide BootByte;
    BootSlice(g, a, a + w, Le(v, w));
    FieldStored(BootSector(g), a, w, v);
  }

  lemma NameRead(g: Geometry)
    ensures NameTells(BootSector(g))
  {
    hide BootSector;
    BootSlice(g, 0, 3, [0xEB, 0x00, 0x90]);
    BootSlice(g, 3, 11, [0x6D, 0x6B, 0x66, 0x73, 0x2E, 0x66, 0x61, 0x74]);
  }

  lemma ShapeRead(g: Geometry)
    requires g.nSector < U32
    ensures ShapeTells(BootSector(g), g)
  {
    hide Field, BootSector;
    Pow256Values();
    LeZero(4);
    BootNumber(g, 24, 2, 32);
    BootNumber(g, 26, 2, 8);
    BootNumber(g, 28, 4, 0);
    BootNumber(g, 32, 4, g.nSector);
  }

  lemma HeadRead(g: Geometry)
    requires ValidSectorSize(g.sector) && ValidClusterSize(g.spc)
    ensures HeadTells(BootSector(g), g)
  {
    hide Field, BootSector;
    Pow256Values();
    LeZero(2);
    BootNumber(g, 11, 2, g.sector);
    BootSlice(g, 13, 14, [g.spc]);
    BootNumber(g, 14, 2, 8);
    BootSlice(g, 16, 17, [2]);
    BootNumber(g, 17, 2, 0);
    BootNumber(g, 19, 2, 0);
    BootSlice(g, 21, 22, [g.media]);
    BootNumber(g, 22, 2, 0);
    Singles(BootSector(g), 13);
    Singles(BootSector(g), 16);
    Singles(BootSector(g), 21);
  }

  lemma Singles(s: seq<byte>, i: nat)
    requires i < |s|
    ensures s[i..i + 1] == [s[i]]
  {
  }

  lemma Fat32Read(g: Geometry)
    requires g.fatSectors < U32
    ensures Fat32Tells(BootSector(g), g)
  {
    hide Field, BootSector;
    Pow256Values();
    LeZero(2);
    BootNumber(g, 36, 4, g.fatSectors);
    BootNumber(g, 40, 2, 0);
    BootNumber(g, 42, 2, 0);
    BootNumber(g, 44, 4, 2);
    BootNumber(g, 48, 2, 1);
    BootNumber(g, 50, 2, 6);
    BootSlice(g, 52, 64, Zeros(12));
    BootSlice(g, 64, 67, [0x80, 0, 0x29]);
    BootNumber(g, 67, 4, 0xE579_2F15);
    LastBytes(BootSector(g));
  }

  lemma LabelsRead(g: Geometry)
    ensures LabelsTell(BootSector(g))
  {
    hide BootSector;
    BootSlice(g, 71, 82, [0x4E, 0x4F, 0x20, 0x4E, 0x41, 0x4D, 0x45, 0x20, 0x20, 0x20, 0x20]);
    BootSlice(g, 82, 90, [0x46, 0x41, 0x54, 0x33, 0x32, 0x20, 0x20, 0x20]);
    BootSlice(g, 90, 510, Zeros(420));
    BootSlice(g, 510, 512, [0x55, 0xAA]);
    LastBytes(BootSector(g));
  }

  lemma LastBytes(s: seq<byte>)
    requires |s| == 512
    ensures s[64..67] == [s[64], s[65], s[66]] && s[510..512] == [s[510], s[511]]
  {
  }

  lemma SmallCounts(g: Geometry)
    requires Sound(g)
    ensures g.nSector < U32 && g.fatSectors < U32
  {
    MulMono(1, g.sector, g.nSector);
    MulMono(1, g.sector, g.fatSectors);
  }

  predicate BootTells(s: seq<byte>, g: Geometry) {
    |s| == 512 && NameTells(s) && HeadTells(s, g) && ShapeTells(s, g) && Fat32Tells(s, g) && LabelsTell(s)
  }

  /** The boot sector of a sound layout tells all of it, and the constants of the code. */
  lemma BootSectorTells(g: Geometry)
    requires Sound(g)
    ensures BootTells(BootSector(g), g)
  {
    hide NameTells, HeadTells, ShapeTells, Fat32Tells, LabelsTell, BootSector;
    SmallCounts(g);
    NameRead(g);
    HeadRead(g);
    ShapeRead(g);
    Fat32Read(g);
    LabelsRead(g);
  }
}
