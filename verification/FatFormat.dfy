/**
 What mounting reads, byte by byte: a boot sector describes a geometry, a writer makes one that does, and mounting
 gives a geometry exactly when the medium carries a boot sector that describes it.  The fields are numbers over ranges
 of bytes, and there is no wrap-around here.
 */
module FatFormat {
  import opened FatLayout
  import opened FatWindow
  import opened FatMount

  /** The number that the bytes write, lowest first. */
  function Number(s: seq<byte>): nat {
    if s == [] then 0 else s[0] + 0x100 * Number(s[1..])
  }

  lemma NumberOfTwo(s: seq<byte>)
    requires |s| == 2
    ensures Number(s) == LdWord(s, 0)
  {
    assert Number(s[1..][1..]) == 0;
    assert Number(s[1..]) == s[1];
  }

  lemma NumberOfFour(s: seq<byte>)
    requires |s| == 4
    ensures Number(s) == LdDword(s, 0)
  {
    assert Number(s[1..][1..][1..][1..]) == 0;
    assert Number(s[1..][1..][1..]) == s[3];
    assert Number(s[1..][1..]) == s[2] as int + 0x100 * s[3] as int;
    assert Number(s[1..]) == s[1] as int + 0x100 * s[2] as int + 0x10000 * s[3] as int;
  }

  lemma Word(b: Sector, i: nat)
    requires i + 2 <= 512
    ensures LdWord(b, i) == Number(b[i..i + 2])
  {
    NumberOfTwo(b[i..i + 2]);
  }

  lemma Dword(b: Sector, i: nat)
    requires i + 4 <= 512
    ensures LdDword(b, i) == Number(b[i..i + 4])
  {
    NumberOfFour(b[i..i + 4]);
  }

  // ---------- the boot sector ----------

  function Total(b: Sector): nat {
    if Number(b[19..21]) != 0 then Number(b[19..21]) else Number(b[32..36])
  }

  function FatSize(b: Sector): nat {
    if Number(b[22..24]) != 0 then Number(b[22..24]) else Number(b[36..40])
  }

  /** Sectors in front of the first cluster. */
  function System(b: Sector): nat {
    Number(b[14..16]) + b[16] * FatSize(b) + Number(b[17..19]) / 16
  }

  /** The FAT type goes by the number of entries, which the FAT has room for; FAT32 has no root directory area. */
  predicate SizesFit(g: Geometry) {
    match g.fsType
    case Fat12 => 3 <= g.nFatent <= 4087 && 3 * g.nFatent <= 1024 * g.fsize && 0 < g.nRootdir
    case Fat16 => 4087 < g.nFatent <= 65527 && 2 * g.nFatent <= 512 * g.fsize && 0 < g.nRootdir
    case Fat32 => 65527 < g.nFatent <= 0x0FFF_FFF7 && 4 * g.nFatent <= 512 * g.fsize && g.nRootdir == 0
  }

  /** The FATs follow the reserved sectors, the root directory area the FATs, and the clusters that. */
  predicate InOrder(g: Geometry) {
    && PowerOfTwo(g.csize) && g.nFats in {1, 2} && g.nRootdir % 16 == 0 && g.volbase < g.fatbase
    && g.database == g.fatbase + g.nFats * g.fsize + g.nRootdir / 16
    && (!g.fsType.Fat32? ==> g.dirbase == g.fatbase + g.nFats * g.fsize)
  }

  /** The volume has as many clusters as there is room for behind the system sectors. */
  predicate Filled(g: Geometry, total: nat)
    requires g.nFatent >= 3
  {
    g.csize * (g.nFatent - 2) <= g.volbase + total - g.database < g.csize * (g.nFatent - 1)
  }

  /** The boot sector tells just this geometry. */
  predicate Describes(b: Sector, g: Geometry) {
    && Number(b[11..13]) == 512 && b[13] == g.csize && Number(b[14..16]) == g.fatbase - g.volbase && b[16] == g.nFats
    && Number(b[17..19]) == g.nRootdir && FatSize(b) == g.fsize
    && (g.fsType.Fat32? ==> Number(b[42..44]) == 0 && Number(b[44..48]) == g.dirbase)
    && InOrder(g) && SizesFit(g) && Filled(g, Total(b))
  }

  /** The fields as mounting loads them. */
  lemma Loaded(b: Sector)
    ensures BytesPerSector(b) == Number(b[11..13]) && ReservedSectors(b) == Number(b[14..16])
    ensures RootEntries(b) == Number(b[17..19]) && TotalSectors(b) == Total(b) && SectorsPerFat(b) == FatSize(b)
    ensures LdWord(b, 42) == Number(b[42..44]) && LdDword(b, 44) == Number(b[44..48])
    ensures Number(b[14..16]) < 0x10000 && Number(b[17..19]) < 0x10000 && Number(b[44..48]) < 0x1_0000_0000
  {
    hide Number, LdWord, LdDword;
    Word(b, 11);
    Word(b, 14);
    Word(b, 17);
    Word(b, 19);
    Dword(b, 32);
    Word(b, 22);
    Dword(b, 36);
    Word(b, 42);
    Dword(b, 44);
  }

  lemma Clusters(room: int, csize: nat, n: nat)
    requires PowerOfTwo(csize) && room >= 0
    ensures Whole(room, csize) == n <==> csize * n <= room < csize * (n + 1)
  {
  }

  lemma EnoughFat(t: FsType, n: nat, fsize: nat)
    ensures fsize >= (FatBytes(t, n) + 511) / 512 <==>
            match t
            case Fat12 => 3 * n <= 1024 * fsize
            case Fat16 => 2 * n <= 512 * fsize
            case Fat32 => 4 * n <= 512 * fsize
  {
  }

  /** Without overflow the places of FAT and clusters are plain sums. */
  lemma Sums(b: Sector, bsect: nat)
    requires b[16] in {1, 2} && System(b) < 0x1_0000_0000 && bsect + Total(b) <= 0x1_0000_0000
    ensures SystemSectors(b) == System(b) && AllFats(b) == b[16] * FatSize(b)
    ensures System(b) < Total(b) ==>
      && U32(bsect + ReservedSectors(b)) == bsect + Number(b[14..16])
      && U32(bsect + SystemSectors(b)) == bsect + System(b)
      && U32(U32(bsect + ReservedSectors(b)) + U32(AllFats(b))) == bsect + Number(b[14..16]) + b[16] * FatSize(b)
  {
    hide Number, Total, FatSize, LdWord, LdDword, TotalSectors, SectorsPerFat, ReservedSectors, RootEntries, U32;
    Loaded(b);
    NoOverflow(bsect, ReservedSectors(b), AllFats(b), RootEntries(b) / 16, Total(b));
    if System(b) < Total(b) {
      Small32(AllFats(b));
      Small32(bsect + Number(b[14..16]) + b[16] * FatSize(b));
    }
  }

  lemma MountedDescribed(b: Sector, bsect: nat)
    requires System(b) < 0x1_0000_0000 && bsect + Total(b) <= 0x1_0000_0000 && MountFat(b, bsect).Some?
    ensures Describes(b, MountFat(b, bsect).value)
  {
    hide Number, Total, FatSize, LdWord, LdDword, TotalSectors, SectorsPerFat, ReservedSectors, RootEntries, U32;
    hide OneBit, AllFats, FatBytes, BytesPerSector, Whole, SystemSectors;
    var g := MountFat(b, bsect).value;
    Loaded(b);
    Mounted(b, bsect);
    Sums(b, bsect);
    Clusters(Total(b) - System(b), g.csize, g.nFatent - 2);
    EnoughFat(g.fsType, g.nFatent, g.fsize);
  }

  lemma Room(b: Sector, g: Geometry)
    requires Describes(b, g)
    ensures g.database == g.volbase + System(b) && System(b) < Total(b) && SectorsPerCluster(b) == g.csize
    ensures Whole(Total(b) - System(b), g.csize) == g.nFatent - 2
  {
    hide Number, Total, FatSize, Whole;
    Clusters(Total(b) - System(b), g.csize, g.nFatent - 2);
  }

  lemma DescribedMounts(b: Sector, g: Geometry)
    requires System(b) < 0x1_0000_0000 && g.volbase + Total(b) <= 0x1_0000_0000 && Describes(b, g)
    ensures MountFat(b, g.volbase) == Some(g)
  {
    hide Number, Total, FatSize, LdWord, LdDword, TotalSectors, SectorsPerFat, ReservedSectors, RootEntries, U32;
    hide OneBit, AllFats, FatBytes, BytesPerSector, Whole, SystemSectors, PowerOfTwo, System;
    Loaded(b);
    OneBitIsPower(b[13]);
    Sums(b, g.volbase);
    Room(b, g);
    EnoughFat(g.fsType, g.nFatent, g.fsize);
  }

  /**
   Mounting yields a geometry exactly when the boot sector describes it, if what the sector says about sizes fits
   into 32 bits.
   */
  lemma MountExactly(b: Sector, bsect: nat, g: Geometry)
    requires System(b) < 0x1_0000_0000 && bsect + Total(b) <= 0x1_0000_0000
    ensures MountFat(b, bsect) == Some(g) <==> g.volbase == bsect && Describes(b, g)
  {
    hide MountFat, Describes, System, Total;
    if MountFat(b, bsect).Some? {
      hide FatBytes, OneBit, LdWord, LdDword;
      MountedDescribed(b, bsect);
      Mounted(b, bsect);
    }
    if g.volbase == bsect && Describes(b, g) {
      DescribedMounts(b, g);
    }
  }

  // ---------- finding the volume ----------

  /** "FAT32   " at byte 82, and the boot signature. */
  predicate SaysFat32(b: Sector) {
    b[82..90] == [0x46, 0x41, 0x54, 0x33, 0x32, 0x20, 0x20, 0x20] && b[510] == 0x55 && b[511] == 0xAA
  }

  /** The boot sector of a FAT volume: the one says so, the other has plausible fields. */
  predicate LooksLikeFat(b: Sector) {
    && b[0] in {0xEB, 0xE9, 0xE8}
    && (SaysFat32(b)
        || (&& Number(b[11..13]) == 512 && PowerOfTwo(b[13]) && Number(b[14..16]) > 0 && b[16] in {1, 2}
            && Number(b[17..19]) > 0 && (Number(b[19..21]) >= 128 || Number(b[32..36]) >= 0x1_0000)
            && Number(b[22..24]) > 0))
  }

  lemma Signature(b: Sector)
    ensures LdWord(b, 510) == 0xAA55 <==> b[510] == 0x55 && b[511] == 0xAA
  {
  }

  lemma RecognisedExactly(b: Sector)
    ensures Recognised(b) <==> LooksLikeFat(b)
  {
    hide Number, LdWord, LdDword, OneBit, PowerOfTwo;
    Loaded(b);
    Signature(b);
    OneBitIsPower(b[13]);
    Word(b, 19);
    Dword(b, 32);
    Word(b, 22);
    assert Spells(b, 82, FAT32_NAME) <==> b[82..90] == FAT32_NAME by {
      assert |b[82..90]| == 8 && forall k | 0 <= k < 8 :: b[82..90][k] == b[82 + k];
    }
  }

  /** Where the i-th partition begins. */
  function Start(b: Sector, i: nat): nat
    requires i < 4
  {
    match i
    case 0 => Number(b[454..458])
    case 1 => Number(b[470..474])
    case 2 => Number(b[486..490])
    case 3 => Number(b[502..506])
  }

  predicate PartitionHasFat(v: seq<Sector>, i: nat)
    requires v != [] && i < 4
  {
    0 < Start(v[0], i) < |v| && LooksLikeFat(v[Start(v[0], i)])
  }

  /** The k-th partition is the first from the i-th on that has a volume. */
  ghost predicate First(v: seq<Sector>, i: nat, k: nat)
    requires v != [] && k < 4
  {
    PartitionHasFat(v, k) && forall j | i <= j < k :: !PartitionHasFat(v, j)
  }

  /** The medium is one volume from its first sector on, or s is the start of the first partition with a volume. */
  ghost predicate VolumeAt(v: seq<Sector>, s: nat) {
    && v != []
    && if LooksLikeFat(v[0]) then s == 0
       else v[0][510] == 0x55 && v[0][511] == 0xAA && exists k | 0 <= k < 4 :: First(v, 0, k) && Start(v[0], k) == s
  }

  lemma PartitionStart(b: Sector, i: nat)
    requires i < 4
    ensures Partition(b, i) == Start(b, i)
  {
    hide Number;
    Dword(b, 454);
    Dword(b, 470);
    Dword(b, 486);
    Dword(b, 502);
  }

  lemma {:induction false} FirstPartition(v: seq<Sector>, i: nat, s: nat)
    requires v != [] && i <= 4
    ensures FindPartition(v, i) == Some(s) <==> exists k | i <= k < 4 :: First(v, i, k) && Start(v[0], k) == s
    decreases 4 - i
  {
    hide Start, Partition, Recognised, LooksLikeFat;
    if i < 4 {
      PartitionStart(v[0], i);
      if Partition(v[0], i) < |v| {
        RecognisedExactly(v[Partition(v[0], i)]);
      }
      if PartitionHasFat(v, i) {
        assert First(v, i, i);
      } else {
        FirstPartition(v, i + 1, s);
        assert forall k | i < k < 4 :: First(v, i, k) <==> First(v, i + 1, k);
      }
    }
  }

  lemma FoundExactly(v: seq<Sector>, s: nat)
    ensures FindVolume(v) == Some(s) <==> VolumeAt(v, s)
  {
    hide Start, Partition, Recognised, LooksLikeFat, FindPartition;
    if v != [] {
      RecognisedExactly(v[0]);
      Signature(v[0]);
      FirstPartition(v, 0, s);
    }
  }

  /** Mounting a medium gives a geometry exactly when the volume found on it carries a boot sector that describes it. */
  lemma MountsExactly(v: seq<Sector>, g: Geometry)
    requires forall s: nat | VolumeAt(v, s) && s < |v| ::
      System(v[s]) < 0x1_0000_0000 && s + Total(v[s]) <= 0x1_0000_0000
    ensures Mount(v) == Some(g) <==> g.volbase < |v| && VolumeAt(v, g.volbase) && Describes(v[g.volbase], g)
  {
    hide Start, MountFat, Describes, LooksLikeFat, FindVolume, System, Total;
    if FindVolume(v).Some? {
      var s := FindVolume(v).value;
      FoundExactly(v, s);
      FoundExactly(v, g.volbase);
      if s < |v| {
        FoundLooks(v, s);
        MountExactly(v[s], s, g);
      }
    } else {
      FoundExactly(v, g.volbase);
    }
  }

  lemma FoundLooks(v: seq<Sector>, s: nat)
    requires VolumeAt(v, s)
    ensures s < |v| && LooksLikeFat(v[s])
  {
    hide LooksLikeFat, Start;
  }

  // ---------- writing one ----------

  /** The n lowest digits of a number to base 256, lowest first. */
  function Digits(x: nat, n: nat): (s: seq<byte>)
    ensures |s| == n
  {
    if n == 0 then [] else [x % 0x100] + Digits(x / 0x100, n - 1)
  }

  lemma DigitsNumber(x: nat)
    ensures x < 0x1_0000 ==> Number(Digits(x, 2)) == x
    ensures x < 0x1_0000_0000 ==> Number(Digits(x, 4)) == x
  {
    var q1, q2, q3 := x / 0x100, x / 0x100 / 0x100, x / 0x100 / 0x100 / 0x100;
    assert Number(Digits(q3, 0)) == 0;
    assert Number(Digits(q3, 1)) == q3 % 0x100;
    assert Number(Digits(q2, 2)) == q2 % 0x100 + 0x100 * (q3 % 0x100);
    assert Number(Digits(q1, 1)) == q1 % 0x100;
    assert Number(Digits(q1, 3)) == q1 % 0x100 + 0x100 * Number(Digits(q2, 2));
  }

  /** Byte i of a boot sector; wide tells that the 32-bit field is used for the size of the volume. */
  function BootByte(g: Geometry, total: nat, wide: bool, i: nat): byte
    requires g.csize < 0x100 && g.nFats < 0x100 && g.volbase <= g.fatbase
  {
    if i == 0 then 0xEB
    else if 11 <= i < 13 then Digits(512, 2)[i - 11]
    else if i == 13 then g.csize
    else if 14 <= i < 16 then Digits(g.fatbase - g.volbase, 2)[i - 14]
    else if i == 16 then g.nFats
    else if 17 <= i < 19 then Digits(g.nRootdir, 2)[i - 17]
    else if 19 <= i < 21 && !wide then Digits(total, 2)[i - 19]
    else if 22 <= i < 24 && !g.fsType.Fat32? then Digits(g.fsize, 2)[i - 22]
    else if 32 <= i < 36 && wide then Digits(total, 4)[i - 32]
    else if 36 <= i < 40 && g.fsType.Fat32? then Digits(g.fsize, 4)[i - 36]
    else if 44 <= i < 48 && g.fsType.Fat32? then Digits(g.dirbase, 4)[i - 44]
    else if 48 <= i < 50 && g.fsType.Fat32? then Digits(1, 2)[i - 48]
    else if 82 <= i < 90 && g.fsType.Fat32? then [0x46, 0x41, 0x54, 0x33, 0x32, 0x20, 0x20, 0x20][i - 82]
    else if i == 510 then 0x55
    else if i == 511 then 0xAA
    else 0
  }

  function BootSector(g: Geometry, total: nat, wide: bool): Sector
    requires g.csize < 0x100 && g.nFats < 0x100 && g.volbase <= g.fatbase
  {
    seq(512, i requires 0 <= i < 512 => BootByte(g, total, wide, i))
  }

  /** A volume with this geometry and size can be made; the fields are wide enough. */
  predicate Makeable(g: Geometry, total: nat, wide: bool) {
    && InOrder(g) && SizesFit(g) && Filled(g, total)
    && g.fatbase - g.volbase < 0x1_0000 && g.nRootdir < 0x1_0000
    && g.fsize < (if g.fsType.Fat32? then 0x1_0000_0000 else 0x1_0000)
    && (g.fsType.Fat32? ==> g.dirbase < 0x1_0000_0000)
    && if wide then 0x1_0000 <= total < 0x1_0000_0000 else 128 <= total < 0x1_0000
  }

  lemma Piece(g: Geometry, total: nat, wide: bool, i: nat, s: seq<byte>)
    requires g.csize < 0x100 && g.nFats < 0x100 && g.volbase <= g.fatbase && i + |s| <= 512
    requires forall k | i <= k < i + |s| :: BootByte(g, total, wide, k) == s[k - i]
    ensures BootSector(g, total, wide)[i..i + |s|] == s
  {
    hide BootByte;
  }

  lemma WrittenSizes(g: Geometry, total: nat, wide: bool)
    requires Makeable(g, total, wide)
    ensures var b := BootSector(g, total, wide);
      && b[11..13] == Digits(512, 2) && b[13] == g.csize && b[14..16] == Digits(g.fatbase - g.volbase, 2)
      && b[16] == g.nFats && b[17..19] == Digits(g.nRootdir, 2)
      && (if wide then b[19] == b[20] == 0 else b[19..21] == Digits(total, 2))
      && (wide ==> b[32..36] == Digits(total, 4))
  {
    hide Digits, InOrder, SizesFit, Filled;
    ByteRange(g);
    Piece(g, total, wide, 11, Digits(512, 2));
    Piece(g, total, wide, 14, Digits(g.fatbase - g.volbase, 2));
    Piece(g, total, wide, 17, Digits(g.nRootdir, 2));
    if wide {
      Piece(g, total, wide, 32, Digits(total, 4));
    } else {
      Piece(g, total, wide, 19, Digits(total, 2));
    }
  }

  lemma ByteRange(g: Geometry)
    requires InOrder(g)
    ensures g.csize < 0x100 && g.nFats < 0x100 && g.volbase < g.fatbase
  {
  }

  lemma WrittenFatSize(g: Geometry, total: nat, wide: bool)
    requires Makeable(g, total, wide)
    ensures var b := BootSector(g, total, wide);
      if g.fsType.Fat32? then
        b[22] == b[23] == 0 && b[36..40] == Digits(g.fsize, 4) && b[42] == b[43] == 0
        && b[44..48] == Digits(g.dirbase, 4) && SaysFat32(b)
      else b[22..24] == Digits(g.fsize, 2)
  {
    hide Digits, InOrder, SizesFit, Filled;
    ByteRange(g);
    if g.fsType.Fat32? {
      Piece(g, total, wide, 36, Digits(g.fsize, 4));
      Piece(g, total, wide, 44, Digits(g.dirbase, 4));
      Piece(g, total, wide, 82, [0x46, 0x41, 0x54, 0x33, 0x32, 0x20, 0x20, 0x20]);
    } else {
      Piece(g, total, wide, 22, Digits(g.fsize, 2));
    }
  }

  lemma ZeroWord(b: Sector, i: nat)
    requires i + 2 <= 512 && b[i] == b[i + 1] == 0
    ensures Number(b[i..i + 2]) == 0
  {
    NumberOfTwo(b[i..i + 2]);
  }

  lemma WrittenDescribes(g: Geometry, total: nat, wide: bool)
    requires Makeable(g, total, wide)
    ensures var b := BootSector(g, total, wide); Describes(b, g) && LooksLikeFat(b) && Total(b) == total
  {
    hide Number, Digits, InOrder, SizesFit, Filled, BootByte, SaysFat32;
    ByteRange(g);
    var b := BootSector(g, total, wide);
    WrittenSizes(g, total, wide);
    WrittenFatSize(g, total, wide);
    DigitsNumber(512);
    DigitsNumber(g.fatbase - g.volbase);
    DigitsNumber(g.nRootdir);
    DigitsNumber(total);
    DigitsNumber(g.fsize);
    DigitsNumber(g.dirbase);
    if wide {
      ZeroWord(b, 19);
    }
    if g.fsType.Fat32? {
      ZeroWord(b, 22);
      ZeroWord(b, 42);
    }
    FirstByte(g, total, wide);
    RootNotEmpty(g);
  }

  lemma FirstByte(g: Geometry, total: nat, wide: bool)
    requires g.csize < 0x100 && g.nFats < 0x100 && g.volbase <= g.fatbase
    ensures BootSector(g, total, wide)[0] == 0xEB
  {
  }

  lemma RootNotEmpty(g: Geometry)
    requires InOrder(g) && SizesFit(g)
    ensures PowerOfTwo(g.csize) && g.nFats in {1, 2} && g.volbase < g.fatbase && g.nFatent >= 3 && g.fsize > 0
    ensures !g.fsType.Fat32? ==> g.nRootdir > 0
  {
  }

  /** On a medium that holds nothing else, mounting inverts making the volume. */
  lemma MadeIsMounted(v: seq<Sector>, g: Geometry, total: nat, wide: bool)
    requires Makeable(g, total, wide) && g.volbase == 0 && v != [] && v[0] == BootSector(g, total, wide)
    ensures Mount(v) == Some(g)
  {
    hide BootSector, Describes, LooksLikeFat, System, Total, MountFat, FindVolume;
    WrittenDescribes(g, total, wide);
    assert VolumeAt(v, 0);
    FoundExactly(v, 0);
    MadeFits(v[0], g, total, wide);
    MountExactly(v[0], 0, g);
  }

  lemma MadeFits(b: Sector, g: Geometry, total: nat, wide: bool)
    requires Makeable(g, total, wide) && Describes(b, g) && Total(b) == total
    ensures System(b) < 0x1_0000_0000
  {
    hide Number, Total, FatSize, Digits, SizesFit;
    Room(b, g);
  }

  /** A partition table: nothing but the starts of the partitions and the signature. */
  function TableByte(starts: seq<nat>, i: nat): byte
    requires |starts| == 4
  {
    if 454 <= i < 458 then Digits(starts[0], 4)[i - 454]
    else if 470 <= i < 474 then Digits(starts[1], 4)[i - 470]
    else if 486 <= i < 490 then Digits(starts[2], 4)[i - 486]
    else if 502 <= i < 506 then Digits(starts[3], 4)[i - 502]
    else if i == 510 then 0x55
    else if i == 511 then 0xAA
    else 0
  }

  function PartitionTable(starts: seq<nat>): Sector
    requires |starts| == 4
  {
    seq(512, i requires 0 <= i < 512 => TableByte(starts, i))
  }

  lemma TablePiece(starts: seq<nat>, i: nat, s: seq<byte>)
    requires |starts| == 4 && i + |s| <= 512 && forall k | i <= k < i + |s| :: TableByte(starts, k) == s[k - i]
    ensures PartitionTable(starts)[i..i + |s|] == s
  {
    hide TableByte;
  }

  lemma TableStarts(starts: seq<nat>)
    requires |starts| == 4 && forall i | 0 <= i < 4 :: starts[i] < 0x1_0000_0000
    ensures var b := PartitionTable(starts);
      && !LooksLikeFat(b) && b[510] == 0x55 && b[511] == 0xAA
      && Start(b, 0) == starts[0] && Start(b, 1) == starts[1] && Start(b, 2) == starts[2] && Start(b, 3) == starts[3]
  {
    hide Number, Digits;
    assert PartitionTable(starts)[0] == 0;
    DigitsNumber(starts[0]);
    DigitsNumber(starts[1]);
    DigitsNumber(starts[2]);
    DigitsNumber(starts[3]);
    TablePiece(starts, 454, Digits(starts[0], 4));
    TablePiece(starts, 470, Digits(starts[1], 4));
    TablePiece(starts, 486, Digits(starts[2], 4));
    TablePiece(starts, 502, Digits(starts[3], 4));
  }

  /** The same behind a partition table, in the first partition that begins with the boot sector of a FAT volume. */
  lemma MadeIsMountedInPartition(v: seq<Sector>, starts: seq<nat>, k: nat, g: Geometry, total: nat, wide: bool)
    requires |starts| == 4 && (forall i | 0 <= i < 4 :: starts[i] < 0x1_0000_0000) && k < 4
    requires Makeable(g, total, wide) && g.volbase + total <= 0x1_0000_0000
    requires 0 < g.volbase < |v| && starts[k] == g.volbase
    requires v[0] == PartitionTable(starts) && v[g.volbase] == BootSector(g, total, wide)
    requires forall j | 0 <= j < k :: starts[j] == 0 || starts[j] >= |v| || !LooksLikeFat(v[starts[j]])
    ensures Mount(v) == Some(g)
  {
    hide BootSector, Describes, LooksLikeFat, System, Total, MountFat, FindVolume, Makeable, PartitionTable;
    WrittenDescribes(g, total, wide);
    TableStarts(starts);
    assert First(v, 0, k);
    FoundExactly(v, g.volbase);
    MadeFits(v[g.volbase], g, total, wide);
    MountExactly(v[g.volbase], g.volbase, g);
  }

  // ---------- FSInfo ----------

  /** "RRaA" and "rrAa", and the boot signature. */
  predicate IsFsInfo(info: Sector) {
    && info[0..4] == [0x52, 0x52, 0x61, 0x41] && info[484..488] == [0x72, 0x72, 0x41, 0x61]
    && info[510] == 0x55 && info[511] == 0xAA
  }

  lemma Marks(info: Sector)
    ensures LdDword(info, 0) == 0x41615252 <==> info[0..4] == [0x52, 0x52, 0x61, 0x41]
    ensures LdDword(info, 484) == 0x61417272 <==> info[484..488] == [0x72, 0x72, 0x41, 0x61]
  {
    assert |info[0..4]| == 4 && forall k | 0 <= k < 4 :: info[0..4][k] == info[k];
    assert |info[484..488]| == 4 && forall k | 0 <= k < 4 :: info[484..488][k] == info[484 + k];
  }

  /** The counts that mounting takes over: from bytes 488 and 492 of an FSInfo sector in use. */
  lemma CountsExactly(g: Geometry, b: Sector, info: Sector)
    ensures MountCounts(g, b, info) ==
            if !g.fsType.Fat32? || Number(b[48..50]) != 1 then (0xFFFF_FFFF, 0xFFFF_FFFF, 0x80)
            else if IsFsInfo(info) then (Number(info[488..492]), Number(info[492..496]), 0)
            else (0xFFFF_FFFF, 0xFFFF_FFFF, 0)
  {
    hide Number, LdDword, LdWord;
    Word(b, 48);
    Marks(info);
    Signature(info);
    Dword(info, 488);
    Dword(info, 492);
  }

  /** The sector that sync_fs writes: the two marks, the signature, the counts, and nothing else. */
  lemma FsInfoExactly(freeClst: nat, lastClst: nat)
    requires freeClst < 0x1_0000_0000 && lastClst < 0x1_0000_0000
    ensures var info := FsInfoSector(freeClst, lastClst);
      && IsFsInfo(info) && Number(info[488..492]) == freeClst && Number(info[492..496]) == lastClst
      && forall i | 4 <= i < 484 || 496 <= i < 510 :: info[i] == 0
  {
    hide Number, LdDword;
    var info := FsInfoSector(freeClst, lastClst);
    Marks(info);
    LoadStored(info, 0, 0x41615252);
    LoadStored(info, 484, 0x61417272);
    LoadStored(info, 488, freeClst);
    LoadStored(info, 492, lastClst);
    Dword(info, 488);
    Dword(info, 492);
  }

  // ---------- the FAT ----------

  /** Two entries of 12 bits share three bytes. */
  lemma EntryBytes12(fb: seq<byte>, k: nat)
    requires 3 * k + 2 < |fb|
    ensures EntryOf(Fat12, fb, 2 * k) == fb[3 * k] as int + 0x100 * (fb[3 * k + 1] as int % 16)
    ensures EntryOf(Fat12, fb, 2 * k + 1) == fb[3 * k + 1] as int / 16 + 16 * fb[3 * k + 2] as int
  {
  }

  /** Entries of 16 and 32 bits are numbers; the upper four of 32 bits are not read. */
  lemma EntryNumbers(fb: seq<byte>, k: nat)
    ensures 2 * k + 2 <= |fb| ==> EntryOf(Fat16, fb, k) == Number(fb[2 * k..2 * k + 2])
    ensures 4 * k + 4 <= |fb| ==> EntryOf(Fat32, fb, k) == Number(fb[4 * k..4 * k + 4]) % 0x1000_0000
  {
    hide Number;
    if 2 * k + 2 <= |fb| {
      NumberOfTwo(fb[2 * k..2 * k + 2]);
    }
    if 4 * k + 4 <= |fb| {
      NumberOfFour(fb[4 * k..4 * k + 4]);
    }
  }

  /** The end mark has all the bits of an entry that are read. */
  lemma EndMarkIs(g: Geometry)
    ensures g.EndMark() == match g.fsType case Fat12 => 0xFFF case Fat16 => 0xFFFF case Fat32 => 0x0FFF_FFFF
  {
  }
}
