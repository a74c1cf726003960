/**
 Mounting: the geometry mount_volume derives from the boot sector of a FAT volume, and the allocation
 counts it takes over from the FSInfo sector.
 */
module FatMount {
  import opened Bitwise
  import opened FatLayout
  import opened FatWindow

  datatype Option<T> = None | Some(value: T)

  // ---------- the fields of the boot sector ----------

  function BytesPerSector(b: Sector): nat { LdWord(b, 11) }
  function SectorsPerCluster(b: Sector): nat { b[13] }
  function ReservedSectors(b: Sector): nat { LdWord(b, 14) }
  function NumberOfFats(b: Sector): nat { b[16] }
  function RootEntries(b: Sector): nat { LdWord(b, 17) }
  function TotalSectors(b: Sector): nat { if LdWord(b, 19) == 0 then LdDword(b, 32) else LdWord(b, 19) }
  function SectorsPerFat(b: Sector): nat { if LdWord(b, 22) == 0 then LdDword(b, 36) else LdWord(b, 22) }

  /** Unsigned 32-bit arithmetic. */
  function U32(x: nat): nat { x % 0x1_0000_0000 }

  /** Sectors of all the FAT copies; mounting accepts one or two. */
  function AllFats(b: Sector): nat {
    if NumberOfFats(b) == 2 then 2 * SectorsPerFat(b) else SectorsPerFat(b)
  }

  /** Reserved, FAT and root directory sectors as mount_volume adds them up, in 32 bits. */
  function SystemSectors(b: Sector): nat {
    U32(ReservedSectors(b) + U32(AllFats(b)) + RootEntries(b) / 16)
  }

  /** The same without wrap-around. */
  function TrueSystemSectors(b: Sector): nat {
    ReservedSectors(b) + AllFats(b) + RootEntries(b) / 16
  }

  function TypeOf(nclst: nat): Option<FsType> {
    if nclst <= 0xFF5 then Some(Fat12)
    else if nclst <= 0xFFF5 then Some(Fat16)
    else if nclst <= 0x0FFF_FFF5 then Some(Fat32)
    else None
  }

  /** Bytes the entries of one FAT take. */
  function FatBytes(t: FsType, nFatent: nat): nat {
    match t
    case Fat32 => nFatent * 4
    case Fat16 => nFatent * 2
    case Fat12 => nFatent * 3 / 2 + nFatent % 2
  }

  /** Bitwise and of the lowest k bits. */
  function AndBits(a: nat, b: nat, k: nat): nat {
    if k == 0 then 0 else 2 * AndBits(a / 2, b / 2, k - 1) + if a % 2 == 1 && b % 2 == 1 then 1 else 0
  }

  /** mount_volume's test of the cluster size, on the bits of the byte. */
  predicate OneBit(b: byte) { b != 0 && AndBits(b, b - 1, 8) == 0 }

  lemma {:induction false} AndSelf(a: nat, k: nat)
    requires a < Pow2(k)
    ensures AndBits(a, a, k) == a
  {
    if k > 0 {
      AndSelf(a / 2, k - 1);
    }
  }

  predicate Halving(b: nat) { b == 1 || (b > 1 && b % 2 == 0 && Halving(b / 2)) }

  /** A number and the one before have no bit in common exactly when halving leads to 1. */
  lemma {:induction false} AndBefore(b: nat, k: nat)
    requires 0 < b < Pow2(k)
    ensures AndBits(b, b - 1, k) == 0 <==> Halving(b)
  {
    if k > 0 {
      if b % 2 == 0 {
        assert (b - 1) / 2 == b / 2 - 1;
        AndBefore(b / 2, k - 1);
      } else {
        assert (b - 1) / 2 == b / 2;
        AndSelf(b / 2, k - 1);
      }
    }
  }

  lemma HalvingByte(b: byte)
    ensures Halving(b) <==> PowerOfTwo(b)
  {
    var b1, b2, b3 := b / 2, b / 4, b / 8;
    assert Halving(b3) <==> b3 in {1, 2, 4, 8, 16} by {
      assert Halving(b3 / 4) <==> b3 / 4 in {1, 2, 4};
      assert Halving(b3) <==> b3 == 1 || b3 == 2 || (b3 % 4 == 0 && Halving(b3 / 4));
    }
    assert Halving(b) <==> b == 1 || b == 2 || b == 4 || (b % 8 == 0 && Halving(b3)) by {
      assert Halving(b1) <==> b1 == 1 || (b1 > 1 && b1 % 2 == 0 && Halving(b1 / 2));
      assert b1 / 2 == b2 && b2 / 2 == b3;
    }
  }

  /** The test finds the powers of two. */
  lemma OneBitIsPower(b: byte)
    ensures OneBit(b) <==> PowerOfTwo(b)
  {
    hide PowerOfTwo;
    Pow32();
    if b != 0 {
      AndBefore(b, 8);
    }
    HalvingByte(b);
    assert !Halving(0);
  }

  /** Whole clusters of csize sectors. */
  function Whole(sectors: nat, csize: nat): nat
    requires csize > 0
  {
    sectors / csize
  }

  /** The FAT branch of mount_volume on the boot sector b at sector bsect; None is FR_NO_FILESYSTEM. */
  function MountFat(b: Sector, bsect: nat): (r: Option<Geometry>) {
    if BytesPerSector(b) != 512 then None
    else if NumberOfFats(b) != 1 && NumberOfFats(b) != 2 then None
    else if SectorsPerCluster(b) == 0 || !OneBit(b[13]) then None
    else if RootEntries(b) % 16 != 0 then None
    else if ReservedSectors(b) == 0 then None
    else if TotalSectors(b) < SystemSectors(b) then None
    else
      var nclst := Whole(TotalSectors(b) - SystemSectors(b), SectorsPerCluster(b));
      if nclst == 0 || TypeOf(nclst).None? then None
      else
        var t, fatbase := TypeOf(nclst).value, U32(bsect + ReservedSectors(b));
        if t.Fat32? && (LdWord(b, 42) != 0 || RootEntries(b) != 0) then None
        else if !t.Fat32? && RootEntries(b) == 0 then None
        else if SectorsPerFat(b) < (FatBytes(t, nclst + 2) + 511) / 512 then None
        else
          var dirbase := if t.Fat32? then LdDword(b, 44) else U32(fatbase + U32(AllFats(b)));
          Some(Geometry(t, NumberOfFats(b), SectorsPerCluster(b), nclst + 2, SectorsPerFat(b), bsect,
                        fatbase, dirbase, U32(bsect + SystemSectors(b)), RootEntries(b)))
  }

  lemma EntriesInFat(t: FsType, n: nat, fsize: nat)
    requires n >= 1 && fsize >= (FatBytes(t, n) + 511) / 512
    ensures (match t case Fat12 => n - 1 + (n - 1) / 2 case Fat16 => 2 * (n - 1) case Fat32 => 4 * (n - 1))
            + (if t.Fat32? then 4 else 2) <= 512 * fsize
  {
    RoundUp(FatBytes(t, n));
  }

  lemma RoundUp(b: nat)
    ensures 512 * ((b + 511) / 512) >= b
  {
  }

  lemma WholeClusters(total: nat, csize: nat)
    requires csize > 0
    ensures csize * (total / csize) <= total
  {
  }

  /** When the sum wraps around, the data area would start inside the FATs, or the FATs before the volume. */
  lemma Overflow(bsect: nat, nrsv: nat, fats: nat, root: nat, total: nat)
    requires nrsv + fats + root >= 0x1_0000_0000 && root <= 0x1000 && nrsv < 0x10000
    requires U32(nrsv + U32(fats) + root) < total && bsect + total <= 0x1_0000_0000
    ensures U32(bsect + nrsv) <= bsect || U32(bsect + nrsv) + fats > U32(bsect + U32(nrsv + U32(fats) + root))
  {
    var sys := U32(nrsv + U32(fats) + root);
    assert U32(fats) <= fats && sys <= nrsv + fats + root - 0x1_0000_0000;
    assert U32(bsect + sys) <= bsect + sys;
    assert bsect + nrsv >= 0x1_0000_0000 ==> U32(bsect + nrsv) == bsect + nrsv - 0x1_0000_0000;
  }

  lemma NoOverflow(bsect: nat, nrsv: nat, fats: nat, root: nat, total: nat)
    requires nrsv + fats + root < 0x1_0000_0000
    ensures U32(nrsv + U32(fats) + root) == nrsv + fats + root
    ensures nrsv + fats + root < total && bsect + total <= 0x1_0000_0000 ==>
      U32(bsect + nrsv) == bsect + nrsv && U32(bsect + (nrsv + fats + root)) == bsect + nrsv + fats + root
  {
  }

  lemma Quotient(a: nat, d: nat)
    requires d > 0 && a / d != 0
    ensures a > 0
  {
  }

  /** What the checks of mount_volume have established when it succeeds. */
  lemma Mounted(b: Sector, bsect: nat)
    requires MountFat(b, bsect).Some?
    ensures SystemSectors(b) < TotalSectors(b) && SectorsPerCluster(b) > 0
    ensures var g, nclst := MountFat(b, bsect).value, Whole(TotalSectors(b) - SystemSectors(b), SectorsPerCluster(b));
      && g.nFatent == nclst + 2 && nclst > 0 && TypeOf(nclst) == Some(g.fsType)
      && g.fsize == SectorsPerFat(b) && g.fsize >= (FatBytes(g.fsType, g.nFatent) + 511) / 512
      && g.csize == SectorsPerCluster(b) && PowerOfTwo(g.csize) && g.nFats in {1, 2} && g.FatSectors() == AllFats(b)
      && g.volbase == bsect && g.fatbase == U32(bsect + ReservedSectors(b)) && 0 < ReservedSectors(b) < 0x10000
      && g.database == U32(bsect + SystemSectors(b))
  {
    hide LdWord, LdDword, OneBit;
    OneBitIsPower(b[13]);
    Quotient(TotalSectors(b) - SystemSectors(b), SectorsPerCluster(b));
  }

  /**
   If the volume lies on the medium, mounting yields a geometry in which the FATs lie before the clusters, every
   entry within its FAT, and all within the volume, exactly when the sizes in the boot sector do not overflow
   32 bits when added up.
   */
  lemma MountGeometry(b: Sector, bsect: nat, size: nat)
    requires MountFat(b, bsect).Some? && bsect + TotalSectors(b) <= size <= 0x1_0000_0000
    ensures MountFat(b, bsect).value.Good(size) <==> TrueSystemSectors(b) < 0x1_0000_0000
  {
    hide MountFat;
    Mounted(b, bsect);
    if TrueSystemSectors(b) < 0x1_0000_0000 {
      MountGood(b, bsect, size);
    } else {
      Overflow(bsect, ReservedSectors(b), AllFats(b), RootEntries(b) / 16, TotalSectors(b));
    }
  }

  lemma MountGood(b: Sector, bsect: nat, size: nat)
    requires MountFat(b, bsect).Some? && bsect + TotalSectors(b) <= size <= 0x1_0000_0000
    requires TrueSystemSectors(b) < 0x1_0000_0000
    ensures MountFat(b, bsect).value.Good(size)
  {
    hide MountFat, LdWord, LdDword, ReservedSectors, AllFats, RootEntries, SectorsPerFat, TotalSectors;
    var g := MountFat(b, bsect).value;
    Mounted(b, bsect);
    NoOverflow(bsect, ReservedSectors(b), AllFats(b), RootEntries(b) / 16, TotalSectors(b));
    EntriesInFat(g.fsType, g.nFatent, g.fsize);
    WholeClusters(TotalSectors(b) - SystemSectors(b), SectorsPerCluster(b));
    ClusterBaseFormula(g, g.nFatent);
  }

  /** Then a FAT12 or FAT16 volume has its root directory between the FATs and the clusters. */
  lemma RootDirBetween(b: Sector, bsect: nat, size: nat)
    requires MountFat(b, bsect).Some? && bsect + TotalSectors(b) <= size <= 0x1_0000_0000
    requires TrueSystemSectors(b) < 0x1_0000_0000 && !MountFat(b, bsect).value.fsType.Fat32?
    ensures var g := MountFat(b, bsect).value;
      && g.dirbase == g.fatbase + g.FatSectors() && g.dirbase + RootEntries(b) / 16 == g.database
      && RootEntries(b) > 0 && RootEntries(b) % 16 == 0
  {
    hide LdWord, LdDword, OneBit, U32, AllFats, FatBytes, PowerOfTwo;
    Mounted(b, bsect);
    NoOverflow(bsect, ReservedSectors(b), AllFats(b), RootEntries(b) / 16, TotalSectors(b));
    Small32(AllFats(b));
    Small32(bsect + ReservedSectors(b) + AllFats(b));
  }

  lemma Small32(x: nat)
    requires x < 0x1_0000_0000
    ensures U32(x) == x
  {
  }

  // ---------- finding the volume ----------

  /** The bytes of b from i on are those of the text. */
  predicate Spells(b: Sector, i: nat, text: seq<byte>)
    requires i + |text| <= 512
  {
    forall k | 0 <= k < |text| :: b[i + k] == text[k]
  }

  const FAT32_NAME: seq<byte> := [0x46, 0x41, 0x54, 0x33, 0x32, 0x20, 0x20, 0x20]

  /** check_fs takes the sector for the boot sector of a FAT volume (512-byte sectors only). */
  predicate Recognised(b: Sector) {
    && b[0] in {0xEB, 0xE9, 0xE8}
    && ((LdWord(b, 510) == 0xAA55 && Spells(b, 82, FAT32_NAME))
        || (&& BytesPerSector(b) == 512 && OneBit(SectorsPerCluster(b)) && ReservedSectors(b) != 0
            && NumberOfFats(b) in {1, 2} && RootEntries(b) != 0
            && (LdWord(b, 19) >= 128 || LdDword(b, 32) >= 0x1_0000) && LdWord(b, 22) != 0))
  }

  /** Start of the i-th partition, from the table in the first sector; 0 for none. */
  function Partition(b: Sector, i: nat): nat
    requires i < 4
  {
    LdDword(b, 446 + 16 * i + 8)
  }

  /** The first partition from the i-th on that begins with the boot sector of a FAT volume. */
  function FindPartition(v: seq<Sector>, i: nat): Option<nat>
    requires v != [] && i <= 4
    decreases 4 - i
  {
    if i == 4 then None
    else
      var p := Partition(v[0], i);
      if p != 0 && p < |v| && Recognised(v[p]) then Some(p) else FindPartition(v, i + 1)
  }

  /** find_volume: the sector where the FAT volume of the drive begins. */
  function FindVolume(v: seq<Sector>): Option<nat> {
    if v == [] then None
    else if Recognised(v[0]) then Some(0)
    else if LdWord(v[0], 510) != 0xAA55 then None
    else FindPartition(v, 0)
  }

  /** mount_volume, as to the geometry. */
  function Mount(v: seq<Sector>): Option<Geometry> {
    match FindVolume(v)
    case None => None
    case Some(bsect) => if bsect < |v| then MountFat(v[bsect], bsect) else None
  }

  /** A boot sector of a FAT32 volume of 0x20000 sectors, with one reserved sector and clusters of one sector. */
  function Boot(nFats: byte, fatHigh: byte, fatLow: byte, fsInfo: byte): Sector {
    seq(512, i requires 0 <= i < 512 =>
      if i == 0 then 0xEB else if i == 12 then 2 else if i == 13 || i == 14 then 1 else if i == 16 then nFats
      else if i == 34 || i == 44 then 2 else if i == 37 then fatLow else if i == 39 then fatHigh
      else if i == 48 then fsInfo
      else if 82 <= i < 90 then FAT32_NAME[i - 82] else if i == 510 then 0x55 else if i == 511 then 0xAA else 0)
  }

  lemma BootFields(nFats: byte, fatHigh: byte, fatLow: byte, fsInfo: byte)
    ensures var b := Boot(nFats, fatHigh, fatLow, fsInfo);
      && BytesPerSector(b) == 512 && b[13] == 1 && ReservedSectors(b) == 1
      && NumberOfFats(b) == nFats && RootEntries(b) == 0
      && TotalSectors(b) == 0x2_0000 && SectorsPerFat(b) == 0x100_0000 * fatHigh + 0x100 * fatLow
      && LdWord(b, 42) == 0 && LdWord(b, 48) == fsInfo && Recognised(b)
  {
  }

  /** Two FATs of 0x8000_0000 sectors add up to none: the volume is mounted, and its clusters lie inside its FATs. */
  lemma MountWraps(v: seq<Sector>)
    requires |v| == 0x2_0000 && v[0] == Boot(2, 0x80, 0, 0)
    ensures Mount(v).Some? && !Mount(v).value.Good(|v|)
    ensures Mount(v).value.database < Mount(v).value.fatbase + Mount(v).value.fsize
  {
    hide Boot, LdWord, LdDword, OneBit, Recognised;
    var b := Boot(2, 0x80, 0, 0);
    BootFields(2, 0x80, 0, 0);
    OneBitIsPower(1);
    assert SystemSectors(b) == 1;
    MountGeometry(b, 0, 0x2_0000);
  }

  // ---------- FSInfo ----------

  /** A medium with such a volume: the FAT at sector 1 holds the root directory's only cluster. */
  function Victim(): seq<Sector> {
    var none: Sector := seq(512, _ => 0);
    var fat: Sector := none[8 := 0xFF][9 := 0xFF][10 := 0xFF][11 := 0x0F];
    seq(0x2_0000, i => if i == 0 then Boot(1, 0, 5, 1) else if i == 1 then fat else none)
  }

  lemma MountAtFsInfo(v: seq<Sector>)
    requires |v| == 0x2_0000 && v[0] == Boot(1, 0, 5, 1)
    ensures Mount(v).Some? && Mount(v).value.Good(0x2_0000) && Mount(v).value.fsType.Fat32?
    ensures Mount(v).value.volbase == 0 && Mount(v).value.fatbase == 1
    ensures MountCounts(Mount(v).value, v[0], v[1]).2 == 0
  {
    hide Boot, LdWord, LdDword, OneBit, Recognised;
    var b := Boot(1, 0, 5, 1);
    BootFields(1, 0, 5, 1);
    OneBitIsPower(1);
    assert SystemSectors(b) == 0x501 && TypeOf(Whole(0x2_0000 - 0x501, 1)) == Some(Fat32);
    MountGeometry(b, 0, 0x2_0000);
  }

  /**
   The third entry of the table, of the root directory's cluster in most
   volumes, is what bytes 8 to 11 of FSInfo say: none.
   */
  lemma FsInfoOverFat(g: Geometry, v: seq<Sector>, freeClst: nat, lastClst: nat)
    requires g.Good(|v|) && g.fsType.Fat32? && g.volbase + 1 == g.fatbase
    requires v[g.fatbase] == FsInfoSector(freeClst, lastClst)
    ensures Entries(v, g)[2] == 0
  {
    ReadEntry32(v, g, 2);
    assert LdDword(v[g.fatbase], 8) == 0;
  }

  /**
   With one reserved sector and the FSInfo mark set, what sync_fs writes comes to lie on the FAT: the volume is
   mounted, and after the update its root directory is a free cluster.
   */
  lemma FsInfoHitsFat(freeClst: nat, lastClst: nat)
    ensures var v := Victim();
      && Mount(v).Some? && Mount(v).value.Good(|v|)
      && var g := Mount(v).value;
        && Entries(v, g)[2] == 0x0FFF_FFFF && Entries(v[g.volbase + 1 := FsInfoSector(freeClst, lastClst)], g)[2] == 0
  {
    hide Boot, Mount, FsInfoSector, Entries;
    var v := Victim();
    MountAtFsInfo(v);
    var g := Mount(v).value;
    ReadEntry32(v, g, 2);
    assert LdDword(v[1], 8) == 0x0FFF_FFFF;
    FsInfoOverFat(g, v[g.volbase + 1 := FsInfoSector(freeClst, lastClst)], freeClst, lastClst);
  }

  /** The same by sync_fs itself, on every such volume with an update due. */
  method SyncWipesRoot(fs: FATFS)
    requires fs.Valid() && fs.g.fsType.Fat32? && fs.g.volbase + 1 == fs.g.fatbase && fs.fsiFlag == 1
    modifies fs`medium, fs`wflag, fs`winsect, fs`fsiFlag, fs.win
    ensures fs.Valid() && fs.Fat()[2] == 0
  {
    hide Entries, FsInfoSector;
    fs.SyncFs();
    FsInfoOverFat(fs.g, fs.medium, fs.freeClst, fs.lastClst);
  }
}
