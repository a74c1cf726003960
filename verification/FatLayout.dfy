/**
 The on-disk layout of a FAT volume: sectors, the geometry that mounting derives from the boot
 sector, and the allocation table as a value.  Everything here is a pure function of a sequence of
 sectors, so that the classes above it can be specified without mentioning their buffers.
 */
module FatLayout {

  type byte = b: int | 0 <= b < 256

  /** A 512-byte sector, the only sector size of this configuration. */
  type Sector = s: seq<byte> | |s| == 512 witness seq(512, _ => 0)

  datatype FsType = Fat12 | Fat16 | Fat32

  /** The powers of two that fit a byte, which are the cluster sizes. */
  predicate PowerOfTwo(b: nat) { b in {1, 2, 4, 8, 16, 32, 64, 128} }

  /** The fields of FATFS that mounting sets once. */
  datatype Geometry = Geometry(
    fsType: FsType,
    nFats: nat,      // number of FAT copies
    csize: nat,      // sectors per cluster
    nFatent: nat,    // number of FAT entries, i.e. clusters + 2
    fsize: nat,      // sectors per FAT copy
    volbase: nat,    // first sector of the volume
    fatbase: nat,    // first sector of the first FAT
    dirbase: nat,    // root directory: first sector (FAT12/16) or first cluster (FAT32)
    database: nat,   // first sector of cluster 2
    nRootdir: nat    // entries of the root directory (FAT12/16)
  ) {
    /** val cut to the width of a FAT entry. */
    function CutToEntry(val: nat): nat {
      match fsType
      case Fat12 => val % 0x1000
      case Fat16 => val % 0x10000
      case Fat32 => val % 0x1000_0000
    }

    /** What put_fat stores for 0xFFFFFFFF: the end-of-chain mark. */
    function EndMark(): nat { CutToEntry(0xFFFF_FFFF) }

    /** Byte offset of entry c in the FAT. */
    function EntryOffset(c: nat): nat {
      match fsType
      case Fat12 => c + c / 2
      case Fat16 => 2 * c
      case Fat32 => 4 * c
    }

    /** Number of bytes of the FAT an entry touches. */
    function EntryWidth(): nat {
      if fsType.Fat32? then 4 else 2
    }

    /** Sectors taken by all the FAT copies. */
    function FatSectors(): nat { if nFats == 2 then 2 * fsize else fsize }

    predicate InFat1(s: int) { fatbase <= s < fatbase + fsize }

    predicate InFat2(s: int) { nFats == 2 && fatbase + fsize <= s < fatbase + 2 * fsize }

    predicate IsCluster(c: int) { 2 <= c < nFatent }

    /** First sector of cluster c; ClusterBaseFormula gives the closed form. */
    function ClusterBase(c: nat): (s: nat)
      ensures s >= database
    {
      if c <= 2 then database else ClusterBase(c - 1) + csize
    }

    /** The geometry fits a medium of size sectors; MountGeometry shows that mounting yields it. */
    ghost predicate Good(size: nat) {
      && nFats in {1, 2}
      && PowerOfTwo(csize)
      && 3 <= nFatent
      && volbase < fatbase
      && 0 < fsize
      && fatbase + FatSectors() <= database
      && ClusterBase(nFatent) <= size <= 0x1_0000_0000
      && EntryOffset(nFatent - 1) + EntryWidth() <= 512 * fsize
      && nFatent <= (match fsType case Fat12 => 0xFF7 case Fat16 => 0xFFF7 case Fat32 => 0x0FFF_FFF7)
    }
  }

  // ---------- clusters as sector ranges ----------

  lemma {:induction false} ClusterBaseFormula(g: Geometry, c: nat)
    requires c >= 2
    ensures g.ClusterBase(c) == g.database + g.csize * (c - 2)
    decreases c
  {
    if c > 2 {
      ClusterBaseFormula(g, c - 1);
      assert g.csize * (c - 2) == g.csize * (c - 3) + g.csize;
    }
  }

  lemma {:induction false} ClustersDisjoint(g: Geometry, c: nat, d: nat)
    requires 2 <= c < d
    ensures g.database <= g.ClusterBase(c) && g.ClusterBase(c) + g.csize <= g.ClusterBase(d)
    decreases d
  {
    if c + 1 < d {
      ClustersDisjoint(g, c, d - 1);
    }
  }

  /** The sectors v after disk_write of data at sector sect. */
  function WriteSectors(v: seq<Sector>, sect: nat, data: seq<byte>): (w: seq<Sector>)
    requires |data| % 512 == 0 && sect + |data| / 512 <= |v|
    ensures |w| == |v|
    ensures forall s | 0 <= s < |v| && !(sect <= s < sect + |data| / 512) :: w[s] == v[s]
    ensures forall s | sect <= s < sect + |data| / 512 :: w[s] == data[512 * (s - sect)..512 * (s - sect) + 512]
  {
    seq(|v|, s requires 0 <= s < |v| =>
      if sect <= s < sect + |data| / 512 then data[512 * (s - sect)..512 * (s - sect) + 512] else v[s])
  }

  // ---------- the first FAT as a byte sequence ----------

  /** The bytes of the first FAT on the sectors v. */
  function FatArea(v: seq<Sector>, g: Geometry): (fb: seq<byte>)
    requires g.fatbase + g.fsize <= |v|
    ensures |fb| == 512 * g.fsize
  {
    seq(512 * g.fsize, b requires 0 <= b < 512 * g.fsize => v[g.fatbase + b / 512][b % 512])
  }

  /** Two media agree on every sector outside the second FAT. */
  ghost predicate SameView(g: Geometry, v: seq<Sector>, w: seq<Sector>) {
    |v| == |w| && forall s | 0 <= s < |v| && !g.InFat2(s) :: v[s] == w[s]
  }

  /** The second FAT is a copy of the first. */
  ghost predicate Mirrored(g: Geometry, v: seq<Sector>)
    requires g.fatbase + g.FatSectors() <= |v|
  {
    g.nFats == 2 ==>
      forall s | g.fatbase <= s < g.fatbase + g.fsize :: v[s + g.fsize] == v[s]
  }

  lemma SameViewTrans(g: Geometry, u: seq<Sector>, v: seq<Sector>, w: seq<Sector>)
    requires SameView(g, u, v) && SameView(g, v, w)
    ensures SameView(g, u, w)
  {
  }

  lemma SameFatArea(g: Geometry, v: seq<Sector>, w: seq<Sector>)
    requires g.fatbase + g.fsize <= |v|
    requires SameView(g, v, w)
    ensures FatArea(v, g) == FatArea(w, g)
  {
  }

  /** Writing one byte of the first FAT. */
  lemma PokeFatArea(g: Geometry, v: seq<Sector>, b: nat, x: byte)
    requires b < 512 * g.fsize && g.fatbase + g.fsize <= |v|
    ensures var s := g.fatbase + b / 512;
      FatArea(v[s := v[s][b % 512 := x]], g) == FatArea(v, g)[b := x]
  {
    var s := g.fatbase + b / 512;
    var w := v[s := v[s][b % 512 := x]];
    forall i | 0 <= i < 512 * g.fsize ensures FatArea(w, g)[i] == FatArea(v, g)[b := x][i] {
      if i / 512 == b / 512 && i % 512 == b % 512 {
        assert i == b;
      }
    }
  }

  // ---------- entries ----------

  /** The value get_fat reports for entry c of the FAT bytes fb. */
  function EntryOf(t: FsType, fb: seq<byte>, c: nat): (e: nat)
    requires match t
             case Fat12 => c + c / 2 + 1 < |fb|
             case Fat16 => 2 * c + 1 < |fb|
             case Fat32 => 4 * c + 3 < |fb|
    ensures e < (match t case Fat12 => 0x1000 case Fat16 => 0x10000 case Fat32 => 0x1000_0000)
  {
    match t
    case Fat12 =>
      var w := LdWord(fb, c + c / 2);
      if c % 2 == 1 then w / 16 else w % 0x1000
    case Fat16 => LdWord(fb, 2 * c)
    case Fat32 => LdDword(fb, 4 * c) % 0x1000_0000
  }

  /** Little-endian 16-bit load. */
  function LdWord(s: seq<byte>, i: nat): (w: nat)
    requires i + 1 < |s|
    ensures w < 0x10000
  {
    s[i] as int + 0x100 * s[i + 1] as int
  }

  /** Little-endian 32-bit load. */
  function LdDword(s: seq<byte>, i: nat): (w: nat)
    requires i + 3 < |s|
    ensures w < 0x1_0000_0000
  {
    s[i] as int + 0x100 * s[i + 1] as int + 0x10000 * s[i + 2] as int + 0x100_0000 * s[i + 3] as int
  }

  /** The upper four bits of a FAT32 entry, which drivers must keep. */
  function ReservedOf(fb: seq<byte>, c: nat): nat
    requires 4 * c + 3 < |fb|
  {
    fb[4 * c + 3] / 16
  }

  lemma EntryFits(g: Geometry, size: nat, c: nat)
    requires g.Good(size) && c < g.nFatent
    ensures g.EntryOffset(c) + g.EntryWidth() <= 512 * g.fsize
  {
  }

  /** The end mark, cut to the entry width, is never mistaken for a link. */
  lemma EndMarkEnds(g: Geometry, size: nat)
    requires g.Good(size)
    ensures g.EndMark() >= g.nFatent
  {
  }

  lemma ClusterNumberFits(g: Geometry, size: nat, c: nat)
    requires g.Good(size) && g.IsCluster(c)
    ensures g.CutToEntry(c) == c
  {
  }

  /** All the entries held in the FAT bytes fb. */
  function EntriesOf(fb: seq<byte>, g: Geometry, size: nat): (fat: seq<nat>)
    requires g.Good(size) && |fb| == 512 * g.fsize
    ensures |fat| == g.nFatent
  {
    seq(g.nFatent, c requires 0 <= c < g.nFatent => EntryFits(g, size, c); EntryOf(g.fsType, fb, c))
  }

  /** All the entries of the first FAT on the sectors v. */
  function Entries(v: seq<Sector>, g: Geometry): (fat: seq<nat>)
    requires g.Good(|v|)
    ensures |fat| == g.nFatent
  {
    EntriesOf(FatArea(v, g), g, |v|)
  }

  lemma SameEntries(g: Geometry, v: seq<Sector>, w: seq<Sector>)
    requires g.Good(|v|) && SameView(g, v, w)
    ensures Entries(v, g) == Entries(w, g)
  {
    SameFatArea(g, v, w);
  }

  /** How get_fat reads a FAT12 entry off the sectors of the first FAT. */
  lemma ReadEntry12(v: seq<Sector>, g: Geometry, c: nat)
    requires g.Good(|v|) && c < g.nFatent && g.fsType.Fat12?
    ensures var b := c + c / 2;
      && (b + 1) / 512 < g.fsize
      && var w := v[g.fatbase + b / 512][b % 512] as int + 0x100 * v[g.fatbase + (b + 1) / 512][(b + 1) % 512] as int;
        Entries(v, g)[c] == if c % 2 == 1 then w / 16 else w % 0x1000
  {
    EntryFits(g, |v|, c);
    assert Entries(v, g)[c] == EntryOf(Fat12, FatArea(v, g), c);
  }

  /** How get_fat reads a FAT16 entry; it lies within one sector. */
  lemma ReadEntry16(v: seq<Sector>, g: Geometry, c: nat)
    requires g.Good(|v|) && c < g.nFatent && g.fsType.Fat16?
    ensures c / 256 < g.fsize && c * 2 % 512 <= 510
    ensures Entries(v, g)[c] == LdWord(v[g.fatbase + c / 256], c * 2 % 512)
  {
    hide FatArea;
    EntryFits(g, |v|, c);
    WordInSector(v, g, 2 * c);
    assert Entries(v, g)[c] == EntryOf(Fat16, FatArea(v, g), c);
  }

  lemma WordInSector(v: seq<Sector>, g: Geometry, b: nat)
    requires g.fatbase + g.fsize <= |v| && b + 1 < 512 * g.fsize && b % 2 == 0
    ensures b % 512 <= 510 && b / 512 < g.fsize
    ensures LdWord(FatArea(v, g), b) == LdWord(v[g.fatbase + b / 512], b % 512)
  {
    SameSector(b);
    var fb := FatArea(v, g);
    assert fb[b + 1] == v[g.fatbase + b / 512][b % 512 + 1];
  }

  /** How get_fat reads a FAT32 entry; it lies within one sector. */
  lemma ReadEntry32(v: seq<Sector>, g: Geometry, c: nat)
    requires g.Good(|v|) && c < g.nFatent && g.fsType.Fat32?
    ensures c / 128 < g.fsize && c * 4 % 512 <= 508
    ensures 4 * c + 3 < 512 * g.fsize && 4 * c / 512 == c / 128
    ensures LdDword(FatArea(v, g), 4 * c) == LdDword(v[g.fatbase + c / 128], c * 4 % 512)
    ensures Entries(v, g)[c] == LdDword(v[g.fatbase + c / 128], c * 4 % 512) % 0x1000_0000
  {
    EntryFits(g, |v|, c);
    DwordInSector(v, g, 4 * c);
    assert Entries(v, g)[c] == EntryOf(Fat32, FatArea(v, g), c);
  }

  lemma DwordInSector(v: seq<Sector>, g: Geometry, b: nat)
    requires g.fatbase + g.fsize <= |v| && b + 3 < 512 * g.fsize && b % 4 == 0
    ensures b % 512 <= 508
    ensures LdDword(FatArea(v, g), b) == LdDword(v[g.fatbase + b / 512], b % 512)
  {
    SameSector(b);
    var fb := FatArea(v, g);
    assert fb[b + 1] == v[g.fatbase + b / 512][b % 512 + 1];
    assert fb[b + 2] == v[g.fatbase + b / 512][b % 512 + 2];
    assert fb[b + 3] == v[g.fatbase + b / 512][b % 512 + 3];
  }

  /** Quotient and remainder of a number in the same sector. */
  lemma InSector(b: nat, q: nat, r: nat, d: nat)
    requires b == 512 * q + r && r + d < 512
    ensures (b + d) / 512 == q && (b + d) % 512 == r + d
  {
    SectorUnique(b + d, q, r + d);
  }

  lemma SectorUnique(x: nat, q: nat, r: nat)
    requires x == 512 * q + r && r < 512
    ensures x / 512 == q && x % 512 == r
  {
    assert x == 512 * (x / 512) + x % 512;
  }

  lemma Multiple2(x: int, k: int)
    ensures x == 2 * k ==> x % 2 == 0
  {
  }

  lemma Multiple4(x: int, k: int)
    ensures x == 4 * k ==> x % 4 == 0
  {
  }

  lemma Divides(b: nat, q: nat, r: nat)
    requires b == 512 * q + r
    ensures (b % 2 == 0 ==> r % 2 == 0) && (b % 4 == 0 ==> r % 4 == 0)
  {
    if b % 2 == 0 {
      assert b == 2 * (b / 2);
      Multiple2(r, b / 2 - 256 * q);
    }
    if b % 4 == 0 {
      assert b == 4 * (b / 4);
      Multiple4(r, b / 4 - 128 * q);
    }
  }

  lemma SameSector(b: nat)
    ensures b % 2 == 0 ==> b % 512 <= 510 && (b + 1) / 512 == b / 512 && (b + 1) % 512 == b % 512 + 1
    ensures b % 4 == 0 ==> b % 512 <= 508 && (b + 3) / 512 == b / 512 && (b + 3) % 512 == b % 512 + 3
    ensures b % 4 == 0 ==> (b + 2) / 512 == b / 512 && (b + 2) % 512 == b % 512 + 2
  {
    var q, r := b / 512, b % 512;
    Divides(b, q, r);
    if b % 2 == 0 {
      InSector(b, q, r, 1);
    }
    if b % 4 == 0 {
      InSector(b, q, r, 2);
      InSector(b, q, r, 3);
    }
  }

  // ---------- storing entries ----------

  /** First byte put_fat stores for a FAT12 entry over the byte lo. */
  function Low12(c: nat, val: nat, lo: byte): byte {
    if c % 2 == 1 then lo % 16 + val % 16 * 16 else val % 0x100
  }

  /** Second byte put_fat stores for a FAT12 entry over the byte hi. */
  function High12(c: nat, val: nat, hi: byte): byte {
    if c % 2 == 1 then val / 16 % 0x100 else hi / 16 * 16 + val / 0x100 % 16
  }

  /** Byte i of the little-endian form of val. */
  function LeByte(val: nat, i: nat): byte
    requires i < 4
  {
    match i
    case 0 => val % 0x100
    case 1 => val / 0x100 % 0x100
    case 2 => val / 0x100 / 0x100 % 0x100
    case 3 => val / 0x100 / 0x100 / 0x100 % 0x100
  }

  lemma LeBytesRoundTrip(val: nat)
    ensures LeByte(val, 0) as int + 0x100 * LeByte(val, 1) as int == val % 0x10000
    ensures LeByte(val, 0) as int + 0x100 * LeByte(val, 1) as int + 0x10000 * LeByte(val, 2) as int
            + 0x100_0000 * LeByte(val, 3) as int == val % 0x1_0000_0000
  {
    var q1 := val / 0x100;
    var q2 := q1 / 0x100;
    var q3 := q2 / 0x100;
    var q4 := q3 / 0x100;
    var b0, b1, b2, b3 := val % 0x100, q1 % 0x100, q2 % 0x100, q3 % 0x100;
    Mod0x1_0000(val, q2, b0 + 0x100 * b1);
    Mod0x1_0000_0000(val, q4, b0 + 0x100 * b1 + 0x10000 * b2 + 0x100_0000 * b3);
  }

  lemma Mod0x1_0000(v: nat, q: nat, r: nat)
    requires v == 0x1_0000 * q + r && r < 0x1_0000
    ensures v % 0x1_0000 == r
  {
  }

  lemma Mod0x1_0000_0000(v: nat, q: nat, r: nat)
    requires v == 0x1_0000_0000 * q + r && r < 0x1_0000_0000
    ensures v % 0x1_0000_0000 == r
  {
  }

  lemma Mod0x1000(v: nat, q: nat, r: nat)
    requires v == 0x1000 * q + r && r < 0x1000
    ensures v % 0x1000 == r
  {
  }

  lemma Put12Odd(val: nat, lo: byte)
    ensures (lo as int % 16 + val % 16 * 16 + 0x100 * (val / 16 % 0x100)) / 16 == val % 0x1000
  {
    var q, r := val / 16, val % 16;
    var h, l := q / 0x100, q % 0x100;
    assert val == 16 * q + r && q == 0x100 * h + l;
    Mod0x1000(val, h, 16 * l + r);
    assert lo as int % 16 + r * 16 + 0x100 * l == 16 * (16 * l + r) + lo as int % 16;
  }

  lemma Put12Even(val: nat, hi: byte)
    ensures (val % 0x100 + 0x100 * (hi as int / 16 * 16 + val / 0x100 % 16)) % 0x1000 == val % 0x1000
  {
    var q, r := val / 0x100, val % 0x100;
    var h, l := q / 16, q % 16;
    assert val == 0x100 * q + r && q == 16 * h + l;
    Mod0x1000(val, h, 0x100 * l + r);
    var u := hi as int / 16;
    Mod0x1000(r + 0x100 * (u * 16 + l), u, 0x100 * l + r);
  }

  lemma Put12Same(c: nat, val: nat, lo: byte, hi: byte)
    ensures var w := Low12(c, val, lo) as int + 0x100 * High12(c, val, hi) as int;
      (if c % 2 == 1 then w / 16 else w % 0x1000) == val % 0x1000
  {
    if c % 2 == 1 {
      Put12Odd(val, lo);
    } else {
      Put12Even(val, hi);
    }
  }

  /** The half of a shared byte that belongs to the other entry is kept. */
  lemma Put12Parts(c: nat, val: nat, lo: byte, hi: byte)
    ensures c % 2 == 0 ==> High12(c, val, hi) as int / 16 == hi as int / 16
    ensures c % 2 == 1 ==> Low12(c, val, lo) as int % 16 == lo as int % 16
  {
  }

  /** Where the bytes of two FAT12 entries can meet. */
  lemma Offsets12(c: nat, d: nat)
    requires c != d
    ensures d == c + 1 && c % 2 == 0 ==> d + d / 2 == c + c / 2 + 1
    ensures d + 1 == c && d % 2 == 0 ==> d + d / 2 + 1 == c + c / 2
    ensures !(d == c + 1 && c % 2 == 0) && !(d + 1 == c && d % 2 == 0) ==>
      d + d / 2 + 1 < c + c / 2 || c + c / 2 + 1 < d + d / 2
  {
  }

  lemma Put12(fb: seq<byte>, c: nat, val: nat, d: nat)
    requires c + c / 2 + 1 < |fb| && d + d / 2 + 1 < |fb|
    ensures var b := c + c / 2;
      var fb' := fb[b := Low12(c, val, fb[b])][b + 1 := High12(c, val, fb[b + 1])];
      EntryOf(Fat12, fb', d) == if d == c then val % 0x1000 else EntryOf(Fat12, fb, d)
  {
    hide Low12, High12;
    var b := c + c / 2;
    Put12Parts(c, val, fb[b], fb[b + 1]);
    var fb' := fb[b := Low12(c, val, fb[b])][b + 1 := High12(c, val, fb[b + 1])];
    if d == c {
      Put12Same(c, val, fb[b], fb[b + 1]);
    } else {
      var e := d + d / 2;
      Offsets12(c, d);
      if d == c + 1 && c % 2 == 0 {
        Upper12(fb'[e], fb[e], fb[e + 1]);
      } else if d + 1 == c && d % 2 == 0 {
        Low4(fb[e], fb'[b], fb[b]);
      } else {
        assert fb'[e] == fb[e] && fb'[e + 1] == fb[e + 1];
      }
    }
  }

  lemma Upper12(lo: byte, lo': byte, hi: byte)
    requires lo as int / 16 == lo' as int / 16
    ensures (lo as int + 0x100 * hi as int) / 16 == (lo' as int + 0x100 * hi as int) / 16
  {
    assert lo as int + 0x100 * hi as int == 16 * (lo as int / 16 + 16 * hi as int) + lo as int % 16;
    assert lo' as int + 0x100 * hi as int == 16 * (lo' as int / 16 + 16 * hi as int) + lo' as int % 16;
  }

  lemma Low4(lo: byte, hi: byte, hi': byte)
    requires hi % 16 == hi' % 16
    ensures (lo as int + 0x100 * hi as int) % 0x1000 == (lo as int + 0x100 * hi' as int) % 0x1000
  {
    assert lo as int + 0x100 * hi as int == 0x1000 * (hi as int / 16) + (lo as int + 0x100 * (hi as int % 16));
    assert lo as int + 0x100 * hi' as int == 0x1000 * (hi' as int / 16) + (lo as int + 0x100 * (hi' as int % 16));
  }

  lemma Put16(fb: seq<byte>, c: nat, val: nat, d: nat)
    requires 2 * c + 1 < |fb| && 2 * d + 1 < |fb|
    ensures var fb' := fb[2 * c := LeByte(val, 0)][2 * c + 1 := LeByte(val, 1)];
      EntryOf(Fat16, fb', d) == if d == c then val % 0x10000 else EntryOf(Fat16, fb, d)
  {
    LeBytesRoundTrip(val);
  }

  /** put_fat on FAT32: the new value with the old upper four bits. */
  function Merge32(val: nat, old32: nat): nat {
    val % 0x1000_0000 + old32 / 0x1000_0000 * 0x1000_0000
  }

  lemma Merge32Parts(val: nat, old32: nat)
    requires old32 < 0x1_0000_0000
    ensures Merge32(val, old32) < 0x1_0000_0000
    ensures Merge32(val, old32) % 0x1000_0000 == val % 0x1000_0000
    ensures Merge32(val, old32) / 0x1000_0000 == old32 / 0x1000_0000
  {
  }

  lemma TopNibble(fb: seq<byte>, i: nat)
    requires i + 3 < |fb|
    ensures LdDword(fb, i) / 0x1000_0000 == fb[i + 3] as int / 16
  {
    var r := fb[i] as int + 0x100 * fb[i + 1] as int + 0x10000 * fb[i + 2] as int;
    var h, l := fb[i + 3] as int / 16, fb[i + 3] as int % 16;
    assert LdDword(fb, i) == 0x1000_0000 * h + (0x100_0000 * l + r);
  }

  lemma Put32(fb: seq<byte>, c: nat, val: nat, d: nat)
    requires 4 * c + 3 < |fb| && 4 * d + 3 < |fb|
    ensures var m := Merge32(val, LdDword(fb, 4 * c));
      var fb' := fb[4 * c := LeByte(m, 0)][4 * c + 1 := LeByte(m, 1)]
                   [4 * c + 2 := LeByte(m, 2)][4 * c + 3 := LeByte(m, 3)];
      && EntryOf(Fat32, fb', d) == (if d == c then val % 0x1000_0000 else EntryOf(Fat32, fb, d))
      && ReservedOf(fb', d) == ReservedOf(fb, d)
  {
    var m := Merge32(val, LdDword(fb, 4 * c));
    var fb' := fb[4 * c := LeByte(m, 0)][4 * c + 1 := LeByte(m, 1)]
                 [4 * c + 2 := LeByte(m, 2)][4 * c + 3 := LeByte(m, 3)];
    if d == c {
      LeBytesRoundTrip(m);
      Merge32Parts(val, LdDword(fb, 4 * c));
      assert LdDword(fb', 4 * c) == m;
      TopNibble(fb', 4 * c);
      TopNibble(fb, 4 * c);
    } else {
      assert LdDword(fb', 4 * d) == LdDword(fb, 4 * d);
    }
  }

  lemma PutEntries12(fb: seq<byte>, g: Geometry, size: nat, c: nat, val: nat)
    requires g.Good(size) && |fb| == 512 * g.fsize && g.fsType.Fat12? && c < g.nFatent
    ensures var b := c + c / 2;
      && b + 1 < |fb|
      && var fb' := fb[b := Low12(c, val, fb[b])][b + 1 := High12(c, val, fb[b + 1])];
        EntriesOf(fb', g, size) == EntriesOf(fb, g, size)[c := val % 0x1000]
  {
    EntryFits(g, size, c);
    var b := c + c / 2;
    var fb' := fb[b := Low12(c, val, fb[b])][b + 1 := High12(c, val, fb[b + 1])];
    forall d | 0 <= d < g.nFatent
      ensures EntriesOf(fb', g, size)[d] == EntriesOf(fb, g, size)[c := val % 0x1000][d]
    {
      EntryFits(g, size, d);
      Put12(fb, c, val, d);
    }
  }

  lemma PutEntries16(fb: seq<byte>, g: Geometry, size: nat, c: nat, val: nat)
    requires g.Good(size) && |fb| == 512 * g.fsize && g.fsType.Fat16? && c < g.nFatent
    ensures 2 * c + 1 < |fb|
    ensures var fb' := fb[2 * c := LeByte(val, 0)][2 * c + 1 := LeByte(val, 1)];
      EntriesOf(fb', g, size) == EntriesOf(fb, g, size)[c := val % 0x10000]
  {
    EntryFits(g, size, c);
    var fb' := fb[2 * c := LeByte(val, 0)][2 * c + 1 := LeByte(val, 1)];
    forall d | 0 <= d < g.nFatent
      ensures EntriesOf(fb', g, size)[d] == EntriesOf(fb, g, size)[c := val % 0x10000][d]
    {
      EntryFits(g, size, d);
      Put16(fb, c, val, d);
    }
  }

  /** Little-endian 32-bit store. */
  function StDword(s: seq<byte>, i: nat, m: nat): (s': seq<byte>)
    requires i + 3 < |s|
    ensures |s'| == |s|
  {
    s[i := LeByte(m, 0)][i + 1 := LeByte(m, 1)][i + 2 := LeByte(m, 2)][i + 3 := LeByte(m, 3)]
  }

  /** The FAT bytes after put_fat stores val at entry c of a FAT32 volume. */
  function Stored32(fb: seq<byte>, c: nat, val: nat): (fb': seq<byte>)
    requires 4 * c + 3 < |fb|
    ensures |fb'| == |fb|
  {
    StDword(fb, 4 * c, Merge32(val, LdDword(fb, 4 * c)))
  }

  lemma PutEntries32(fb: seq<byte>, g: Geometry, size: nat, c: nat, val: nat)
    requires g.Good(size) && |fb| == 512 * g.fsize && g.fsType.Fat32? && c < g.nFatent
    ensures 4 * c + 3 < |fb|
    ensures EntriesOf(Stored32(fb, c, val), g, size) == EntriesOf(fb, g, size)[c := val % 0x1000_0000]
    ensures KeepsReserved(g, fb, Stored32(fb, c, val))
  {
    EntryFits(g, size, c);
    forall d: nat | d < g.nFatent
      ensures EntriesOf(Stored32(fb, c, val), g, size)[d] == EntriesOf(fb, g, size)[c := val % 0x1000_0000][d]
    {
      EntryFits(g, size, d);
      Put32(fb, c, val, d);
    }
    forall d: nat | 4 * d + 3 < |fb| ensures ReservedOf(Stored32(fb, c, val), d) == ReservedOf(fb, d) {
      Put32(fb, c, val, d);
    }
  }

  /** No FAT32 entry has changed its upper four bits. */
  ghost predicate KeepsReserved(g: Geometry, fb: seq<byte>, fb': seq<byte>) {
    g.fsType.Fat32? ==>
      |fb| == |fb'| && forall d: nat | 4 * d + 3 < |fb| :: ReservedOf(fb', d) == ReservedOf(fb, d)
  }
}
