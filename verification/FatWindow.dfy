/**
 The filesystem object: a medium seen through one write-back window, and the FAT as an array of
 entries on top of it.
 */
module FatWindow {
  import opened FatLayout

  /** The result codes that occur when the device works. */
  datatype FResult = FR_OK | FR_INT_ERR | FR_NO_FILE | FR_DENIED

  /** The FSInfo sector sync_fs writes for the given free count and allocation hint. */
  ghost function FsInfoSector(freeClst: nat, lastClst: nat): Sector {
    seq(512, i requires 0 <= i < 512 => FsInfoByte(freeClst, lastClst, i))
  }

  /** Byte i of the FSInfo sector; everything not named is zero. */
  function FsInfoByte(freeClst: nat, lastClst: nat, i: nat): byte {
    if i < 4 then LeByte(0x41615252, i)
    else if 484 <= i < 488 then LeByte(0x61417272, i - 484)
    else if 488 <= i < 492 then LeByte(freeClst, i - 488)
    else if 492 <= i < 496 then LeByte(lastClst, i - 492)
    else if i == 510 then 0x55
    else if i == 511 then 0xAA
    else 0
  }

  /** Outside the two FAT copies the sectors are the same. */
  ghost predicate KeepsData(g: Geometry, v: seq<Sector>, w: seq<Sector>) {
    |v| == |w| && forall s | 0 <= s < |v| && !g.InFat1(s) && !g.InFat2(s) :: v[s] == w[s]
  }

  lemma SameKeepsData(g: Geometry, v: seq<Sector>, w: seq<Sector>)
    requires SameView(g, v, w)
    ensures KeepsData(g, v, w)
  {
  }

  lemma KeepsDataTrans(g: Geometry, u: seq<Sector>, v: seq<Sector>, w: seq<Sector>)
    requires KeepsData(g, u, v) && KeepsData(g, v, w)
    ensures KeepsData(g, u, w)
  {
  }

  /** Free count, allocation hint and FSInfo flag after mounting, from the boot sector b and the FSInfo sector info. */
  function MountCounts(g: Geometry, b: Sector, info: Sector): (nat, nat, nat) {
    if g.fsType.Fat32? && LdWord(b, 48) == 1 then
      if LdWord(info, 510) == 0xAA55 && LdDword(info, 0) == 0x41615252 && LdDword(info, 484) == 0x61417272
      then (LdDword(info, 488), LdDword(info, 492), 0)
      else (0xFFFF_FFFF, 0xFFFF_FFFF, 0)
    else (0xFFFF_FFFF, 0xFFFF_FFFF, 0x80)
  }

  lemma LoadStored(s: seq<byte>, i: nat, m: nat)
    requires i + 3 < |s| && m < 0x1_0000_0000
    requires s[i] == LeByte(m, 0) && s[i + 1] == LeByte(m, 1) && s[i + 2] == LeByte(m, 2) && s[i + 3] == LeByte(m, 3)
    ensures LdDword(s, i) == m
  {
    LeBytesRoundTrip(m);
  }

  /** What sync_fs puts into the FSInfo sector the next mount takes over. */
  lemma FsInfoRoundTrip(g: Geometry, b: Sector, freeClst: nat, lastClst: nat)
    requires g.fsType.Fat32? && LdWord(b, 48) == 1 && freeClst < 0x1_0000_0000 && lastClst < 0x1_0000_0000
    ensures MountCounts(g, b, FsInfoSector(freeClst, lastClst)) == (freeClst, lastClst, 0)
  {
    var info := FsInfoSector(freeClst, lastClst);
    LoadStored(info, 0, 0x41615252);
    LoadStored(info, 484, 0x61417272);
    LoadStored(info, 488, freeClst);
    LoadStored(info, 492, lastClst);
  }

  /** What mounting the sectors v would take over are the counts, unless an update is due. */
  predicate InfoIs(g: Geometry, v: seq<Sector>, freeClst: nat, lastClst: nat, fsiFlag: nat)
    requires g.volbase + 1 < |v|
  {
    var c := MountCounts(g, v[g.volbase], v[g.volbase + 1]);
    fsiFlag / 2 == c.2 / 2 && (fsiFlag % 2 == 1 || (freeClst == c.0 && lastClst == c.1))
  }

  /** From the counts a0, b0, f0 to a, b, f: a change has been noted, and whether FSInfo is in use has stayed. */
  predicate NotedFrom(a0: nat, b0: nat, f0: nat, a: nat, b: nat, f: nat) {
    f / 2 == f0 / 2 && (f0 % 2 == 1 ==> f % 2 == 1) && (a != a0 || b != b0 ==> f % 2 == 1)
  }

  /** Where the boot sector and the FSInfo sector stay and changes of the counts are noted, the law holds on. */
  lemma InfoStays(g: Geometry, v: seq<Sector>, a0: nat, b0: nat, f0: nat, w: seq<Sector>, a: nat, b: nat, f: nat)
    requires g.volbase + 1 < |v| == |w| && InfoIs(g, v, a0, b0, f0) && NotedFrom(a0, b0, f0, a, b, f)
    requires w[g.volbase] == v[g.volbase] && (g.fsType.Fat32? ==> w[g.volbase + 1] == v[g.volbase + 1])
    ensures InfoIs(g, w, a, b, f)
  {
    hide LdWord, LdDword;
  }

  /** The FSInfo sector, if there is one, is no sector of the FAT. */
  predicate InfoInFront(g: Geometry) { g.fsType.Fat32? ==> g.volbase + 1 < g.fatbase }

  /** In front of the FATs the sectors are the same. */
  ghost predicate FrontStays(g: Geometry, v: seq<Sector>, w: seq<Sector>) {
    |v| == |w| && forall s | 0 <= s < |v| && s < g.fatbase :: v[s] == w[s]
  }

  /** So mounting finds them right again, or an update is due, as before. */
  lemma FrontKeepsInfo(g: Geometry, v: seq<Sector>, a0: nat, b0: nat, f0: nat, w: seq<Sector>, a: nat, b: nat, f: nat)
    requires g.Good(|v|) && FrontStays(g, v, w) && NotedFrom(a0, b0, f0, a, b, f)
    ensures InfoLaw(g, v, a0, b0, f0) ==> InfoLaw(g, w, a, b, f)
  {
    hide LdWord, LdDword, MountCounts, InfoIs, NotedFrom;
    if InfoLaw(g, v, a0, b0, f0) {
      InfoStays(g, v, a0, b0, f0, w, a, b, f);
    }
  }

  /** The FSInfo sector lies in front of the FAT and gives just the counts unless an update is due. */
  predicate InfoLaw(g: Geometry, v: seq<Sector>, freeClst: nat, lastClst: nat, fsiFlag: nat)
    requires g.volbase + 1 < |v|
  {
    InfoInFront(g) && InfoIs(g, v, freeClst, lastClst, fsiFlag)
  }

  class FATFS {
    const g: Geometry
    const win: array<byte>      // disk access window
    var winsect: nat            // sector appearing in the window
    var wflag: bool             // is the window dirty?
    var lastClst: nat           // last allocated cluster
    var freeClst: nat           // number of free clusters, 0xFFFFFFFF when unknown
    var fsiFlag: nat            // FSInfo: bit 7 disabled, bit 0 to be updated
    var medium: seq<Sector>     // the sectors behind the physical drive

    ghost predicate Valid()
      reads this, win
    {
      && g.Good(|medium|)
      && win.Length == 512
      && winsect < |medium|
      && !g.InFat2(winsect)
      && (!wflag ==> win[..] == medium[winsect])
      && fsiFlag in {0, 1, 0x80, 0x81}
      && lastClst < 0x1_0000_0000 && freeClst < 0x1_0000_0000
    }

    /** The medium overlaid by the window. */
    function View(): (v: seq<Sector>)
      requires Valid()
      reads this, win
      ensures |v| == |medium| && v[winsect] == win[..]
    {
      medium[winsect := win[..]]
    }

    function Fat(): (fat: seq<nat>)
      requires Valid()
      reads this, win
      ensures |fat| == g.nFatent
    {
      Entries(View(), g)
    }

    /** An update of FSInfo is due, or mounting the sectors gives just the counts. */
    ghost predicate InfoOk()
      requires Valid()
      reads this, win
    {
      InfoLaw(g, View(), freeClst, lastClst, fsiFlag)
    }

    /** Changes of the counts have been noted for sync_fs; a free count that is known stays known, any other stays. */
    twostate predicate Noted()
      reads this
    {
      && NotedFrom(old(freeClst), old(lastClst), old(fsiFlag), freeClst, lastClst, fsiFlag)
      && if old(freeClst) <= g.nFatent - 2 then freeClst <= g.nFatent - 2 else freeClst == old(freeClst)
    }

    /** mount_volume leaves its last read, the boot or FSInfo sector, in the window. */
    constructor (g: Geometry, medium: seq<Sector>, sect: nat, freeClst: nat, lastClst: nat, fsiFlag: nat)
      requires g.Good(|medium|) && sect < g.fatbase
      requires freeClst < 0x1_0000_0000 && lastClst < 0x1_0000_0000 && fsiFlag in {0, 0x80}
      ensures Valid() && fresh(win)
      ensures this.g == g && this.medium == medium && View() == medium && !wflag && winsect == sect
      ensures this.freeClst == freeClst && this.lastClst == lastClst && this.fsiFlag == fsiFlag
      ensures InfoInFront(g) ==>
        (freeClst, lastClst, fsiFlag) == MountCounts(g, medium[g.volbase], medium[g.volbase + 1]) ==> InfoOk()
    {
      hide LdWord, LdDword;
      this.g, this.medium := g, medium;
      win := new byte[512](i requires 0 <= i < 512 => medium[sect][i]);
      winsect, wflag := sect, false;
      this.freeClst, this.lastClst, this.fsiFlag := freeClst, lastClst, fsiFlag;
    }

    /** Flushes the window; a FAT sector goes to both copies. */
    method SyncWindow()
      requires Valid()
      modifies `medium, `wflag
      ensures Valid() && !wflag && |medium| == old(|medium|)
      ensures SameView(g, old(View()), View())
      ensures medium[winsect] == win[..]
      ensures SameView(g, View(), medium)
      ensures old(Mirrored(g, medium)) ==> Mirrored(g, medium)
    {
      if wflag {
        medium := medium[winsect := win[..]];
        wflag := false;
        if g.InFat1(winsect) {
          if g.nFats == 2 {
            medium := medium[winsect + g.fsize := win[..]];
          }
        }
      }
    }

    /** Brings a sector into the window. */
    method MoveWindow(sect: nat)
      requires Valid() && sect < |medium| && !g.InFat2(sect)
      modifies `medium, `wflag, `winsect, win
      ensures Valid() && winsect == sect && |medium| == old(|medium|)
      ensures SameView(g, old(View()), View())
      ensures win[..] == old(View())[sect]
      ensures old(Mirrored(g, medium)) ==> Mirrored(g, medium)
    {
      if sect != winsect {
        SyncWindow();
        forall i | 0 <= i < 512 {
          win[i] := medium[sect][i];
        }
        winsect := sect;
        assert win[..] == medium[sect];
      }
    }

    /** disk_write of file data: n sectors from src, not the one in the window. */
    method DiskWrite(sect: nat, src: array<byte>, ofs: nat, n: nat)
      requires Valid() && ofs + 512 * n <= src.Length && g.database <= sect && sect + n <= |medium|
      requires !(sect <= winsect < sect + n)
      modifies `medium
      ensures Valid()
      ensures medium == WriteSectors(old(medium), sect, src[ofs..ofs + 512 * n])
      ensures View() == WriteSectors(old(View()), sect, src[ofs..ofs + 512 * n])
    {
      medium := WriteSectors(medium, sect, src[ofs..ofs + 512 * n]);
    }

    /** disk_read of file data: n sectors into dst. */
    method DiskRead(sect: nat, dst: array<byte>, ofs: nat, n: nat)
      requires Valid() && ofs + 512 * n <= dst.Length && g.database <= sect && sect + n <= |medium|
      requires !(sect <= winsect < sect + n) && dst != win
      modifies dst
      ensures Valid() && View() == old(View())
      ensures forall i | 0 <= i < 512 * n :: dst[ofs + i] == View()[sect + i / 512][i % 512]
      ensures n == 1 ==> dst[ofs..ofs + 512] == View()[sect]
      ensures forall i | 0 <= i < dst.Length && !(ofs <= i < ofs + 512 * n) :: dst[i] == old(dst[i])
    {
      forall i | 0 <= i < 512 * n {
        dst[ofs + i] := medium[sect + i / 512][i % 512];
      }
    }

    /** Stores one byte in the window and marks it dirty. */
    method PokeWindow(o: nat, x: byte)
      requires Valid() && o < 512
      modifies win, `wflag
      ensures Valid() && wflag
      ensures win[..] == old(win[..])[o := x]
      ensures View() == old(View())[winsect := old(View())[winsect][o := x]]
    {
      win[o] := x;
      wflag := true;
    }

    /** PokeWindow on a FAT sector, seen as an update of the FAT's bytes. */
    method PokeFat(ghost b: nat, o: nat, x: byte)
      requires Valid() && b < 512 * g.fsize && winsect == g.fatbase + b / 512 && o == b % 512
      modifies win, `wflag
      ensures Valid() && wflag
      ensures FatArea(View(), g) == FatArea(old(View()), g)[b := x]
      ensures KeepsData(g, old(View()), View())
    {
      PokeFatArea(g, View(), b, x);
      PokeWindow(o, x);
    }

    /** get_fat on a FAT12 volume; the entry may straddle two sectors. */
    method GetFat12(clst: nat) returns (val: nat)
      requires Valid() && g.fsType.Fat12? && g.IsCluster(clst)
      modifies `medium, `wflag, `winsect, win
      ensures Valid() && |medium| == old(|medium|) && g.InFat1(winsect)
      ensures SameView(g, old(View()), View())
      ensures val == old(Fat())[clst]
      ensures old(Mirrored(g, medium)) ==> Mirrored(g, medium)
    {
      hide Mirrored, Entries;
      ghost var v := View();
      ReadEntry12(v, g, clst);
      var bc := clst + clst / 2;
      MoveWindow(g.fatbase + bc / 512);
      ghost var u := View();
      var wc := win[bc % 512] as int;
      bc := bc + 1;
      MoveWindow(g.fatbase + bc / 512);
      wc := wc + 0x100 * win[bc % 512] as int;
      val := if clst % 2 == 1 then wc / 16 else wc % 0x1000;
      SameViewTrans(g, v, u, View());
    }

    /** get_fat on a FAT16 volume. */
    method GetFat16(clst: nat) returns (val: nat)
      requires Valid() && g.fsType.Fat16? && g.IsCluster(clst)
      modifies `medium, `wflag, `winsect, win
      ensures Valid() && |medium| == old(|medium|) && g.InFat1(winsect)
      ensures SameView(g, old(View()), View())
      ensures val == old(Fat())[clst]
      ensures old(Mirrored(g, medium)) ==> Mirrored(g, medium)
    {
      ReadEntry16(View(), g, clst);
      MoveWindow(g.fatbase + clst / 256);
      val := LdWord(win[..], clst * 2 % 512);
    }

    /** get_fat on a FAT32 volume; the upper four bits are not part of the value. */
    method GetFat32(clst: nat) returns (val: nat)
      requires Valid() && g.fsType.Fat32? && g.IsCluster(clst)
      modifies `medium, `wflag, `winsect, win
      ensures Valid() && |medium| == old(|medium|) && g.InFat1(winsect)
      ensures SameView(g, old(View()), View())
      ensures val == old(Fat())[clst]
      ensures old(Mirrored(g, medium)) ==> Mirrored(g, medium)
    {
      ReadEntry32(View(), g, clst);
      MoveWindow(g.fatbase + clst / 128);
      val := LdDword(win[..], clst * 4 % 512) % 0x1000_0000;
    }

    /** get_fat: the value of an entry, or 1 for a cluster number out of range. */
    method GetFat(clst: nat) returns (val: nat)
      requires Valid()
      modifies `medium, `wflag, `winsect, win
      ensures Valid() && |medium| == old(|medium|)
      ensures SameView(g, old(View()), View()) && Fat() == old(Fat())
      ensures val == if g.IsCluster(clst) then old(Fat())[clst] else 1
      ensures if g.IsCluster(clst) then g.InFat1(winsect) else winsect == old(winsect)
      ensures old(Mirrored(g, medium)) ==> Mirrored(g, medium)
    {
      if clst < 2 || clst >= g.nFatent {
        val := 1;
      } else {
        match g.fsType {
          case Fat12 => val := GetFat12(clst);
          case Fat16 => val := GetFat16(clst);
          case Fat32 => val := GetFat32(clst);
        }
      }
      SameEntries(g, old(View()), View());
    }

    /** MoveWindow to the FAT sector of byte b, seen through the FAT's bytes. */
    method MoveToFat(ghost b: nat, sect: nat)
      requires Valid() && b < 512 * g.fsize && sect == g.fatbase + b / 512
      modifies `medium, `wflag, `winsect, win
      ensures Valid() && winsect == sect && |medium| == old(|medium|)
      ensures FatArea(View(), g) == FatArea(old(View()), g)
      ensures KeepsData(g, old(View()), View())
      ensures win[b % 512] == FatArea(View(), g)[b]
      ensures old(Mirrored(g, medium)) ==> Mirrored(g, medium)
    {
      MoveWindow(sect);
      SameFatArea(g, old(View()), View());
      SameKeepsData(g, old(View()), View());
    }

    method PutFat12(clst: nat, val: nat)
      requires Valid() && g.fsType.Fat12? && g.IsCluster(clst)
      modifies `medium, `wflag, `winsect, win
      ensures Valid() && |medium| == old(|medium|) && g.InFat1(winsect)
      ensures Fat() == old(Fat())[clst := val % 0x1000]
      ensures KeepsData(g, old(View()), View())
      ensures old(Mirrored(g, medium)) ==> Mirrored(g, medium)
    {
      hide KeepsData, KeepsReserved, Mirrored, EntriesOf, FatArea;
      ghost var v0, fb := View(), FatArea(View(), g);
      PutEntries12(fb, g, |medium|, clst, val);
      var bc := clst + clst / 2;
      MoveToFat(bc, g.fatbase + bc / 512);
      ghost var v1 := View();
      PokeFat(bc, bc % 512, Low12(clst, val, win[bc % 512]));
      KeepsDataTrans(g, v0, v1, View());
      v1 := View();
      bc := bc + 1;
      MoveToFat(bc, g.fatbase + bc / 512);
      KeepsDataTrans(g, v0, v1, View());
      v1 := View();
      PokeFat(bc, bc % 512, High12(clst, val, win[bc % 512]));
      KeepsDataTrans(g, v0, v1, View());
    }

    method PutFat16(clst: nat, val: nat)
      requires Valid() && g.fsType.Fat16? && g.IsCluster(clst)
      modifies `medium, `wflag, `winsect, win
      ensures Valid() && |medium| == old(|medium|) && g.InFat1(winsect)
      ensures Fat() == old(Fat())[clst := val % 0x10000]
      ensures KeepsData(g, old(View()), View())
      ensures old(Mirrored(g, medium)) ==> Mirrored(g, medium)
    {
      hide KeepsData, KeepsReserved, Mirrored, EntriesOf, FatArea;
      ghost var v0, fb := View(), FatArea(View(), g);
      PutEntries16(fb, g, |medium|, clst, val);
      SameSector(2 * clst);
      MoveToFat(2 * clst, g.fatbase + clst / 256);
      var o := clst * 2 % 512;
      ghost var v1 := View();
      PokeFat(2 * clst, o, LeByte(val, 0));
      KeepsDataTrans(g, v0, v1, View());
      v1 := View();
      PokeFat(2 * clst + 1, o + 1, LeByte(val, 1));
      KeepsDataTrans(g, v0, v1, View());
    }

    /** st_dword into the FAT sector in the window. */
    method PokeDword(clst: nat, o: nat, m: nat)
      requires Valid() && 4 * clst + 3 < 512 * g.fsize && winsect == g.fatbase + clst / 128 && o == clst * 4 % 512
      modifies win, `wflag
      ensures Valid() && wflag
      ensures FatArea(View(), g) == StDword(FatArea(old(View()), g), 4 * clst, m)
      ensures KeepsData(g, old(View()), View())
    {
      ghost var b := 4 * clst;
      SameSector(b);
      ghost var v0 := View();
      PokeFat(b, o, LeByte(m, 0));
      ghost var v1 := View();
      PokeFat(b + 1, o + 1, LeByte(m, 1));
      KeepsDataTrans(g, v0, v1, View());
      v1 := View();
      PokeFat(b + 2, o + 2, LeByte(m, 2));
      KeepsDataTrans(g, v0, v1, View());
      v1 := View();
      PokeFat(b + 3, o + 3, LeByte(m, 3));
      KeepsDataTrans(g, v0, v1, View());
    }

    method PutFat32(clst: nat, val: nat)
      requires Valid() && g.fsType.Fat32? && g.IsCluster(clst)
      modifies `medium, `wflag, `winsect, win
      ensures Valid() && |medium| == old(|medium|) && g.InFat1(winsect)
      ensures Fat() == old(Fat())[clst := val % 0x1000_0000]
      ensures KeepsReserved(g, FatArea(old(View()), g), FatArea(View(), g))
      ensures KeepsData(g, old(View()), View())
      ensures old(Mirrored(g, medium)) ==> Mirrored(g, medium)
    {
      hide KeepsData, KeepsReserved, Mirrored, EntriesOf, FatArea;
      ghost var v0, fb := View(), FatArea(View(), g);
      ReadEntry32(v0, g, clst);
      PutEntries32(fb, g, |medium|, clst, val);
      MoveWindow(g.fatbase + clst / 128);
      SameFatArea(g, v0, View());
      SameKeepsData(g, v0, View());
      var o := clst * 4 % 512;
      ghost var v1 := View();
      assert LdDword(win[..], o) == LdDword(fb, 4 * clst);
      PokeDword(clst, o, Merge32(val, LdDword(win[..], o)));
      assert FatArea(View(), g) == Stored32(fb, clst, val);
      KeepsDataTrans(g, v0, v1, View());
    }

    /** put_fat: stores val, cut to the entry width, at one entry and at no other. */
    method PutFat(clst: nat, val: nat) returns (res: FResult)
      requires Valid()
      modifies `medium, `wflag, `winsect, win
      ensures Valid() && |medium| == old(|medium|)
      ensures res == if g.IsCluster(clst) then FR_OK else FR_INT_ERR
      ensures Fat() == if g.IsCluster(clst) then old(Fat())[clst := g.CutToEntry(val)] else old(Fat())
      ensures g.IsCluster(clst) ==> g.InFat1(winsect)
      ensures KeepsReserved(g, FatArea(old(View()), g), FatArea(View(), g))
      ensures KeepsData(g, old(View()), View())
      ensures old(Mirrored(g, medium)) ==> Mirrored(g, medium)
    {
      res := FR_INT_ERR;
      if clst >= 2 && clst < g.nFatent {
        match g.fsType {
          case Fat12 => PutFat12(clst, val);
          case Fat16 => PutFat16(clst, val);
          case Fat32 => PutFat32(clst, val);
        }
        res := FR_OK;
      }
    }

    lemma SyncedFat()
      requires Valid() && InfoInFront(g)
      ensures Entries(Synced(), g) == Fat()
    {
      assert FatArea(Synced(), g) == FatArea(View(), g);
    }

    /** The sectors once sync_fs is through: the view, with the FSInfo sector updated if it is due. */
    ghost function Synced(): (v: seq<Sector>)
      requires Valid()
      reads this, win
      ensures |v| == |medium|
    {
      if g.fsType.Fat32? && fsiFlag == 1 then View()[g.volbase + 1 := FsInfoSector(freeClst, lastClst)] else View()
    }

    /** sync_fs: afterwards nothing is pending and the medium holds the view. */
    method SyncFs()
      requires Valid()
      modifies `medium, `wflag, `winsect, `fsiFlag, win
      ensures Valid() && !wflag && |medium| == old(|medium|)
      ensures SameView(g, old(Synced()), medium) && View() == medium
      ensures g.fsType.Fat32? ==> fsiFlag != 1
      ensures InfoInFront(g) && old(Mirrored(g, medium)) ==> Mirrored(g, medium)
      ensures fsiFlag == if g.fsType.Fat32? && old(fsiFlag) == 1 then 0 else old(fsiFlag)
      ensures InfoInFront(g) ==> Fat() == old(Fat())
      ensures old(InfoOk()) ==> InfoOk()
      ensures old(InfoOk()) && fsiFlag < 0x80 ==>
        MountCounts(g, medium[g.volbase], medium[g.volbase + 1]) == (freeClst, lastClst, 0)
    {
      hide LdWord, LdDword, FsInfoByte;
      ghost var v0, w := View(), Synced();
      if InfoInFront(g) {
        SyncedFat();
      }
      SyncWindow();
      if g.fsType.Fat32? && fsiFlag == 1 {
        forall i | 0 <= i < 512 {
          win[i] := FsInfoByte(freeClst, lastClst, i);
        }
        winsect := g.volbase + 1;
        assert win[..] == FsInfoSector(freeClst, lastClst);
        medium := medium[winsect := win[..]];
        fsiFlag := 0;
        if LdWord(v0[g.volbase], 48) == 1 {
          FsInfoRoundTrip(g, v0[g.volbase], freeClst, lastClst);
        }
      }
      SameEntries(g, w, medium);
    }
  }

  /**
   sync_fs leaves the allocation table of a FAT32 volume alone, whatever the volume holds, exactly when
   the FSInfo sector (always the one after the boot sector) lies in front of the first FAT.
   */
  lemma FsInfoSparesFat(g: Geometry, size: nat, freeClst: nat, lastClst: nat)
    requires g.Good(size) && g.fsType.Fat32?
    ensures (forall v: seq<Sector> | |v| == size ::
              Entries(v[g.volbase + 1 := FsInfoSector(freeClst, lastClst)], g) == Entries(v, g))
        <==> g.volbase + 1 < g.fatbase
  {
    var info := FsInfoSector(freeClst, lastClst);
    if g.volbase + 1 < g.fatbase {
      forall v: seq<Sector> | |v| == size ensures Entries(v[g.volbase + 1 := info], g) == Entries(v, g) {
        assert FatArea(v[g.volbase + 1 := info], g) == FatArea(v, g);
      }
    } else {
      var ones: Sector := seq(512, _ => 1);
      var v: seq<Sector> := seq(size, _ => ones);
      var w := v[g.volbase + 1 := info];
      ReadEntry32(v, g, 2);
      ReadEntry32(w, g, 2);
      assert LdDword(ones, 8) == 0x01010101 && LdDword(info, 8) == 0;
      assert Entries(w, g)[2] != Entries(v, g)[2];
    }
  }
}
