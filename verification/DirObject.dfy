/**
 Directory objects: walking over the table of a directory, wherever it lies on the volume, and finding, reading and
 registering names in it.
 */
module DirObject {
  import opened FatLayout
  import opened FatWindow
  import opened FatAlloc
  import opened FatContent
  import opened FatFileState
  import opened LongNames
  import opened Directories
  import opened DirTables
  import opened NumberedNames
  import opened Bitwise
  import Chains = FatChains

  // ---------- the directory on the volume ----------

  /** The directory that starts at sclust, 0 for the root, has the clusters ch. */
  ghost predicate OnVolume(g: Geometry, fat: seq<nat>, sclust: nat, ch: seq<nat>) {
    if sclust == 0 && !g.fsType.Fat32? then ch == [] && RootArea(g)
    else Chains.Reaches(fat, if sclust == 0 then g.dirbase else sclust, ch)
  }

  lemma OnVolumeGood(g: Geometry, v: seq<Sector>, sclust: nat, ch: seq<nat>)
    requires g.Good(|v|) && OnVolume(g, Entries(v, g), sclust, ch)
    ensures DirGood(g, |v|, ch) && (ch == [] <==> sclust == 0 && !g.fsType.Fat32?)
    ensures ch != [] ==> Chains.IsChain(Entries(v, g), ch)
  {
    if ch != [] {
      ChainClusters(g, |v|, Entries(v, g), ch);
    }
  }

  /** The object is at entry k of the table. */
  ghost predicate AtEntry(g: Geometry, ch: seq<nat>, k: nat, clust: nat, sect: nat)
    requires g.csize > 0
  {
    && k < 16 * Count(g, ch) && sect == SectorOf(g, ch, k / 16)
    && (if ch == [] then clust == 0 else Row(g.csize, k / 16) < |ch| && clust == ch[Row(g.csize, k / 16)])
  }

  /** Nothing has changed but the directory, which has at most grown by clusters that were free. */
  ghost predicate DirKeeps(g: Geometry, v0: seq<Sector>, ch0: seq<nat>, v: seq<Sector>, ch: seq<nat>)
    requires g.Good(|v0|)
  {
    && (ch == [] <==> ch0 == [])
    && if ch != [] then Evolves(g, v0, ch0, v, ch)
       else |v| == |v0| && forall s | 0 <= s < |v| && !g.InFat2(s) && !TableSector(g, ch, s) :: v[s] == v0[s]
  }

  /** Nothing has changed for the directory but, perhaps, the sector in the window. */
  ghost predicate Quiet(g: Geometry, ch: seq<nat>, v0: seq<Sector>, win0: nat, v: seq<Sector>, win: nat)
    requires g.csize > 0
  {
    SameView(g, v0, v) && WindowOk(g, ch, win0, win) && EntriesIn(v, g, ch) == EntriesIn(v0, g, ch)
  }

  lemma QuietTrans(g: Geometry, ch: seq<nat>, v0: seq<Sector>, win0: nat, v1: seq<Sector>, win1: nat,
                   v: seq<Sector>, win: nat)
    requires g.csize > 0 && Quiet(g, ch, v0, win0, v1, win1) && Quiet(g, ch, v1, win1, v, win)
    ensures Quiet(g, ch, v0, win0, v, win)
  {
    hide EntriesIn;
    SameViewTrans(g, v0, v1, v);
    WindowTrans(g, ch, ch, win0, win1, win);
  }

  /** Where the window is after the directory has been worked on. */
  ghost predicate WindowOk(g: Geometry, ch: seq<nat>, win0: nat, win: nat) {
    win == win0 || g.InFat1(win) || TableSector(g, ch, win)
  }

  lemma WindowTrans(g: Geometry, ch1: seq<nat>, ch2: seq<nat>, win0: nat, win1: nat, win2: nat)
    requires WindowOk(g, ch1, win0, win1) && WindowOk(g, ch2, win1, win2) && ch1 <= ch2 && (ch1 == [] <==> ch2 == [])
    ensures WindowOk(g, ch2, win0, win2)
  {
    hide Owns;
    if ch2 != [] && Owns(g, ch1, win1) {
      OwnsPrefix(g, ch1, ch2, win1);
    }
  }

  lemma DirKeepsSame(g: Geometry, v0: seq<Sector>, v: seq<Sector>, ch: seq<nat>)
    requires g.Good(|v0|) && SameView(g, v0, v)
    ensures DirKeeps(g, v0, ch, v, ch)
  {
    hide Entries, Owns;
    SameEntries(g, v0, v);
  }

  lemma DirKeepsTrans(g: Geometry, v0: seq<Sector>, ch0: seq<nat>, v1: seq<Sector>, ch1: seq<nat>, v2: seq<Sector>,
                      ch2: seq<nat>)
    requires g.Good(|v0|) && Clusters(g, ch2) && DirKeeps(g, v0, ch0, v1, ch1) && DirKeeps(g, v1, ch1, v2, ch2)
    ensures DirKeeps(g, v0, ch0, v2, ch2)
  {
    hide Evolves, TableSector;
    if ch2 != [] {
      EvolvesTrans(g, v0, ch0, v1, ch1, v2, ch2);
    }
  }

  // ---------- clearing a cluster ----------

  method ZeroWindow(fs: FATFS)
    requires fs.win.Length == 512
    modifies fs.win
    ensures fs.win[..] == seq(512, _ => 0)
  {
    var i := 0;
    while i < 512
      invariant 0 <= i <= 512 && forall j | 0 <= j < i :: fs.win[j] == 0
    {
      fs.win[i] := 0;
      i := i + 1;
    }
  }

  /** The window written to n sectors from sect on. */
  method Repeat(fs: FATFS, sect: nat, n: nat)
    requires fs.win.Length == 512 && sect + n <= |fs.medium|
    modifies fs`medium
    ensures |fs.medium| == old(|fs.medium|)
    ensures forall s | 0 <= s < |fs.medium| ::
      fs.medium[s] == if sect <= s < sect + n then fs.win[..] else old(fs.medium)[s]
  {
    var i := 0;
    while i < n
      invariant 0 <= i <= n && |fs.medium| == old(|fs.medium|)
      invariant forall s | 0 <= s < |fs.medium| ::
        fs.medium[s] == if sect <= s < sect + i then fs.win[..] else old(fs.medium)[s]
    {
      fs.medium := fs.medium[sect + i := fs.win[..]];
      i := i + 1;
    }
  }

  /** dir_clear: a cluster filled with zeros, and its first sector in the window. */
  method DirClear(fs: FATFS, clst: nat)
    requires fs.Valid() && fs.g.IsCluster(clst)
    modifies fs`medium, fs`wflag, fs`winsect, fs.win
    ensures fs.Valid() && |fs.medium| == old(|fs.medium|) && InCluster(fs.g, clst, fs.winsect)
    ensures forall s | 0 <= s < |fs.medium| && InCluster(fs.g, clst, s) :: fs.View()[s] == seq(512, _ => 0)
    ensures forall s | 0 <= s < |fs.medium| && !InCluster(fs.g, clst, s) && !fs.g.InFat2(s) ::
      fs.View()[s] == old(fs.View())[s]
    ensures old(Mirrored(fs.g, fs.medium)) ==> Mirrored(fs.g, fs.medium)
  {
    ghost var g, v := fs.g, fs.View();
    ClustersDisjoint(g, clst, g.nFatent);
    fs.SyncWindow();
    ghost var m := fs.medium;
    assert SameView(g, v, m);
    var sect := Clst2Sect(fs, clst);
    ZeroWindow(fs);
    fs.winsect := sect;
    Repeat(fs, sect, fs.g.csize);
  }

  // ---------- walking ----------

  class DIR {
    const fs: FATFS
    const lfnbuf: array<wchar>
    const sclust: nat       // first cluster, 0 for the root directory
    var dptr: nat           // current entry; its offset in the table is 32 times that
    var clust: nat          // current cluster, 0 in the root directory area
    var sect: nat           // current sector, 0 if there is no current entry
    var blkOfs: int         // first entry of the block of the current object
    var fn: seq<byte>       // short name
    var loss: bool          // the short name does not stand for the long one
    var lfn: bool           // the name needs long-name entries
    var noLfn: bool         // look at short names only
    var ntFlags: byte       // case flags of the short name
    ghost var chain: seq<nat>

    constructor (fs: FATFS, lfnbuf: array<wchar>, sclust: nat, fn: seq<byte>, loss: bool, lfn: bool, ntFlags: byte,
                 ghost chain: seq<nat>)
      requires fs.Valid() && lfnbuf.Length == LFN_BUF && OnVolume(fs.g, fs.Fat(), sclust, chain)
      ensures Valid() && this.fs == fs && this.lfnbuf == lfnbuf && this.sclust == sclust && this.chain == chain
      ensures this.fn == fn && this.loss == loss && this.lfn == lfn && !noLfn && sect == 0
    {
      this.fs, this.lfnbuf, this.sclust, this.chain := fs, lfnbuf, sclust, chain;
      this.fn, this.loss, this.lfn, this.noLfn, this.ntFlags := fn, loss, lfn, false, ntFlags;
      dptr, clust, sect, blkOfs := 0, 0, 0, NO_BLOCK;
    }

    ghost predicate Valid()
      reads this, fs, fs.win
    {
      fs.Valid() && lfnbuf.Length == LFN_BUF && OnVolume(fs.g, fs.Fat(), sclust, chain)
    }

    /** The current entry is one of the table. */
    ghost predicate Here()
      reads this, fs
      requires fs.g.csize > 0
    {
      AtEntry(fs.g, chain, dptr, clust, sect)
    }

    ghost function Slots(): (t: seq<DirEntry>)
      requires fs.Valid()
      reads this, fs, fs.win
      ensures |t| == 16 * Count(fs.g, chain)
    {
      EntriesIn(fs.View(), fs.g, chain)
    }

    /** Reading the table of allocation only does not change the directory. */
    lemma SameSlots(v: seq<Sector>, w: seq<Sector>)
      requires fs.g.Good(|v|) && DirGood(fs.g, |v|, chain) && SameView(fs.g, v, w)
      ensures EntriesIn(w, fs.g, chain) == EntriesIn(v, fs.g, chain)
    {
      hide EntriesIn;
      SameKeepsData(fs.g, v, w);
      EntriesKept(v, w, fs.g, chain);
    }

    /** dir_sdi's walk along the chain to the cluster of entry k; 0 if the chain ends before, else ofs is left to go. */
    method Follow(k: nat) returns (clst: nat, ofs: nat)
      requires Valid() && chain != [] && k < 0x1_0000
      modifies fs`medium, fs`wflag, fs`winsect, fs.win
      ensures Valid() && SameView(fs.g, old(fs.View()), fs.View()) && fs.Fat() == old(fs.Fat())
      ensures fs.winsect == old(fs.winsect) || fs.g.InFat1(fs.winsect)
      ensures clst == 0 <==> k >= 16 * Count(fs.g, chain)
      ensures clst != 0 ==> fs.g.IsCluster(clst) && ofs / 16 == Col(fs.g.csize, k / 16)
      ensures clst != 0 ==> Row(fs.g.csize, k / 16) < |chain| && clst == chain[Row(fs.g.csize, k / 16)]
      ensures old(Mirrored(fs.g, fs.medium)) ==> Mirrored(fs.g, fs.medium)
    {
      hide Row, Col, Entries, Mirrored, FATFS.View;
      ghost var v := fs.View();
      clst, ofs := if sclust == 0 then fs.g.dirbase else sclust, k;
      ghost var s: nat, i: nat := 0, 0;
      StartOfTable(fs.g.csize);
      while ofs >= 16 * fs.g.csize
        invariant Valid() && SameView(fs.g, v, fs.View()) && fs.Fat() == old(fs.Fat())
        invariant old(Mirrored(fs.g, fs.medium)) ==> Mirrored(fs.g, fs.medium)
        invariant fs.winsect == old(fs.winsect) || fs.g.InFat1(fs.winsect)
        invariant i < |chain| && clst == chain[i] && Row(fs.g.csize, s) == i && Col(fs.g.csize, s) == 0
        invariant 16 * s + ofs == k
        decreases ofs
      {
        ghost var v1 := fs.View();
        Chains.ChainEntry(fs.Fat(), chain, i);
        RowSkip(fs.g.csize, s);
        var next := fs.GetFat(clst);
        SameViewTrans(fs.g, v, v1, fs.View());
        if next < 2 || next >= fs.g.nFatent {
          RowBelow(fs.g.csize, |chain|, s + fs.g.csize);
          return 0, 0;
        }
        clst, ofs, s, i := next, ofs - 16 * fs.g.csize, s + fs.g.csize, i + 1;
      }
      Chains.ChainEntry(fs.Fat(), chain, i);
      RowAdvance(fs.g.csize, s, ofs / 16);
      RowBelow(fs.g.csize, |chain|, s + ofs / 16);
      assert k / 16 == s + ofs / 16;
    }

    /** dir_sdi: goes to entry k. */
    method Sdi(k: nat) returns (res: FResult)
      requires Valid()
      modifies this`dptr, this`clust, this`sect, fs`medium, fs`wflag, fs`winsect, fs.win
      ensures Valid() && SameView(fs.g, old(fs.View()), fs.View()) && fs.Fat() == old(fs.Fat())
      ensures Slots() == old(Slots())
      ensures fs.winsect == old(fs.winsect) || fs.g.InFat1(fs.winsect)
      ensures res == if k < |Slots()| then FR_OK else FR_INT_ERR
      ensures res == FR_OK ==> Here() && dptr == k
      ensures old(Mirrored(fs.g, fs.medium)) ==> Mirrored(fs.g, fs.medium)
    {
      hide Row, Col, Entries, Mirrored, EntriesIn, FATFS.View;
      ghost var v := fs.View();
      OnVolumeGood(fs.g, v, sclust, chain);
      CountBound(fs.g, chain);
      if k >= 0x1_0000 {
        return FR_INT_ERR;
      }
      dptr := k;
      var clst, ofs := sclust, k;
      if clst == 0 && !fs.g.fsType.Fat32? {
        if k >= fs.g.nRootdir {
          return FR_INT_ERR;
        }
        sect := fs.g.dirbase;
      } else {
        clst, ofs := Follow(k);
        SameSlots(v, fs.View());
        if clst == 0 {
          return FR_INT_ERR;
        }
        sect := Clst2Sect(fs, clst);
      }
      clust := clst;
      sect := sect + ofs / 16;
      return FR_OK;
    }

    /** create_chain at the end of the directory's chain; 0 if the volume is full, 1 on an insane allocation table. */
    method Extend() returns (clst: nat)
      requires Valid() && chain != [] && clust == chain[|chain| - 1]
      modifies this`chain, fs, fs.win
      ensures fs.Noted()
      ensures Valid()
      ensures clst == 0 ==> Full(fs)
      ensures clst == 1 ==> HasInvalid(fs.Fat())
      ensures chain == if clst < 2 then old(chain) else old(chain) + [clst]
      ensures EntriesIn(fs.View(), fs.g, old(chain)) == old(Slots())
      ensures fs.winsect == old(fs.winsect) || fs.g.InFat1(fs.winsect)
      ensures Evolves(fs.g, old(fs.View()), old(chain), fs.View(), chain)
      ensures old(Mirrored(fs.g, fs.medium)) ==> Mirrored(fs.g, fs.medium)
      ensures old(FreeCountOk(fs)) ==> FreeCountOk(fs)
    {
      hide Row, Col, Entries, Mirrored, EntriesIn, FATFS.View, HasInvalid, NoneFree, Count, Owns, InCluster, Outcome;
      ghost var g, v, fat, ch, free, last := fs.g, fs.View(), fs.Fat(), chain, fs.freeClst, fs.lastClst;
      OnVolumeGood(g, v, sclust, ch);
      clst := CreateChain(fs, clust);
      StretchOutcome(g, |v|, fat, ch, |ch| - 1, clust, free, last, clst, fs.Fat());
      EvolvesStretch(g, v, ch, fs.View(), Grown(fat, ch, clst, fs.Fat()));
      EntriesKept(v, fs.View(), g, ch);
      if clst >= 2 {
        chain := ch + [clst];
      }
    }

    /** The stretching of a table by a cleared cluster; 0 if the volume is full, 1 on an insane allocation table. */
    method Stretch() returns (clst: nat)
      requires Valid() && chain != [] && clust == chain[|chain| - 1] && Count(fs.g, chain) < MAX_SECTORS
      modifies this`chain, fs, fs.win
      ensures fs.Noted()
      ensures Valid()
      ensures clst == 0 ==> Full(fs)
      ensures clst == 1 ==> HasInvalid(fs.Fat())
      ensures if clst < 2 then chain == old(chain) && Slots() == old(Slots())
              else chain == old(chain) + [clst] && Count(fs.g, old(chain)) < Count(fs.g, chain)
                   && Slots() == old(Slots()) + Blanks(16 * (Count(fs.g, chain) - Count(fs.g, old(chain))))
      ensures WindowOk(fs.g, chain, old(fs.winsect), fs.winsect)
      ensures Evolves(fs.g, old(fs.View()), old(chain), fs.View(), chain)
      ensures old(Mirrored(fs.g, fs.medium)) ==> Mirrored(fs.g, fs.medium)
      ensures old(FreeCountOk(fs)) ==> FreeCountOk(fs)
    {
      hide Row, Col, Entries, Mirrored, EntriesIn, FATFS.View, HasInvalid, Full, Count, Owns, InCluster, Evolves;
      ghost var g, v, ch := fs.g, fs.View(), chain;
      clst := Extend();
      if clst >= 2 {
        ghost var v1 := fs.View();
        OnVolumeGood(g, v1, sclust, chain);
        DirClear(fs, clst);
        Cleared(g, v1, fs.View(), ch, clst);
        assert chain[|ch|] == clst;
        InOwn(g, chain, |ch|, fs.winsect);
        EvolvesTrans(g, v, ch, v1, chain, fs.View(), chain);
      }
    }

    lemma Sound()
      requires Valid()
      ensures DirGood(fs.g, |fs.View()|, chain) && (chain == [] <==> sclust == 0 && !fs.g.fsType.Fat32?)
      ensures chain != [] ==> Chains.IsChain(fs.Fat(), chain)
    {
      OnVolumeGood(fs.g, fs.View(), sclust, chain);
    }

    lemma NoCluster()
      requires Valid() && Here()
      ensures clust == 0 <==> chain == []
    {
      Sound();
    }

    lemma Edge()
      requires Valid() && Here() && chain != [] && (dptr + 1) % 16 == 0 && Col(fs.g.csize, (dptr + 1) / 16) == 0
      requires dptr + 1 < 0x1_0000
      ensures fs.g.IsCluster(clust) && fs.Fat()[clust] >= 2
      ensures var k, next := (dptr + 1) / 16, fs.Fat()[clust];
        if next < fs.g.nFatent then
          && dptr + 1 < 16 * Count(fs.g, chain) && Row(fs.g.csize, k) < |chain| && next == chain[Row(fs.g.csize, k)]
          && fs.g.IsCluster(next) && SectorOf(fs.g, chain, k) == fs.g.ClusterBase(next)
        else
          && dptr + 1 == 16 * Count(fs.g, chain) && Count(fs.g, chain) < MAX_SECTORS && Row(fs.g.csize, k) == |chain|
          && clust == chain[|chain| - 1]
    {
      Sound();
      ClusterEdge(fs.g, fs.View(), chain, dptr, clust, sect);
    }

    /** dir_next's stretching of the table at its end: sector k, the first of a new cluster, becomes the current one. */
    method EnterNew(ghost k: nat) returns (res: FResult)
      requires Valid() && chain != [] && clust == chain[|chain| - 1] && Count(fs.g, chain) == k < MAX_SECTORS
      requires Row(fs.g.csize, k) == |chain| && Col(fs.g.csize, k) == 0
      modifies this`clust, this`sect, this`chain, fs, fs.win
      ensures fs.Noted()
      ensures Valid() && res in {FR_OK, FR_DENIED, FR_INT_ERR} && chain != []
      ensures res == FR_OK ==> Entered(fs.g, chain, k, clust, sect)
      ensures res == FR_DENIED ==> Full(fs)
      ensures res == FR_INT_ERR ==> HasInvalid(fs.Fat())
      ensures if res == FR_OK then Grew(old(Slots()), Slots(), 16 * k) else Slots() == old(Slots())
      ensures Evolves(fs.g, old(fs.View()), old(chain), fs.View(), chain)
      ensures WindowOk(fs.g, chain, old(fs.winsect), fs.winsect)
      ensures old(Mirrored(fs.g, fs.medium)) ==> Mirrored(fs.g, fs.medium)
      ensures old(FreeCountOk(fs)) ==> FreeCountOk(fs)
    {
      hide Row, Col, Entries, Mirrored, EntriesIn, FATFS.View, HasInvalid, Full, Evolves, Count, SectorOf;
      hide OnVolume, WindowOk, Chains.IsChain, Clusters, FATFS.Fat, FreeCountOk;
      ghost var ch := chain;
      var clst := Stretch();
      if clst < 2 {
        return if clst == 0 then FR_DENIED else FR_INT_ERR;
      }
      Sound();
      EdgePassed(fs.g, |fs.View()|, ch, chain, clst, k);
      clust := clst;
      sect := Clst2Sect(fs, clst);
      return FR_OK;
    }

    /** The part of dir_next at a cluster boundary, where the next cluster is entered or the table ends. */
    method NextCluster(stretch: bool) returns (res: FResult)
      requires Valid() && Here() && chain != [] && (dptr + 1) % 16 == 0 && Col(fs.g.csize, (dptr + 1) / 16) == 0
      requires dptr + 1 < 0x1_0000
      modifies this`clust, this`sect, this`chain, fs, fs.win
      ensures fs.Noted()
      ensures Valid() && res in {FR_OK, FR_NO_FILE, FR_DENIED, FR_INT_ERR} && chain != []
      ensures res == FR_OK ==> Entered(fs.g, chain, (dptr + 1) / 16, clust, sect)
      ensures res == FR_NO_FILE ==> !stretch && sect == 0 && dptr + 1 == |Slots()|
      ensures res == FR_DENIED ==> stretch && Full(fs) && dptr + 1 == |Slots()|
      ensures res == FR_INT_ERR ==> stretch && HasInvalid(fs.Fat())
      ensures if res == FR_OK then Grew(old(Slots()), Slots(), dptr + 1) else Slots() == old(Slots())
      ensures !stretch ==> chain == old(chain) && SameView(fs.g, old(fs.View()), fs.View())
      ensures Evolves(fs.g, old(fs.View()), old(chain), fs.View(), chain)
      ensures WindowOk(fs.g, chain, old(fs.winsect), fs.winsect)
      ensures old(Mirrored(fs.g, fs.medium)) ==> Mirrored(fs.g, fs.medium)
      ensures old(FreeCountOk(fs)) ==> FreeCountOk(fs)
    {
      hide Row, Col, Entries, Mirrored, EntriesIn, FATFS.View, HasInvalid, Full, Evolves, Count, SectorOf, AtEntry;
      hide OnVolume, WindowOk, Chains.IsChain, Clusters, FATFS.Fat;
      ghost var g, v, ch, win := fs.g, fs.View(), chain, fs.winsect;
      Sound();
      Edge();
      var clst := fs.GetFat(clust);
      ghost var v1, win1 := fs.View(), fs.winsect;
      SameSlots(v, v1);
      SameEvolves(g, v, v1, ch);
      WindowKept(g, ch, win, win1);
      if clst <= 1 {
        assert false;
      }
      if clst < fs.g.nFatent {
        clust := clst;
        sect := Clst2Sect(fs, clst);
        return FR_OK;
      }
      if !stretch {
        sect := 0;
        return FR_NO_FILE;
      }
      res := EnterNew((dptr + 1) / 16);
      Sound();
      EvolvesTrans(g, v, ch, v1, ch, fs.View(), chain);
      WindowFrom(g, chain, win, win1, fs.winsect);
    }

    /** The part of dir_next at a sector boundary. */
    method NextSect(stretch: bool) returns (res: FResult)
      requires Valid() && Here() && (dptr + 1) % 16 == 0 && dptr + 1 < 0x1_0000
      modifies this`clust, this`sect, this`chain, fs, fs.win
      ensures fs.Noted()
      ensures Valid() && res in {FR_OK, FR_NO_FILE, FR_DENIED, FR_INT_ERR}
      ensures res == FR_OK ==> AtEntry(fs.g, chain, dptr + 1, clust, sect)
      ensures res == FR_NO_FILE ==> sect == 0 && dptr + 1 == |Slots()| && (stretch ==> chain == [])
      ensures res == FR_DENIED ==> stretch && Full(fs) && dptr + 1 == |Slots()|
      ensures res == FR_INT_ERR ==> stretch && HasInvalid(fs.Fat())
      ensures if res == FR_OK then Grew(old(Slots()), Slots(), dptr + 1) else Slots() == old(Slots())
      ensures !stretch ==> chain == old(chain) && SameView(fs.g, old(fs.View()), fs.View()) && Slots() == old(Slots())
      ensures DirKeeps(fs.g, old(fs.View()), old(chain), fs.View(), chain)
      ensures WindowOk(fs.g, chain, old(fs.winsect), fs.winsect)
      ensures old(Mirrored(fs.g, fs.medium)) ==> Mirrored(fs.g, fs.medium)
      ensures old(FreeCountOk(fs)) ==> FreeCountOk(fs)
    {
      hide Row, Col, Entries, Mirrored, EntriesIn, FATFS.View, HasInvalid, Full, Evolves, Count, SectorOf;
      hide OnVolume, WindowOk, Chains.IsChain, Clusters, FATFS.Fat, FreeCountOk;
      ghost var g, v, ch := fs.g, fs.View(), chain;
      Sound();
      NoCluster();
      CountBound(g, chain);
      var k := (dptr + 1) / 16;
      RowColFormula(g.csize, k);
      NextSector(g, |v|, ch, k);
      if clust != 0 && k % fs.g.csize == 0 {
        res := NextCluster(stretch);
        Unchanged(v);
      } else {
        DirKeepsSame(g, v, v, ch);
        WindowKept(g, ch, fs.winsect, fs.winsect);
        if clust == 0 && dptr + 1 >= fs.g.nRootdir {
          sect := 0;
          return FR_NO_FILE;
        }
        sect := sect + 1;
        return FR_OK;
      }
    }

    lemma Unchanged(v: seq<Sector>)
      requires Valid()
      ensures SameView(fs.g, v, fs.View()) ==> EntriesIn(fs.View(), fs.g, chain) == EntriesIn(v, fs.g, chain)
    {
      hide EntriesIn, FATFS.View;
      Sound();
      if SameView(fs.g, v, fs.View()) {
        SameSlots(v, fs.View());
      }
    }

    /** dir_next: goes to the next entry of the table, which is stretched at its end if need be. */
    method Next(stretch: bool) returns (res: FResult)
      requires Valid() && Here()
      modifies this`dptr, this`clust, this`sect, this`chain, fs, fs.win
      ensures fs.Noted()
      ensures Valid() && res in {FR_OK, FR_NO_FILE, FR_DENIED, FR_INT_ERR}
      ensures if res == FR_OK then Here() && dptr == old(dptr) + 1 else dptr == old(dptr)
      ensures res == FR_NO_FILE ==>
        sect == 0 && dptr + 1 == |Slots()| && (stretch ==> chain == [] || dptr + 1 == 0x1_0000)
      ensures res == FR_DENIED ==> stretch && Full(fs) && dptr + 1 == |Slots()|
      ensures res == FR_INT_ERR ==> stretch && HasInvalid(fs.Fat())
      ensures if res == FR_OK then Grew(old(Slots()), Slots(), dptr) else Slots() == old(Slots())
      ensures !stretch ==> chain == old(chain) && SameView(fs.g, old(fs.View()), fs.View()) && Slots() == old(Slots())
      ensures DirKeeps(fs.g, old(fs.View()), old(chain), fs.View(), chain)
      ensures WindowOk(fs.g, chain, old(fs.winsect), fs.winsect)
      ensures old(Mirrored(fs.g, fs.medium)) ==> Mirrored(fs.g, fs.medium)
      ensures old(FreeCountOk(fs)) ==> FreeCountOk(fs)
    {
      hide Row, Col, Entries, Mirrored, EntriesIn, FATFS.View, HasInvalid, Full, Evolves, Count, SectorOf;
      hide OnVolume, WindowOk, Chains.IsChain, Clusters, FATFS.Fat, FreeCountOk;
      ghost var v, ch := fs.View(), chain;
      Sound();
      CountBound(fs.g, ch);
      var k := dptr + 1;
      DirKeepsSame(fs.g, v, v, ch);
      WindowKept(fs.g, ch, fs.winsect, fs.winsect);
      if k >= 0x1_0000 {
        sect := 0;
        return FR_NO_FILE;
      }
      if k % 16 == 0 {
        res := NextSect(stretch);
        if res != FR_OK {
          return;
        }
      }
      dptr := k;
      return FR_OK;
    }

    // ---------- entries ----------

    /** Nothing has changed for the directory and the volume. */
    twostate predicate Still()
      reads this, fs, fs.win
    {
      && old(Valid()) && Valid() && chain == old(chain)
      && Quiet(fs.g, chain, old(fs.View()), old(fs.winsect), fs.View(), fs.winsect)
      && (old(Mirrored(fs.g, fs.medium)) ==> Mirrored(fs.g, fs.medium)) && (old(FreeCountOk(fs)) ==> FreeCountOk(fs))
    }

    /** The current entry, brought into the window. */
    method Load() returns (e: DirEntry)
      requires Valid() && Here()
      modifies fs`medium, fs`wflag, fs`winsect, fs.win
      ensures Still() && Here() && dptr < |Slots()|
      ensures e == Slots()[dptr] == fs.win[32 * (dptr % 16)..32 * (dptr % 16) + 32] && fs.winsect == sect
    {
      hide Row, Col, Entries, Mirrored, Count, SectorOf;
      ghost var v := fs.View();
      Sound();
      InTable(fs.g, |v|, chain, dptr / 16);
      fs.MoveWindow(sect);
      SameEntries(fs.g, v, fs.View());
      SameSlots(v, fs.View());
      e := fs.win[32 * (dptr % 16)..32 * (dptr % 16) + 32];
    }

    /** dir_sdi to an entry of the table. */
    method GoTo(k: nat) returns (res: FResult)
      requires Valid() && k < |Slots()|
      modifies this`dptr, this`clust, this`sect, fs`medium, fs`wflag, fs`winsect, fs.win
      ensures Still() && res == FR_OK && Here() && dptr == k < |Slots()|
    {
      hide Row, Col, Entries, Mirrored, Count, SectorOf, EntriesIn, WindowOk;
      ghost var v, win := fs.View(), fs.winsect;
      res := Sdi(k);
      WindowKept(fs.g, chain, win, fs.winsect);
    }

    /** dir_next without stretching. */
    method Advance() returns (res: FResult)
      requires Valid() && Here()
      modifies this`dptr, this`clust, this`sect, this`chain, fs, fs.win
      ensures fs.Noted()
      ensures Still() && (res == FR_OK || res == FR_NO_FILE)
      ensures if res == FR_OK then Here() && dptr == old(dptr) + 1 < |Slots()|
              else dptr == old(dptr) && dptr + 1 == |Slots()| && sect == 0
    {
      hide Row, Col, Entries, Mirrored, Count, SectorOf, EntriesIn, WindowOk, FreeCountOk;
      res := Next(false);
    }

    ghost function Wanted(): Target
      reads this, lfnbuf
    {
      Target(lfnbuf[..], fn, noLfn, loss)
    }

    /** dir_find on one entry: it ends the search, or leaves it in the state Scan(o, s, blkOfs). */
    method FindEntry(up: wchar -> wchar, e: DirEntry, ord: nat, sum: byte, ghost t: seq<DirEntry>)
      returns (stop: bool, res: FResult, o: nat, s: byte)
      requires lfnbuf.Length == LFN_BUF && dptr < |t| && t[dptr] == e
      modifies this`blkOfs
      ensures res == FR_OK || res == FR_NO_FILE
      ensures var was := FindFrom(up, Wanted(), t, dptr, Scan(ord, sum, old(blkOfs)));
        if stop then was == (res == FR_OK, dptr, blkOfs)
        else was == FindFrom(up, Wanted(), t, dptr + 1, Scan(o, s, blkOfs))
    {
      hide Cmp, SumSfn, Attr, LastFlag, OrdOf, IsLabel, IsLong;
      ghost var x, st := Wanted(), Scan(ord, sum, blkOfs);
      stop, res, o, s := false, FR_OK, ord, sum;
      if e[0] == 0 {
        return true, FR_NO_FILE, ord, sum;
      }
      if e[0] == 0xE5 || IsLabel(e) {
        o, blkOfs := 0xFF, NO_BLOCK;
      } else if IsLong(e) {
        if !noLfn {
          if LastFlag(e) {
            s := e[13];
            o := OrdOf(e);
            blkOfs := dptr;
          }
          var ok := OrdOf(e) == o && s == e[13];
          if ok {
            ok := CmpLfn(up, lfnbuf, e);
          }
          o := if ok then Dec(o) else 0xFF;
        }
        assert Scan(o, s, blkOfs) == FindLong(up, x, e, dptr, st);
      } else {
        if ord == 0 && sum == SumSfn(e[..11]) {
          return true, FR_OK, ord, sum;
        }
        if !loss && e[..11] == fn {
          return true, FR_OK, ord, sum;
        }
        o, blkOfs := 0xFF, NO_BLOCK;
      }
    }

    lemma NotEmpty()
      requires Valid()
      ensures |Slots()| > 0
    {
      Sound();
      if chain != [] {
        MulAtLeast(fs.g.csize, |chain|);
      }
    }

    /** dir_find: looks the name up from the start of the table. */
    method Find(up: wchar -> wchar) returns (res: FResult)
      requires Valid()
      modifies this`dptr, this`clust, this`sect, this`chain, this`blkOfs, fs, fs.win
      ensures fs.Noted()
      ensures Still() && res == if FindFrom(up, Wanted(), Slots(), 0, START).0 then FR_OK else FR_NO_FILE
      ensures res == FR_OK ==> Here() && (true, dptr, blkOfs) == FindFrom(up, Wanted(), Slots(), 0, START)
    {
      hide FindFrom, Row, Col, Entries, Mirrored, EntriesIn, Count, SectorOf, WindowOk, OnVolume, FATFS.View;
      hide FATFS.Fat, AtEntry;
      hide SameView, FreeCountOk;
      ghost var g, ch, v, win, x, t := fs.g, chain, fs.View(), fs.winsect, Wanted(), Slots();
      NotEmpty();
      res := GoTo(0);
      var ord, sum: byte := 0xFF, 0xFF;
      blkOfs := NO_BLOCK;
      while true
        invariant fs.Noted()
        invariant Valid() && Here() && chain == ch && dptr < |t| && Quiet(g, ch, v, win, fs.View(), fs.winsect)
        invariant old(Mirrored(fs.g, fs.medium)) ==> Mirrored(fs.g, fs.medium)
        invariant old(FreeCountOk(fs)) ==> FreeCountOk(fs)
        invariant 0 <= ord && Wanted() == x
        invariant FindFrom(up, x, t, dptr, Scan(ord, sum, blkOfs)) == FindFrom(up, x, t, 0, START)
        decreases |t| - dptr
      {
        ghost var v1, win1 := fs.View(), fs.winsect;
        var e := Load();
        ghost var v2, win2 := fs.View(), fs.winsect;
        QuietTrans(g, ch, v, win, v1, win1, v2, win2);
        var stop;
        stop, res, ord, sum := FindEntry(up, e, ord, sum, t);
        if stop {
          return;
        }
        res := Advance();
        QuietTrans(g, ch, v, win, v2, win2, fs.View(), fs.winsect);
        if res != FR_OK {
          FindEnd(up, x, t, dptr + 1, Scan(ord, sum, blkOfs));
          return;
        }
      }
    }

    /**
     dir_read on one entry: it is the object to read, or the end, or
     leaves the scan in the state Scan(o, s, blkOfs).
     */
    method ReadEntry(e: DirEntry, ord: nat, sum: byte, ghost t: seq<DirEntry>)
      returns (stop: bool, res: FResult, o: nat, s: byte)
      requires lfnbuf.Length == LFN_BUF && dptr < |t| && t[dptr] == e
      modifies this`blkOfs, lfnbuf
      ensures res == FR_OK || res == FR_NO_FILE
      ensures var was := ReadFrom(t, dptr, old(lfnbuf[..]), Scan(ord, sum, old(blkOfs)));
        if stop then was == (res == FR_OK, dptr, blkOfs, lfnbuf[..])
        else was == ReadFrom(t, dptr + 1, lfnbuf[..], Scan(o, s, blkOfs))
    {
      hide Pick, SumSfn, Attr, LastFlag, OrdOf, IsLong;
      ghost var st, buf := Scan(ord, sum, blkOfs), lfnbuf[..];
      stop, res, o, s := false, FR_OK, ord, sum;
      if e[0] == 0 {
        return true, FR_NO_FILE, ord, sum;
      }
      if e[0] == 0xE5 || e[0] == 0x2E || Attr(e) in {0x08, 0x28} {
        o := 0xFF;
      } else if IsLong(e) {
        if LastFlag(e) {
          s := e[13];
          o := OrdOf(e);
          blkOfs := dptr;
        }
        var ok := OrdOf(e) == o && s == e[13];
        if ok {
          ok := PickLfn(lfnbuf, e);
        }
        o := if ok then Dec(o) else 0xFF;
        assert (Scan(o, s, blkOfs), lfnbuf[..]) == ReadLong(e, dptr, buf, st);
      } else {
        if ord != 0 || sum != SumSfn(e[..11]) {
          blkOfs := NO_BLOCK;
        }
        return true, FR_OK, ord, sum;
      }
    }

    /** dir_read: goes to the next object from the current entry on and gets its long name. */
    method Read() returns (res: FResult)
      requires Valid() && (sect == 0 || Here())
      modifies this`dptr, this`clust, this`sect, this`chain, this`blkOfs, lfnbuf, fs, fs.win
      ensures fs.Noted()
      ensures Still() && (res == FR_OK || res == FR_NO_FILE) && (res == FR_OK ==> Here())
      ensures res != FR_OK ==> sect == 0
      ensures old(sect) == 0 ==> res == FR_NO_FILE
      ensures old(sect) != 0 ==>
        var r := ReadFrom(Slots(), old(dptr), old(lfnbuf[..]), Scan(0xFF, 0xFF, old(blkOfs)));
        res == (if r.0 then FR_OK else FR_NO_FILE) && (r.0 ==> r == (true, dptr, blkOfs, lfnbuf[..]))
    {
      hide ReadFrom, Row, Col, Entries, Mirrored, EntriesIn, Count, SectorOf, WindowOk, OnVolume, FATFS.View;
      hide FATFS.Fat, AtEntry;
      hide SameView, FreeCountOk;
      ghost var g, ch, v, win, t := fs.g, chain, fs.View(), fs.winsect, Slots();
      QuietSelf(g, ch, v, win);
      if sect == 0 {
        return FR_NO_FILE;
      }
      InSlots();
      ghost var want := ReadFrom(t, dptr, lfnbuf[..], Scan(0xFF, 0xFF, blkOfs));
      var ord, sum: byte := 0xFF, 0xFF;
      while true
        invariant fs.Noted()
        invariant Valid() && Here() && chain == ch && dptr < |t| && Quiet(g, ch, v, win, fs.View(), fs.winsect)
        invariant old(Mirrored(fs.g, fs.medium)) ==> Mirrored(fs.g, fs.medium)
        invariant old(FreeCountOk(fs)) ==> FreeCountOk(fs)
        invariant 0 <= ord && ReadFrom(t, dptr, lfnbuf[..], Scan(ord, sum, blkOfs)) == want
        decreases |t| - dptr
      {
        ghost var v1, win1 := fs.View(), fs.winsect;
        var e := Load();
        ghost var v2, win2 := fs.View(), fs.winsect;
        QuietTrans(g, ch, v, win, v1, win1, v2, win2);
        var stop;
        stop, res, ord, sum := ReadEntry(e, ord, sum, t);
        if stop {
          if res != FR_OK {
            sect := 0;
          }
          return;
        }
        res := Advance();
        QuietTrans(g, ch, v, win, v2, win2, fs.View(), fs.winsect);
        if res != FR_OK {
          ReadEnd(t, dptr + 1, lfnbuf[..], Scan(ord, sum, blkOfs));
          return;
        }
      }
    }

    lemma InSlots()
      requires Valid() && Here()
      ensures dptr < |Slots()|
    {
    }

    // ---------- making room ----------

    /**
     One round of dir_alloc: the current entry is looked at, c free
     ones right before it, and the next one entered.
     */
    method AllocStep(n: nat, c: nat) returns (done: bool, res: FResult, c': nat)
      requires Valid() && Here() && c < n && c <= dptr && dptr < |Slots()| && Searched(Slots(), n, dptr, c)
      modifies this`dptr, this`clust, this`sect, this`chain, fs, fs.win
      ensures fs.Noted()
      ensures Valid() && Grew(old(Slots()), Slots(), old(dptr) + 1) && res in {FR_OK, FR_DENIED, FR_INT_ERR}
      ensures done && res == FR_OK ==>
        Here() && dptr == old(dptr) && dptr + 1 >= n && FirstRun(Slots(), dptr + 1 - n, n)
      ensures done && res == FR_DENIED ==>
        (forall q: nat :: !FreeRun(Slots(), q, n)) && (chain == [] || |Slots()| == 0x1_0000 || Full(fs))
      ensures done && res == FR_INT_ERR ==> HasInvalid(fs.Fat())
      ensures !done ==>
        Here() && dptr == old(dptr) + 1 < |Slots()| && c' < n && c' <= dptr && Searched(Slots(), n, dptr, c')
      ensures DirKeeps(fs.g, old(fs.View()), old(chain), fs.View(), chain)
      ensures WindowOk(fs.g, chain, old(fs.winsect), fs.winsect)
      ensures old(Mirrored(fs.g, fs.medium)) ==> Mirrored(fs.g, fs.medium)
      ensures old(FreeCountOk(fs)) ==> FreeCountOk(fs)
    {
      hide Row, Col, Entries, Mirrored, EntriesIn, Count, SectorOf, WindowOk, OnVolume, FATFS.View, FATFS.Fat;
      hide AtEntry, Evolves;
      hide SameView, FreeCountOk, Searched, FirstRun, FreeRun, Full, HasInvalid, DirKeeps, Clusters;
      ghost var g, ch, v, win, t := fs.g, chain, fs.View(), fs.winsect, Slots();
      done, res, c' := true, FR_OK, 0;
      var e := Load();
      Sound();
      ghost var v1, win1 := fs.View(), fs.winsect;
      QuietKeeps(g, ch, v, win, v1, win1);
      SearchStep(t, n, dptr, c);
      if IsFree(e) {
        c' := c + 1;
        if c' == n {
          return;
        }
      }
      res := Next(true);
      Sound();
      KeepsThenKeeps(g, v, ch, win, v1, ch, win1, fs.View(), chain, fs.winsect);
      if res == FR_OK {
        InSlots();
        SearchGrows(t, Slots(), n, dptr, c');
        done := false;
      } else if res != FR_INT_ERR {
        SearchEnd(t, n, c');
        res := FR_DENIED;
      }
    }

    /**
     dir_alloc: makes the last of n reserved entries the current one;
     the table is stretched where it is too short.
     */
    method Alloc(n: nat) returns (res: FResult)
      requires Valid() && n >= 1
      modifies this`dptr, this`clust, this`sect, this`chain, fs, fs.win
      ensures fs.Noted()
      ensures Valid() && res in {FR_OK, FR_DENIED, FR_INT_ERR} && Longer(old(Slots()), Slots())
      ensures res == FR_OK ==> Here() && dptr + 1 >= n && FirstRun(Slots(), dptr + 1 - n, n)
      ensures res == FR_DENIED ==>
        (forall q: nat :: !FreeRun(Slots(), q, n)) && (chain == [] || |Slots()| == 0x1_0000 || Full(fs))
      ensures res == FR_INT_ERR ==> HasInvalid(fs.Fat())
      ensures DirKeeps(fs.g, old(fs.View()), old(chain), fs.View(), chain)
      ensures WindowOk(fs.g, chain, old(fs.winsect), fs.winsect)
      ensures old(Mirrored(fs.g, fs.medium)) ==> Mirrored(fs.g, fs.medium)
      ensures old(FreeCountOk(fs)) ==> FreeCountOk(fs)
    {
      hide Row, Col, Entries, Mirrored, EntriesIn, Count, SectorOf, WindowOk, OnVolume, FATFS.View, FATFS.Fat;
      hide AtEntry, Evolves;
      hide SameView, FreeCountOk, Searched, FirstRun, FreeRun, Full, HasInvalid, DirKeeps, Clusters, Longer, Grew;
      ghost var g, ch, v, win, t := fs.g, chain, fs.View(), fs.winsect, Slots();
      Sound();
      NotEmpty();
      res := GoTo(0);
      QuietKeeps(g, ch, v, win, fs.View(), fs.winsect);
      LongerSame(t);
      SearchStart(t, n);
      var done, c := false, 0;
      while !done
        invariant fs.Noted()
        invariant Valid() && Longer(t, Slots()) && res in {FR_OK, FR_DENIED, FR_INT_ERR}
        invariant !done ==> Here() && dptr < |Slots()| && 0 <= c < n && c <= dptr && Searched(Slots(), n, dptr, c)
        invariant done && res == FR_OK ==> Here() && dptr + 1 >= n && FirstRun(Slots(), dptr + 1 - n, n)
        invariant done && res == FR_DENIED ==>
          (forall q: nat :: !FreeRun(Slots(), q, n)) && (chain == [] || |Slots()| == 0x1_0000 || Full(fs))
        invariant done && res == FR_INT_ERR ==> HasInvalid(fs.Fat())
        invariant DirKeeps(g, v, ch, fs.View(), chain) && WindowOk(g, chain, win, fs.winsect)
        invariant old(Mirrored(fs.g, fs.medium)) ==> Mirrored(fs.g, fs.medium)
        invariant old(FreeCountOk(fs)) ==> FreeCountOk(fs)
        decreases !done, 0x1_0000 - dptr
      {
        ghost var ch1, v1, win1, t1, k := chain, fs.View(), fs.winsect, Slots(), dptr;
        Sound();
        SlotsBound();
        done, res, c := AllocStep(n, c);
        Sound();
        KeepsThenKeeps(g, v, ch, win, v1, ch1, win1, fs.View(), chain, fs.winsect);
        LongerOn(t, t1, Slots(), k + 1);
      }
    }

    lemma SlotsBound()
      requires Valid()
      ensures |Slots()| <= 0x1_0000
    {
      Sound();
      CountBound(fs.g, chain);
    }

    // ---------- writing entries ----------

    /** What has been put into the window where the current entry is becomes that entry of the table. */
    lemma Poked(v: seq<Sector>, x: Sector)
      requires fs.g.Good(|v|) && OnVolume(fs.g, Entries(v, fs.g), sclust, chain) && Here() && sect < |v|
      requires forall o | 0 <= o < 512 && !(32 * (dptr % 16) <= o < 32 * (dptr % 16) + 32) :: x[o] == v[sect][o]
      ensures var w := v[sect := x];
        && Entries(w, fs.g) == Entries(v, fs.g) && DirKeeps(fs.g, v, chain, w, chain)
        && dptr < |EntriesIn(v, fs.g, chain)|
        && EntriesIn(w, fs.g, chain) == EntriesIn(v, fs.g, chain)[dptr := x[32 * (dptr % 16)..32 * (dptr % 16) + 32]]
    {
      hide Entries, EntriesIn, Row, Col;
      OnVolumeGood(fs.g, v, sclust, chain);
      InTable(fs.g, |v|, chain, dptr / 16);
      EntryWritten(v, fs.g, chain, dptr, x);
      SectorPut(fs.g, v, chain, sect, x);
    }

    /** The changes of a call that writes one entry. */
    twostate predicate Wrote(e: DirEntry)
      reads this, fs, fs.win
    {
      && old(Valid()) && Valid() && chain == old(chain) && dptr < |Slots()| && Slots() == old(Slots())[dptr := e]
      && DirKeeps(fs.g, old(fs.View()), chain, fs.View(), chain)
      && WindowOk(fs.g, chain, old(fs.winsect), fs.winsect) && fs.Fat() == old(fs.Fat())
      && (old(Mirrored(fs.g, fs.medium)) ==> Mirrored(fs.g, fs.medium)) && (old(FreeCountOk(fs)) ==> FreeCountOk(fs))
    }

    /** A piece of the name put into the current entry. */
    method PutPiece(ghost name: seq<wchar>, ord: nat, sum: byte) returns (ghost e: DirEntry)
      requires Valid() && Here() && Storable(name) && Holds(lfnbuf[..], name) && 1 <= ord <= Pieces(name)
      modifies fs`medium, fs`wflag, fs`winsect, fs.win
      ensures Wrote(e) && Here() && IsPiece(e, name, ord, sum)
    {
      hide Entries, EntriesIn, Row, Col, Storable, Holds, Pieces, IsPiece, WindowOk, Mirrored, SectorOf, Count;
      hide OnVolume;
      ghost var v, win := fs.View(), fs.winsect;
      var d := 32 * (dptr % 16);
      var _ := Load();
      ghost var v1, win1 := fs.View(), fs.winsect;
      QuietKeeps(fs.g, chain, v, win, v1, win1);
      SameEntries(fs.g, v, v1);
      PutLfn(lfnbuf, name, fs.win, d, ord, sum);
      fs.wflag := true;
      e := fs.win[d..d + 32];
      assert fs.View() == v1[sect := fs.win[..]];
      Poked(v1, fs.win[..]);
      Sound();
      KeepsTwice(fs.g, chain, v, v1, fs.View());
    }

    /** The short entry put into the current one: cleared, then the name and its case flags. */
    method PutShort() returns (ghost e: DirEntry)
      requires Valid() && Here() && ShortOk(fn)
      modifies fs`medium, fs`wflag, fs`winsect, fs.win
      ensures Wrote(e) && Here() && e == ShortBytes(fn, ntFlags) && IsShort(e, fn) && e[0] != 0x2E
    {
      hide Entries, EntriesIn, Row, Col, WindowOk, Mirrored, SectorOf, Count, OnVolume;
      ghost var v, win := fs.View(), fs.winsect;
      var d := 32 * (dptr % 16);
      var _ := Load();
      ghost var v1, win1 := fs.View(), fs.winsect;
      QuietKeeps(fs.g, chain, v, win, v1, win1);
      SameEntries(fs.g, v, v1);
      PutSfn(fs.win, d, fn, ntFlags);
      ShortEntryIsShort(fn, ntFlags);
      fs.wflag := true;
      e := fs.win[d..d + 32];
      assert fs.View() == v1[sect := fs.win[..]];
      Poked(v1, fs.win[..]);
      Sound();
      KeepsTwice(fs.g, chain, v, v1, fs.View());
    }

    /** A piece of the name put into the current entry, and the next entry entered. */
    method PutAndGo(ghost name: seq<wchar>, ord: nat, sum: byte) returns (ghost e: DirEntry, res: FResult)
      requires Valid() && Here() && Storable(name) && Holds(lfnbuf[..], name) && 1 <= ord <= Pieces(name)
      requires dptr + 1 < |Slots()|
      modifies this`dptr, this`clust, this`sect, this`chain, fs, fs.win
      ensures fs.Noted()
      ensures Valid() && Here() && res == FR_OK && dptr == old(dptr) + 1 && chain == old(chain)
      ensures IsPiece(e, name, ord, sum)
      ensures Slots() == old(Slots())[old(dptr) := e]
      ensures DirKeeps(fs.g, old(fs.View()), chain, fs.View(), chain)
      ensures WindowOk(fs.g, chain, old(fs.winsect), fs.winsect)
      ensures old(Mirrored(fs.g, fs.medium)) ==> Mirrored(fs.g, fs.medium)
      ensures old(FreeCountOk(fs)) ==> FreeCountOk(fs)
    {
      hide Entries, EntriesIn, Row, Col, Storable, Holds, Pieces, IsPiece, WindowOk, Mirrored, SectorOf, Count;
      hide OnVolume, FATFS.View, FATFS.Fat, AtEntry, DirKeeps, SameView, FreeCountOk, Clusters;
      ghost var g, ch, v, win := fs.g, chain, fs.View(), fs.winsect;
      e := PutPiece(name, ord, sum);
      ghost var v1, win1 := fs.View(), fs.winsect;
      res := Advance();
      Sound();
      QuietKeeps(g, ch, v1, win1, fs.View(), fs.winsect);
      KeepsThenKeeps(g, v, ch, win, v1, ch, win1, fs.View(), ch, fs.winsect);
    }

    /** dir_register's loop over the pieces of the name, last piece first, from the current entry on. */
    method PutPieces(ghost name: seq<wchar>, n: nat, sum: byte)
      requires Valid() && Here() && Storable(name) && Holds(lfnbuf[..], name) && n == Pieces(name)
      requires dptr + n < |Slots()|
      modifies this`dptr, this`clust, this`sect, this`chain, fs, fs.win
      ensures fs.Noted()
      ensures Valid() && Here() && dptr == old(dptr) + n && chain == old(chain) && |Slots()| == |old(Slots())|
      ensures forall k | old(dptr) <= k < dptr :: IsPiece(Slots()[k], name, n - (k - old(dptr)), sum)
      ensures forall k | 0 <= k < |Slots()| && !(old(dptr) <= k < dptr) :: Slots()[k] == old(Slots()[k])
      ensures DirKeeps(fs.g, old(fs.View()), chain, fs.View(), chain)
      ensures WindowOk(fs.g, chain, old(fs.winsect), fs.winsect)
      ensures old(Mirrored(fs.g, fs.medium)) ==> Mirrored(fs.g, fs.medium)
      ensures old(FreeCountOk(fs)) ==> FreeCountOk(fs)
    {
      hide Entries, EntriesIn, Row, Col, Storable, Holds, Pieces, IsPiece, WindowOk, Mirrored, SectorOf, Count;
      hide OnVolume, FATFS.View, FATFS.Fat, AtEntry, DirKeeps, SameView, FreeCountOk, Clusters;
      ghost var g, ch, v, win, t, p := fs.g, chain, fs.View(), fs.winsect, Slots(), dptr;
      QuietSelf(g, ch, v, win);
      QuietKeeps(g, ch, v, win, v, win);
      var ord := n;
      while ord > 0
        invariant fs.Noted()
        invariant 0 <= ord <= n && dptr == p + n - ord && Valid() && Here() && chain == ch && |Slots()| == |t|
        invariant forall k | p <= k < dptr :: IsPiece(Slots()[k], name, n - (k - p), sum)
        invariant forall k | 0 <= k < |t| && !(p <= k < dptr) :: Slots()[k] == t[k]
        invariant DirKeeps(g, v, ch, fs.View(), ch) && WindowOk(g, ch, win, fs.winsect)
        invariant old(Mirrored(fs.g, fs.medium)) ==> Mirrored(fs.g, fs.medium)
        invariant old(FreeCountOk(fs)) ==> FreeCountOk(fs)
      {
        ghost var v1, win1 := fs.View(), fs.winsect;
        ghost var e;
        Sound();
        var res;
        e, res := PutAndGo(name, ord, sum);
        Sound();
        KeepsThenKeeps(g, v, ch, win, v1, ch, win1, fs.View(), ch, fs.winsect);
        ord := ord - 1;
      }
    }

    /** Length of the name in the buffer. */
    method NameLength(ghost name: seq<wchar>) returns (len: nat)
      requires lfnbuf.Length == LFN_BUF && Storable(name) && Holds(lfnbuf[..], name)
      ensures len == |name|
    {
      len := 0;
      assert forall i | 0 <= i < |name| :: lfnbuf[i] == name[i] by {
        assert forall i | 0 <= i < |name| :: lfnbuf[i] == lfnbuf[..][..|name|][i];
      }
      assert lfnbuf[..][|name|] == lfnbuf[|name|];
      while lfnbuf[len] != 0
        invariant 0 <= len <= |name|
        decreases |name| - len
      {
        len := len + 1;
      }
    }

    /** One attempt at a short name: its number put into the name, which is then looked for. */
    method TryName(up: wchar -> wchar, sn: seq<byte>, ghost name: seq<wchar>, n: half) returns (res: FResult)
      requires Valid() && ShortOk(sn) && Storable(name) && Holds(lfnbuf[..], name) && noLfn && !loss
      modifies this`dptr, this`clust, this`sect, this`chain, this`blkOfs, this`fn, fs, fs.win
      ensures fs.Noted()
      ensures Still() && fn == Attempt(sn, name, n) && ShortOk(fn)
      ensures res == if Taken(up, lfnbuf[..], sn, name, Slots(), n) then FR_OK else FR_NO_FILE
    {
      hide FindFrom, Row, Col, Entries, Mirrored, EntriesIn, Count, SectorOf, WindowOk, OnVolume, FATFS.View, FATFS.Fat;
      hide SameView, FreeCountOk, AtEntry, Attempt, Holds, Storable;
      fn := GenNumname(sn, lfnbuf, name, n);
      AttemptIsShort(sn, name, n);
      res := Find(up);
    }

    /** The attempts one after the other, until one is not found; n is 100 if all are. */
    method TryNames(up: wchar -> wchar, sn: seq<byte>, ghost name: seq<wchar>) returns (n: nat)
      requires Valid() && ShortOk(sn) && fn == sn && Storable(name) && Holds(lfnbuf[..], name) && noLfn && !loss
      modifies this`dptr, this`clust, this`sect, this`chain, this`blkOfs, this`fn, fs, fs.win
      ensures fs.Noted()
      ensures Still() && ShortOk(fn) && 1 <= n <= 100
      ensures n < 100 ==> FirstUntaken(up, lfnbuf[..], sn, name, Slots(), fn)
      ensures n == 100 <==> AllTaken(up, lfnbuf[..], sn, name, Slots(), 100)
    {
      hide FindFrom, Row, Col, Entries, Mirrored, EntriesIn, Count, SectorOf, WindowOk, OnVolume, FATFS.View, FATFS.Fat;
      hide SameView, FreeCountOk, AtEntry, Attempt, Holds, Storable, AllTaken, FirstUntaken, Taken;
      ghost var g, ch, v, win, t := fs.g, chain, fs.View(), fs.winsect, Slots();
      QuietSelf(g, ch, v, win);
      n := 1;
      AllTakenStep(up, lfnbuf[..], sn, name, t, 1);
      while n < 100
        invariant fs.Noted()
        invariant 1 <= n <= 100 && ShortOk(fn) && AllTaken(up, lfnbuf[..], sn, name, t, n)
        invariant Valid() && chain == ch && Quiet(g, ch, v, win, fs.View(), fs.winsect)
        invariant old(Mirrored(fs.g, fs.medium)) ==> Mirrored(fs.g, fs.medium)
        invariant old(FreeCountOk(fs)) ==> FreeCountOk(fs)
      {
        ghost var v1, win1 := fs.View(), fs.winsect;
        var found := TryName(up, sn, name, n);
        QuietTrans(g, ch, v, win, v1, win1, fs.View(), fs.winsect);
        if found != FR_OK {
          Untaken(up, lfnbuf[..], sn, name, t, n);
          break;
        }
        AllTakenStep(up, lfnbuf[..], sn, name, t, n);
        n := n + 1;
      }
    }

    /**
     The part of dir_register that makes a short name out of a long one that does not fit: it takes the first of
     99 numbered names that no entry has.
     */
    method NumberName(up: wchar -> wchar, ghost name: seq<wchar>) returns (res: FResult)
      requires Valid() && ShortOk(fn) && Storable(name) && Holds(lfnbuf[..], name)
      modifies this`dptr, this`clust, this`sect, this`chain, this`blkOfs, this`fn, this`noLfn, this`loss, this`lfn
      modifies this`ntFlags, fs, fs.win
      ensures fs.Noted()
      ensures Still() && ShortOk(fn)
      ensures res == if AllTaken(up, lfnbuf[..], old(fn), name, Slots(), 100) then FR_DENIED else FR_OK
      ensures res == FR_OK ==> noLfn == old(noLfn) && loss == old(loss) && lfn == old(lfn) && ntFlags == old(ntFlags)
      ensures res == FR_OK ==> FirstUntaken(up, lfnbuf[..], old(fn), name, Slots(), fn)
    {
      hide FindFrom, Row, Col, Entries, Mirrored, EntriesIn, Count, SectorOf, WindowOk, OnVolume, FATFS.View, FATFS.Fat;
      hide SameView, FreeCountOk, AtEntry, Holds, Storable, AllTaken, FirstUntaken, ShortOk, Quiet, FATFS.Valid;
      var sn, flags := fn, (noLfn, loss, lfn, ntFlags);
      noLfn, loss, lfn, ntFlags := true, false, false, 0;
      var n := TryNames(up, sn, name);
      if n == 100 {
        return FR_DENIED;
      }
      noLfn, loss, lfn, ntFlags := flags.0, flags.1, flags.2, flags.3;
      return FR_OK;
    }

    /** The item that registering the name adds. */
    ghost function NewItem(name: seq<wchar>): Item
      reads this
    {
      if lfn then Named(name, fn) else Short(fn)
    }

    /** The pieces of the name, if it needs any, put in front of the current entry; it becomes the current one again. */
    method PutLong(ghost name: seq<wchar>, n: nat) returns (res: FResult)
      requires Valid() && Here() && n <= dptr < |Slots()|
      requires n > 0 ==> Storable(name) && Holds(lfnbuf[..], name) && n == Pieces(name)
      modifies this`dptr, this`clust, this`sect, this`chain, fs, fs.win
      ensures fs.Noted()
      ensures Valid() && Here() && res == FR_OK && dptr == old(dptr) && chain == old(chain)
      ensures |Slots()| == |old(Slots())|
      ensures n > 0 ==> forall k | dptr - n <= k < dptr :: IsPiece(Slots()[k], name, n - (k - (dptr - n)), SumSfn(fn))
      ensures forall k | 0 <= k < |Slots()| && !(dptr - n <= k < dptr) :: Slots()[k] == old(Slots()[k])
      ensures DirKeeps(fs.g, old(fs.View()), chain, fs.View(), chain)
      ensures WindowOk(fs.g, chain, old(fs.winsect), fs.winsect)
      ensures old(Mirrored(fs.g, fs.medium)) ==> Mirrored(fs.g, fs.medium)
      ensures old(FreeCountOk(fs)) ==> FreeCountOk(fs)
    {
      hide Entries, EntriesIn, Row, Col, Storable, Holds, Pieces, IsPiece, WindowOk, Mirrored, SectorOf, Count;
      hide OnVolume, FATFS.View, FATFS.Fat, AtEntry, DirKeeps, SameView, FreeCountOk, Clusters, SumSfn;
      ghost var g, ch, v, win := fs.g, chain, fs.View(), fs.winsect;
      QuietSelf(g, ch, v, win);
      QuietKeeps(g, ch, v, win, v, win);
      res := FR_OK;
      if n > 0 {
        res := GoTo(dptr - n);
        ghost var v1, win1 := fs.View(), fs.winsect;
        Sound();
        QuietKeeps(g, ch, v, win, v1, win1);
        var sum := SumSfn(fn);
        PutPieces(name, n, sum);
        Sound();
        KeepsThenKeeps(g, v, ch, win, v1, ch, win1, fs.View(), ch, fs.winsect);
      }
    }

    /** The entries of the name put where room has been made for them; the current entry is the last one. */
    method PutItem(ghost name: seq<wchar>, n: nat) returns (res: FResult)
      requires Valid() && Here() && ShortOk(fn) && Storable(name) && Holds(lfnbuf[..], name)
      requires n + 1 == Span(NewItem(name)) && n <= dptr && FirstRun(Slots(), dptr - n, n + 1)
      modifies this`dptr, this`clust, this`sect, this`chain, fs, fs.win
      ensures fs.Noted()
      ensures Valid() && Here() && res == FR_OK && dptr == old(dptr) && chain == old(chain)
      ensures Registered(old(Slots()), Slots(), dptr - n, NewItem(name)) && |Slots()| == |old(Slots())|
      ensures dptr < |Slots()| && Slots()[dptr] == ShortBytes(fn, ntFlags)
      ensures DirKeeps(fs.g, old(fs.View()), chain, fs.View(), chain)
      ensures WindowOk(fs.g, chain, old(fs.winsect), fs.winsect)
      ensures old(Mirrored(fs.g, fs.medium)) ==> Mirrored(fs.g, fs.medium)
      ensures old(FreeCountOk(fs)) ==> FreeCountOk(fs)
    {
      hide Entries, EntriesIn, Row, Col, Storable, Holds, IsPiece, WindowOk, Mirrored, SectorOf, Count, IsShort;
      hide OnVolume, FATFS.View, FATFS.Fat, AtEntry, DirKeeps, SameView, FreeCountOk, Clusters, SumSfn;
      hide FirstRun, Registered;
      ghost var g, ch, v, win, t := fs.g, chain, fs.View(), fs.winsect, Slots();
      RunFits(t, dptr - n, n + 1);
      res := PutLong(name, n);
      ghost var v1, win1 := fs.View(), fs.winsect;
      Sound();
      ghost var e := PutShort();
      Sound();
      KeepsThenKeeps(g, v, ch, win, v1, ch, win1, fs.View(), ch, fs.winsect);
      PutIsRegistered(t, Slots(), dptr - n, NewItem(name));
    }

    /** The part of dir_register that makes room for the entries and puts them there. */
    method Place(ghost name: seq<wchar>, n: nat) returns (res: FResult)
      requires Valid() && ShortOk(fn) && Storable(name) && Holds(lfnbuf[..], name) && n + 1 == Span(NewItem(name))
      modifies this`dptr, this`clust, this`sect, this`chain, fs, fs.win
      ensures fs.Noted()
      ensures Valid() && res in {FR_OK, FR_DENIED, FR_INT_ERR} && |old(Slots())| <= |Slots()|
      ensures res == FR_OK ==> Here() && dptr + 1 >= Span(NewItem(name))
      ensures res == FR_OK ==>
        Registered(Widened(old(Slots()), |Slots()|), Slots(), dptr + 1 - Span(NewItem(name)), NewItem(name))
      ensures res == FR_OK ==> dptr < |Slots()| && Slots()[dptr] == ShortBytes(fn, ntFlags)
      ensures res != FR_OK ==> Slots() == Widened(old(Slots()), |Slots()|)
      ensures res == FR_DENIED ==>
        && (forall q: nat :: !FreeRun(Slots(), q, Span(NewItem(name))))
        && (chain == [] || |Slots()| == 0x1_0000 || Full(fs))
      ensures res == FR_INT_ERR ==> HasInvalid(fs.Fat())
      ensures DirKeeps(fs.g, old(fs.View()), old(chain), fs.View(), chain)
      ensures WindowOk(fs.g, chain, old(fs.winsect), fs.winsect)
      ensures old(Mirrored(fs.g, fs.medium)) ==> Mirrored(fs.g, fs.medium)
      ensures old(FreeCountOk(fs)) ==> FreeCountOk(fs)
    {
      hide Entries, EntriesIn, Row, Col, Storable, Holds, IsPiece, WindowOk, Mirrored, SectorOf, Count, IsShort;
      hide OnVolume, FATFS.View, FATFS.Fat, AtEntry, DirKeeps, SameView, FreeCountOk, Clusters, SumSfn;
      hide FirstRun, Registered, FreeRun, Full, HasInvalid, ShortOk, Widened;
      ghost var g, ch, v, win := fs.g, chain, fs.View(), fs.winsect;
      res := Alloc(n + 1);
      if res != FR_OK {
        return;
      }
      Sound();
      ghost var v1, win1, ch1 := fs.View(), fs.winsect, chain;
      res := PutItem(name, n);
      Sound();
      KeepsThenKeeps(g, v, ch, win, v1, ch1, win1, fs.View(), ch1, fs.winsect);
    }

    /** dir_register: makes room for the name's entries and puts them there. */
    method Register(up: wchar -> wchar, ghost name: seq<wchar>) returns (res: FResult)
      requires Valid() && ShortOk(fn) && Storable(name) && Holds(lfnbuf[..], name)
      modifies this, fs, fs.win
      ensures fs.Noted()
      ensures Valid() && res in {FR_OK, FR_DENIED, FR_INT_ERR} && ShortOk(fn)
      ensures if old(loss) && AllTaken(up, lfnbuf[..], old(fn), name, old(Slots()), 100) then res == FR_DENIED
              else noLfn == old(noLfn) && loss == old(loss) && lfn == old(lfn) && ntFlags == old(ntFlags)
      ensures if old(loss) then res == FR_OK ==> FirstUntaken(up, lfnbuf[..], old(fn), name, old(Slots()), fn)
              else fn == old(fn)
      ensures |old(Slots())| <= |Slots()|
      ensures res == FR_OK ==> Here() && dptr + 1 >= Span(NewItem(name))
      ensures res == FR_OK ==>
        Registered(Widened(old(Slots()), |Slots()|), Slots(), dptr + 1 - Span(NewItem(name)), NewItem(name))
      ensures res == FR_OK ==> dptr < |Slots()| && Slots()[dptr] == ShortBytes(fn, ntFlags)
      ensures res != FR_OK ==> Slots() == Widened(old(Slots()), |Slots()|)
      ensures res == FR_DENIED && !(old(loss) && AllTaken(up, lfnbuf[..], old(fn), name, old(Slots()), 100)) ==>
        && (forall q: nat :: !FreeRun(Slots(), q, Span(NewItem(name))))
        && (chain == [] || |Slots()| == 0x1_0000 || Full(fs))
      ensures res == FR_INT_ERR ==> HasInvalid(fs.Fat())
      ensures DirKeeps(fs.g, old(fs.View()), old(chain), fs.View(), chain)
      ensures WindowOk(fs.g, chain, old(fs.winsect), fs.winsect)
      ensures old(Mirrored(fs.g, fs.medium)) ==> Mirrored(fs.g, fs.medium)
      ensures old(FreeCountOk(fs)) ==> FreeCountOk(fs)
    {
      hide Entries, EntriesIn, Row, Col, Storable, Holds, IsPiece, WindowOk, Mirrored, SectorOf, Count, IsShort;
      hide OnVolume, FATFS.View, FATFS.Fat, AtEntry, DirKeeps, SameView, FreeCountOk, Clusters, SumSfn;
      hide FirstRun, Registered;
      hide AllTaken, FirstUntaken, FreeRun, Full, HasInvalid, ShortOk, Widened;
      ghost var g, ch, v, win, t := fs.g, chain, fs.View(), fs.winsect, Slots();
      Sound();
      QuietSelf(g, ch, v, win);
      QuietKeeps(g, ch, v, win, v, win);
      var len := NameLength(name);
      if loss {
        res := NumberName(up, name);
        Sound();
        QuietKeeps(g, ch, v, win, fs.View(), fs.winsect);
        LongerSame(t);
        if res != FR_OK {
          return;
        }
      }
      ghost var v1, win1 := fs.View(), fs.winsect;
      res := Place(name, if lfn then (len + 12) / 13 else 0);
      Sound();
      KeepsThenKeeps(g, v, ch, win, v1, ch, win1, fs.View(), chain, fs.winsect);
    }

    /**
     The lookup of a name and, if there is none, its registration, as f_open makes them; items is what the directory
     holds before and after what it holds then.
     */
    method Create(up: wchar -> wchar, ghost name: seq<wchar>, ghost items: seq<Item>)
      returns (res: FResult, isNew: bool, ghost after: seq<Item>)
      requires Valid() && ShortOk(fn) && Storable(name) && Holds(lfnbuf[..], name) && !noLfn && (loss ==> lfn)
      requires Folding(up) && Lays(Slots(), 0, items) && NoClash(up, items)
      modifies this, fs, fs.win
      ensures fs.Noted()
      ensures Valid() && res in {FR_OK, FR_DENIED, FR_INT_ERR} && |old(Slots())| <= |Slots()|
      ensures isNew <==> !FindFrom(up, old(Wanted()), old(Slots()), 0, START).0
      ensures !isNew ==> res == FR_OK && Slots() == old(Slots()) && Here()
      ensures !isNew ==> FindFrom(up, Wanted(), Slots(), 0, START) == (true, dptr, blkOfs)
      ensures isNew && res == FR_OK ==> Here() && dptr + 1 >= Span(NewItem(name))
      ensures isNew && res == FR_OK ==>
        Registered(Widened(old(Slots()), |Slots()|), Slots(), dptr + 1 - Span(NewItem(name)), NewItem(name))
      ensures isNew && res == FR_OK ==> FindsAt(up, old(Wanted()), Slots(), dptr)
      ensures isNew && res == FR_OK
        && StandsAlone(Widened(old(Slots()), |Slots()|), dptr + 1 - Span(NewItem(name)), NewItem(name))
        ==> Joined(up, Slots(), items, NewItem(name), after)
      ensures isNew && res != FR_OK ==> Lays(Slots(), 0, items)
      ensures DirKeeps(fs.g, old(fs.View()), old(chain), fs.View(), chain)
      ensures WindowOk(fs.g, chain, old(fs.winsect), fs.winsect)
      ensures old(Mirrored(fs.g, fs.medium)) ==> Mirrored(fs.g, fs.medium)
      ensures old(FreeCountOk(fs)) ==> FreeCountOk(fs)
    {
      hide Entries, EntriesIn, Row, Col, Storable, Holds, IsPiece, WindowOk, Mirrored, SectorOf, Count, IsShort;
      hide OnVolume, FATFS.View, FATFS.Fat, AtEntry, DirKeeps, SameView, FreeCountOk, Clusters, SumSfn;
      hide FirstRun, Registered;
      hide AllTaken, FirstUntaken, FreeRun, Full, HasInvalid, Widened, FindFrom, Lays, NoClash, StandsAlone, Joined;
      hide FindsAt;
      ghost var g, ch, v, win, t, x := fs.g, chain, fs.View(), fs.winsect, Slots(), Wanted();
      after := items;
      res := Find(up);
      isNew := res != FR_OK;
      ghost var v1, win1 := fs.View(), fs.winsect;
      Sound();
      QuietKeeps(g, ch, v, win, v1, win1);
      if isNew {
        ghost var sn := fn;
        res := Register(up, name);
        Sound();
        KeepsThenKeeps(g, v, ch, win, v1, ch, win1, fs.View(), chain, fs.winsect);
        if res != FR_OK {
          WidenedLays(t, |Slots()|, 0, items);
        } else {
          ghost var p, it := dptr + 1 - Span(NewItem(name)), NewItem(name);
          CreatedIsFound(up, x, name, t, Slots(), items, p, it);
          if StandsAlone(Widened(t, |Slots()|), p, it) {
            if x.lossy {
              UntakenIsNotFound(up, x.buf, sn, name, t, fn);
            }
            after := Created(up, x, name, t, Slots(), items, p, it);
          }
        }
      }
    }
  }

  /** What is done to a directory leaves an open file, whose state is st, consistent and its contents as they are. */
  lemma FileBeside(g: Geometry, v0: seq<Sector>, win0: nat, ch0: seq<nat>, v: seq<Sector>, win: nat, ch: seq<nat>,
                   st: FileState)
    requires g.Good(|v0|) && DirGood(g, |v0|, ch) && DirKeeps(g, v0, ch0, v, ch) && WindowOk(g, ch, win0, win)
    requires Ok(g, v0, win0, st) && OwnSector(g, st.chain, st.sect) && forall c | c in st.chain :: c !in ch0
    ensures Ok(g, v, win, st) && Content(g, v, st) == Content(g, v0, st)
  {
    hide Owns, Entries, Content, BufferOk, Clusters, OwnSector, Evolves;
    if ch != [] {
      OtherObject(g, v0, win0, ch0, v, win, ch, st);
    } else {
      forall s | 0 <= s < |v| && Owns(g, st.chain, s)
        ensures v[s] == v0[s]
      {
        OwnsData(g, |v|, st.chain, s);
        DataNotTable(g, |v|, s);
      }
      if win != win0 {
        TableNotData(g, |v|, st.chain, win);
      }
      FatUnchanged(g, v0, v);
      ObjectFrame(g, v0, win0, v, win, st);
    }
  }

  lemma DataNotTable(g: Geometry, size: nat, s: nat)
    requires DirGood(g, size, []) && g.database <= s < size
    ensures !g.InFat2(s) && !TableSector(g, [], s)
  {
  }

  lemma TableNotData(g: Geometry, size: nat, ch: seq<nat>, s: nat)
    requires DirGood(g, size, []) && Clusters(g, ch) && (g.InFat1(s) || TableSector(g, [], s))
    ensures !Owns(g, ch, s)
  {
    NotOwned(g, size, ch, s);
  }

  /** dir_find stops at entry k. */
  ghost predicate FindsAt(up: wchar -> wchar, x: Target, t: seq<DirEntry>, k: nat)
    requires |x.buf| == LFN_BUF
  {
    FindFrom(up, x, t, 0, START).0 && FindFrom(up, x, t, 0, START).1 == k
  }

  /** The directory holds the items but deleted ones, the new one among them, and no two of the same name. */
  ghost predicate Joined(up: wchar -> wchar, now: seq<DirEntry>, items: seq<Item>, it: Item, after: seq<Item>) {
    Lays(now, 0, after) && NoClash(up, after) && it in after && forall o | o in items && !o.Deleted? :: o in after
  }

  /** RegisteredIsFound where the table has been stretched for the new name. */
  lemma CreatedIsFound(up: wchar -> wchar, x: Target, want: seq<wchar>, t: seq<DirEntry>, now: seq<DirEntry>,
                       items: seq<Item>, p: nat, it: Item)
    requires Folding(up) && Holds(x.buf, want) && Storable(want) && !x.noLfn && Lays(t, 0, items)
    requires |t| <= |now| && Registered(Widened(t, |now|), now, p, it)
    requires (it.Named? ==> it.name == want) && !FindFrom(up, x, t, 0, START).0
    requires if x.lossy then it.Named? else it.sfn == x.sfn
    ensures FindsAt(up, x, now, p + Span(it) - 1)
  {
    hide Lays, Registered, FindFrom, Storable, Widened;
    WidenedLays(t, |now|, 0, items);
    WidenedFind(up, x, t, |now|, 0, START);
    RegisteredIsFound(up, x, want, Widened(t, |now|), now, items, p, it, START);
  }

  /** RegisterKeepsDistinct there. */
  lemma Created(up: wchar -> wchar, x: Target, want: seq<wchar>, t: seq<DirEntry>, now: seq<DirEntry>, items: seq<Item>,
                p: nat, it: Item) returns (after: seq<Item>)
    requires Folding(up) && Holds(x.buf, want) && Storable(want) && !x.noLfn && Lays(t, 0, items) && NoClash(up, items)
    requires |t| <= |now| && Registered(Widened(t, |now|), now, p, it) && StandsAlone(Widened(t, |now|), p, it)
    requires (it.Named? ==> it.name == want) && !FindFrom(up, x, t, 0, START).0
    requires if x.lossy then it.Named? && !FindFrom(up, Target(x.buf, it.sfn, true, false), t, 0, START).0
             else it.sfn == x.sfn
    ensures Joined(up, now, items, it, after)
  {
    hide Lays, NoClash, Registered, StandsAlone, FindFrom, Storable, Widened;
    WidenedLays(t, |now|, 0, items);
    WidenedFind(up, x, t, |now|, 0, START);
    if x.lossy {
      WidenedFind(up, Target(x.buf, it.sfn, true, false), t, |now|, 0, START);
    }
    after := RegisterKeepsDistinct(up, x, want, Widened(t, |now|), now, items, p, it);
  }

  /** The 32 bytes from d on cleared, and a short name and flags put in. */
  method PutSfn(tab: array<byte>, d: nat, fn: seq<byte>, ntFlags: byte)
    requires ShortOk(fn) && d + 32 <= tab.Length
    modifies tab
    ensures tab[d..d + 32] == ShortBytes(fn, ntFlags)
    ensures forall i | 0 <= i < tab.Length && !(d <= i < d + 32) :: tab[i] == old(tab[i])
  {
    var i := 0;
    while i < 32
      invariant 0 <= i <= 32
      invariant forall j | 0 <= j < tab.Length :: tab[j] == if d <= j < d + i then 0 else old(tab[j])
    {
      tab[d + i] := 0;
      i := i + 1;
    }
    i := 0;
    while i < 11
      invariant 0 <= i <= 11
      invariant forall j | 0 <= j < tab.Length ::
        tab[j] == if d <= j < d + i then fn[j - d] else if d <= j < d + 32 then 0 else old(tab[j])
    {
      tab[d + i] := fn[i];
      i := i + 1;
    }
    tab[d + 12] := ntFlags;
    var e := ShortBytes(fn, ntFlags);
    forall i | 0 <= i < 32
      ensures tab[d + i] == e[i]
    {
    }
    assert tab[d..d + 32] == e;
  }

  lemma SectorPut(g: Geometry, v: seq<Sector>, ch: seq<nat>, s: nat, x: Sector)
    requires DirGood(g, |v|, ch) && TableSector(g, ch, s) && s < |v|
    ensures Entries(v[s := x], g) == Entries(v, g) && DirKeeps(g, v, ch, v[s := x], ch)
  {
    hide Entries;
    var w := v[s := x];
    TableOutsideFats(g, |v|, ch, s);
    FatUnchanged(g, v, w);
    if ch != [] {
      EvolvesData(g, v, w, ch);
    }
  }

  lemma KeepsTwice(g: Geometry, ch: seq<nat>, v0: seq<Sector>, v1: seq<Sector>, v: seq<Sector>)
    requires g.Good(|v0|) && Clusters(g, ch) && DirKeeps(g, v0, ch, v1, ch) && g.Good(|v1|)
    requires DirKeeps(g, v1, ch, v, ch)
    ensures DirKeeps(g, v0, ch, v, ch)
  {
    DirKeepsTrans(g, v0, ch, v1, ch, v, ch);
  }

  /** The table has not changed but for unused entries at its end. */
  ghost predicate Longer(t: seq<DirEntry>, now: seq<DirEntry>) {
    |t| <= |now| && now == Widened(t, |now|)
  }

  lemma LongerSame(t: seq<DirEntry>)
    ensures Longer(t, t)
  {
  }

  lemma LongerOn(t: seq<DirEntry>, t1: seq<DirEntry>, now: seq<DirEntry>, n: nat)
    requires Longer(t, t1) && Grew(t1, now, n)
    ensures Longer(t, now)
  {
  }

  lemma SearchGrows(t: seq<DirEntry>, now: seq<DirEntry>, n: nat, k: nat, c: nat)
    requires Grew(t, now, k) && c <= k <= |t| && Searched(t, n, k, c)
    ensures Searched(now, n, k, c)
  {
    forall q: nat | q + n <= k && FreeRun(now, q, n)
      ensures false
    {
      assert forall i | q <= i < q + n :: t[i] == now[i];
      assert FreeRun(t, q, n);
    }
  }

  lemma QuietKeeps(g: Geometry, ch: seq<nat>, v0: seq<Sector>, win0: nat, v: seq<Sector>, win: nat)
    requires g.Good(|v0|) && Quiet(g, ch, v0, win0, v, win)
    ensures DirKeeps(g, v0, ch, v, ch) && WindowOk(g, ch, win0, win)
  {
    hide Evolves, EntriesIn, Entries, TableSector;
    DirKeepsSame(g, v0, v, ch);
  }

  lemma KeepsThenKeeps(g: Geometry, v0: seq<Sector>, ch0: seq<nat>, win0: nat, v1: seq<Sector>, ch1: seq<nat>,
                       win1: nat, v: seq<Sector>, ch: seq<nat>, win: nat)
    requires g.Good(|v0|) && Clusters(g, ch) && DirKeeps(g, v0, ch0, v1, ch1) && g.Good(|v1|)
    requires DirKeeps(g, v1, ch1, v, ch)
    requires WindowOk(g, ch1, win0, win1) && WindowOk(g, ch, win1, win)
    ensures DirKeeps(g, v0, ch0, v, ch) && WindowOk(g, ch, win0, win)
  {
    hide Entries, TableSector;
    DirKeepsTrans(g, v0, ch0, v1, ch1, v, ch);
    WindowTrans(g, ch1, ch, win0, win1, win);
  }

  lemma QuietSelf(g: Geometry, ch: seq<nat>, v: seq<Sector>, win: nat)
    requires g.csize > 0
    ensures Quiet(g, ch, v, win, v, win)
  {
  }

  lemma ReadEnd(t: seq<DirEntry>, k: nat, buf: seq<wchar>, st: Scan)
    requires |buf| == LFN_BUF && k >= |t|
    ensures !ReadFrom(t, k, buf, st).0
  {
  }

  lemma FindEnd(up: wchar -> wchar, x: Target, t: seq<DirEntry>, k: nat, st: Scan)
    requires |x.buf| == LFN_BUF && k >= |t|
    ensures !FindFrom(up, x, t, k, st).0
  {
  }

  /** The next sector of the table, where it is not the first one of a cluster. */
  lemma NextSector(g: Geometry, size: nat, ch: seq<nat>, k: nat)
    requires DirGood(g, size, ch) && 1 <= k && k - 1 < Count(g, ch) && k < MAX_SECTORS
    ensures ch != [] && Col(g.csize, k) != 0 ==>
      k < Count(g, ch) && Row(g.csize, k) == Row(g.csize, k - 1) && SectorOf(g, ch, k) == SectorOf(g, ch, k - 1) + 1
    ensures ch == [] ==> SectorOf(g, ch, k) == SectorOf(g, ch, k - 1) + 1
  {
    if ch != [] {
      RowBelow(g.csize, |ch|, k - 1);
      RowBelow(g.csize, |ch|, k);
    }
  }

  /** The first sector of the cluster that begins with the table's k-th sector is the current one. */
  ghost predicate Entered(g: Geometry, ch: seq<nat>, k: nat, clust: nat, sect: nat)
    requires g.csize > 0
  {
    k < Count(g, ch) && sect == SectorOf(g, ch, k) && Row(g.csize, k) < |ch| && clust == ch[Row(g.csize, k)]
  }

  lemma SameEvolves(g: Geometry, v: seq<Sector>, w: seq<Sector>, ch: seq<nat>)
    requires g.Good(|v|) && SameView(g, v, w)
    ensures Evolves(g, v, ch, w, ch)
  {
    hide Entries, Owns;
    SameEntries(g, v, w);
  }

  lemma WindowKept(g: Geometry, ch: seq<nat>, win0: nat, win: nat)
    requires win == win0 || g.InFat1(win)
    ensures WindowOk(g, ch, win0, win)
  {
  }

  lemma WindowFrom(g: Geometry, ch: seq<nat>, win0: nat, win1: nat, win: nat)
    requires (win1 == win0 || g.InFat1(win1)) && WindowOk(g, ch, win1, win)
    ensures WindowOk(g, ch, win0, win)
  {
  }

  /** At the last entry of a cluster: what the table of allocation says comes next. */
  lemma ClusterEdge(g: Geometry, v: seq<Sector>, ch: seq<nat>, dptr: nat, clust: nat, sect: nat)
    requires DirGood(g, |v|, ch) && Chains.IsChain(Entries(v, g), ch) && AtEntry(g, ch, dptr, clust, sect)
    requires (dptr + 1) % 16 == 0 && Col(g.csize, (dptr + 1) / 16) == 0 && dptr + 1 < 0x1_0000
    ensures g.IsCluster(clust) && Entries(v, g)[clust] >= 2
    ensures var k, next := (dptr + 1) / 16, Entries(v, g)[clust];
      if next < g.nFatent then
        && dptr + 1 < 16 * Count(g, ch) && Row(g.csize, k) < |ch| && next == ch[Row(g.csize, k)] && g.IsCluster(next)
        && SectorOf(g, ch, k) == g.ClusterBase(next)
      else
        dptr + 1 == 16 * Count(g, ch) && Count(g, ch) < MAX_SECTORS && Row(g.csize, k) == |ch| && clust == ch[|ch| - 1]
  {
    hide Entries, Col;
    var k := (dptr + 1) / 16;
    assert dptr / 16 == k - 1;
    var i := Row(g.csize, k - 1);
    RowNext(g.csize, k);
    Chains.ChainEntry(Entries(v, g), ch, i);
    RowBelow(g.csize, |ch|, k);
    RowBelow(g.csize, |ch|, k - 1);
  }

  /** The same after the table has been stretched. */
  lemma EdgePassed(g: Geometry, size: nat, ch: seq<nat>, ch': seq<nat>, c: nat, k: nat)
    requires DirGood(g, size, ch') && ch' == ch + [c] && Row(g.csize, k) == |ch| && Col(g.csize, k) == 0
    requires k < MAX_SECTORS
    ensures g.IsCluster(c) && k < Count(g, ch') && ch'[Row(g.csize, k)] == c && SectorOf(g, ch', k) == g.ClusterBase(c)
  {
    hide Row, Col;
    assert ch'[|ch|] == c;
    RowBelow(g.csize, |ch'|, k);
  }

  /** The table is as it was, or longer by unused entries if it had n entries. */
  ghost predicate Grew(t: seq<DirEntry>, now: seq<DirEntry>, n: nat) {
    now == t || (|t| == n < |now| && now == t + Blanks(|now| - |t|))
  }

  lemma InOwn(g: Geometry, ch: seq<nat>, i: nat, s: int)
    requires i < |ch| && InCluster(g, ch[i], s)
    ensures TableSector(g, ch, s)
  {
  }

  /** What clearing the last cluster does. */
  lemma Cleared(g: Geometry, v: seq<Sector>, w: seq<Sector>, ch: seq<nat>, c: nat)
    requires DirGood(g, |v|, ch + [c]) && |w| == |v| && ch != [] && Count(g, ch) < MAX_SECTORS
    requires forall s | 0 <= s < |v| && InCluster(g, c, s) :: w[s] == seq(512, _ => 0)
    requires forall s | 0 <= s < |v| && !InCluster(g, c, s) && !g.InFat2(s) :: w[s] == v[s]
    ensures Entries(w, g) == Entries(v, g) && Evolves(g, v, ch + [c], w, ch + [c])
    ensures Count(g, ch) < Count(g, ch + [c])
    ensures EntriesIn(w, g, ch + [c]) == EntriesIn(v, g, ch) + Blanks(16 * (Count(g, ch + [c]) - Count(g, ch)))
  {
    hide Row, Col, Entries, EntriesIn, Count;
    var ch' := ch + [c];
    assert ch'[|ch|] == c && g.IsCluster(c);
    assert forall i | 0 <= i < |ch| :: ch'[i] == ch[i];
    ClustersDisjoint(g, c, g.nFatent);
    FatUnchanged(g, v, w);
    assert forall s | 0 <= s < |v| && InCluster(g, c, s) :: Owns(g, ch', s);
    forall s | 0 <= s < |v| && Owns(g, ch, s)
      ensures w[s] == v[s]
    {
      NotInLast(g, |v|, ch, c, s);
    }
    EntriesGrow(v, w, g, ch, c);
  }

  lemma FatUnchanged(g: Geometry, v: seq<Sector>, w: seq<Sector>)
    requires g.Good(|v|) && |w| == |v| && forall s | 0 <= s < |v| && g.InFat1(s) :: w[s] == v[s]
    ensures Entries(w, g) == Entries(v, g)
  {
    assert FatArea(w, g) == FatArea(v, g);
  }

  lemma NotInLast(g: Geometry, size: nat, ch: seq<nat>, c: nat, s: int)
    requires DirGood(g, size, ch + [c]) && Owns(g, ch, s)
    ensures !InCluster(g, c, s) && g.database <= s < size && !g.InFat1(s) && !g.InFat2(s)
  {
    var i :| 0 <= i < |ch| && InCluster(g, ch[i], s);
    var ch' := ch + [c];
    assert ch'[i] == ch[i] && ch'[|ch|] == c && ch'[i] != ch'[|ch|];
    ClustersDisjoint(g, ch[i], g.nFatent);
    if ch[i] < c {
      ClustersDisjoint(g, ch[i], c);
    } else {
      ClustersDisjoint(g, c, ch[i]);
    }
  }

  lemma StartOfTable(csize: nat)
    requires csize > 0
    ensures Row(csize, 0) == 0 && Col(csize, 0) == 0
  {
  }

  lemma CountBound(g: Geometry, ch: seq<nat>)
    requires ch == [] ==> RootArea(g)
    ensures Count(g, ch) <= MAX_SECTORS && (ch == [] ==> 16 * Count(g, ch) == g.nRootdir)
  {
  }
}
