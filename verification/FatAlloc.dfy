/**
 Cluster allocation on the filesystem object: clst2sect, remove_chain and create_chain, specified by
 what they do to the allocation table.
 */
module FatAlloc {
  import opened FatLayout
  import opened FatWindow
  import opened FatChains

  /** A trusted free count is right.  0xFFFFFFFF, as any count above the number of clusters, is not trusted. */
  ghost predicate FreeCountOk(fs: FATFS)
    requires fs.Valid()
    reads fs, fs.win
  {
    fs.freeClst <= fs.g.nFatent - 2 ==> fs.freeClst == NumFree(fs.Fat())
  }

  /**
   What every operation keeps of the records of the volume: the FATs agree, the free count is right where it is known,
   and FSInfo gives the counts or is to be updated.
   */
  twostate predicate RecordsKept(fs: FATFS)
    reads fs, fs.win
  {
    && old(fs.Valid()) && fs.Valid()
    && (old(Mirrored(fs.g, fs.medium)) ==> Mirrored(fs.g, fs.medium))
    && (old(FreeCountOk(fs)) ==> FreeCountOk(fs))
    && (old(fs.InfoOk()) ==> fs.InfoOk())
  }

  /** clst2sect: the first sector of a cluster, 0 for an invalid cluster number (32-bit arithmetic). */
  method Clst2Sect(fs: FATFS, clst: nat) returns (sect: nat)
    requires fs.Valid() && clst < 0x1_0000_0000
    ensures sect == if fs.g.IsCluster(clst) then fs.g.ClusterBase(clst) else 0
  {
    var k := (clst - 2) % 0x1_0000_0000;
    if k >= fs.g.nFatent - 2 {
      return 0;
    }
    ClusterBaseFormula(fs.g, clst);
    return fs.g.database + fs.g.csize * k;
  }

  // ---------- remove_chain ----------

  /** Sets the free count and allocation hint and asks for an FSInfo update. */
  method SetCounts(fs: FATFS, freeClst: nat, lastClst: nat)
    requires fs.Valid() && freeClst < 0x1_0000_0000 && lastClst < 0x1_0000_0000
    modifies fs`freeClst, fs`lastClst, fs`fsiFlag
    ensures fs.Valid() && fs.View() == old(fs.View()) && fs.Fat() == old(fs.Fat())
    ensures fs.freeClst == freeClst && fs.lastClst == lastClst
    ensures fs.fsiFlag % 2 == 1 && fs.fsiFlag / 2 == old(fs.fsiFlag) / 2
  {
    fs.freeClst, fs.lastClst := freeClst, lastClst;
    fs.fsiFlag := fs.fsiFlag / 2 * 2 + 1;
  }

  /** put_fat with 0xFFFFFFFF: a cluster gets the end mark. */
  method MarkEnd(fs: FATFS, clst: nat) returns (res: FResult)
    requires fs.Valid()
    modifies fs`medium, fs`wflag, fs`winsect, fs.win
    ensures fs.Valid() && |fs.medium| == old(|fs.medium|)
    ensures res == if fs.g.IsCluster(clst) then FR_OK else FR_INT_ERR
    ensures fs.Fat() == if fs.g.IsCluster(clst) then old(fs.Fat())[clst := fs.g.EndMark()] else old(fs.Fat())
    ensures fs.g.IsCluster(clst) ==>
      NumFree(fs.Fat()) == NumFree(old(fs.Fat())) - if old(fs.Fat())[clst] == 0 then 1 else 0
    ensures fs.g.IsCluster(clst) ==> fs.g.InFat1(fs.winsect)
    ensures KeepsData(fs.g, old(fs.View()), fs.View())
    ensures old(Mirrored(fs.g, fs.medium)) ==> Mirrored(fs.g, fs.medium)
  {
    ghost var fat, mark := fs.Fat(), fs.g.EndMark();
    EndMarkEnds(fs.g, |fs.medium|);
    if fs.g.IsCluster(clst) {
      NumFreeUpdate(fat, clst, mark, 2);
    }
    res := fs.PutFat(clst, 0xFFFF_FFFF);
  }

  /** The part of remove_chain's loop that frees one cluster in use and keeps the count. */
  method FreeCluster(fs: FATFS, clst: nat)
    requires fs.Valid() && fs.g.IsCluster(clst) && fs.Fat()[clst] != 0
    modifies fs, fs.win
    ensures fs.Noted()
    ensures fs.Valid() && |fs.medium| == old(|fs.medium|)
    ensures fs.Fat() == old(fs.Fat())[clst := 0]
    ensures KeepsData(fs.g, old(fs.View()), fs.View())
    ensures old(Mirrored(fs.g, fs.medium)) ==> Mirrored(fs.g, fs.medium)
    ensures old(FreeCountOk(fs)) ==> FreeCountOk(fs)
    ensures fs.lastClst == old(fs.lastClst)
    ensures fs.g.InFat1(fs.winsect)
  {
    ghost var fat := fs.Fat();
    NumFreeUpdate(fat, clst, 0, 2);
    NumFreeBound(fat[clst := 0], 2);
    var res := fs.PutFat(clst, 0);
    if fs.freeClst < fs.g.nFatent - 2 {
      SetCounts(fs, fs.freeClst + 1, fs.lastClst);
    }
  }

  /** remove_chain's loop: the walk RemoveFrom describes. */
  method WalkAndFree(fs: FATFS, start: nat) returns (res: FResult)
    requires fs.Valid() && fs.g.IsCluster(start)
    modifies fs, fs.win
    ensures fs.Noted()
    ensures fs.Valid() && |fs.medium| == old(|fs.medium|) && fs.g.InFat1(fs.winsect)
    ensures KeepsData(fs.g, old(fs.View()), fs.View())
    ensures old(Mirrored(fs.g, fs.medium)) ==> Mirrored(fs.g, fs.medium)
    ensures var r := RemoveFrom(old(fs.Fat()), start);
      fs.Fat() == r.0 && res == (if r.1 then FR_OK else FR_INT_ERR)
    ensures old(FreeCountOk(fs)) ==> FreeCountOk(fs)
    ensures fs.lastClst == old(fs.lastClst)
  {
    ghost var v0, fat0 := fs.View(), fs.Fat();
    var clst := start;
    while true
      invariant fs.Noted()
      invariant fs.Valid() && |fs.medium| == |v0| && KeepsData(fs.g, v0, fs.View())
      invariant old(Mirrored(fs.g, fs.medium)) ==> Mirrored(fs.g, fs.medium)
      invariant fs.g.IsCluster(clst) && RemoveFrom(fs.Fat(), clst) == RemoveFrom(fat0, start)
      invariant old(FreeCountOk(fs)) ==> FreeCountOk(fs)
      invariant fs.lastClst == old(fs.lastClst)
      decreases fs.g.nFatent - NumFree(fs.Fat())
    {
      ghost var v1, fat1 := fs.View(), fs.Fat();
      var nxt := fs.GetFat(clst);
      SameKeepsData(fs.g, v1, fs.View());
      KeepsDataTrans(fs.g, v0, v1, fs.View());
      if nxt == 0 {
        return FR_OK;
      }
      if nxt == 1 {
        return FR_INT_ERR;
      }
      v1 := fs.View();
      FreeCluster(fs, clst);
      KeepsDataTrans(fs.g, v0, v1, fs.View());
      NumFreeUpdate(fat1, clst, 0, 2);
      NumFreeBound(fat1[clst := 0], 2);
      clst := nxt;
      if clst >= fs.g.nFatent {
        return FR_OK;
      }
    }
  }

  /**
   remove_chain: frees what RemoveFrom walks over, after giving the previous cluster (if any) the end
   mark.  It terminates on every table, also on a cyclic one.
   */
  method RemoveChain(fs: FATFS, start: nat, pclst: nat) returns (res: FResult)
    requires fs.Valid()
    modifies fs, fs.win
    ensures fs.Noted()
    ensures fs.Valid() && |fs.medium| == old(|fs.medium|)
    ensures KeepsData(fs.g, old(fs.View()), fs.View())
    ensures old(Mirrored(fs.g, fs.medium)) ==> Mirrored(fs.g, fs.medium)
    ensures if fs.g.IsCluster(start) && (pclst == 0 || fs.g.IsCluster(pclst)) then
              var r := RemoveFrom(Unlinked(old(fs.Fat()), pclst, fs.g.EndMark()), start);
              fs.Fat() == r.0 && res == (if r.1 then FR_OK else FR_INT_ERR) && fs.g.InFat1(fs.winsect)
            else
              res == FR_INT_ERR && fs.Fat() == old(fs.Fat())
    ensures old(FreeCountOk(fs)) && (fs.g.IsCluster(pclst) ==> old(fs.Fat())[pclst] != 0) ==> FreeCountOk(fs)
    ensures fs.lastClst == old(fs.lastClst)
  {
    if start < 2 || start >= fs.g.nFatent {
      return FR_INT_ERR;
    }
    ghost var v0 := fs.View();
    if pclst != 0 {
      res := MarkEnd(fs, pclst);
      if res != FR_OK {
        return;
      }
    }
    ghost var v1 := fs.View();
    assert fs.Fat() == Unlinked(old(fs.Fat()), pclst, fs.g.EndMark());
    res := WalkAndFree(fs, start);
    KeepsDataTrans(fs.g, v0, v1, fs.View());
  }

  // ---------- create_chain ----------

  /** Position of cluster c in the circular scan that starts behind cluster s. */
  function ScanPos(n: nat, s: nat, c: nat): int {
    if c > s then c - s else c - s + n - 2
  }

  /** r is the first free cluster the scan behind s meets. */
  ghost predicate FirstFree(fat: seq<nat>, s: nat, r: nat) {
    && FatChains.IsCluster(fat, r) && fat[r] == 0
    && forall c: nat | FatChains.IsCluster(fat, c) && ScanPos(|fat|, s, c) < ScanPos(|fat|, s, r) :: fat[c] != 0
  }

  ghost predicate NoneFree(fat: seq<nat>) {
    forall c: nat | FatChains.IsCluster(fat, c) :: fat[c] != 0
  }

  ghost predicate HasInvalid(fat: seq<nat>) {
    exists c: nat :: FatChains.IsCluster(fat, c) && fat[c] == 1
  }

  /** The first k positions of the scan behind s are in use. */
  ghost predicate Scanned(fat: seq<nat>, s: nat, k: nat) {
    forall c: nat | FatChains.IsCluster(fat, c) && ScanPos(|fat|, s, c) <= k :: fat[c] != 0
  }

  lemma ScannedNext(fat: seq<nat>, s: nat, c: nat)
    requires 1 <= s < |fat| && FatChains.IsCluster(fat, c) && Scanned(fat, s, ScanPos(|fat|, s, c) - 1)
    ensures fat[c] == 0 ==> FirstFree(fat, s, c)
    ensures fat[c] != 0 ==> Scanned(fat, s, ScanPos(|fat|, s, c))
  {
    forall d: nat | FatChains.IsCluster(fat, d) && d != c ensures ScanPos(|fat|, s, d) != ScanPos(|fat|, s, c) {
    }
  }

  lemma ScannedAll(fat: seq<nat>, s: nat, k: nat)
    requires 1 <= s < |fat| && Scanned(fat, s, k) && k >= |fat| - 2
    ensures NoneFree(fat)
  {
  }

  /** create_chain's circular search behind cluster s; 0 when every cluster is in use, 1 on an invalid entry. */
  method FindFree(fs: FATFS, s: nat) returns (ncl: nat)
    requires fs.Valid() && 1 <= s < fs.g.nFatent
    modifies fs`medium, fs`wflag, fs`winsect, fs.win
    ensures fs.Valid() && |fs.medium| == old(|fs.medium|)
    ensures SameView(fs.g, old(fs.View()), fs.View()) && fs.Fat() == old(fs.Fat())
    ensures old(Mirrored(fs.g, fs.medium)) ==> Mirrored(fs.g, fs.medium)
    ensures ncl == 0 ==> NoneFree(fs.Fat())
    ensures ncl == 1 ==> HasInvalid(fs.Fat())
    ensures ncl >= 2 ==> FirstFree(fs.Fat(), s, ncl)
    ensures fs.g.InFat1(fs.winsect) || fs.winsect == old(fs.winsect)
  {
    ghost var v0, fat, n := fs.View(), fs.Fat(), fs.g.nFatent;
    ncl := s;
    ghost var k := 0;
    while true
      invariant fs.Valid() && |fs.medium| == |v0| && SameView(fs.g, v0, fs.View()) && fs.Fat() == fat
      invariant old(Mirrored(fs.g, fs.medium)) ==> Mirrored(fs.g, fs.medium)
      invariant 0 <= k <= n - 2 && 1 <= ncl < n && (s == 1 || ncl > 1)
      invariant if k == 0 then ncl == s else ncl != s && ncl >= 2 && ScanPos(n, s, ncl) == k
      invariant Scanned(fat, s, k)
      invariant fs.g.InFat1(fs.winsect) || fs.winsect == old(fs.winsect)
      decreases n - k
    {
      ncl := ncl + 1;
      if ncl >= fs.g.nFatent {
        ncl := 2;
        if ncl > s {
          ScannedAll(fat, s, k);
          return 0;
        }
      }
      k := k + 1;
      assert ScanPos(n, s, ncl) == k;
      ghost var v1 := fs.View();
      var cs := fs.GetFat(ncl);
      SameViewTrans(fs.g, v0, v1, fs.View());
      ScannedNext(fat, s, ncl);
      if cs == 0 {
        return;
      }
      if cs == 1 {
        return 1;
      }
      if ncl == s {
        ScannedAll(fat, s, k);
        return 0;
      }
    }
  }

  function WrapNext(n: nat, c: nat): nat { if c + 1 >= n then 2 else c + 1 }

  /** Where the circular scan starts, given the last allocated cluster. */
  function ScanStart(n: nat, clst: nat, last: nat): nat {
    if clst == 0 then (if last == 0 || last >= n then 1 else last)
    else if 2 <= last < n then last else clst
  }

  /** The allocation policy: the cluster next to the one stretched if free, else the first free one in the scan. */
  ghost predicate Chosen(fat: seq<nat>, clst: nat, last: nat, r: nat)
    requires |fat| >= 3
  {
    if clst != 0 && fat[WrapNext(|fat|, clst)] == 0 then r == WrapNext(|fat|, clst)
    else FirstFree(fat, ScanStart(|fat|, clst, last), r)
  }

  /** The search in create_chain for the cluster to allocate. */
  method PickCluster(fs: FATFS, clst: nat) returns (ncl: nat)
    requires fs.Valid() && (clst == 0 || fs.g.IsCluster(clst))
    modifies fs`medium, fs`wflag, fs`winsect, fs.win
    ensures fs.Valid() && |fs.medium| == old(|fs.medium|)
    ensures SameView(fs.g, old(fs.View()), fs.View()) && fs.Fat() == old(fs.Fat())
    ensures old(Mirrored(fs.g, fs.medium)) ==> Mirrored(fs.g, fs.medium)
    ensures ncl == 0 ==> NoneFree(fs.Fat())
    ensures ncl == 1 ==> HasInvalid(fs.Fat())
    ensures ncl >= 2 ==> FatChains.IsCluster(fs.Fat(), ncl) && fs.Fat()[ncl] == 0
    ensures ncl >= 2 ==> Chosen(fs.Fat(), clst, fs.lastClst, ncl)
    ensures fs.g.InFat1(fs.winsect) || fs.winsect == old(fs.winsect)
  {
    hide Mirrored, NoneFree, Entries;
    ghost var v0 := fs.View();
    var scl := clst;
    if clst == 0 {
      scl := fs.lastClst;
      if scl == 0 || scl >= fs.g.nFatent {
        scl := 1;
      }
    } else {
      ncl := scl + 1;
      if ncl >= fs.g.nFatent {
        ncl := 2;
      }
      var cs := fs.GetFat(ncl);
      if cs == 1 {
        return 1;
      }
      if cs == 0 {
        return;
      }
      cs := fs.lastClst;
      if cs >= 2 && cs < fs.g.nFatent {
        scl := cs;
      }
    }
    ghost var v1 := fs.View();
    ncl := FindFree(fs, scl);
    SameViewTrans(fs.g, v0, v1, fs.View());
  }

  lemma NumFreeLinked(fat: seq<nat>, clst: nat, n: nat, mark: nat)
    requires CanLink(fat, clst, n) && mark != 0
    ensures NumFree(Linked(fat, clst, n, mark)) == NumFree(fat) - 1
  {
    NumFreeUpdate(fat, n, mark, 2);
    if clst != 0 {
      NumFreeUpdate(fat[n := mark], clst, n, 2);
    }
  }

  /** The end of create_chain: marks the chosen cluster, links it, and updates count and hint. */
  method LinkCluster(fs: FATFS, clst: nat, ncl: nat)
    requires fs.Valid() && CanLink(fs.Fat(), clst, ncl) && fs.freeClst != 0
    modifies fs, fs.win
    ensures fs.Noted()
    ensures fs.Valid() && |fs.medium| == old(|fs.medium|) && fs.g.InFat1(fs.winsect)
    ensures KeepsData(fs.g, old(fs.View()), fs.View())
    ensures old(Mirrored(fs.g, fs.medium)) ==> Mirrored(fs.g, fs.medium)
    ensures fs.Fat() == Linked(old(fs.Fat()), clst, ncl, fs.g.EndMark())
    ensures fs.lastClst == ncl
    ensures old(FreeCountOk(fs)) ==> FreeCountOk(fs)
  {
    hide Entries, NumFree, KeepsData, Mirrored;
    ghost var v0, fat, mark := fs.View(), fs.Fat(), fs.g.EndMark();
    EndMarkEnds(fs.g, |fs.medium|);
    NumFreeLinked(fat, clst, ncl, mark);
    var res := MarkEnd(fs, ncl);
    if clst != 0 {
      ghost var v1 := fs.View();
      res := PutLink(fs, clst, ncl);
      KeepsDataTrans(fs.g, v0, v1, fs.View());
    }
    assert fs.Fat() == Linked(fat, clst, ncl, mark);
    SetCounts(fs, if fs.freeClst <= fs.g.nFatent - 2 then fs.freeClst - 1 else fs.freeClst, ncl);
  }

  /** put_fat with a cluster number, which always fits the entry. */
  method PutLink(fs: FATFS, clst: nat, ncl: nat) returns (res: FResult)
    requires fs.Valid() && fs.g.IsCluster(clst) && fs.g.IsCluster(ncl)
    modifies fs`medium, fs`wflag, fs`winsect, fs.win
    ensures fs.Valid() && |fs.medium| == old(|fs.medium|) && fs.g.InFat1(fs.winsect)
    ensures res == FR_OK && fs.Fat() == old(fs.Fat())[clst := ncl]
    ensures KeepsData(fs.g, old(fs.View()), fs.View())
    ensures old(Mirrored(fs.g, fs.medium)) ==> Mirrored(fs.g, fs.medium)
  {
    ClusterNumberFits(fs.g, |fs.medium|, ncl);
    res := fs.PutFat(clst, ncl);
  }

  /**
   create_chain: follows the chain behind clst, or allocates a cluster and links it there (a new chain
   for clst == 0).  0 means no free cluster, 1 an insane table.
   */
  method CreateChain(fs: FATFS, clst: nat) returns (r: nat)
    requires fs.Valid()
    modifies fs, fs.win
    ensures fs.Noted()
    ensures fs.Valid() && |fs.medium| == old(|fs.medium|)
    ensures KeepsData(fs.g, old(fs.View()), fs.View())
    ensures old(Mirrored(fs.g, fs.medium)) ==> Mirrored(fs.g, fs.medium)
    ensures old(FreeCountOk(fs)) ==> FreeCountOk(fs)
    ensures fs.g.InFat1(fs.winsect) || fs.winsect == old(fs.winsect)
    ensures Outcome(old(fs.Fat()), clst, old(fs.freeClst), old(fs.lastClst), fs.g.EndMark(), r, fs.Fat())
    ensures r >= 2 ==> fs.g.InFat1(fs.winsect)
    ensures fs.Fat() != old(fs.Fat()) ==> fs.lastClst == r
    ensures r < 2 ==> fs.freeClst == old(fs.freeClst)
  {
    ghost var v0 := fs.View();
    if clst != 0 {
      var cs := fs.GetFat(clst);
      SameKeepsData(fs.g, v0, fs.View());
      if cs < 2 {
        return 1;
      }
      if cs < fs.g.nFatent {
        return cs;
      }
    }
    if fs.freeClst == 0 {
      return 0;
    }
    ghost var v1 := fs.View();
    r := PickCluster(fs, clst);
    SameKeepsData(fs.g, v1, fs.View());
    KeepsDataTrans(fs.g, v0, v1, fs.View());
    if r < 2 {
      return;
    }
    v1 := fs.View();
    LinkCluster(fs, clst, r);
    KeepsDataTrans(fs.g, v0, v1, fs.View());
  }

  /** There is nothing left to allocate, or the free count says so. */
  ghost predicate Full(fs: FATFS)
    requires fs.Valid()
    reads fs, fs.win
  {
    fs.freeClst == 0 || NoneFree(fs.Fat())
  }

  /** What create_chain may return and leave, by cases on the entry of clst. */
  ghost predicate Outcome(fat: seq<nat>, clst: nat, free: nat, last: nat, mark: nat, r: nat, fat': seq<nat>)
    requires |fat| >= 3
  {
    if clst != 0 && (!FatChains.IsCluster(fat, clst) || fat[clst] < 2) then
      r == 1 && fat' == fat
    else if clst != 0 && fat[clst] < |fat| then
      r == fat[clst] && fat' == fat
    else if free == 0 || NoneFree(fat) then
      r < 2 && (r == 1 ==> HasInvalid(fat)) && (free == 0 ==> r == 0) && fat' == fat
    else
      (r == 1 && HasInvalid(fat) && fat' == fat)
      || (CanLink(fat, clst, r) && Chosen(fat, clst, last, r) && fat' == Linked(fat, clst, r, mark))
  }

  /** In a forest create_chain gives up exactly when the free count is 0 or nothing is free. */
  lemma CreateChainFails(fat: seq<nat>, clst: nat, free: nat, last: nat, mark: nat, r: nat, fat': seq<nat>)
    requires |fat| >= 3 && Forest(fat) && Outcome(fat, clst, free, last, mark, r, fat')
    requires clst != 0 ==> FatChains.IsCluster(fat, clst) && fat[clst] >= 2
    ensures r != 1
    ensures r == 0 <==> (clst == 0 || fat[clst] >= |fat|) && (free == 0 || NoneFree(fat))
    ensures (free <= |fat| - 2 ==> free == NumFree(fat)) ==>
      (r == 0 <==> (clst == 0 || fat[clst] >= |fat|) && NoneFree(fat))
  {
    ForestValid(fat);
    NumFreeZero(fat, 2);
  }

  /** With a right free count, the volume is full when it says so and when nothing is free, which is the same. */
  lemma FullMeans(fs: FATFS)
    requires fs.Valid() && FreeCountOk(fs)
    ensures Full(fs) <==> NoneFree(fs.Fat())
  {
    NumFreeZero(fs.Fat(), 2);
  }

  lemma ForestValid(fat: seq<nat>)
    requires Forest(fat)
    ensures !HasInvalid(fat)
  {
    forall c: nat | FatChains.IsCluster(fat, c) ensures fat[c] != 1 {
      if fat[c] == 1 {
        assert Ends(fat, c);
        var ch :| Reaches(fat, c, ch);
        ChainEntry(fat, ch, 0);
      }
    }
  }

  /** create_chain keeps the forest. */
  lemma CreateChainForest(fat: seq<nat>, clst: nat, free: nat, last: nat, mark: nat, r: nat, fat': seq<nat>)
    requires |fat| >= 3 && Forest(fat) && mark >= |fat| && Outcome(fat, clst, free, last, mark, r, fat')
    ensures Forest(fat')
  {
    if fat' != fat {
      LinkedForest(fat, clst, r, mark);
    }
  }
}
