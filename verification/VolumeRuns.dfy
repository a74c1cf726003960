/**
 Files and directories of a volume used side by side: any run of calls on any number of open files and of directory
 objects leaves with each what its own calls have done.
 */
module VolumeRuns {
  import opened FatLayout
  import opened FatWindow
  import opened FatAlloc
  import opened FatContent
  import opened FatFileState
  import opened FatFile
  import opened LongNames
  import opened Directories
  import opened DirTables
  import opened DirObject
  import opened NumberedNames
  import FatRuns
  import Chains = FatChains

  // ---------- what one change leaves of a directory ----------

  /** A directory with other clusters than those a change is confined to stays where it is, and its table as it is. */
  lemma DirStays(g: Geometry, v0: seq<Sector>, v: seq<Sector>, ch: seq<nat>, sclust: nat, dir: seq<nat>)
    requires g.Good(|v0|) && Confined(g, v0, v, ch) && Clusters(g, ch) && OnVolume(g, Entries(v0, g), sclust, dir)
    requires forall c | c in dir :: c !in ch
    ensures OnVolume(g, Entries(v, g), sclust, dir) && EntriesIn(v, g, dir) == EntriesIn(v0, g, dir)
  {
    hide Entries, EntriesIn, Owns, TableSector, Row, Col;
    OnVolumeGood(g, v0, sclust, dir);
    if dir != [] {
      assert forall i | 0 <= i < |dir| :: dir[i] in dir;
      ConfinedOther(g, v0, v, ch, dir, 0);
    }
    forall s | 0 <= s < |v| && TableSector(g, dir, s)
      ensures v[s] == v0[s]
    {
      TableOutsideFats(g, |v|, dir, s);
      TableNotOwned(g, |v|, dir, ch, s);
    }
    EntriesFrame(v0, v, g, dir);
  }

  lemma TableNotOwned(g: Geometry, size: nat, dir: seq<nat>, ch: seq<nat>, s: int)
    requires DirGood(g, size, dir) && Clusters(g, ch) && TableSector(g, dir, s) && forall c | c in dir :: c !in ch
    ensures !Owns(g, ch, s)
  {
    hide Owns;
    if dir == [] {
      NotOwned(g, size, ch, s);
    } else {
      assert forall i | 0 <= i < |dir| :: dir[i] in dir;
      OwnsDisjoint(g, dir, ch, s);
    }
  }

  /** A change of the root directory area leaves every other directory. */
  lemma DirBesideArea(g: Geometry, v0: seq<Sector>, v: seq<Sector>, sclust: nat, dir: seq<nat>)
    requires g.Good(|v0|) && DirGood(g, |v0|, []) && DirKeeps(g, v0, [], v, []) && dir != []
    requires OnVolume(g, Entries(v0, g), sclust, dir)
    ensures OnVolume(g, Entries(v, g), sclust, dir) && EntriesIn(v, g, dir) == EntriesIn(v0, g, dir)
  {
    hide Entries, EntriesIn, Owns;
    OnVolumeGood(g, v0, sclust, dir);
    AreaKeepsFat(g, v0, v);
    forall s | 0 <= s < |v| && TableSector(g, dir, s)
      ensures v[s] == v0[s]
    {
      OwnsData(g, |v|, dir, s);
      DataNotTable(g, |v|, s);
    }
    EntriesFrame(v0, v, g, dir);
  }

  lemma AreaKeepsFat(g: Geometry, v0: seq<Sector>, v: seq<Sector>)
    requires g.Good(|v0|) && DirGood(g, |v0|, []) && DirKeeps(g, v0, [], v, [])
    ensures |v| == |v0| && Entries(v, g) == Entries(v0, g)
  {
    hide Entries;
    FatUnchanged(g, v0, v);
  }

  /** What a call on one directory, from ch0 to ch, leaves of another. */
  lemma DirBeside(g: Geometry, v0: seq<Sector>, ch0: seq<nat>, v: seq<Sector>, ch: seq<nat>, sclust: nat, dir: seq<nat>)
    requires g.Good(|v0|) && DirGood(g, |v0|, ch) && DirKeeps(g, v0, ch0, v, ch)
    requires OnVolume(g, Entries(v0, g), sclust, dir) && (forall c | c in dir :: c !in ch0) && !(dir == [] && ch0 == [])
    ensures OnVolume(g, Entries(v, g), sclust, dir) && EntriesIn(v, g, dir) == EntriesIn(v0, g, dir)
    ensures (forall c | c in dir :: c !in ch) && !(dir == [] && ch == [])
  {
    hide Entries, EntriesIn, OnVolume;
    if ch == [] {
      DirBesideArea(g, v0, v, sclust, dir);
    } else {
      DirApart(g, v0, ch0, v, ch, sclust, dir);
      DirStays(g, v0, v, ch, sclust, dir);
    }
  }

  /** What has at most grown gets no cluster of a directory. */
  lemma DirApart(g: Geometry, v0: seq<Sector>, ch0: seq<nat>, v: seq<Sector>, ch: seq<nat>, sclust: nat, dir: seq<nat>)
    requires g.Good(|v0|) && Evolves(g, v0, ch0, v, ch) && OnVolume(g, Entries(v0, g), sclust, dir)
    requires forall c | c in dir :: c !in ch0
    ensures forall c | c in dir :: c !in ch
    ensures Confined(g, v0, v, ch)
  {
    hide Entries, Owns;
    OnVolumeGood(g, v0, sclust, dir);
    if dir != [] {
      StaysApart(g, v0, ch0, v, ch, dir);
    }
  }

  // ---------- what a call on a directory leaves of a file ----------

  lemma FileBesideDir(g: Geometry, v0: seq<Sector>, win0: nat, ch0: seq<nat>, v: seq<Sector>, win: nat, ch: seq<nat>,
                      st: FileState)
    requires g.Good(|v0|) && DirGood(g, |v0|, ch) && DirKeeps(g, v0, ch0, v, ch) && WindowOk(g, ch, win0, win)
    requires ch == [] || Chains.IsChain(Entries(v, g), ch)
    requires Ok(g, v0, win0, st) && OwnSector(g, st.chain, st.sect) && forall c | c in st.chain :: c !in ch0
    requires st.chain != [] ==> NoLinkTo(Entries(v0, g), st.chain[0])
    ensures Ok(g, v, win, st) && Content(g, v, st) == Content(g, v0, st) && forall c | c in st.chain :: c !in ch
    ensures st.chain != [] ==> NoLinkTo(Entries(v, g), st.chain[0])
  {
    hide Owns, Entries, Content, BufferOk, Evolves, NoLinkTo, Ok, OwnSector;
    if ch == [] {
      FileBeside(g, v0, win0, ch0, v, win, ch, st);
      AreaKeepsFat(g, v0, v);
    } else {
      FatRuns.GrowBeside(g, v0, win0, ch0, v, win, ch, st);
    }
  }

  lemma DirKeepsForest(g: Geometry, v0: seq<Sector>, ch0: seq<nat>, v: seq<Sector>, ch: seq<nat>)
    requires g.Good(|v0|) && DirGood(g, |v0|, ch) && DirKeeps(g, v0, ch0, v, ch) && Chains.Forest(Entries(v0, g))
    ensures |v| == |v0| && Chains.Forest(Entries(v, g))
  {
    hide Entries, Chains.Forest, Owns;
    if ch == [] {
      AreaKeepsFat(g, v0, v);
    }
  }

  // ---------- calls on directories ----------

  /** A lookup, a listing from entry k on, and the creation of a name; what create_name makes of a path is in x. */
  datatype DirCall = Lookup(x: Target) | Listing(k: nat) | New(x: Target, name: seq<wchar>, lfn: bool, ntFlags: byte)

  ghost predicate DirCallOk(c: DirCall) {
    match c
    case Lookup(x) => |x.buf| == LFN_BUF
    case Listing(k) => true
    case New(x, name, lfn, _) =>
      Storable(name) && Holds(x.buf, name) && ShortOk(x.sfn) && !x.noLfn && (x.lossy ==> lfn)
  }

  /** The item that is made for a name. */
  function ItemFor(name: seq<wchar>, lfn: bool, sfn: seq<byte>): Item {
    if lfn then Named(name, sfn) else Short(sfn)
  }

  /** The name has been registered at entry p with this short name. */
  ghost predicate AddedAt(up: wchar -> wchar, x: Target, name: seq<wchar>, lfn: bool, was: seq<DirEntry>,
                          now: seq<DirEntry>, p: nat, sfn: seq<byte>)
    requires |x.buf| == LFN_BUF && ShortOk(x.sfn) && |was| <= |now|
  {
    && Registered(Widened(was, |now|), now, p, ItemFor(name, lfn, sfn))
    && if x.lossy then FirstUntaken(up, x.buf, x.sfn, name, was, sfn) else sfn == x.sfn
  }

  /** The name has been refused, for one of the reasons there are. */
  ghost predicate Refused(up: wchar -> wchar, x: Target, name: seq<wchar>, lfn: bool, area: bool, was: seq<DirEntry>,
                          now: seq<DirEntry>, full: bool)
    requires |x.buf| == LFN_BUF && ShortOk(x.sfn) && |was| <= |now|
  {
    && now == Widened(was, |now|)
    && ((x.lossy && AllTaken(up, x.buf, x.sfn, name, was, 100))
        || ((forall q: nat :: !FreeRun(now, q, Span(ItemFor(name, lfn, x.sfn))))
            && (area || |now| == 0x1_0000 || full)))
  }

  /** What a call may do to the table of its directory; area tells that it is the root directory area. */
  ghost predicate DirDid(up: wchar -> wchar, c: DirCall, area: bool, was: seq<DirEntry>, now: seq<DirEntry>, full: bool)
    requires DirCallOk(c)
  {
    if !c.New? || FindFrom(up, c.x, was, 0, START).0 then now == was
    else |was| <= |now| && ((exists p, sfn :: AddedAt(up, c.x, c.name, c.lfn, was, now, p, sfn))
                            || Refused(up, c.x, c.name, c.lfn, area, was, now, full))
  }

  ghost predicate DirOf(fs: FATFS, d: DIR)
    reads d, fs, fs.win
  {
    d.fs == fs && d.Valid()
  }

  /** The call has changed nothing but its directory, which has at most grown. */
  twostate predicate Moved(fs: FATFS, d: DIR)
    reads d, fs, fs.win
  {
    && old(DirOf(fs, d)) && DirOf(fs, d)
    && DirKeeps(fs.g, old(fs.View()), old(d.chain), fs.View(), d.chain)
    && WindowOk(fs.g, d.chain, old(fs.winsect), fs.winsect)
  }

  /** The FATs agree, and the free count is right where it is known, if it was so before. */
  twostate predicate TablesKept(fs: FATFS)
    reads fs, fs.win
  {
    && old(fs.Valid()) && fs.Valid() && (old(Mirrored(fs.g, fs.medium)) ==> Mirrored(fs.g, fs.medium))
    && (old(FreeCountOk(fs)) ==> FreeCountOk(fs))
  }

  /** A call on a directory does not touch FSInfo. */
  lemma DirKeepsInfo(g: Geometry, v0: seq<Sector>, ch0: seq<nat>, a0: nat, b0: nat, f0: nat, v: seq<Sector>,
                     ch: seq<nat>, a: nat, b: nat, f: nat)
    requires g.Good(|v0|) && DirGood(g, |v0|, ch) && DirKeeps(g, v0, ch0, v, ch) && NotedFrom(a0, b0, f0, a, b, f)
    ensures InfoLaw(g, v0, a0, b0, f0) ==> InfoLaw(g, v, a, b, f)
  {
    hide InfoLaw, NotedFrom, Owns, Clusters, Entries;
    if ch == [] {
      FrontKeepsInfo(g, v0, a0, b0, f0, v, a, b, f);
    } else {
      FatRuns.GrowKeepsInfo(g, v0, ch0, a0, b0, f0, v, ch, a, b, f);
    }
  }

  method SetTarget(d: DIR, x: Target)
    requires |x.buf| == LFN_BUF && d.lfnbuf.Length == LFN_BUF
    modifies d`fn, d`loss, d`noLfn, d.lfnbuf
    ensures d.Wanted() == x
  {
    d.fn, d.loss, d.noLfn := x.sfn, x.lossy, x.noLfn;
    var i := 0;
    while i < LFN_BUF
      invariant 0 <= i <= LFN_BUF && d.fn == x.sfn && d.loss == x.lossy && d.noLfn == x.noLfn
      invariant forall j | 0 <= j < i :: d.lfnbuf[j] == x.buf[j]
    {
      d.lfnbuf[i] := x.buf[i];
      i := i + 1;
    }
  }

  method DoLookup(fs: FATFS, up: wchar -> wchar, d: DIR, x: Target) returns (res: FResult)
    requires DirOf(fs, d) && |x.buf| == LFN_BUF
    modifies d, d.lfnbuf, fs, fs.win
    ensures fs.Noted() && TablesKept(fs)
    ensures Moved(fs, d) && d.Slots() == old(d.Slots()) && d.chain == old(d.chain)
    ensures res == if FindFrom(up, x, old(d.Slots()), 0, START).0 then FR_OK else FR_NO_FILE
    ensures d.Wanted() == x
  {
    hide FindFrom, EntriesIn, Entries, OnVolume, FATFS.View, FATFS.Fat, SameView, DirKeeps, WindowOk, Count;
    ghost var v, win := fs.View(), fs.winsect;
    SetTarget(d, x);
    res := d.Find(up);
    QuietKeeps(fs.g, d.chain, v, win, fs.View(), fs.winsect);
  }

  method DoListing(fs: FATFS, d: DIR, k: nat)
    requires DirOf(fs, d)
    modifies d, d.lfnbuf, fs, fs.win
    ensures fs.Noted() && TablesKept(fs)
    ensures Moved(fs, d) && d.Slots() == old(d.Slots()) && d.chain == old(d.chain)
  {
    hide ReadFrom, EntriesIn, Entries, OnVolume, FATFS.View, FATFS.Fat, SameView, DirKeeps, WindowOk, Count, AtEntry;
    ghost var g, ch, v, win := fs.g, d.chain, fs.View(), fs.winsect;
    var res := d.Sdi(k);
    ghost var v1, win1 := fs.View(), fs.winsect;
    WindowKept(g, ch, win, win1);
    QuietKeeps(g, ch, v, win, v1, win1);
    if res == FR_OK {
      var _ := d.Read();
      QuietTrans(g, ch, v, win, v1, win1, fs.View(), fs.winsect);
      QuietKeeps(g, ch, v, win, fs.View(), fs.winsect);
    }
  }

  lemma NoInvalid(fat: seq<nat>)
    requires Chains.Forest(fat)
    ensures !HasInvalid(fat)
  {
    ForestValid(fat);
  }

  lemma WasAdded(up: wchar -> wchar, c: DirCall, area: bool, was: seq<DirEntry>, now: seq<DirEntry>, full: bool, p: nat,
                 sfn: seq<byte>)
    requires DirCallOk(c) && c.New? && !FindFrom(up, c.x, was, 0, START).0 && |was| <= |now|
    requires AddedAt(up, c.x, c.name, c.lfn, was, now, p, sfn)
    ensures DirDid(up, c, area, was, now, full)
  {
    hide AddedAt, Refused, FindFrom;
  }

  lemma WasRefused(up: wchar -> wchar, c: DirCall, area: bool, was: seq<DirEntry>, now: seq<DirEntry>, full: bool,
                   n: nat)
    requires DirCallOk(c) && c.New? && !FindFrom(up, c.x, was, 0, START).0 && |was| <= |now|
    requires now == Widened(was, |now|)
    requires (c.x.lossy && AllTaken(up, c.x.buf, c.x.sfn, c.name, was, 100))
          || (n == Span(ItemFor(c.name, c.lfn, c.x.sfn)) && (forall q: nat :: !FreeRun(now, q, n))
              && (area || |now| == 0x1_0000 || full))
    ensures DirDid(up, c, area, was, now, full)
  {
    hide AllTaken, FreeRun, FindFrom, Widened;
  }

  lemma NothingDone(up: wchar -> wchar, c: DirCall, area: bool, was: seq<DirEntry>, full: bool)
    requires DirCallOk(c) && (!c.New? || FindFrom(up, c.x, was, 0, START).0)
    ensures DirDid(up, c, area, was, was, full)
  {
    hide FindFrom;
  }

  /** A name made in its directory, if it is not there. */
  method DoNew(fs: FATFS, up: wchar -> wchar, d: DIR, c: DirCall)
    requires DirOf(fs, d) && Chains.Forest(fs.Fat()) && DirCallOk(c) && c.New?
    modifies d, d.lfnbuf, fs, fs.win
    ensures fs.Noted() && TablesKept(fs)
    ensures Moved(fs, d) && DirDid(up, c, d.chain == [], old(d.Slots()), d.Slots(), Full(fs))
  {
    hide FindFrom, EntriesIn, Entries, OnVolume, FATFS.View, SameView, DirKeeps, WindowOk, Count, ShortOk;
    hide Chains.Forest, AllTaken, FirstUntaken, Registered, Widened, FreeRun, Full, HasInvalid, Storable, AtEntry;
    hide DirDid, FreeCountOk, Mirrored;
    ghost var g, ch, v, win, t := fs.g, d.chain, fs.View(), fs.winsect, d.Slots();
    var found := DoLookup(fs, up, d, c.x);
    if found != FR_OK {
      ghost var v1, win1 := fs.View(), fs.winsect;
      d.lfn, d.ntFlags := c.lfn, c.ntFlags;
      d.Sound();
      var res := d.Register(up, c.name);
      d.Sound();
      KeepsThenKeeps(g, v, ch, win, v1, ch, win1, fs.View(), d.chain, fs.winsect);
      DirKeepsForest(g, v, ch, fs.View(), d.chain);
      NoInvalid(fs.Fat());
      if res == FR_OK {
        ghost var it := d.NewItem(c.name);
        WasAdded(up, c, d.chain == [], t, d.Slots(), Full(fs), d.dptr + 1 - Span(it), d.fn);
      } else {
        WasRefused(up, c, d.chain == [], t, d.Slots(), Full(fs), Span(d.NewItem(c.name)));
      }
    } else {
      NothingDone(up, c, d.chain == [], t, Full(fs));
    }
  }

  method DoDir(fs: FATFS, up: wchar -> wchar, d: DIR, c: DirCall)
    requires DirOf(fs, d) && Chains.Forest(fs.Fat()) && DirCallOk(c)
    modifies d, d.lfnbuf, fs, fs.win
    ensures fs.Noted() && RecordsKept(fs)
    ensures Moved(fs, d) && DirDid(up, c, d.chain == [], old(d.Slots()), d.Slots(), Full(fs))
  {
    hide DirDid, FindFrom, EntriesIn, Entries, OnVolume, FATFS.View, DirKeeps, WindowOk, Count, Chains.Forest, Full;
    hide InfoLaw, NotedFrom, Mirrored, FreeCountOk;
    ghost var v0, ch0 := fs.View(), d.chain;
    ghost var a0, b0, f0 := fs.freeClst, fs.lastClst, fs.fsiFlag;
    if c.New? {
      DoNew(fs, up, d, c);
    } else {
      ghost var t := d.Slots();
      if c.Lookup? {
        var _ := DoLookup(fs, up, d, c.x);
      } else {
        DoListing(fs, d, c.k);
      }
      NothingDone(up, c, d.chain == [], t, Full(fs));
    }
    d.Sound();
    DirKeepsInfo(fs.g, v0, ch0, a0, b0, f0, fs.View(), d.chain, fs.freeClst, fs.lastClst, fs.fsiFlag);
  }

  // ---------- files and directories together ----------

  ghost predicate DirsApart(c: DIR, d: DIR)
    reads c, d
  {
    c != d && !(c.chain == [] && d.chain == []) && forall x | x in d.chain :: x !in c.chain
  }

  ghost predicate FileApart(f: FIL, d: DIR)
    reads f, d
  {
    forall c | c in d.chain :: c !in f.chain
  }

  /** Different directories of the volume, apart from each other and from the files. */
  ghost predicate DirsHold(fs: FATFS, files: seq<FIL>, dirs: seq<DIR>)
    reads fs, fs.win, files, dirs
  {
    && (forall j | 0 <= j < |dirs| :: DirOf(fs, dirs[j]))
    && (forall i, j | 0 <= i < |dirs| && 0 <= j < |dirs| && i != j :: DirsApart(dirs[i], dirs[j]))
    && (forall i, j | 0 <= i < |files| && 0 <= j < |dirs| :: FileApart(files[i], dirs[j]))
  }

  /** Open files and directories of a volume. */
  ghost predicate Volume(fs: FATFS, files: seq<FIL>, dirs: seq<DIR>)
    reads fs, fs.win, files, set f | f in files :: f.buf, dirs
  {
    FatRuns.Together(fs, files) && DirsHold(fs, files, dirs)
  }

  twostate predicate SameDir(d: DIR)
    reads d, d.fs, d.fs.win
  {
    old(d.Valid()) && d.Valid() && d.Slots() == old(d.Slots())
  }

  /** A read, write or seek leaves the directories. */
  method FileGrows(fs: FATFS, files: seq<FIL>, dirs: seq<DIR>, i: nat, op: FatRuns.Op)
    requires Volume(fs, files, dirs) && i < |files| && FatRuns.OpOk(op) && !op.Cut?
    modifies fs, fs.win, files[i], files[i].buf
    ensures fs.Noted() && RecordsKept(fs)
    ensures Volume(fs, files, dirs) && FatRuns.Called(files[i], op, Full(fs))
    ensures forall j | 0 <= j < |files| && j != i :: FatRuns.Same(files[j])
    ensures forall j | 0 <= j < |dirs| :: SameDir(dirs[j])
  {
    hide FatRuns.Together, Evolves, Entries, EntriesIn, OnVolume, Full, FatRuns.Did, Confined, FIL.Valid, FIL.Data;
    var f := files[i];
    FatRuns.Members(fs, files);
    ghost var g, v0, ch0 := fs.g, fs.View(), f.chain;
    var _ := FatRuns.StepGrow(fs, files, i, op);
    FatRuns.Members(fs, files);
    ghost var v := fs.View();
    FatRuns.ValidOnChain(fs, f);
    forall j | 0 <= j < |dirs|
      ensures DirOf(fs, dirs[j]) && dirs[j].Slots() == old(dirs[j].Slots()) && FileApart(f, dirs[j])
    {
      assert old(DirOf(fs, dirs[j])) && old(FileApart(f, dirs[j]));
      DirApart(g, v0, ch0, v, f.chain, dirs[j].sclust, dirs[j].chain);
      DirStays(g, v0, v, f.chain, dirs[j].sclust, dirs[j].chain);
    }
  }

  /** So does a truncation. */
  method FileCut(fs: FATFS, files: seq<FIL>, dirs: seq<DIR>, i: nat) returns (lost: bool)
    requires Volume(fs, files, dirs) && i < |files|
    modifies fs, fs.win, files[i], files[i].buf
    ensures fs.Noted() && RecordsKept(fs)
    ensures DirsHold(fs, files, dirs) && fs.Valid() && FatRuns.Called(files[i], FatRuns.Cut, Full(fs))
    ensures forall j | 0 <= j < |files| && j != i :: FatRuns.Sound(fs, files[j]) && FatRuns.Same(files[j])
    ensures forall j | 0 <= j < |dirs| :: SameDir(dirs[j])
    ensures if lost then FatRuns.Lost(fs, files, (i, FatRuns.Cut)) else FatRuns.Together(fs, files)
  {
    hide FatRuns.Together, Entries, EntriesIn, OnVolume, Full, FatRuns.Did, Confined, FIL.Data, FatRuns.BufferFreed;
    hide OwnSector, FIL.Valid;
    var f := files[i];
    FatRuns.Members(fs, files);
    FatRuns.ValidOnChain(fs, f);
    ghost var g, v0, ch0 := fs.g, fs.View(), f.chain;
    FatRuns.StepCut(fs, files, i);
    lost := FatRuns.BufferFreed(fs, f);
    FatRuns.LostOrNot(fs, files, i, FatRuns.Cut, lost);
    ghost var v := fs.View();
    forall j | 0 <= j < |dirs|
      ensures DirOf(fs, dirs[j]) && dirs[j].Slots() == old(dirs[j].Slots()) && FileApart(f, dirs[j])
    {
      assert old(DirOf(fs, dirs[j])) && old(FileApart(f, dirs[j]));
      DirStays(g, v0, v, ch0, dirs[j].sclust, dirs[j].chain);
      PrefixApart(f.chain, ch0, dirs[j].chain);
    }
  }

  lemma PrefixApart(kept: seq<nat>, ch: seq<nat>, dir: seq<nat>)
    requires kept <= ch && forall c | c in dir :: c !in ch
    ensures forall c | c in dir :: c !in kept
  {
    forall c | c in kept
      ensures c in ch
    {
      var i :| 0 <= i < |kept| && kept[i] == c;
      assert ch[i] == c;
    }
  }

  /** A call on a directory leaves the files and the other directories. */
  method DirCalled(fs: FATFS, up: wchar -> wchar, files: seq<FIL>, dirs: seq<DIR>, j: nat, c: DirCall)
    requires Volume(fs, files, dirs) && j < |dirs| && DirCallOk(c)
    modifies fs, fs.win, dirs[j], dirs[j].lfnbuf
    ensures fs.Noted() && RecordsKept(fs)
    ensures Volume(fs, files, dirs)
    ensures DirDid(up, c, dirs[j].chain == [], old(dirs[j].Slots()), dirs[j].Slots(), Full(fs))
    ensures forall i | 0 <= i < |files| :: FatRuns.Same(files[i])
    ensures forall i | 0 <= i < |dirs| && i != j :: SameDir(dirs[i])
  {
    hide Entries, EntriesIn, OnVolume, Full, DirDid, Content, BufferOk, DirKeeps, WindowOk, Chains.Forest, NoLinkTo;
    hide Positioned, Owns, OwnSector, Ok, FATFS.View, Clusters, Chains.IsChain;
    var d := dirs[j];
    ghost var g, v0, win0, ch0 := fs.g, fs.View(), fs.winsect, d.chain;
    DoDir(fs, up, d, c);
    ghost var v, win := fs.View(), fs.winsect;
    d.Sound();
    DirKeepsForest(g, v0, ch0, v, d.chain);
    forall i | 0 <= i < |dirs| && i != j
      ensures DirOf(fs, dirs[i]) && dirs[i].Slots() == old(dirs[i].Slots())
      ensures DirsApart(d, dirs[i]) && DirsApart(dirs[i], d)
    {
      assert old(DirOf(fs, dirs[i])) && old(DirsApart(d, dirs[i])) && old(DirsApart(dirs[i], d));
      DirBeside(g, v0, ch0, v, d.chain, dirs[i].sclust, dirs[i].chain);
    }
    forall i | 0 <= i < |files|
      ensures FatRuns.Sound(fs, files[i]) && files[i].Data() == old(files[i].Data()) && FileApart(files[i], d)
    {
      assert old(FatRuns.Sound(fs, files[i])) && old(FileApart(files[i], d));
      assert files[i].State() == old(files[i].State());
      FileBesideDir(g, v0, win0, ch0, v, win, d.chain, files[i].State());
    }
  }

  // ---------- runs ----------

  datatype Call = OnFile(i: nat, op: FatRuns.Op) | OnDir(j: nat, call: DirCall)

  ghost predicate CallOk(c: Call, nFiles: nat, nDirs: nat) {
    match c
    case OnFile(i, op) => i < nFiles && FatRuns.OpOk(op)
    case OnDir(j, call) => j < nDirs && DirCallOk(call)
  }

  /** What the users of the files and the directories see, and whether the volume is full. */
  datatype Snapshot = Snapshot(files: seq<FatRuns.FileView>, dirs: seq<seq<DirEntry>>, full: bool)

  ghost predicate Shows(fs: FATFS, files: seq<FIL>, dirs: seq<DIR>, s: Snapshot)
    reads fs, fs.win, files, set f | f in files :: f.buf, dirs
  {
    && FatRuns.Shows(fs, files, FatRuns.Snapshot(s.files, s.full)) && |s.dirs| == |dirs|
    && forall j | 0 <= j < |dirs| :: DirOf(fs, dirs[j]) && s.dirs[j] == dirs[j].Slots()
  }

  /** The directory is the root directory area of its volume. */
  predicate IsArea(d: DIR) { d.sclust == 0 && !d.fs.g.fsType.Fat32? }

  /** A call leads from one snapshot to the next: it does to its file or directory what it should, and nothing else. */
  ghost predicate Turn(up: wchar -> wchar, files: seq<FIL>, dirs: seq<DIR>, c: Call, s: Snapshot, t: Snapshot) {
    match c
    case OnFile(i, op) =>
      && FatRuns.Turn(files, i, op, FatRuns.Snapshot(s.files, s.full), FatRuns.Snapshot(t.files, t.full))
      && t.dirs == s.dirs
    case OnDir(j, call) =>
      && j < |dirs| == |s.dirs| == |t.dirs| && DirCallOk(call) && t.files == s.files && t.dirs == s.dirs[j := t.dirs[j]]
      && DirDid(up, call, IsArea(dirs[j]), s.dirs[j], t.dirs[j], t.full)
  }

  /** The call is a truncation that has left a foreign sector in the buffer. */
  ghost predicate Lost(fs: FATFS, files: seq<FIL>, c: Call)
    reads fs, files
  {
    c.OnFile? && FatRuns.Lost(fs, files, (c.i, c.op))
  }

  method StepFile(fs: FATFS, up: wchar -> wchar, files: seq<FIL>, dirs: seq<DIR>, i: nat, op: FatRuns.Op,
                  ghost s: Snapshot) returns (lost: bool, ghost t: Snapshot)
    requires Volume(fs, files, dirs) && i < |files| && FatRuns.OpOk(op) && Shows(fs, files, dirs, s)
    modifies fs, fs.win, files[i], files[i].buf
    ensures fs.Noted() && RecordsKept(fs)
    ensures Shows(fs, files, dirs, t) && Turn(up, files, dirs, OnFile(i, op), s, t)
    ensures if lost then Lost(fs, files, OnFile(i, op)) else Volume(fs, files, dirs)
  {
    hide FatRuns.Together, FatRuns.Did, Full, FIL.Valid, FIL.Data, EntriesIn, OnVolume, FatRuns.Lost, FATFS.View;
    FatRuns.Members(fs, files);
    lost := false;
    if op.Cut? {
      lost := FileCut(fs, files, dirs, i);
    } else {
      FileGrows(fs, files, dirs, i, op);
      FatRuns.Members(fs, files);
    }
    t := Snapshot(s.files[i := FatRuns.ViewOf(files[i])], s.dirs, Full(fs));
  }

  method StepDir(fs: FATFS, up: wchar -> wchar, files: seq<FIL>, dirs: seq<DIR>, j: nat, c: DirCall, ghost s: Snapshot)
    returns (ghost t: Snapshot)
    requires Volume(fs, files, dirs) && j < |dirs| && DirCallOk(c) && Shows(fs, files, dirs, s)
    modifies fs, fs.win, dirs[j], dirs[j].lfnbuf
    ensures fs.Noted() && RecordsKept(fs)
    ensures Shows(fs, files, dirs, t) && Turn(up, files, dirs, OnDir(j, c), s, t) && Volume(fs, files, dirs)
  {
    hide FatRuns.Together, DirDid, Full, FIL.Valid, FIL.Data, EntriesIn, OnVolume, FATFS.View;
    FatRuns.Members(fs, files);
    DirCalled(fs, up, files, dirs, j, c);
    dirs[j].Sound();
    t := Snapshot(s.files, s.dirs[j := dirs[j].Slots()], Full(fs));
  }

  lemma VolumeValid(fs: FATFS, files: seq<FIL>, dirs: seq<DIR>)
    requires Volume(fs, files, dirs)
    ensures fs.Valid()
  {
    hide FatRuns.Sound, Chains.Forest;
  }

  /**
   Any run of calls on any number of open files and directories, up to the first truncation that leaves a sector in
   the buffer that is not its file's any more; n is the number of calls made.
   */
  method Run(fs: FATFS, up: wchar -> wchar, files: seq<FIL>, dirs: seq<DIR>, calls: seq<Call>, ghost start: Snapshot)
    returns (n: nat, ghost hist: seq<Snapshot>)
    requires Volume(fs, files, dirs) && Shows(fs, files, dirs, start)
    requires forall k | 0 <= k < |calls| :: CallOk(calls[k], |files|, |dirs|)
    modifies fs, fs.win, set f | f in files, set f | f in files :: f.buf
    modifies set d | d in dirs, set d | d in dirs :: d.lfnbuf
    ensures fs.Noted() && RecordsKept(fs)
    ensures n <= |calls| && |hist| == n + 1 && hist[0] == start && Shows(fs, files, dirs, hist[n])
    ensures forall k | 0 <= k < n :: Turn(up, files, dirs, calls[k], hist[k], hist[k + 1])
    ensures (n == |calls| && Volume(fs, files, dirs)) || (n > 0 && Lost(fs, files, calls[n - 1]))
  {
    hide Volume, Turn, Shows, Lost, DirCallOk, FreeCountOk, Mirrored, InfoLaw;
    VolumeValid(fs, files, dirs);
    hist := [start];
    n := 0;
    var lost := false;
    while n < |calls| && !lost
      invariant fs.Noted() && RecordsKept(fs)
      invariant 0 <= n <= |calls| && |hist| == n + 1 && hist[0] == start
      invariant Shows(fs, files, dirs, hist[n])
      invariant forall k | 0 <= k < n :: Turn(up, files, dirs, calls[k], hist[k], hist[k + 1])
      invariant if lost then n > 0 && Lost(fs, files, calls[n - 1]) else Volume(fs, files, dirs)
    {
      ghost var t;
      match calls[n] {
        case OnFile(i, op) =>
          lost, t := StepFile(fs, up, files, dirs, i, op, hist[n]);
        case OnDir(j, call) =>
          t := StepDir(fs, up, files, dirs, j, call, hist[n]);
      }
      hist, n := hist + [t], n + 1;
    }
  }

  /**
   After such a run and a sync_fs the medium holds what there is to see, and the next mount takes over the counts as
   they are now: the number of free clusters, where it was right before the run, and the last cluster allocated.
   */
  method RunThenSync(fs: FATFS, up: wchar -> wchar, files: seq<FIL>, dirs: seq<DIR>, calls: seq<Call>,
                     ghost start: Snapshot) returns (n: nat, ghost hist: seq<Snapshot>)
    requires Volume(fs, files, dirs) && Shows(fs, files, dirs, start)
    requires forall k | 0 <= k < |calls| :: CallOk(calls[k], |files|, |dirs|)
    requires fs.InfoOk() && FreeCountOk(fs)
    modifies fs, fs.win, set f | f in files, set f | f in files :: f.buf
    modifies set d | d in dirs, set d | d in dirs :: d.lfnbuf
    ensures fs.Valid() && !fs.wflag && fs.View() == fs.medium && RecordsKept(fs)
    ensures fs.fsiFlag < 0x80 <==> old(fs.fsiFlag) < 0x80
    ensures fs.fsiFlag < 0x80 ==> Remounted(fs) == (fs.freeClst, fs.lastClst, 0)
    ensures fs.fsiFlag < 0x80 && old(fs.freeClst) <= fs.g.nFatent - 2 ==>
      Remounted(fs).0 == Chains.NumFree(fs.Fat())
  {
    hide Volume, Turn, Shows, Mirrored, LdWord, LdDword;
    VolumeValid(fs, files, dirs);
    n, hist := Run(fs, up, files, dirs, calls, start);
    fs.SyncFs();
  }

  /** Free count, allocation hint and FSInfo flag that mounting the medium would give. */
  function Remounted(fs: FATFS): (nat, nat, nat)
    requires fs.Valid()
    reads fs, fs.win
  {
    MountCounts(fs.g, fs.medium[fs.g.volbase], fs.medium[fs.g.volbase + 1])
  }

  // ---------- what runs keep ----------

  /** The table is that of a directory, no two objects of which have the same name. */
  ghost predicate Distinct(up: wchar -> wchar, t: seq<DirEntry>) {
    exists items :: Lays(t, 0, items) && NoClash(up, items)
  }

  /** The call puts no short name without a long one behind long-name entries that wait for it. */
  ghost predicate TakesNothing(c: DirCall, was: seq<DirEntry>, now: seq<DirEntry>) {
    c.New? && !c.lfn && |was| <= |now| ==>
      forall p: nat | Registered(Widened(was, |now|), now, p, Short(c.x.sfn)) ::
        StandsAlone(Widened(was, |now|), p, Short(c.x.sfn))
  }

  lemma DirStaysDistinct(up: wchar -> wchar, c: DirCall, area: bool, was: seq<DirEntry>, now: seq<DirEntry>, full: bool)
    requires Folding(up) && DirCallOk(c) && DirDid(up, c, area, was, now, full) && Distinct(up, was)
    requires TakesNothing(c, was, now)
    ensures Distinct(up, now)
  {
    hide Lays, NoClash, Registered, StandsAlone, FindFrom, Widened, Storable, FirstUntaken, AllTaken, FreeRun;
    if now != was {
      var items :| Lays(was, 0, items) && NoClash(up, items);
      if p, sfn :| AddedAt(up, c.x, c.name, c.lfn, was, now, p, sfn) {
        if c.x.lossy {
          UntakenIsNotFound(up, c.x.buf, c.x.sfn, c.name, was, sfn);
        }
        var it := ItemFor(c.name, c.lfn, sfn);
        assert StandsAlone(Widened(was, |now|), p, it) by {
          NamedStands(Widened(was, |now|), p, it);
        }
        var after := Created(up, c.x, c.name, was, now, items, p, it);
        assert Lays(now, 0, after) && NoClash(up, after);
      } else {
        WidenedLays(was, |now|, 0, items);
      }
    }
  }

  lemma NamedStands(t: seq<DirEntry>, p: nat, it: Item)
    ensures it.Named? ==> StandsAlone(t, p, it)
  {
  }

  /** Over every run the names of every directory stay distinct. */
  lemma {:induction false} RunKeepsDistinct(up: wchar -> wchar, files: seq<FIL>, dirs: seq<DIR>, calls: seq<Call>,
                                            hist: seq<Snapshot>, n: nat, j: nat)
    requires Folding(up) && n < |hist| && |hist| <= |calls| + 1
    requires forall k | 0 <= k < n :: Turn(up, files, dirs, calls[k], hist[k], hist[k + 1])
    requires j < |dirs| && (forall k | 0 <= k <= n :: j < |hist[k].dirs|) && Distinct(up, hist[0].dirs[j])
    requires forall k | 0 <= k < n && calls[k].OnDir? && calls[k].j == j ::
      TakesNothing(calls[k].call, hist[k].dirs[j], hist[k + 1].dirs[j])
    ensures Distinct(up, hist[n].dirs[j])
  {
    hide Distinct, TakesNothing, DirDid, FatRuns.Turn, DirCallOk;
    if n > 0 {
      RunKeepsDistinct(up, files, dirs, calls, hist, n - 1, j);
      var c := calls[n - 1];
      assert Turn(up, files, dirs, c, hist[n - 1], hist[n]);
      if c.OnDir? && c.j == j {
        DirStaysDistinct(up, c.call, IsArea(dirs[j]), hist[n - 1].dirs[j], hist[n].dirs[j], hist[n].full);
      }
    }
  }
}
