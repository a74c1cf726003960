/**
 Any number of open files of a volume, and any run of reads, writes, seeks and truncations on them: each file holds
 what its own calls have put there, whatever is done to the others.
 */
module FatRuns {
  import opened FatLayout
  import opened FatWindow
  import opened FatAlloc
  import opened FatContent
  import opened FatFileState
  import opened FatFile
  import Chains = FatChains

  datatype Op = Read(n: nat) | Write(data: seq<byte>) | Seek(ofs: nat) | Cut

  /** The argument has the 32 bits of the interface. */
  predicate OpOk(op: Op) {
    match op
    case Read(n) => n < 0x1_0000_0000
    case Write(data) => |data| < 0x1_0000_0000
    case Seek(ofs) => ofs < 0x1_0000_0000
    case Cut => true
  }

  /** An open file for its user: the contents and the position. */
  datatype FileView = FileView(data: seq<byte>, pos: nat)

  predicate ViewOk(w: FileView) { w.pos <= |w.data| < 0x1_0000_0000 }

  /** What a call may do to its file; full tells that the volume has no room left. */
  ghost predicate Did(op: Op, canRead: bool, canWrite: bool, was: FileView, now: FileView, full: bool)
    requires OpOk(op) && ViewOk(was)
  {
    match op
    case Read(n) => now == was.(pos := was.pos + if canRead then ReadCount(was, n) else 0)
    case Write(data) => if canWrite then (exists k | 0 <= k <= |data| :: Wrote(data, k, was, now, full)) else now == was
    case Seek(ofs) =>
      var target := if ofs > |was.data| && !canWrite then |was.data| else ofs;
      && |now.data| == Max(|was.data|, now.pos) && now.data[..|was.data|] == was.data
      && (now.pos == target || (canWrite && ofs > |was.data| && now.pos < target && full))
    case Cut => now == if canWrite then FileView(was.data[..was.pos], was.pos) else was
  }

  function ReadCount(was: FileView, n: nat): nat
    requires ViewOk(was)
  {
    if n > |was.data| - was.pos then |was.data| - was.pos else n
  }

  /** The first k bytes are written, all of them unless the position would pass 32 bits or the volume is full. */
  ghost predicate Wrote(data: seq<byte>, k: nat, was: FileView, now: FileView, full: bool)
    requires OpOk(Write(data)) && ViewOk(was) && k <= |data|
  {
    now == FileView(Overwrite(was.data, was.pos, data[..k]), was.pos + k) && (k == WriteLimit(was.pos, |data|) || full)
  }

  ghost function ViewOf(f: FIL): (w: FileView)
    requires f.Valid()
    reads f, f.buf, f.fs, f.fs.win
    ensures ViewOk(w)
  {
    f.StateBounds();
    FileView(f.Data(), f.fptr)
  }

  /** A file of the volume whose clusters nothing else links to, with a sector of its own in the buffer. */
  ghost predicate Sound(fs: FATFS, f: FIL)
    reads f, f.buf, fs, fs.win
  {
    && f.fs == fs && f.Valid() && f.err == FR_OK && OwnSector(fs.g, f.chain, f.sect)
    && (f.chain != [] ==> NoLinkTo(fs.Fat(), f.chain[0]))
  }

  /** Open files of a volume, apart from each other. */
  ghost predicate Together(fs: FATFS, files: seq<FIL>)
    reads fs, fs.win, files, set f | f in files :: f.buf
  {
    && fs.Valid() && Chains.Forest(fs.Fat())
    && (forall i | 0 <= i < |files| :: Sound(fs, files[i]))
    && (forall i, j | 0 <= i < |files| && 0 <= j < |files| && i != j :: Apart(files[i], files[j]))
  }

  // ---------- the table ----------

  /** Growing a file makes no link to the first cluster of any file. */
  lemma GrowKeepsFirst(g: Geometry, v0: seq<Sector>, ch0: seq<nat>, v: seq<Sector>, ch: seq<nat>, c: nat)
    requires g.Good(|v0|) && Evolves(g, v0, ch0, v, ch) && (ch == [] || Chains.IsChain(Entries(v, g), ch))
    requires g.IsCluster(c) && NoLinkTo(Entries(v0, g), c) && (c !in ch || c == ch[0])
    ensures NoLinkTo(Entries(v, g), c)
  {
    hide Entries, Owns;
    var fat := Entries(v, g);
    forall q: nat | Chains.IsCluster(fat, q)
      ensures fat[q] != c
    {
      if q in ch {
        var i :| 0 <= i < |ch| && ch[i] == q;
        Chains.ChainEntry(fat, ch, i);
        if i < |ch| - 1 {
          Chains.ChainNoRepeat(fat, ch, 0, i + 1);
          assert ch[i + 1] in ch;
        }
      }
    }
  }

  /** Nor to the first cluster that a file gets. */
  lemma NewFirst(g: Geometry, v0: seq<Sector>, v: seq<Sector>, ch: seq<nat>)
    requires g.Good(|v0|) && Evolves(g, v0, [], v, ch) && Chains.IsChain(Entries(v, g), ch)
    requires Chains.Forest(Entries(v0, g))
    ensures NoLinkTo(Entries(v, g), ch[0])
  {
    hide Entries, Owns, Chains.Forest;
    var fat := Entries(v0, g);
    assert fat[ch[0]] == 0;
    forall q: nat | Chains.IsCluster(fat, q)
      ensures fat[q] != ch[0]
    {
      Chains.NotLinked(fat, q, ch[0]);
    }
    GrowKeepsFirst(g, v0, [], v, ch, ch[0]);
  }

  /** Cutting a file makes no links at all. */
  lemma CutKeepsFirst(fat: seq<nat>, ch: seq<nat>, k: nat, mark: nat, c: nat)
    requires InBounds(fat, ch) && k <= |ch| && mark >= |fat| && Chains.IsCluster(fat, c) && NoLinkTo(fat, c)
    ensures NoLinkTo(CutTo(fat, ch, k, mark), c)
  {
    var fat' := CutTo(fat, ch, k, mark);
    forall q: nat | Chains.IsCluster(fat', q)
      ensures fat'[q] != c
    {
    }
  }

  // ---------- one call ----------

  /** The call on f has changed nothing but what it may: the file has at most grown. */
  twostate predicate Grew(fs: FATFS, f: FIL)
    requires old(fs.Valid()) && fs.Valid()
    reads fs, fs.win, f
  {
    && Evolves(fs.g, old(fs.View()), old(f.chain), fs.View(), f.chain)
    && (fs.winsect == old(fs.winsect) || fs.g.InFat1(fs.winsect))
  }

  lemma ValidOnChain(fs: FATFS, f: FIL)
    requires f.fs == fs && f.Valid()
    ensures fs.Valid() && Clusters(fs.g, f.chain) && (f.chain == [] || Chains.IsChain(fs.Fat(), f.chain))
  {
  }

  /** What growing one file leaves of another, whose state is st. */
  lemma GrowBeside(g: Geometry, v0: seq<Sector>, win0: nat, ch0: seq<nat>, v: seq<Sector>, win: nat, ch: seq<nat>,
                   st: FileState)
    requires g.Good(|v0|) && Evolves(g, v0, ch0, v, ch) && Clusters(g, ch)
    requires (ch == [] || Chains.IsChain(Entries(v, g), ch))
    requires (win == win0 || g.InFat1(win) || Owns(g, ch, win)) && Ok(g, v0, win0, st)
    requires OwnSector(g, st.chain, st.sect)
    requires (forall c | c in st.chain :: c !in ch0) && (st.chain != [] ==> NoLinkTo(Entries(v0, g), st.chain[0]))
    ensures Ok(g, v, win, st) && Content(g, v, st) == Content(g, v0, st) && forall c | c in st.chain :: c !in ch
    ensures st.chain != [] ==> NoLinkTo(Entries(v, g), st.chain[0])
  {
    hide Owns, Evolves, Content, Entries, BufferOk, NoLinkTo, Row, Col;
    OtherObject(g, v0, win0, ch0, v, win, ch, st);
    ObjectApart(g, v0, win0, ch0, v, ch, st);
    if st.chain != [] {
      assert st.chain[0] in st.chain;
      GrowKeepsFirst(g, v0, ch0, v, ch, st.chain[0]);
    }
  }

  /** What growing a file leaves of itself. */
  lemma GrowSelf(g: Geometry, v0: seq<Sector>, ch0: seq<nat>, v: seq<Sector>, ch: seq<nat>)
    requires g.Good(|v0|) && Evolves(g, v0, ch0, v, ch) && Clusters(g, ch)
    requires (ch == [] || Chains.IsChain(Entries(v, g), ch))
    requires Chains.Forest(Entries(v0, g)) && (ch0 != [] ==> NoLinkTo(Entries(v0, g), ch0[0]))
    ensures |v| == |v0| && Chains.Forest(Entries(v, g)) && (ch != [] ==> NoLinkTo(Entries(v, g), ch[0]))
  {
    hide Entries, NoLinkTo, Chains.Forest, Owns;
    if ch != [] {
      if ch0 == [] {
        NewFirst(g, v0, v, ch);
      } else {
        assert ch0[0] == ch[0];
        GrowKeepsFirst(g, v0, ch0, v, ch, ch[0]);
      }
    }
  }

  /** What cutting one file leaves of another, whose state is st. */
  lemma CutBeside(g: Geometry, v0: seq<Sector>, win0: nat, ch0: seq<nat>, v: seq<Sector>, win: nat, ch: seq<nat>,
                  k: nat, st: FileState)
    requires g.Good(|v0|) && Confined(g, v0, v, ch0) && CutIs(g, Entries(v0, g), ch0, k, Entries(v, g)) && ch <= ch0
    requires Clusters(g, ch0) && (win == win0 || g.InFat1(win)) && Ok(g, v0, win0, st)
    requires OwnSector(g, st.chain, st.sect)
    requires (forall c | c in st.chain :: c !in ch0) && (st.chain != [] ==> NoLinkTo(Entries(v0, g), st.chain[0]))
    ensures Ok(g, v, win, st) && Content(g, v, st) == Content(g, v0, st) && forall c | c in st.chain :: c !in ch
    ensures st.chain != [] ==> NoLinkTo(Entries(v, g), st.chain[0])
  {
    hide Content, Entries, BufferOk, NoLinkTo, Row, Col, CutIs;
    assert forall i | 0 <= i < |st.chain| :: st.chain[i] in st.chain;
    OutsideObject(g, |v0|, ch0, win, st.chain);
    ConfinedObject(g, v0, win0, v, win, ch0, st);
    forall c | c in st.chain
      ensures c !in ch
    {
      assert forall i | 0 <= i < |ch| :: ch[i] == ch0[i] && ch0[i] in ch0;
    }
    assert |v| == |v0|;
    if st.chain != [] {
      CutIsSound(g, v0, Entries(v0, g), ch0, k, Entries(v, g), st.chain[0]);
    }
  }

  /** The table is as before, or the file has been cut to k clusters. */
  ghost predicate CutIs(g: Geometry, fat: seq<nat>, ch: seq<nat>, k: nat, fat': seq<nat>) {
    fat' == fat || (InBounds(fat, ch) && k <= |ch| && fat' == CutTo(fat, ch, k, g.EndMark()))
  }

  lemma CutIsSound(g: Geometry, v: seq<Sector>, fat: seq<nat>, ch: seq<nat>, k: nat, fat': seq<nat>, c: nat)
    requires g.Good(|v|) && |fat| == g.nFatent && CutIs(g, fat, ch, k, fat') && g.IsCluster(c) && NoLinkTo(fat, c)
    ensures NoLinkTo(fat', c)
  {
    hide CutTo, NoLinkTo;
    EndMarkEnds(g, |v|);
    if fat' != fat {
      CutKeepsFirst(fat, ch, k, g.EndMark(), c);
    }
  }

  /** What has happened to clusters only has not touched FSInfo. */
  lemma OwnedKeepsInfo(g: Geometry, v0: seq<Sector>, a0: nat, b0: nat, f0: nat, v: seq<Sector>, ch: seq<nat>,
                       a: nat, b: nat, f: nat)
    requires g.Good(|v0|) && Clusters(g, ch) && Confined(g, v0, v, ch) && NotedFrom(a0, b0, f0, a, b, f)
    ensures InfoLaw(g, v0, a0, b0, f0) ==> InfoLaw(g, v, a, b, f)
  {
    hide InfoLaw, NotedFrom, Owns, Clusters;
    OwnedBehind(g, v0, v, ch);
    FrontKeepsInfo(g, v0, a0, b0, f0, v, a, b, f);
  }

  lemma GrowKeepsInfo(g: Geometry, v0: seq<Sector>, ch0: seq<nat>, a0: nat, b0: nat, f0: nat, v: seq<Sector>,
                      ch: seq<nat>, a: nat, b: nat, f: nat)
    requires g.Good(|v0|) && Clusters(g, ch) && Evolves(g, v0, ch0, v, ch) && NotedFrom(a0, b0, f0, a, b, f)
    ensures InfoLaw(g, v0, a0, b0, f0) ==> InfoLaw(g, v, a, b, f)
  {
    hide InfoLaw, NotedFrom, Owns, Clusters;
    OwnedKeepsInfo(g, v0, a0, b0, f0, v, ch, a, b, f);
  }

  lemma NothingNoted(a: nat, b: nat, f: nat)
    ensures NotedFrom(a, b, f, a, b, f)
  {
  }

  method DoRead(fs: FATFS, f: FIL, n: nat) returns (out: seq<byte>)
    requires fs.Valid() && Sound(fs, f) && Chains.Forest(fs.Fat())
    modifies f`dirty, f`fptr, f`clust, f`sect, f.buf, fs`medium, fs`wflag, fs`winsect, fs.win
    ensures RecordsKept(fs)
    ensures f.Valid() && OwnSector(fs.g, f.chain, f.sect) && f.err == FR_OK
    ensures Grew(fs, f)
    ensures n < 0x1_0000_0000 ==> Did(Read(n), f.canRead, f.canWrite, old(ViewOf(f)), ViewOf(f), Full(fs))
    ensures old(f.fptr) <= ViewOf(f).pos && out == ViewOf(f).data[old(f.fptr)..ViewOf(f).pos]
  {
    hide Evolves, Content, Entries, Ok, Positioned, Chains.Forest, NoLinkTo, Full;
    hide InfoLaw, NotedFrom, Mirrored;
    ghost var v0, ch0 := fs.View(), f.chain;
    ghost var a0, b0, f0 := fs.freeClst, fs.lastClst, fs.fsiFlag;
    var rbuff := new byte[n](_ => 0);
    var res, br := f.Read(rbuff, n);
    f.StateBounds();
    NothingNoted(a0, b0, f0);
    GrowKeepsInfo(fs.g, v0, ch0, a0, b0, f0, fs.View(), f.chain, a0, b0, f0);
    out := rbuff[..br];
  }

  method DoWrite(fs: FATFS, f: FIL, data: seq<byte>)
    requires fs.Valid() && Sound(fs, f) && Chains.Forest(fs.Fat()) && |data| < 0x1_0000_0000
    modifies f, f.buf, fs, fs.win
    ensures fs.Noted() && RecordsKept(fs)
    ensures f.Valid() && OwnSector(fs.g, f.chain, f.sect) && f.err == FR_OK
    ensures Grew(fs, f)
    ensures Did(Write(data), f.canRead, f.canWrite, old(ViewOf(f)), ViewOf(f), Full(fs))
  {
    hide Evolves, Content, Entries, Ok, Positioned, Chains.Forest, NoLinkTo, Full, Overwrite, WriteLimit;
    hide InfoLaw, NotedFrom, Mirrored;
    ghost var was, v0, ch0 := ViewOf(f), fs.View(), f.chain;
    ghost var a0, b0, f0 := fs.freeClst, fs.lastClst, fs.fsiFlag;
    var wbuff := new byte[|data|](i requires 0 <= i < |data| => data[i]);
    assert wbuff[..] == data;
    var res, bw := f.Write(wbuff, |data|);
    assert wbuff[..bw] == data[..bw];
    ValidOnChain(fs, f);
    GrowKeepsInfo(fs.g, v0, ch0, a0, b0, f0, fs.View(), f.chain, fs.freeClst, fs.lastClst, fs.fsiFlag);
    if f.canWrite {
      assert Wrote(data, bw, was, ViewOf(f), Full(fs));
    } else {
      OverwriteNothing(was.data, was.pos, data[..bw]);
    }
  }

  method DoSeek(fs: FATFS, f: FIL, ofs: nat)
    requires fs.Valid() && Sound(fs, f) && Chains.Forest(fs.Fat()) && ofs < 0x1_0000_0000
    modifies f, f.buf, fs, fs.win
    ensures fs.Noted() && RecordsKept(fs)
    ensures f.Valid() && OwnSector(fs.g, f.chain, f.sect) && f.err == FR_OK
    ensures Grew(fs, f)
    ensures Did(Seek(ofs), f.canRead, f.canWrite, old(ViewOf(f)), ViewOf(f), Full(fs))
  {
    hide Evolves, Content, Entries, Ok, Positioned, Chains.Forest, NoLinkTo, Full, AtCapacity;
    hide InfoLaw, NotedFrom, Mirrored;
    ghost var v0, ch0 := fs.View(), f.chain;
    ghost var a0, b0, f0 := fs.freeClst, fs.lastClst, fs.fsiFlag;
    f.StateBounds();
    var res := f.Lseek(ofs);
    f.StateBounds();
    ValidOnChain(fs, f);
    GrowKeepsInfo(fs.g, v0, ch0, a0, b0, f0, fs.View(), f.chain, fs.freeClst, fs.lastClst, fs.fsiFlag);
    if AtCapacity(fs.g, f.chain, f.fptr) {
      PastCapacity(fs.g, fs.View(), fs.winsect, f.State());
    }
  }

  /** The end of the clusters is not before the end of the file. */
  lemma PastCapacity(g: Geometry, v: seq<Sector>, win: nat, st: FileState)
    requires g.Good(|v|) && Ok(g, v, win, st) && AtCapacity(g, st.chain, st.fptr)
    ensures st.fptr >= st.objsize
  {
    hide Col;
    if st.objsize > 0 {
      RowBelow(g.csize, |st.chain|, (st.objsize - 1) / 512);
      RowBelow(g.csize, |st.chain|, st.fptr / 512);
    }
  }

  method DoGrow(fs: FATFS, f: FIL, op: Op) returns (out: seq<byte>)
    requires fs.Valid() && Sound(fs, f) && Chains.Forest(fs.Fat()) && OpOk(op) && !op.Cut?
    modifies f, f.buf, fs, fs.win
    ensures fs.Noted() && RecordsKept(fs)
    ensures f.Valid() && OwnSector(fs.g, f.chain, f.sect) && f.err == FR_OK
    ensures Grew(fs, f)
    ensures Did(op, f.canRead, f.canWrite, old(ViewOf(f)), ViewOf(f), Full(fs))
    ensures op.Read? ==> old(f.fptr) <= ViewOf(f).pos && out == ViewOf(f).data[old(f.fptr)..ViewOf(f).pos]
  {
    hide Evolves, Content, Entries, Ok, Positioned, Chains.Forest, NoLinkTo, Full, Did, Sound, OwnSector;
    out := [];
    if op.Read? {
      out := DoRead(fs, f, op.n);
    } else if op.Write? {
      DoWrite(fs, f, op.data);
    } else {
      DoSeek(fs, f, op.ofs);
    }
  }

  method DoCut(fs: FATFS, f: FIL) returns (ghost k: nat)
    requires fs.Valid() && Sound(fs, f) && Chains.Forest(fs.Fat())
    modifies f, f.buf, fs, fs.win
    ensures f.Valid() && f.err == FR_OK && Chains.Forest(fs.Fat()) && (f.chain != [] ==> NoLinkTo(fs.Fat(), f.chain[0]))
    ensures Confined(fs.g, old(fs.View()), fs.View(), old(f.chain))
    ensures CutIs(fs.g, old(fs.Fat()), old(f.chain), k, fs.Fat())
    ensures f.chain <= old(f.chain) && (fs.winsect == old(fs.winsect) || fs.g.InFat1(fs.winsect))
    ensures Did(Cut, f.canRead, f.canWrite, old(ViewOf(f)), ViewOf(f), Full(fs))
    ensures BufferFreed(fs, f) <==> !OwnSector(fs.g, f.chain, f.sect)
    ensures fs.Noted() && RecordsKept(fs)
  {
    hide Content, Entries, BufferOk, Positioned, Chains.Forest, NoLinkTo, Full, CutTo, Confined, Row, Col, InBounds;
    hide InfoLaw, NotedFrom, Mirrored;
    ghost var g, v, fat, ch := fs.g, fs.View(), fs.Fat(), f.chain;
    ghost var a0, b0, f0 := fs.freeClst, fs.lastClst, fs.fsiFlag;
    f.StateBounds();
    FirstOfChain(g, v, f.State());
    var res := f.Truncate();
    OwnedKeepsInfo(g, v, a0, b0, f0, fs.View(), ch, fs.freeClst, fs.lastClst, fs.fsiFlag);
    k := |f.chain|;
    if f.chain != [] {
      assert f.chain[0] == ch[0];
      CutIsSound(g, v, fat, ch, k, fs.Fat(), ch[0]);
    }
    FreedExactly(g, |v|, fat, ch, k, fs.Fat(), f.chain, f.sect);
  }

  /** After a cut to k clusters the buffer's sector is foreign exactly when its cluster has been freed. */
  lemma FreedExactly(g: Geometry, size: nat, fat: seq<nat>, ch: seq<nat>, k: nat, fat': seq<nat>,
                     kept: seq<nat>, s: nat)
    requires g.Good(size) && |fat| == |fat'| == g.nFatent && Clusters(g, ch) && kept <= ch && |kept| == k
    requires kept == ch || (InBounds(fat, ch) && fat' == CutTo(fat, ch, k, g.EndMark()))
    requires OwnSector(g, ch, s) && (kept == [] || Chains.IsChain(fat', kept))
    ensures (s != 0 && exists c | 2 <= c < g.nFatent :: InCluster(g, c, s) && fat'[c] == 0) <==> !OwnSector(g, kept, s)
  {
    hide InCluster, Chains.IsChain, CutTo;
    if s != 0 {
      var i :| 0 <= i < |ch| && InCluster(g, ch[i], s);
      if i < k {
        assert kept[i] == ch[i];
        Chains.ChainEntry(fat', kept, i);
        forall c | 2 <= c < g.nFatent && InCluster(g, c, s)
          ensures fat'[c] != 0
        {
          SameCluster(g, ch[i], c, s);
        }
      } else {
        CutFrees(fat, ch, k, g.EndMark(), i);
        forall j | 0 <= j < |kept|
          ensures !InCluster(g, kept[j], s)
        {
          if InCluster(g, kept[j], s) {
            SameCluster(g, ch[i], kept[j], s);
          }
        }
      }
    }
  }

  lemma SameCluster(g: Geometry, c: nat, d: nat, s: nat)
    requires 2 <= c && 2 <= d && InCluster(g, c, s) && InCluster(g, d, s)
    ensures c == d
  {
    if c < d {
      ClustersDisjoint(g, c, d);
    } else if d < c {
      ClustersDisjoint(g, d, c);
    }
  }

  lemma CutFrees(fat: seq<nat>, ch: seq<nat>, k: nat, mark: nat, i: nat)
    requires InBounds(fat, ch) && k <= i < |ch|
    ensures CutTo(fat, ch, k, mark)[ch[i]] == 0
  {
  }

  lemma FirstOfChain(g: Geometry, v: seq<Sector>, st: FileState)
    requires g.Good(|v|) && ChainOk(g, v, st)
    ensures st.chain != [] ==> st.chain[0] == st.sclust && g.IsCluster(st.sclust)
    ensures st.chain == [] ==> st.objsize == 0
  {
  }

  /** For its user the file is as before. */
  twostate predicate Same(f: FIL)
    reads f, f.buf, f.fs, f.fs.win
  {
    old(f.Valid()) && f.Valid() && ViewOf(f) == old(ViewOf(f))
  }

  /** The call has done to the file what it should. */
  twostate predicate Called(f: FIL, op: Op, full: bool)
    reads f, f.buf, f.fs, f.fs.win
  {
    && old(f.Valid()) && f.Valid() && OpOk(op)
    && Did(op, f.canRead, f.canWrite, old(ViewOf(f)), ViewOf(f), full)
  }

  /** A read, write or seek on one of the files; the others stay as they are. */
  method StepGrow(fs: FATFS, files: seq<FIL>, i: nat, op: Op) returns (out: seq<byte>)
    requires Together(fs, files) && i < |files| && OpOk(op) && !op.Cut?
    modifies fs, fs.win, files[i], files[i].buf
    ensures fs.Noted() && RecordsKept(fs)
    ensures Together(fs, files) && Called(files[i], op, Full(fs)) && Grew(fs, files[i])
    ensures forall j | 0 <= j < |files| && j != i :: Same(files[j])
    ensures op.Read? ==> old(files[i].fptr) <= ViewOf(files[i]).pos
                         && out == ViewOf(files[i]).data[old(files[i].fptr)..ViewOf(files[i]).pos]
  {
    hide Evolves, Content, Entries, Ok, Positioned, Chains.Forest, NoLinkTo, Full, Did;
    var f := files[i];
    ghost var g, v0, win0, ch0 := fs.g, fs.View(), fs.winsect, f.chain;
    out := DoGrow(fs, f, op);
    ghost var v, win := fs.View(), fs.winsect;
    ValidOnChain(fs, f);
    GrowSelf(g, v0, ch0, v, f.chain);
    forall j | 0 <= j < |files| && j != i
      ensures Sound(fs, files[j]) && files[j].Data() == old(files[j].Data())
      ensures forall c | c in files[j].chain :: c !in f.chain
    {
      assert old(Sound(fs, files[j])) && old(Apart(f, files[j]));
      assert files[j].State() == old(files[j].State());
      GrowBeside(g, v0, win0, ch0, v, win, f.chain, files[j].State());
    }
  }

  /** A truncation of one of the files; the others stay as they are. */
  method StepCut(fs: FATFS, files: seq<FIL>, i: nat)
    requires Together(fs, files) && i < |files|
    modifies fs, fs.win, files[i], files[i].buf
    ensures fs.Noted() && RecordsKept(fs)
    ensures fs.Valid() && Called(files[i], Cut, Full(fs))
    ensures forall j | 0 <= j < |files| && j != i :: Sound(fs, files[j]) && Same(files[j])
    ensures OwnSector(fs.g, files[i].chain, files[i].sect) ==> Together(fs, files)
    ensures BufferFreed(fs, files[i]) <==> !OwnSector(fs.g, files[i].chain, files[i].sect)
    ensures Confined(fs.g, old(fs.View()), fs.View(), old(files[i].chain)) && files[i].chain <= old(files[i].chain)
  {
    hide BufferFreed, Confined, CutIs, Content, Entries, Ok, Positioned, Chains.Forest, NoLinkTo, Full, Did;
    var f := files[i];
    ghost var g, v0, win0, ch0 := fs.g, fs.View(), fs.winsect, f.chain;
    f.StateBounds();
    ghost var k := DoCut(fs, f);
    ghost var v, win := fs.View(), fs.winsect;
    forall j | 0 <= j < |files| && j != i
      ensures Sound(fs, files[j]) && files[j].Data() == old(files[j].Data())
      ensures forall c | c in files[j].chain :: c !in f.chain
    {
      assert old(Sound(fs, files[j])) && old(Apart(f, files[j]));
      assert files[j].State() == old(files[j].State());
      CutBeside(g, v0, win0, ch0, v, win, f.chain, k, files[j].State());
    }
  }

  /** What the users of the files see, and whether the volume is full. */
  datatype Snapshot = Snapshot(files: seq<FileView>, full: bool)

  ghost predicate Shows(fs: FATFS, files: seq<FIL>, s: Snapshot)
    reads fs, fs.win, files, set f | f in files :: f.buf
  {
    && |s.files| == |files| && fs.Valid() && s.full == Full(fs)
    && forall i | 0 <= i < |files| :: files[i].fs == fs && files[i].Valid() && s.files[i] == ViewOf(files[i])
  }

  /** A call on the i-th file leads from one snapshot to the next. */
  ghost predicate Turn(files: seq<FIL>, i: nat, op: Op, s: Snapshot, t: Snapshot) {
    && i < |files| == |s.files| && OpOk(op) && ViewOk(s.files[i]) && |t.files| == |files|
    && Did(op, files[i].canRead, files[i].canWrite, s.files[i], t.files[i], t.full)
    && t.files == s.files[i := t.files[i]]
  }

  /** The sector in the buffer of the file lies in a cluster that is free. */
  predicate BufferFreed(fs: FATFS, f: FIL)
    requires fs.Valid()
    reads fs, fs.win, f
  {
    f.sect != 0 && exists c | 2 <= c < fs.g.nFatent :: InCluster(fs.g, c, f.sect) && fs.Fat()[c] == 0
  }

  /** A call on the i-th file; lost tells that it was a truncation that has left a foreign sector in the buffer. */
  method Step(fs: FATFS, files: seq<FIL>, i: nat, op: Op, ghost s: Snapshot) returns (lost: bool, ghost t: Snapshot)
    requires Together(fs, files) && i < |files| && OpOk(op) && Shows(fs, files, s)
    modifies fs, fs.win, files[i], files[i].buf
    ensures fs.Noted() && RecordsKept(fs)
    ensures Shows(fs, files, t) && Turn(files, i, op, s, t)
    ensures if lost then Lost(fs, files, (i, op)) else Together(fs, files)
  {
    hide Did, Full, Together, Sound, ViewOf, Lost, BufferFreed, Evolves, Confined, Entries, FATFS.View;
    Members(fs, files);
    lost := false;
    if op.Cut? {
      StepCut(fs, files, i);
      lost := BufferFreed(fs, files[i]);
      LostOrNot(fs, files, i, op, lost);
    } else {
      var _ := StepGrow(fs, files, i, op);
      Members(fs, files);
    }
    t := Snapshot(s.files[i := ViewOf(files[i])], Full(fs));
  }

  lemma LostOrNot(fs: FATFS, files: seq<FIL>, i: nat, op: Op, lost: bool)
    requires op.Cut? && i < |files| && (OwnSector(fs.g, files[i].chain, files[i].sect) ==> Together(fs, files))
    requires lost <==> !OwnSector(fs.g, files[i].chain, files[i].sect)
    ensures if lost then Lost(fs, files, (i, op)) else Together(fs, files)
  {
  }

  lemma Members(fs: FATFS, files: seq<FIL>)
    requires Together(fs, files)
    ensures fs.Valid() && forall i | 0 <= i < |files| :: files[i].fs == fs && files[i].Valid()
  {
  }

  /**
   Any run of calls on any number of open files, up to the first truncation that leaves a sector in the buffer that
   is not its file's any more: every call does to its file what it should and leaves the others alone.  n is the
   number of calls made.
   */
  method Run(fs: FATFS, files: seq<FIL>, calls: seq<(nat, Op)>, ghost start: Snapshot)
    returns (n: nat, ghost hist: seq<Snapshot>)
    requires Together(fs, files) && Shows(fs, files, start)
    requires forall k | 0 <= k < |calls| :: calls[k].0 < |files| && OpOk(calls[k].1)
    modifies fs, fs.win, set f | f in files, set f | f in files :: f.buf
    ensures fs.Noted() && RecordsKept(fs)
    ensures n <= |calls| && |hist| == n + 1 && hist[0] == start && Shows(fs, files, hist[n])
    ensures forall k | 0 <= k < n :: Turn(files, calls[k].0, calls[k].1, hist[k], hist[k + 1])
    ensures (n == |calls| && Together(fs, files)) || (n > 0 && Lost(fs, files, calls[n - 1]))
  {
    hide Together, Turn, Full, Shows, Lost, FreeCountOk, Mirrored, InfoLaw;
    Members(fs, files);
    hist := [start];
    n := 0;
    var lost := false;
    while n < |calls| && !lost
      invariant fs.Noted() && RecordsKept(fs)
      invariant 0 <= n <= |calls| && |hist| == n + 1 && hist[0] == start
      invariant Shows(fs, files, hist[n])
      invariant forall k | 0 <= k < n :: Turn(files, calls[k].0, calls[k].1, hist[k], hist[k + 1])
      invariant if lost then n > 0 && Lost(fs, files, calls[n - 1]) else Together(fs, files)
    {
      ghost var t;
      lost, t := Step(fs, files, calls[n].0, calls[n].1, hist[n]);
      assert (calls[n].0, calls[n].1) == calls[n];
      hist, n := hist + [t], n + 1;
    }
  }

  /** The call is a truncation that has left a foreign sector in the buffer. */
  ghost predicate Lost(fs: FATFS, files: seq<FIL>, call: (nat, Op))
    reads fs, files
  {
    call.1.Cut? && call.0 < |files| && !OwnSector(fs.g, files[call.0].chain, files[call.0].sect)
  }
}
