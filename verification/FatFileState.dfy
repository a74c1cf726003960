/**
 An open file as a value: the fields of FIL with the buffer's bytes and the clusters of the file, what it
 means for them to be consistent with the volume, and the lemmas each step of the file operations rests on.
 */
module FatFileState {
  import opened FatLayout
  import opened FatWindow
  import opened FatAlloc
  import opened FatContent
  import Chains = FatChains

  datatype FileState = FileState(
    sclust: nat,      // first cluster, 0 if none
    objsize: nat,     // file size
    fptr: nat,        // read/write position
    clust: nat,       // cluster of the byte before fptr
    sect: nat,        // sector in the buffer, 0 if none
    dirty: bool,      // the buffer is newer than the medium
    buf: Sector,      // sector buffer
    chain: seq<nat>   // the clusters of the file
  )

  /** The file's fields fit its chain, and the chain is in the table. */
  ghost predicate ChainOk(g: Geometry, v: seq<Sector>, st: FileState)
    requires g.Good(|v|)
  {
    && Clusters(g, st.chain)
    && Covers(g, st.chain, st.objsize)
    && st.fptr <= st.objsize < 0x1_0000_0000
    && (if st.sclust == 0 then st.chain == [] else Chains.Reaches(Entries(v, g), st.sclust, st.chain))
  }

  /** The sector buffer is coherent with the volume, and the window (at sector win) keeps off the file. */
  ghost predicate BufferOk(g: Geometry, v: seq<Sector>, win: nat, st: FileState)
    requires g.Good(|v|)
  {
    && (st.dirty ==> Owns(g, st.chain, st.sect))
    && (st.sect != 0 ==> g.database <= st.sect < |v| && st.sect != win)
    && (!st.dirty && st.sect != 0 ==> st.buf == v[st.sect])
    && !Owns(g, st.chain, win)
  }

  ghost predicate Ok(g: Geometry, v: seq<Sector>, win: nat, st: FileState)
    requires g.Good(|v|)
  {
    ChainOk(g, v, st) && BufferOk(g, v, win, st)
  }

  /** clust and sect are where the position needs them. */
  ghost predicate Positioned(g: Geometry, st: FileState)
    requires g.csize > 0
  {
    && (st.fptr > 0 ==>
          Row(g.csize, (st.fptr - 1) / 512) < |st.chain| && st.clust == st.chain[Row(g.csize, (st.fptr - 1) / 512)])
    && (st.fptr % 512 != 0 ==>
          Row(g.csize, st.fptr / 512) < |st.chain| && st.sect == Lba(g, st.chain, st.fptr / 512))
  }

  /** The sectors overlaid by the dirty sector buffer. */
  ghost function Overlay(v: seq<Sector>, st: FileState): (w: seq<Sector>)
    ensures |w| == |v|
  {
    if st.dirty && st.sect < |v| then v[st.sect := st.buf] else v
  }

  /** What the file contains. */
  ghost function Content(g: Geometry, v: seq<Sector>, st: FileState): (c: seq<byte>)
    requires g.Good(|v|) && ChainOk(g, v, st)
    ensures |c| == st.objsize
  {
    ContentOf(Overlay(v, st), g, st.chain, st.objsize)
  }

  // ---------- lemmas about data sectors ----------

  /** Data sectors lie behind the allocation table. */
  lemma DataSector(g: Geometry, v: seq<Sector>, s: nat, x: Sector)
    requires g.Good(|v|) && g.database <= s < |v|
    ensures !g.InFat1(s) && !g.InFat2(s)
    ensures Entries(v[s := x], g) == Entries(v, g)
    ensures Mirrored(g, v) ==> Mirrored(g, v[s := x])
  {
    var w := v[s := x];
    assert FatArea(w, g) == FatArea(v, g);
  }

  lemma OwnsData(g: Geometry, size: nat, ch: seq<nat>, s: int)
    requires g.Good(size) && Clusters(g, ch) && Owns(g, ch, s)
    ensures g.database <= s < size
  {
    var i :| 0 <= i < |ch| && InCluster(g, ch[i], s);
    ClustersDisjoint(g, ch[i], g.nFatent);
  }

  lemma NotOwned(g: Geometry, size: nat, ch: seq<nat>, s: int)
    requires g.Good(size) && Clusters(g, ch) && s < g.database
    ensures !Owns(g, ch, s)
  {
    if Owns(g, ch, s) {
      OwnsData(g, size, ch, s);
    }
  }

  /** What belongs to clusters lies behind the FATs. */
  lemma OwnedBehind(g: Geometry, v: seq<Sector>, w: seq<Sector>, ch: seq<nat>)
    requires g.Good(|v|) && Clusters(g, ch) && |v| == |w|
    requires forall s | 0 <= s < |v| && !g.InFat1(s) && !g.InFat2(s) && !Owns(g, ch, s) :: w[s] == v[s]
    ensures FrontStays(g, v, w)
  {
    hide Owns, Clusters;
    forall s | 0 <= s < |v| && s < g.fatbase
      ensures v[s] == w[s]
    {
      NotOwned(g, |v|, ch, s);
    }
  }

  lemma ChainClusters(g: Geometry, size: nat, fat: seq<nat>, ch: seq<nat>)
    requires g.Good(size) && |fat| == g.nFatent && Chains.IsChain(fat, ch)
    ensures Clusters(g, ch)
  {
    forall i | 0 <= i < |ch| ensures g.IsCluster(ch[i]) {
      Chains.ChainEntry(fat, ch, i);
    }
    forall i, j | 0 <= i < j < |ch| ensures ch[i] != ch[j] {
      Chains.ChainNoRepeat(fat, ch, i, j);
    }
  }

  /** Contents survive any change outside the data of the file. */
  lemma ContentKept(g: Geometry, v: seq<Sector>, w: seq<Sector>, ch: seq<nat>, size: nat)
    requires g.Good(|v|) && KeepsData(g, v, w) && Clusters(g, ch) && Covers(g, ch, size)
    ensures ContentOf(v, g, ch, size) == ContentOf(w, g, ch, size)
  {
    forall s | 0 <= s < |v| && Owns(g, ch, s) ensures v[s] == w[s] {
      OwnsData(g, |v|, ch, s);
    }
    ContentFrame(v, w, g, ch, size);
  }

  // ---------- stretching a chain ----------

  ghost function Grown(fat: seq<nat>, ch: seq<nat>, r: nat, fat': seq<nat>): seq<nat> {
    if fat' == fat then ch else ch + [r]
  }

  lemma StretchOutcome(g: Geometry, size: nat, fat: seq<nat>, ch: seq<nat>, i: int, c: nat,
                       free: nat, last: nat, r: nat, fat': seq<nat>)
    requires g.Good(size) && |fat| == |fat'| == g.nFatent
    requires ch == [] || Chains.IsChain(fat, ch)
    requires -1 <= i < |ch| && (if i < 0 then c == 0 && ch == [] else c == ch[i])
    requires Outcome(fat, c, free, last, g.EndMark(), r, fat')
    ensures var ch' := Grown(fat, ch, r, fat');
      && Stretched(fat, ch, fat', ch', g.EndMark())
      && (r == 0 ==> free == 0 || NoneFree(fat)) && (r == 1 ==> HasInvalid(fat))
      && (r < 2 ==> i + 1 == |ch|)
      && (if r < 2 then ch' == ch else i + 1 < |ch'| && r == ch'[i + 1] && Chains.IsChain(fat', ch'))
  {
    EndMarkEnds(g, size);
    if i >= 0 {
      Chains.ChainEntry(fat, ch, i);
    }
    if fat' != fat && ch != [] {
      Chains.LinkedChain(fat, ch, r, g.EndMark());
    }
  }

  /** Writing the dirty buffer back changes neither the contents nor the table. */
  lemma FlushOk(g: Geometry, v: seq<Sector>, win: nat, st: FileState)
    requires g.Good(|v|) && Ok(g, v, win, st) && st.dirty
    ensures g.database <= st.sect < |v| && st.sect != win
    ensures var w := v[st.sect := st.buf];
      && Entries(w, g) == Entries(v, g)
      && (Mirrored(g, v) ==> Mirrored(g, w))
      && Evolves(g, v, st.chain, w, st.chain)
      && Ok(g, w, win, st.(dirty := false))
      && Content(g, w, st.(dirty := false)) == Content(g, v, st)
  {
    OwnsData(g, |v|, st.chain, st.sect);
    DataSector(g, v, st.sect, st.buf);
    EvolvesData(g, v, v[st.sect := st.buf], st.chain);
  }

  lemma OwnsGrown(g: Geometry, ch: seq<nat>, c: nat, s: int)
    requires Owns(g, ch, s)
    ensures Owns(g, ch + [c], s)
  {
    var i :| 0 <= i < |ch| && InCluster(g, ch[i], s);
    assert (ch + [c])[i] == ch[i];
  }

  /** Stretching the chain keeps the file consistent and its contents as they are. */
  lemma StretchOk(g: Geometry, v: seq<Sector>, win: nat, st: FileState,
                  w: seq<Sector>, win': nat, ch': seq<nat>, sclust': nat)
    requires g.Good(|v|) && Ok(g, v, win, st) && KeepsData(g, v, w)
    requires ch' == st.chain || (|ch'| == |st.chain| + 1 && ch' == st.chain + [ch'[|st.chain|]])
    requires if ch' == [] then sclust' == 0 else sclust' == ch'[0] && Chains.IsChain(Entries(w, g), ch')
    requires g.InFat1(win') || (win' == win && ch' == st.chain)
    ensures var st' := st.(sclust := sclust', chain := ch');
      Ok(g, w, win', st') && Content(g, w, st') == Content(g, v, st)
  {
    var ch, fat' := st.chain, Entries(w, g);
    if ch' != ch {
      ChainClusters(g, |v|, fat', ch');
      ContentExtend(v, g, ch, ch'[|ch|], st.objsize);
      if st.dirty {
        OwnsGrown(g, ch, ch'[|ch|], st.sect);
      }
    }
    if g.InFat1(win') {
      NotOwned(g, |v|, ch', win');
    }
    StretchContent(g, v, w, ch, ch', st.objsize, st.dirty && st.sect < |v|, st.sect, st.buf);
  }

  lemma StretchContent(g: Geometry, v: seq<Sector>, w: seq<Sector>, ch: seq<nat>, ch': seq<nat>,
                       size: nat, dirty: bool, sect: nat, b: Sector)
    requires g.Good(|v|) && KeepsData(g, v, w) && Clusters(g, ch) && Clusters(g, ch') && Covers(g, ch, size)
    requires ch' == ch || (|ch'| == |ch| + 1 && ch' == ch + [ch'[|ch|]])
    requires dirty ==> sect < |v|
    ensures Covers(g, ch', size)
    ensures dirty ==> ContentOf(v[sect := b], g, ch, size) == ContentOf(w[sect := b], g, ch', size)
    ensures !dirty ==> ContentOf(v, g, ch, size) == ContentOf(w, g, ch', size)
  {
    var v' := if dirty then v[sect := b] else v;
    var w' := if dirty then w[sect := b] else w;
    assert KeepsData(g, v', w');
    ContentKept(g, v', w', ch, size);
    if ch' != ch {
      ContentExtend(w', g, ch, ch'[|ch|], size);
    }
  }

  /** The chain is as before or one cluster longer, which was free, and nothing else changed in the table. */
  ghost predicate Stretched(fat: seq<nat>, ch: seq<nat>, fat': seq<nat>, ch': seq<nat>, mark: nat) {
    || (fat' == fat && ch' == ch)
    || (|ch'| == |ch| + 1 && ch' == ch + [ch'[|ch|]]
        && var c := if ch == [] then 0 else ch[|ch| - 1];
        Chains.CanLink(fat, c, ch'[|ch|]) && c < |fat| && fat' == Chains.Linked(fat, c, ch'[|ch|], mark))
  }

  // ---------- the state of the volume between two points of an operation ----------

  /**
   From v0 with chain ch0 to v with chain ch the file has at most grown by clusters that were free, and
   nothing outside its clusters and the allocation table has changed; a forest has stayed one.
   */
  ghost predicate Evolves(g: Geometry, v0: seq<Sector>, ch0: seq<nat>, v: seq<Sector>, ch: seq<nat>)
    requires g.Good(|v0|)
  {
    && |v| == |v0| && ch0 <= ch
    && (forall s | 0 <= s < |v| && !g.InFat1(s) && !g.InFat2(s) && !Owns(g, ch, s) :: v[s] == v0[s])
    && (forall c | 0 <= c < g.nFatent && c !in ch :: Entries(v, g)[c] == Entries(v0, g)[c])
    && (forall i | |ch0| <= i < |ch| :: g.IsCluster(ch[i]) && Entries(v0, g)[ch[i]] == 0)
    && (Chains.Forest(Entries(v0, g)) ==> Chains.Forest(Entries(v, g)))
  }

  lemma OwnsPrefix(g: Geometry, ch: seq<nat>, ch': seq<nat>, s: int)
    requires ch <= ch' && Owns(g, ch, s)
    ensures Owns(g, ch', s)
  {
    var i :| 0 <= i < |ch| && InCluster(g, ch[i], s);
    assert ch'[i] == ch[i];
  }

  lemma EvolvesTrans(g: Geometry, v0: seq<Sector>, ch0: seq<nat>, v1: seq<Sector>, ch1: seq<nat>,
                     v2: seq<Sector>, ch2: seq<nat>)
    requires g.Good(|v0|) && Clusters(g, ch2)
    requires Evolves(g, v0, ch0, v1, ch1) && Evolves(g, v1, ch1, v2, ch2)
    ensures Evolves(g, v0, ch0, v2, ch2)
  {
    forall s | 0 <= s < |v0| && !g.InFat1(s) && !g.InFat2(s) && !Owns(g, ch2, s) ensures v2[s] == v0[s] {
      if Owns(g, ch1, s) {
        OwnsPrefix(g, ch1, ch2, s);
      }
    }
    forall c | 0 <= c < g.nFatent && c !in ch2 ensures Entries(v2, g)[c] == Entries(v0, g)[c] {
      assert forall j | 0 <= j < |ch1| :: ch1[j] == ch2[j];
    }
    forall i | |ch0| <= i < |ch2| ensures g.IsCluster(ch2[i]) && Entries(v0, g)[ch2[i]] == 0 {
      if i < |ch1| {
        assert ch2[i] == ch1[i];
      } else {
        assert forall j | 0 <= j < |ch1| :: ch1[j] == ch2[j] && ch2[j] != ch2[i];
      }
    }
  }

  lemma EvolvesData(g: Geometry, v0: seq<Sector>, v: seq<Sector>, ch: seq<nat>)
    requires g.Good(|v0|) && |v| == |v0| && Clusters(g, ch)
    requires forall s | 0 <= s < |v| && !Owns(g, ch, s) :: v[s] == v0[s]
    ensures Entries(v, g) == Entries(v0, g)
    ensures Evolves(g, v0, ch, v, ch)
    ensures Mirrored(g, v0) ==> Mirrored(g, v)
  {
    forall s | 0 <= s < |v| && (g.InFat1(s) || g.InFat2(s)) ensures v[s] == v0[s] {
      NotOwned(g, |v|, ch, s);
    }
    assert FatArea(v, g) == FatArea(v0, g);
  }

  lemma EvolvesStretch(g: Geometry, v0: seq<Sector>, ch0: seq<nat>, v: seq<Sector>, ch: seq<nat>)
    requires g.Good(|v0|) && KeepsData(g, v0, v)
    requires ch0 == [] || Chains.IsChain(Entries(v0, g), ch0)
    requires Stretched(Entries(v0, g), ch0, Entries(v, g), ch, g.EndMark())
    ensures Evolves(g, v0, ch0, v, ch)
  {
    var fat0, fat := Entries(v0, g), Entries(v, g);
    if ch != ch0 {
      EndMarkEnds(g, |v0|);
      var c := if ch0 == [] then 0 else ch0[|ch0| - 1];
      var n := ch[|ch0|];
      if Chains.Forest(fat0) {
        Chains.LinkedForest(fat0, c, n, g.EndMark());
      }
      assert n in ch;
      if ch0 != [] {
        assert ch[|ch0| - 1] == c;
        assert c in ch;
      }
    }
  }

  /** Outside the clusters ch nothing has changed but, perhaps, reserved FAT entries and the second FAT. */
  ghost predicate Confined(g: Geometry, v0: seq<Sector>, v: seq<Sector>, ch: seq<nat>)
    requires g.Good(|v0|)
  {
    && |v| == |v0|
    && (forall s | 0 <= s < |v| && !g.InFat1(s) && !g.InFat2(s) && !Owns(g, ch, s) :: v[s] == v0[s])
    && (forall c | 0 <= c < g.nFatent && c !in ch :: Entries(v, g)[c] == Entries(v0, g)[c])
  }

  /** A file with other clusters keeps its chain and its contents. */
  lemma ConfinedOther(g: Geometry, v0: seq<Sector>, v: seq<Sector>, ch: seq<nat>, other: seq<nat>, size: nat)
    requires g.Good(|v0|) && Confined(g, v0, v, ch) && Clusters(g, ch)
    requires Chains.IsChain(Entries(v0, g), other) && Covers(g, other, size)
    requires forall i | 0 <= i < |other| :: other[i] !in ch
    ensures Chains.IsChain(Entries(v, g), other) && Clusters(g, other)
    ensures ContentOf(v, g, other, size) == ContentOf(v0, g, other, size)
  {
    hide Row, Col;
    ChainClusters(g, |v0|, Entries(v0, g), other);
    forall s | 0 <= s < |v| && Owns(g, other, s) ensures v[s] == v0[s] {
      OwnsData(g, |v|, other, s);
      OwnsDisjoint(g, other, ch, s);
    }
    ContentFrame(v, v0, g, other, size);
  }

  /** Whatever writing or seeking does to one file, every other file keeps its chain and its contents. */
  lemma OtherFile(g: Geometry, v0: seq<Sector>, ch0: seq<nat>, v: seq<Sector>, ch: seq<nat>, other: seq<nat>, size: nat)
    requires g.Good(|v0|) && Evolves(g, v0, ch0, v, ch) && Clusters(g, ch)
    requires Chains.IsChain(Entries(v0, g), other) && Covers(g, other, size)
    requires forall c | c in other :: c !in ch0
    ensures Chains.IsChain(Entries(v, g), other) && Clusters(g, other)
    ensures ContentOf(v, g, other, size) == ContentOf(v0, g, other, size)
  {
    StaysApart(g, v0, ch0, v, ch, other);
    ConfinedOther(g, v0, v, ch, other, size);
  }

  lemma OwnsDisjoint(g: Geometry, ch: seq<nat>, ch': seq<nat>, s: int)
    requires Clusters(g, ch) && Clusters(g, ch') && Owns(g, ch, s)
    requires forall i | 0 <= i < |ch| :: ch[i] !in ch'
    ensures !Owns(g, ch', s)
  {
    var i :| 0 <= i < |ch| && InCluster(g, ch[i], s);
    forall j | 0 <= j < |ch'| ensures !InCluster(g, ch'[j], s) {
      assert ch'[j] in ch';
      if ch[i] < ch'[j] {
        ClustersDisjoint(g, ch[i], ch'[j]);
      } else {
        ClustersDisjoint(g, ch'[j], ch[i]);
      }
    }
  }

  /** create_chain on the file, all in all. */
  lemma StretchStep(g: Geometry, v: seq<Sector>, win: nat, st: FileState,
                    w: seq<Sector>, win': nat, ch': seq<nat>, c: nat, i: int, r: nat)
    requires g.Good(|v|) && Ok(g, v, win, st) && KeepsData(g, v, w)
    requires -1 <= i < |st.chain| && (if i < 0 then c == 0 && st.chain == [] else c == st.chain[i])
    requires Stretched(Entries(v, g), st.chain, Entries(w, g), ch', g.EndMark())
    requires if r < 2 then ch' == st.chain && Entries(w, g) == Entries(v, g)
             else i + 1 < |ch'| && r == ch'[i + 1] && Chains.IsChain(Entries(w, g), ch')
    requires win' == win || g.InFat1(win')
    requires ch' == st.chain || g.InFat1(win')
    ensures var st' := st.(chain := ch', sclust := if c == 0 && r >= 2 then r else st.sclust);
      Ok(g, w, win', st') && Content(g, w, st') == Content(g, v, st)
    ensures Evolves(g, v, st.chain, w, ch')
  {
    if i >= 0 {
      assert g.IsCluster(st.chain[i]);
    }
    StretchOk(g, v, win, st, w, win', ch', if c == 0 && r >= 2 then r else st.sclust);
    EvolvesStretch(g, v, st.chain, w, ch');
  }

  // ---------- positions ----------

  /** clust is the cluster of the byte at fptr. */
  ghost predicate Located(g: Geometry, st: FileState)
    requires g.csize > 0
  {
    Row(g.csize, st.fptr / 512) < |st.chain| && st.clust == st.chain[Row(g.csize, st.fptr / 512)]
  }

  /** Inside a cluster a file that is positioned is located. */
  lemma LocatedInside(g: Geometry, st: FileState)
    requires g.csize > 0 && Positioned(g, st) && st.fptr > 0
    requires st.fptr % 512 != 0 || Col(g.csize, st.fptr / 512) != 0
    ensures Located(g, st)
  {
    if st.fptr % 512 == 0 {
      assert (st.fptr - 1) / 512 == st.fptr / 512 - 1;
      RowNext(g.csize, st.fptr / 512);
    } else {
      assert (st.fptr - 1) / 512 == st.fptr / 512;
    }
  }

  /** At a cluster boundary the cluster of fptr is the next one on the chain. */
  lemma BoundaryRow(g: Geometry, fptr: nat)
    requires g.csize > 0 && fptr % 512 == 0 && Col(g.csize, fptr / 512) == 0
    ensures fptr == 0 ==> Row(g.csize, fptr / 512) == 0
    ensures fptr > 0 ==> Row(g.csize, fptr / 512) == Row(g.csize, (fptr - 1) / 512) + 1
  {
    if fptr > 0 {
      assert (fptr - 1) / 512 == fptr / 512 - 1;
      RowNext(g.csize, fptr / 512);
    }
  }

  /** After n more bytes of the same sector the file is positioned, if that sector is in the buffer. */
  lemma PositionedInSector(g: Geometry, st: FileState, n: nat)
    requires g.csize > 0 && Located(g, st) && n > 0 && st.fptr % 512 + n <= 512
    requires st.sect == Lba(g, st.chain, st.fptr / 512)
    ensures Positioned(g, st.(fptr := st.fptr + n))
    ensures Row(g.csize, (st.fptr + n - 1) / 512) == Row(g.csize, st.fptr / 512)
  {
    var k := st.fptr / 512;
    assert (st.fptr + n - 1) / 512 == k;
    assert (st.fptr + n) % 512 != 0 ==> (st.fptr + n) / 512 == k;
  }

  /** After m more whole sectors of the same cluster the file is positioned. */
  lemma PositionedAligned(g: Geometry, st: FileState, m: nat)
    requires g.csize > 0 && Located(g, st) && m > 0 && st.fptr % 512 == 0
    requires Col(g.csize, st.fptr / 512) + m <= g.csize
    ensures Positioned(g, st.(fptr := st.fptr + 512 * m))
    ensures Row(g.csize, (st.fptr + 512 * m - 1) / 512) == Row(g.csize, st.fptr / 512)
  {
    var k := st.fptr / 512;
    assert (st.fptr + 512 * m - 1) / 512 == k + (m - 1);
    RowAdvance(g.csize, k, m - 1);
  }

  lemma OkClust(g: Geometry, v: seq<Sector>, win: nat, st: FileState, c: nat)
    requires g.Good(|v|) && Ok(g, v, win, st)
    ensures Ok(g, v, win, st.(clust := c)) && Content(g, v, st.(clust := c)) == Content(g, v, st)
  {
  }

  lemma SectBound(g: Geometry, v: seq<Sector>, win: nat, st: FileState)
    requires g.Good(|v|) && Ok(g, v, win, st)
    ensures st.sect < 0x1_0000_0000
  {
  }

  lemma ChainClustersOk(g: Geometry, v: seq<Sector>, win: nat, st: FileState)
    requires g.Good(|v|) && Ok(g, v, win, st)
    ensures Clusters(g, st.chain) && st.fptr <= st.objsize < 0x1_0000_0000
  {
  }

  /** Nothing has changed yet. */
  lemma EvolvesSelf(g: Geometry, v: seq<Sector>, ch: seq<nat>)
    requires g.Good(|v|)
    ensures Evolves(g, v, ch, v, ch)
  {
  }

  /** The place of fptr on the chain, at a cluster boundary. */
  lemma EnterIndex(g: Geometry, v: seq<Sector>, win: nat, st: FileState)
    requires g.Good(|v|) && Ok(g, v, win, st) && Positioned(g, st)
    requires st.fptr % 512 == 0 && Col(g.csize, st.fptr / 512) == 0
    ensures st.fptr > 0 ==>
      var i := Row(g.csize, (st.fptr - 1) / 512);
      i < |st.chain| && st.clust == st.chain[i] && Row(g.csize, st.fptr / 512) == i + 1
    ensures st.fptr == 0 ==> Row(g.csize, st.fptr / 512) == 0
    ensures st.sclust == 0 ==> st.chain == []
    ensures st.sclust != 0 ==> |st.chain| > 0 && st.chain[0] == st.sclust && st.sclust >= 2
  {
    BoundaryRow(g, st.fptr);
    if st.sclust != 0 {
      assert g.IsCluster(st.chain[0]);
    }
  }

  // ---------- writing ----------

  function Max(a: nat, b: nat): nat { if a > b then a else b }

  /** Writing into the sector buffer is safe: it holds the sector of fptr as far as the file goes. */
  ghost predicate Ready(g: Geometry, v: seq<Sector>, win: nat, st: FileState)
    requires g.Good(|v|)
  {
    && ChainOk(g, v, st) && Located(g, st) && !Owns(g, st.chain, win)
    && st.sect == Lba(g, st.chain, st.fptr / 512)
    && (st.dirty || forall j | 0 <= j < 512 && 512 * (st.fptr / 512) + j < st.objsize ::
                      st.sect < |v| && st.buf[j] == v[st.sect][j])
  }

  /** The state after data is put into the buffer at fptr. */
  ghost function Put(st: FileState, data: seq<byte>): FileState
    requires st.fptr % 512 + |data| <= 512
  {
    var o := st.fptr % 512;
    st.(buf := st.buf[..o] + data + st.buf[o + |data|..], dirty := true,
        fptr := st.fptr + |data|, objsize := Max(st.objsize, st.fptr + |data|))
  }

  lemma PutOk(g: Geometry, v: seq<Sector>, win: nat, st: FileState, data: seq<byte>)
    requires g.Good(|v|) && Ready(g, v, win, st) && |data| > 0
    requires st.fptr % 512 + |data| <= 512 && st.fptr + |data| < 0x1_0000_0000
    ensures Ok(g, v, win, Put(st, data)) && Positioned(g, Put(st, data))
  {
    hide ContentOf, Row, Col, Lba, Clusters;
    var st' := Put(st, data);
    PositionedInSector(g, st.(buf := st'.buf, dirty := true, objsize := st'.objsize), |data|);
    PutCovers(g, st, |data|);
    assert ChainOk(g, v, st');
    LbaInside(g, |v|, st.chain, st.fptr / 512);
    assert BufferOk(g, v, win, st');
  }

  lemma PutContent(g: Geometry, v: seq<Sector>, win: nat, st: FileState, data: seq<byte>)
    requires g.Good(|v|) && Ready(g, v, win, st) && |data| > 0
    requires st.fptr % 512 + |data| <= 512 && st.fptr + |data| < 0x1_0000_0000
    requires ChainOk(g, v, Put(st, data))
    ensures Content(g, v, Put(st, data)) == Overwrite(Content(g, v, st), st.fptr, data)
  {
    hide ContentOf, Row, Col, Lba, Clusters;
    var k, o, st' := st.fptr / 512, st.fptr % 512, Put(st, data);
    LbaInside(g, |v|, st.chain, k);
    var u, w := Overlay(v, st), Overlay(v, st');
    assert w == u[st.sect := st'.buf];
    assert st'.buf[o..o + |data|] == data;
    assert forall j | 0 <= j < 512 && !(o <= j < o + |data|) :: st'.buf[j] == st.buf[j];
    ContentBuffer(u, g, st.chain, st.objsize, st'.objsize, k, o, st'.buf, data);
  }

  lemma PutCovers(g: Geometry, st: FileState, n: nat)
    requires g.csize > 0 && Located(g, st) && n > 0 && Covers(g, st.chain, st.objsize)
    requires Row(g.csize, (st.fptr + n - 1) / 512) == Row(g.csize, st.fptr / 512)
    ensures Covers(g, st.chain, Max(st.objsize, st.fptr + n))
  {
  }

  /** The state after whole sectors are written straight to the medium at sector lba. */
  ghost function Direct(st: FileState, lba: nat, data: seq<byte>): FileState
    requires |data| % 512 == 0
  {
    var b: Sector := if lba <= st.sect < lba + |data| / 512
      then data[512 * (st.sect - lba)..512 * (st.sect - lba) + 512] else st.buf;
    st.(buf := b, fptr := st.fptr + |data|, objsize := Max(st.objsize, st.fptr + |data|))
  }

  /** Where whole sectors may be written (or read) straight: a clean state at a sector boundary, within one cluster. */
  ghost predicate Aligned(g: Geometry, v: seq<Sector>, st: FileState, n: nat)
    requires g.Good(|v|)
  {
    && ChainOk(g, v, st) && Located(g, st)
    && st.fptr % 512 == 0 && n % 512 == 0 && n > 0
    && Col(g.csize, st.fptr / 512) + n / 512 <= g.csize
  }

  lemma AlignedNow(g: Geometry, v: seq<Sector>, win: nat, st: FileState, cc: nat)
    requires g.Good(|v|) && Ok(g, v, win, st) && Located(g, st) && st.fptr % 512 == 0
    requires cc > 0 && st.fptr / 512 % g.csize + cc <= g.csize
    ensures Aligned(g, v, st, 512 * cc)
    ensures Lba(g, st.chain, st.fptr / 512) == g.ClusterBase(st.clust) + st.fptr / 512 % g.csize
  {
    WholeSectors(cc);
    SectorOffset(g, v, st);
  }

  lemma AlignedFits(g: Geometry, v: seq<Sector>, win: nat, st: FileState, n: nat)
    requires g.Good(|v|) && Aligned(g, v, st, n)
    ensures var lba := Lba(g, st.chain, st.fptr / 512);
      && g.database <= lba && lba + n / 512 <= |v|
      && forall s | lba <= s < lba + n / 512 :: Owns(g, st.chain, s)
  {
    var k := st.fptr / 512;
    WriteFits(g, |v|, st.chain, k, n / 512);
    LbaInside(g, |v|, st.chain, k);
    forall s | Lba(g, st.chain, k) <= s < Lba(g, st.chain, k) + n / 512 ensures Owns(g, st.chain, s) {
      assert InCluster(g, st.chain[Row(g.csize, k)], s);
    }
  }

  lemma DirectBuffer(g: Geometry, v: seq<Sector>, win: nat, st: FileState, data: seq<byte>)
    requires g.Good(|v|) && BufferOk(g, v, win, st) && !st.dirty && Aligned(g, v, st, |data|)
    requires Lba(g, st.chain, st.fptr / 512) + |data| / 512 <= |v|
    ensures var lba := Lba(g, st.chain, st.fptr / 512);
      BufferOk(g, WriteSectors(v, lba, data), win, Direct(st, lba, data))
  {
    hide ContentOf, Row, Col, Lba, Clusters, Evolves, ChainOk;
  }

  lemma DirectOk(g: Geometry, v: seq<Sector>, win: nat, st: FileState, data: seq<byte>)
    requires g.Good(|v|) && Ok(g, v, win, st) && !st.dirty && Aligned(g, v, st, |data|)
    requires st.fptr + |data| < 0x1_0000_0000
    ensures var lba := Lba(g, st.chain, st.fptr / 512);
      && lba + |data| / 512 <= |v|
      && var w, st' := WriteSectors(v, lba, data), Direct(st, lba, data);
        Ok(g, w, win, st') && Positioned(g, st') && Evolves(g, v, st.chain, w, st.chain)
        && Entries(w, g) == Entries(v, g)
  {
    hide ContentOf, Row, Col, Lba, Clusters, Evolves;
    var lba := Lba(g, st.chain, st.fptr / 512);
    AlignedFits(g, v, win, st, |data|);
    var w, st' := WriteSectors(v, lba, data), Direct(st, lba, data);
    EvolvesData(g, v, w, st.chain);
    assert |data| == 512 * (|data| / 512);
    PositionedAligned(g, st.(buf := st'.buf, objsize := st'.objsize), |data| / 512);
    PutCovers(g, st, |data|);
    assert ChainOk(g, w, st');
    DirectBuffer(g, v, win, st, data);
  }

  lemma DirectContent(g: Geometry, v: seq<Sector>, win: nat, st: FileState, data: seq<byte>)
    requires g.Good(|v|) && Ok(g, v, win, st) && !st.dirty && Aligned(g, v, st, |data|)
    requires st.fptr + |data| < 0x1_0000_0000
    ensures var lba := Lba(g, st.chain, st.fptr / 512);
      && lba + |data| / 512 <= |v|
      && var w, st' := WriteSectors(v, lba, data), Direct(st, lba, data);
        ChainOk(g, w, st') && Content(g, w, st') == Overwrite(Content(g, v, st), st.fptr, data)
  {
    hide ContentOf, Row, Col, Lba, Clusters, Evolves;
    DirectOk(g, v, win, st, data);
    var lba := Lba(g, st.chain, st.fptr / 512);
    var st' := Direct(st, lba, data);
    assert st.fptr == 512 * (st.fptr / 512);
    ContentWrite(v, g, st.chain, st.objsize, st'.objsize, st.fptr / 512, data);
  }

  /** After the sector of fptr is in the buffer, or on the growing edge of the file, the buffer is ready. */
  lemma ReadyAfter(g: Geometry, v: seq<Sector>, win: nat, st: FileState, lba: nat, b: Sector)
    requires g.Good(|v|) && Ok(g, v, win, st) && !st.dirty && Located(g, st) && st.fptr % 512 == 0
    requires lba == Lba(g, st.chain, st.fptr / 512)
    requires st.fptr < st.objsize && st.sect != lba ==> lba < |v| && b == v[lba]
    requires st.sect == lba ==> b == st.buf
    ensures Ready(g, v, win, st.(sect := lba, buf := b))
    ensures Content(g, v, st.(sect := lba, buf := b)) == Content(g, v, st)
  {
    hide ContentOf, Row, Col, Evolves;
    LbaInside(g, |v|, st.chain, st.fptr / 512);
  }

  /** In the middle of a sector the buffer is ready. */
  lemma ReadyInside(g: Geometry, v: seq<Sector>, win: nat, st: FileState)
    requires g.Good(|v|) && Ok(g, v, win, st) && Positioned(g, st) && st.fptr % 512 != 0
    ensures Ready(g, v, win, st)
  {
    LocatedInside(g, st);
    LbaInside(g, |v|, st.chain, st.fptr / 512);
  }

  /** The window is not among the sectors written straight, and the copies of the table stay equal. */
  lemma AlignedMedium(g: Geometry, v: seq<Sector>, m: seq<Sector>, win: nat, st: FileState, data: seq<byte>)
    requires g.Good(|v|) && |m| == |v| && Ok(g, v, win, st) && Aligned(g, v, st, |data|)
    ensures var lba := Lba(g, st.chain, st.fptr / 512);
      && lba + |data| / 512 <= |v| && !(lba <= win < lba + |data| / 512)
      && (Mirrored(g, m) ==> Mirrored(g, WriteSectors(m, lba, data)))
  {
    hide ContentOf, Row, Col, Evolves, ChainOk;
    AlignedFits(g, v, win, st, |data|);
    var lba := Lba(g, st.chain, st.fptr / 512);
    var m' := WriteSectors(m, lba, data);
    assert forall s | 0 <= s < g.database :: m'[s] == m[s];
  }

  /** The code's unsigned test whether sector s is one of the cc sectors from lba on. */
  predicate InRun(s: nat, lba: nat, cc: nat) {
    (s - lba) % 0x1_0000_0000 < cc
  }

  lemma InRunMeans(s: nat, lba: nat, cc: nat)
    requires s < 0x1_0000_0000 && lba + cc <= 0x1_0000_0000
    ensures InRun(s, lba, cc) <==> lba <= s < lba + cc
  {
  }

  /** The code's test for a cluster boundary, and where whole sectors may go. */
  lemma SectorOffset(g: Geometry, v: seq<Sector>, st: FileState)
    requires g.Good(|v|) && ChainOk(g, v, st) && st.fptr % 512 == 0
    ensures g.csize > 0 && st.fptr / 512 % g.csize == Col(g.csize, st.fptr / 512)
    ensures Located(g, st) ==>
      g.IsCluster(st.clust) && Lba(g, st.chain, st.fptr / 512) == g.ClusterBase(st.clust) + st.fptr / 512 % g.csize
  {
    RowColFormula(g.csize, st.fptr / 512);
  }

  lemma CsectFormula(g: Geometry, fptr: nat)
    requires g.csize > 0
    ensures fptr / 512 % g.csize == Col(g.csize, fptr / 512)
    ensures fptr == 0 ==> fptr / 512 % g.csize == 0
  {
    RowColFormula(g.csize, fptr / 512);
  }

  /** How many bytes f_write may write at fptr: a 32-bit position must not wrap around. */
  function WriteLimit(fptr: nat, btw: nat): (n: nat)
    requires fptr < 0x1_0000_0000 && btw < 0x1_0000_0000
    ensures n <= btw && fptr + n < 0x1_0000_0000
  {
    if (fptr + btw) % 0x1_0000_0000 < fptr then 0xFFFF_FFFF - fptr else btw
  }

  lemma LimitIs(fptr: nat, btw: nat)
    requires fptr < 0x1_0000_0000 && btw < 0x1_0000_0000
    ensures WriteLimit(fptr, btw) == if fptr + btw <= 0xFFFF_FFFF then btw else 0xFFFF_FFFF - fptr
  {
    if fptr + btw > 0xFFFF_FFFF {
      assert (fptr + btw) % 0x1_0000_0000 == fptr + btw - 0x1_0000_0000;
    }
  }

  // ---------- reading ----------

  /** Moving the window keeps the file as it is. */
  lemma WindowMoved(g: Geometry, v: seq<Sector>, win: nat, st: FileState, w: seq<Sector>, win': nat)
    requires g.Good(|v|) && Ok(g, v, win, st) && SameView(g, v, w) && (g.InFat1(win') || win' == win)
    ensures Ok(g, w, win', st) && Content(g, w, st) == Content(g, v, st)
    ensures Evolves(g, v, st.chain, w, st.chain)
  {
    SameEntries(g, v, w);
    SameKeepsData(g, v, w);
    if g.InFat1(win') {
      NotOwned(g, |v|, st.chain, win');
    }
    StretchContent(g, v, w, st.chain, st.chain, st.objsize, st.dirty && st.sect < |v|, st.sect, st.buf);
  }

  /** Before the end of the file the chain goes on, so get_fat on clust yields the cluster of fptr. */
  lemma NextCluster(g: Geometry, v: seq<Sector>, win: nat, st: FileState)
    requires g.Good(|v|) && Ok(g, v, win, st) && Positioned(g, st) && st.fptr < st.objsize
    requires st.fptr % 512 == 0 && Col(g.csize, st.fptr / 512) == 0
    ensures Row(g.csize, st.fptr / 512) < |st.chain|
    ensures var c := st.chain[Row(g.csize, st.fptr / 512)];
      && g.IsCluster(c)
      && (st.fptr == 0 ==> st.sclust == c)
      && (st.fptr > 0 ==> g.IsCluster(st.clust) && Entries(v, g)[st.clust] == c)
  {
    CoversLess(g, st.chain, st.objsize, st.fptr);
    EnterIndex(g, v, win, st);
    if st.fptr > 0 {
      Chains.ChainEntry(Entries(v, g), st.chain, Row(g.csize, (st.fptr - 1) / 512));
    }
  }

  /** Whole sectors of the overlay are the corresponding part of the contents. */
  lemma ReadRun(g: Geometry, v: seq<Sector>, win: nat, st: FileState, n: nat, i: nat)
    requires g.Good(|v|) && Ok(g, v, win, st) && Aligned(g, v, st, n) && st.fptr + n <= st.objsize && i < n
    ensures var lba := Lba(g, st.chain, st.fptr / 512);
      && lba + i / 512 < |v|
      && Overlay(v, st)[lba + i / 512][i % 512] == Content(g, v, st)[st.fptr + i]
  {
    hide Row, Col, Evolves, Lba, FileByte;
    AlignedFits(g, v, win, st, n);
    var k := st.fptr / 512;
    RunPosition(k, i);
    assert st.fptr + i == 512 * k + i;
    ContentAt(Overlay(v, st), g, st.chain, st.objsize, st.fptr + i);
    RunByte(Overlay(v, st), g, st.chain, k, n / 512, i);
  }

  lemma ReadRuns(g: Geometry, v: seq<Sector>, win: nat, st: FileState, n: nat, got: seq<byte>)
    requires g.Good(|v|) && Ok(g, v, win, st) && Aligned(g, v, st, n) && st.fptr + n <= st.objsize && |got| == n
    requires Lba(g, st.chain, st.fptr / 512) + n / 512 <= |v|
    requires forall i | 0 <= i < n :: got[i] == Overlay(v, st)[Lba(g, st.chain, st.fptr / 512) + i / 512][i % 512]
    ensures got == Content(g, v, st)[st.fptr..st.fptr + n]
  {
    hide ContentOf, ChainOk, BufferOk, Lba, Overlay, Row, Col, Located;
    var want := Content(g, v, st)[st.fptr..st.fptr + n];
    forall i | 0 <= i < n ensures got[i] == want[i] {
      ReadRun(g, v, win, st, n, i);
    }
  }

  lemma RunPosition(k: nat, i: nat)
    ensures (512 * k + i) / 512 == k + i / 512 && (512 * k + i) % 512 == i % 512
  {
  }

  lemma RunByte(u: seq<Sector>, g: Geometry, ch: seq<nat>, k: nat, cc: nat, i: nat)
    requires g.Good(|u|) && Clusters(g, ch) && Row(g.csize, k) < |ch| && Col(g.csize, k) + cc <= g.csize && i < 512 * cc
    ensures Row(g.csize, (512 * k + i) / 512) < |ch| && Lba(g, ch, k) + i / 512 < |u|
    ensures FileByte(u, g, ch, 512 * k + i) == u[Lba(g, ch, k) + i / 512][i % 512]
  {
    hide Row, Col;
    RunPosition(k, i);
    RowAdvance(g.csize, k, i / 512);
    LbaRun(g, ch, k, cc, k + i / 512);
    LbaInside(g, |u|, ch, k + i / 512);
  }

  /** The buffer holds the sector of fptr. */
  ghost predicate Loaded(g: Geometry, v: seq<Sector>, win: nat, st: FileState)
    requires g.Good(|v|)
  {
    && Ok(g, v, win, st) && Located(g, st)
    && st.sect == Lba(g, st.chain, st.fptr / 512)
  }

  lemma LoadedInside(g: Geometry, v: seq<Sector>, win: nat, st: FileState)
    requires g.Good(|v|) && Ok(g, v, win, st) && Positioned(g, st) && st.fptr % 512 != 0
    ensures Loaded(g, v, win, st)
  {
    LocatedInside(g, st);
  }

  lemma LoadedFits(g: Geometry, v: seq<Sector>, win: nat, st: FileState)
    requires g.Good(|v|) && Ok(g, v, win, st) && Located(g, st)
    ensures var lba := Lba(g, st.chain, st.fptr / 512);
      g.database <= lba < |v| && lba != win
  {
    LbaInside(g, |v|, st.chain, st.fptr / 512);
  }

  lemma LoadedAfter(g: Geometry, v: seq<Sector>, win: nat, st: FileState, lba: nat, b: Sector)
    requires g.Good(|v|) && Ok(g, v, win, st) && !st.dirty && Located(g, st) && lba == Lba(g, st.chain, st.fptr / 512)
    requires lba < |v| && b == v[lba]
    ensures Loaded(g, v, win, st.(sect := lba, buf := b))
    ensures Content(g, v, st.(sect := lba, buf := b)) == Content(g, v, st)
  {
    hide ContentOf, Row, Col, Evolves;
    LbaInside(g, |v|, st.chain, st.fptr / 512);
  }

  /** The loaded buffer is the corresponding part of the contents. */
  lemma ReadBuffer(g: Geometry, v: seq<Sector>, win: nat, st: FileState, n: nat)
    requires g.Good(|v|) && Loaded(g, v, win, st) && 0 < n && st.fptr % 512 + n <= 512 && st.fptr + n <= st.objsize
    ensures st.buf[st.fptr % 512..st.fptr % 512 + n] == Content(g, v, st)[st.fptr..st.fptr + n]
    ensures Ok(g, v, win, st.(fptr := st.fptr + n)) && Positioned(g, st.(fptr := st.fptr + n))
    ensures Content(g, v, st.(fptr := st.fptr + n)) == Content(g, v, st)
  {
    hide ContentOf, Row, Col, Evolves, Lba;
    var u, k, o := Overlay(v, st), st.fptr / 512, st.fptr % 512;
    LbaInside(g, |v|, st.chain, k);
    assert st.fptr == 512 * k + o;
    ContentSlice(u, g, st.chain, st.objsize, k, o, n);
    PositionedInSector(g, st, n);
  }

  /** Reading whole sectors straight leaves the file positioned behind them. */
  lemma SkipAligned(g: Geometry, v: seq<Sector>, win: nat, st: FileState, n: nat)
    requires g.Good(|v|) && Ok(g, v, win, st) && Aligned(g, v, st, n) && st.fptr + n <= st.objsize
    ensures Ok(g, v, win, st.(fptr := st.fptr + n)) && Positioned(g, st.(fptr := st.fptr + n))
    ensures Content(g, v, st.(fptr := st.fptr + n)) == Content(g, v, st)
  {
    hide Row, Col, Entries, ContentOf;
    assert n == 512 * (n / 512);
    PositionedAligned(g, st, n / 512);
  }

  // ---------- seeking ----------

  /** clst is the i-th cluster of the file and starts at position f. */
  ghost predicate AtCluster(g: Geometry, st: FileState, f: nat, clst: nat, i: nat)
    requires g.csize > 0
  {
    && i < |st.chain| && clst == st.chain[i]
    && f % 512 == 0 && Row(g.csize, f / 512) == i && Col(g.csize, f / 512) == 0
  }

  /** f_lseek's shortcut: the walk may start from the current cluster. */
  lemma StartHere(g: Geometry, v: seq<Sector>, win: nat, st: FileState) returns (i: nat)
    requires g.Good(|v|) && Ok(g, v, win, st) && Positioned(g, st) && st.fptr > 0
    ensures var f := StartOf(g.csize, st.fptr - 1);
      f < st.fptr && AtCluster(g, st, f, st.clust, i)
  {
    hide Row, Col, ChainOk, BufferOk, StartOf;
    ClusterStart(g.csize, st.fptr - 1);
    i := Row(g.csize, (st.fptr - 1) / 512);
  }

  /** The state once the walk of f_lseek has come to position p in the i-th cluster. */
  ghost function Sought(st: FileState, p: nat): FileState {
    st.(fptr := p, objsize := Max(st.objsize, p))
  }

  /** Where the walk may end: at most one cluster behind the start f of the i-th cluster. */
  lemma SoughtOk(g: Geometry, v: seq<Sector>, win: nat, st: FileState, f: nat, i: nat, ofs: nat)
    requires g.Good(|v|) && Ok(g, v, win, st) && AtCluster(g, st, f, st.clust, i)
    requires 0 < ofs <= 512 * g.csize && f + ofs < 0x1_0000_0000
    ensures var st' := Sought(st, f + ofs);
      && Ok(g, v, win, st')
      && Content(g, v, st')[..st.objsize] == Content(g, v, st)
      && (ofs % 512 == 0 || st.sect == g.ClusterBase(st.clust) + ofs / 512 ==> Positioned(g, st'))
    ensures ofs % 512 != 0 ==>
      Row(g.csize, (f + ofs) / 512) == i && Lba(g, st.chain, (f + ofs) / 512) == g.ClusterBase(st.clust) + ofs / 512
  {
    hide Row, Col, ContentOf, Evolves, Entries;
    WithinCluster(g.csize, f, ofs);
    ContentGrow(Overlay(v, st), g, st.chain, st.objsize, Max(st.objsize, f + ofs));
  }

  /** Seeking to 0 needs nothing. */
  lemma SoughtZero(g: Geometry, v: seq<Sector>, win: nat, st: FileState)
    requires g.Good(|v|) && Ok(g, v, win, st)
    ensures var st' := Sought(st, 0);
      Ok(g, v, win, st') && Positioned(g, st') && Content(g, v, st')[..st.objsize] == Content(g, v, st)
  {
    assert Content(g, v, Sought(st, 0)) == Content(g, v, st);
  }

  /** The file has not been given more clusters than its chain; p is right behind them. */
  ghost predicate AtCapacity(g: Geometry, ch: seq<nat>, p: nat)
    requires g.csize > 0
  {
    p % 512 == 0 && Row(g.csize, p / 512) == |ch| && Col(g.csize, p / 512) == 0
  }

  /** Every cluster of the file but the last links to the next one. */
  lemma LinkOnChain(g: Geometry, v: seq<Sector>, win: nat, st: FileState, i: nat)
    requires g.Good(|v|) && Ok(g, v, win, st) && i + 1 < |st.chain|
    ensures g.IsCluster(st.chain[i]) && Entries(v, g)[st.chain[i]] == st.chain[i + 1] && g.IsCluster(st.chain[i + 1])
  {
    Chains.ChainEntry(Entries(v, g), st.chain, i);
  }

  lemma OnChain(g: Geometry, v: seq<Sector>, win: nat, st: FileState, i: nat)
    requires g.Good(|v|) && Ok(g, v, win, st) && i < |st.chain|
    ensures g.IsCluster(st.chain[i])
  {
  }

  /** While the target lies beyond the cluster, a file long enough for it has a next cluster. */
  lemma NextCovered(g: Geometry, st: FileState, f: nat, clst: nat, i: nat, ofs: nat)
    requires g.csize > 0 && AtCluster(g, st, f, clst, i) && Covers(g, st.chain, st.objsize)
    requires ofs > 512 * g.csize && f + ofs <= st.objsize
    ensures i + 1 < |st.chain|
  {
    hide Row, Col;
    RowSkip(g.csize, f / 512);
    assert (f + 512 * g.csize) / 512 == f / 512 + g.csize;
    CoversLess(g, st.chain, st.objsize, f + 512 * g.csize);
  }

  lemma WalkIndex(g: Geometry, v: seq<Sector>, win: nat, st: FileState, f: nat, clst: nat, i: nat, ofs: nat)
    requires g.Good(|v|) && Ok(g, v, win, st) && AtCluster(g, st, f, clst, i) && ofs > 512 * g.csize
    ensures i < |st.chain| && clst == st.chain[i]
    ensures f + ofs <= st.objsize ==> i + 1 < |st.chain|
  {
    if f + ofs <= st.objsize {
      NextCovered(g, st, f, clst, i, ofs);
    }
  }

  /** One step of the walk. */
  lemma NextAtCluster(g: Geometry, st: FileState, f: nat, clst: nat, i: nat, st': FileState, clst': nat)
    requires g.csize > 0 && AtCluster(g, st, f, clst, i)
    requires i + 1 < |st'.chain| && clst' == st'.chain[i + 1]
    ensures AtCluster(g, st', f + 512 * g.csize, clst', i + 1)
  {
    hide Row, Col;
    RowSkip(g.csize, f / 512);
    assert (f + 512 * g.csize) / 512 == f / 512 + g.csize && (f + 512 * g.csize) % 512 == 0;
  }

  /** Where the walk stops when the volume is full. */
  lemma StoppedAtCapacity(g: Geometry, st: FileState, f: nat, clst: nat, i: nat)
    requires g.csize > 0 && AtCluster(g, st, f, clst, i) && i + 1 == |st.chain|
    ensures AtCapacity(g, st.chain, f + 512 * g.csize)
  {
    hide Row, Col;
    RowSkip(g.csize, f / 512);
    assert (f + 512 * g.csize) / 512 == f / 512 + g.csize && (f + 512 * g.csize) % 512 == 0;
  }

  lemma LoadedPositioned(g: Geometry, v: seq<Sector>, win: nat, st: FileState)
    requires g.Good(|v|) && Loaded(g, v, win, st) && st.fptr % 512 != 0
    ensures Positioned(g, st)
  {
    assert (st.fptr - 1) / 512 == st.fptr / 512;
  }

  /** The end of a walk to f + ofs in the i-th cluster, or no walk at all. */
  ghost predicate WalkDone(g: Geometry, st: FileState, pos: nat, nsect: nat, f: nat, ofs: nat, i: nat)
    requires g.csize > 0
  {
    pos == 0
    || (AtCluster(g, st, f, st.clust, i) && pos == f + ofs && 0 < ofs <= 512 * g.csize
        && (ofs % 512 != 0 ==> st.clust >= 2 && nsect == g.ClusterBase(st.clust) + ofs / 512))
  }

  /** Setting the position, and the size if the file grows, after a walk. */
  lemma SetPosition(g: Geometry, v: seq<Sector>, win: nat, st: FileState, pos: nat, nsect: nat, f: nat, ofs: nat,
                    i: nat)
    requires g.Good(|v|) && Ok(g, v, win, st) && WalkDone(g, st, pos, nsect, f, ofs, i) && pos < 0x1_0000_0000
    ensures var st' := Sought(st, pos);
      && Ok(g, v, win, st')
      && Content(g, v, st')[..st.objsize] == Content(g, v, st)
      && (pos % 512 == 0 || nsect == st.sect ==> Positioned(g, st'))
      && (pos % 512 != 0 ==> Located(g, st') && nsect == Lba(g, st'.chain, pos / 512))
  {
    hide Row, Col, ContentOf, Evolves, Entries, Lba, ChainOk, BufferOk, Positioned, Content;
    if pos == 0 {
      SoughtZero(g, v, win, st);
    } else {
      SoughtOk(g, v, win, st, f, i, ofs);
      WithinCluster(g.csize, f, ofs);
    }
  }

  lemma StartBefore(csize: nat, p: nat, q: nat)
    requires csize > 0 && p / (512 * csize) <= q / (512 * csize)
    ensures StartOf(csize, p) <= q
  {
    QuotientMonotone(p, q, 512 * csize);
  }

  lemma StartIsCluster(g: Geometry, v: seq<Sector>, win: nat, st: FileState, f: nat, i: nat)
    requires g.Good(|v|) && Ok(g, v, win, st) && AtCluster(g, st, f, st.clust, i)
    ensures g.IsCluster(st.clust) && st.clust < 0x1_0000_0000
  {
  }

  lemma FirstCluster(g: Geometry, v: seq<Sector>, win: nat, st: FileState)
    requires g.Good(|v|) && Ok(g, v, win, st)
    ensures st.sclust == 0 ==> st.chain == [] && st.objsize == 0
    ensures st.sclust != 0 ==> |st.chain| > 0 && st.chain[0] == st.sclust && st.sclust >= 2
  {
    if st.sclust != 0 {
      assert g.IsCluster(st.chain[0]);
    }
  }

  lemma StartAtFirst(g: Geometry, st: FileState, clst: nat)
    requires g.csize > 0 && |st.chain| > 0 && clst == st.chain[0]
    ensures AtCluster(g, st.(clust := clst), 0, clst, 0)
  {
  }

  lemma CapacityZero(g: Geometry)
    requires g.csize > 0
    ensures AtCapacity(g, [], 0)
  {
  }

  lemma NoWalk(g: Geometry, st: FileState)
    requires g.csize > 0
    ensures WalkDone(g, st, 0, 0, 0, 0, 0)
  {
  }

  // ---------- truncating ----------

  /** The table after a file with the chain ch is cut to its first k clusters. */
  ghost function CutTo(fat: seq<nat>, ch: seq<nat>, k: nat, mark: nat): (fat': seq<nat>)
    requires InBounds(fat, ch) && k <= |ch|
    ensures |fat'| == |fat|
  {
    if k == 0 then Chains.Freed(fat, ch)
    else if k == |ch| then fat
    else Chains.Cut(fat, ch[k - 1], ch[k..], mark)
  }

  ghost predicate InBounds(fat: seq<nat>, ch: seq<nat>) {
    forall i | 0 <= i < |ch| :: ch[i] < |fat|
  }

  lemma ChainInBounds(fat: seq<nat>, ch: seq<nat>)
    requires Chains.IsChain(fat, ch)
    ensures InBounds(fat, ch) && |ch| > 0
  {
    forall i | 0 <= i < |ch| ensures ch[i] < |fat| {
      Chains.ChainEntry(fat, ch, i);
    }
  }

  lemma CutToOther(fat: seq<nat>, ch: seq<nat>, k: nat, mark: nat)
    requires Chains.IsChain(fat, ch) && k <= |ch| && mark >= |fat| && InBounds(fat, ch)
    ensures forall c | 0 <= c < |fat| && c !in ch :: CutTo(fat, ch, k, mark)[c] == fat[c]
  {
    hide Chains.IsChain;
    if 0 < k < |ch| {
      assert ch == ch[..k] + ch[k..];
      assert forall c | c !in ch :: c !in ch[k..] && c != ch[k - 1];
    }
  }

  /** No cluster links to c, as is the case for the first cluster of a file. */
  ghost predicate NoLinkTo(fat: seq<nat>, c: nat) {
    forall q: nat | Chains.IsCluster(fat, q) :: fat[q] != c
  }

  lemma CutToSound(fat: seq<nat>, ch: seq<nat>, k: nat, mark: nat)
    requires Chains.IsChain(fat, ch) && k <= |ch| && mark >= |fat|
    ensures InBounds(fat, ch)
    ensures 0 < k ==> Chains.IsChain(CutTo(fat, ch, k, mark), ch[..k])
    ensures forall c | 0 <= c < |fat| && c !in ch :: CutTo(fat, ch, k, mark)[c] == fat[c]
    ensures Chains.Forest(fat) && (k == 0 ==> NoLinkTo(fat, ch[0])) ==> Chains.Forest(CutTo(fat, ch, k, mark))
  {
    hide Chains.Forest, Chains.IsChain, Chains.Freed;
    ChainInBounds(fat, ch);
    CutToOther(fat, ch, k, mark);
    if k == |ch| {
      assert ch[..k] == ch;
    } else if k > 0 {
      TailCut(fat, ch, k);
      assert ch == ch[..k] + ch[k..];
      Chains.CutPrefix(fat, ch[k - 1], ch[k..], ch[..k], mark);
      if Chains.Forest(fat) {
        Chains.CutForest(fat, ch[k - 1], ch[k..], mark);
      }
    } else if Chains.Forest(fat) && NoLinkTo(fat, ch[0]) {
      Chains.CutForest(fat, 0, ch, mark);
    }
  }

  lemma TailCut(fat: seq<nat>, ch: seq<nat>, k: nat)
    requires Chains.IsChain(fat, ch) && 0 < k < |ch|
    ensures Chains.CanCut(fat, ch[k - 1], ch[k..]) && ch[k - 1] != 0
  {
    Chains.ChainTail(fat, ch, k);
    Chains.ChainEntry(fat, ch, k - 1);
  }

  /** How many clusters a file keeps when it is cut at its position. */
  ghost function KeptClusters(g: Geometry, st: FileState): nat
    requires g.csize > 0
  {
    if st.fptr == 0 then 0 else Row(g.csize, (st.fptr - 1) / 512) + 1
  }

  /** The state after f_truncate, with k clusters kept. */
  ghost function Truncated(st: FileState, k: nat): FileState
    requires k <= |st.chain|
  {
    st.(sclust := if k == 0 then 0 else st.sclust, objsize := st.fptr, dirty := false, chain := st.chain[..k])
  }

  /** Cutting the table and writing the buffer back leaves the first fptr bytes. */
  lemma TruncateContent(g: Geometry, v: seq<Sector>, win: nat, st: FileState, v1: seq<Sector>, k: nat)
    requires g.Good(|v|) && Ok(g, v, win, st) && KeepsData(g, v, v1) && k <= |st.chain|
    requires Covers(g, st.chain[..k], st.fptr)
    ensures Clusters(g, st.chain[..k])
    ensures ContentOf(Overlay(v1, st), g, st.chain[..k], st.fptr) == Content(g, v, st)[..st.fptr]
  {
    hide Row, Col, ContentOf;
    var a, b := Overlay(v, st), Overlay(v1, st);
    assert KeepsData(g, a, b);
    ContentPrefix(a, g, st.chain, k, st.objsize, st.fptr);
    ContentKept(g, a, b, st.chain[..k], st.fptr);
  }

  lemma TruncateCovers(g: Geometry, v: seq<Sector>, win: nat, st: FileState)
    requires g.Good(|v|) && Ok(g, v, win, st) && Positioned(g, st)
    ensures var k := KeptClusters(g, st);
      k <= |st.chain| && Covers(g, st.chain[..k], st.fptr) && (k > 0 ==> st.clust == st.chain[k - 1])
      && (k == 0 <==> st.fptr == 0)
  {
  }

  /** The file after truncation: consistent, positioned at its end, with the rest of the volume as it was. */
  lemma TruncateOk(g: Geometry, v: seq<Sector>, win: nat, st: FileState, v1: seq<Sector>, win1: nat, k: nat)
    requires g.Good(|v|) && Ok(g, v, win, st) && Positioned(g, st) && KeepsData(g, v, v1) && k == KeptClusters(g, st)
    requires st.chain != [] && k <= |st.chain| && InBounds(Entries(v, g), st.chain)
    requires Entries(v1, g) == CutTo(Entries(v, g), st.chain, k, g.EndMark())
    requires win1 == win || g.InFat1(win1)
    ensures var v2, st' := Overlay(v1, st), Truncated(st, k);
      && Ok(g, v2, win1, st') && Positioned(g, st')
      && Content(g, v2, st') == Content(g, v, st)[..st.fptr]
      && Confined(g, v, v2, st.chain)
      && Entries(v2, g) == Entries(v1, g)
  {
    hide Row, ContentOf, Lba;
    var v2, st', ch := Overlay(v1, st), Truncated(st, k), st.chain;
    EndMarkEnds(g, |v|);
    CutToSound(Entries(v, g), ch, k, g.EndMark());
    TruncateCovers(g, v, win, st);
    TruncateContent(g, v, win, st, v1, k);
    TruncateFrame(g, v, win, st, v1, k);
    assert ChainOk(g, v2, st');
    TruncateBuffer(g, v, win, st, v1, win1, k);
    TruncatePosition(g, v, win, st);
  }

  lemma TruncatePosition(g: Geometry, v: seq<Sector>, win: nat, st: FileState)
    requires g.Good(|v|) && Ok(g, v, win, st) && Positioned(g, st)
    ensures KeptClusters(g, st) <= |st.chain| && Positioned(g, Truncated(st, KeptClusters(g, st)))
  {
    var k := KeptClusters(g, st);
    if st.fptr % 512 != 0 {
      assert (st.fptr - 1) / 512 == st.fptr / 512;
      assert st.chain[..k][Row(g.csize, st.fptr / 512)] == st.chain[Row(g.csize, st.fptr / 512)];
    }
  }

  lemma TruncateFrame(g: Geometry, v: seq<Sector>, win: nat, st: FileState, v1: seq<Sector>, k: nat)
    requires g.Good(|v|) && Ok(g, v, win, st) && KeepsData(g, v, v1)
    requires forall c | 0 <= c < g.nFatent && c !in st.chain :: Entries(v1, g)[c] == Entries(v, g)[c]
    ensures Entries(Overlay(v1, st), g) == Entries(v1, g)
    ensures Confined(g, v, Overlay(v1, st), st.chain)
  {
    if st.dirty {
      OwnsData(g, |v|, st.chain, st.sect);
      DataSector(g, v1, st.sect, st.buf);
    }
  }

  lemma TruncateBuffer(g: Geometry, v: seq<Sector>, win: nat, st: FileState, v1: seq<Sector>, win1: nat, k: nat)
    requires g.Good(|v|) && Ok(g, v, win, st) && KeepsData(g, v, v1) && k <= |st.chain|
    requires win1 == win || g.InFat1(win1)
    ensures BufferOk(g, Overlay(v1, st), win1, Truncated(st, k))
  {
    if g.InFat1(win1) {
      NotOwned(g, |v|, st.chain, win1);
    }
    if st.dirty {
      OwnsData(g, |v|, st.chain, st.sect);
    }
    forall s | Owns(g, st.chain[..k], s) ensures Owns(g, st.chain, s) {
      OwnsPrefix(g, st.chain[..k], st.chain, s);
    }
  }

  /** What remove_chain does when f_truncate calls it. */
  lemma RemoveForTruncate(g: Geometry, v: seq<Sector>, win: nat, st: FileState, k: nat)
    requires g.Good(|v|) && Ok(g, v, win, st) && Positioned(g, st) && st.fptr < st.objsize && k == KeptClusters(g, st)
    ensures st.chain != [] && k <= |st.chain| && InBounds(Entries(v, g), st.chain)
    ensures k == 0 ==> g.IsCluster(st.sclust)
    ensures k == 0 ==>
      RemovedBehind(Entries(v, g), st.sclust, 0, g.EndMark()) == (CutTo(Entries(v, g), st.chain, k, g.EndMark()), true)
    ensures 0 < k ==> g.IsCluster(st.clust) && Entries(v, g)[st.clust] >= 2
    ensures 0 < k < |st.chain| ==> Entries(v, g)[st.clust] == st.chain[k] && g.IsCluster(st.chain[k])
    ensures 0 < k < |st.chain| ==>
      RemovedBehind(Entries(v, g), st.chain[k], st.clust, g.EndMark()) ==
      (CutTo(Entries(v, g), st.chain, k, g.EndMark()), true)
    ensures k == |st.chain| ==> Entries(v, g)[st.clust] >= g.nFatent
  {
    hide Row;
    var fat := Entries(v, g);
    TruncateCovers(g, v, win, st);
    FirstCluster(g, v, win, st);
    EndMarkEnds(g, |v|);
    CutToSound(fat, st.chain, k, g.EndMark());
    if k == 0 {
      Chains.RemoveFromChain(fat, st.chain);
    } else {
      Chains.ChainEntry(fat, st.chain, k - 1);
      if k < |st.chain| {
        TailCut(fat, st.chain, k);
        Chains.RemoveIsCut(fat, st.clust, st.chain[k..], g.EndMark());
      }
    }
  }

  /** remove_chain's walk from c after cluster p (if any) got the end mark. */
  ghost function RemovedBehind(fat: seq<nat>, c: nat, p: nat, mark: nat): (r: (seq<nat>, bool))
    requires Chains.IsCluster(fat, c) && p < |fat|
  {
    Chains.RemoveFrom(Chains.Unlinked(fat, p, mark), c)
  }

  lemma CutToAll(fat: seq<nat>, ch: seq<nat>, mark: nat)
    requires InBounds(fat, ch) && ch != []
    ensures CutTo(fat, ch, |ch|, mark) == fat
  {
  }

  /** A dirty buffer has a data sector of its own. */
  lemma DirtySector(g: Geometry, v: seq<Sector>, win: nat, st: FileState, win': nat)
    requires g.Good(|v|) && Ok(g, v, win, st) && st.dirty && (win' == win || g.InFat1(win'))
    ensures g.database <= st.sect < |v| && st.sect != win'
  {
    OwnsData(g, |v|, st.chain, st.sect);
  }

  /** Cutting a file keeps the forest; cutting it to nothing does if nothing links to its first cluster. */
  lemma TruncateForest(g: Geometry, v: seq<Sector>, win: nat, st: FileState, k: nat)
    requires g.Good(|v|) && Ok(g, v, win, st) && k == KeptClusters(g, st)
    requires st.chain != [] && k <= |st.chain| && InBounds(Entries(v, g), st.chain)
    ensures Chains.Forest(Entries(v, g)) && (st.fptr == 0 ==> NoLinkTo(Entries(v, g), st.sclust)) ==>
      Chains.Forest(CutTo(Entries(v, g), st.chain, k, g.EndMark()))
  {
    hide Row, CutTo, Chains.Forest, NoLinkTo;
    EndMarkEnds(g, |v|);
    CutToSound(Entries(v, g), st.chain, k, g.EndMark());
  }

  /** The new clusters of a file that grew are none of another file's. */
  lemma StaysApart(g: Geometry, v0: seq<Sector>, ch0: seq<nat>, v: seq<Sector>, ch: seq<nat>, other: seq<nat>)
    requires g.Good(|v0|) && Evolves(g, v0, ch0, v, ch)
    requires Chains.IsChain(Entries(v0, g), other) && forall c | c in other :: c !in ch0
    ensures forall i | 0 <= i < |other| :: other[i] !in ch
  {
    forall i | 0 <= i < |other| ensures other[i] !in ch {
      Chains.ChainEntry(Entries(v0, g), other, i);
      assert other[i] in other;
      forall j | 0 <= j < |ch| ensures ch[j] != other[i] {
        if j < |ch0| {
          assert ch[j] == ch0[j];
          assert ch0[j] in ch0;
        }
      }
    }
  }

  /** The sector buffer is empty, or holds a sector of the file with the clusters ch. */
  ghost predicate OwnSector(g: Geometry, ch: seq<nat>, sect: nat) { sect == 0 || Owns(g, ch, sect) }

  lemma OwnGrows(g: Geometry, v0: seq<Sector>, ch0: seq<nat>, v: seq<Sector>, ch: seq<nat>, sect: nat)
    requires g.Good(|v0|) && Evolves(g, v0, ch0, v, ch)
    ensures OwnSector(g, ch0, sect) ==> OwnSector(g, ch, sect)
  {
    hide Entries;
    if Owns(g, ch0, sect) {
      OwnsPrefix(g, ch0, ch, sect);
    }
  }

  /**
   After f_truncate the buffer still holds a sector of the file exactly when it held one of a cluster that is kept:
   j is the number of that sector in the file.
   */
  lemma TruncateSector(g: Geometry, size: nat, st: FileState, j: nat)
    requires g.Good(size) && Clusters(g, st.chain) && Row(g.csize, j) < |st.chain| && KeptClusters(g, st) <= |st.chain|
    requires st.sect == Lba(g, st.chain, j)
    ensures OwnSector(g, st.chain[..KeptClusters(g, st)], st.sect)
      <==> st.fptr > 0 && Row(g.csize, j) <= Row(g.csize, (st.fptr - 1) / 512)
  {
    hide Row, Col;
    var k, n := KeptClusters(g, st), Row(g.csize, j);
    var kept := st.chain[..k];
    LbaInside(g, size, st.chain, j);
    assert InCluster(g, st.chain[n], st.sect);
    if n < k {
      assert kept[n] == st.chain[n];
    } else if Owns(g, kept, st.sect) {
      var i :| 0 <= i < |kept| && InCluster(g, kept[i], st.sect);
      var c, d := st.chain[i], st.chain[n];
      assert c != d;
      if c < d {
        ClustersDisjoint(g, c, d);
      } else {
        ClustersDisjoint(g, d, c);
      }
    }
  }

  /** An open file whose chain and sectors stay keeps its contents, if the window stays out of it. */
  lemma ObjectFrame(g: Geometry, v0: seq<Sector>, win0: nat, v: seq<Sector>, win: nat, st: FileState)
    requires g.Good(|v0|) && |v| == |v0| && (win == win0 || !Owns(g, st.chain, win))
    requires Ok(g, v0, win0, st) && ChainOk(g, v, st) && OwnSector(g, st.chain, st.sect)
    requires forall s | 0 <= s < |v| && Owns(g, st.chain, s) :: v[s] == v0[s]
    ensures Ok(g, v, win, st) && Content(g, v, st) == Content(g, v0, st)
  {
    hide Row, Col, Entries, ContentOf;
    if st.sect != 0 {
      OwnsData(g, |v|, st.chain, st.sect);
    }
    var u0, u := Overlay(v0, st), Overlay(v, st);
    assert forall s | 0 <= s < |v| && Owns(g, st.chain, s) :: u[s] == u0[s];
    ContentFrame(u, u0, g, st.chain, st.objsize);
  }

  /** A change that keeps off the clusters of an open file leaves it consistent, with its contents as they are. */
  lemma ConfinedObject(g: Geometry, v0: seq<Sector>, win0: nat, v: seq<Sector>, win: nat, ch: seq<nat>, st: FileState)
    requires g.Good(|v0|) && Confined(g, v0, v, ch) && Clusters(g, ch) && (win == win0 || !Owns(g, st.chain, win))
    requires Ok(g, v0, win0, st) && OwnSector(g, st.chain, st.sect)
    requires forall i | 0 <= i < |st.chain| :: st.chain[i] !in ch
    ensures Ok(g, v, win, st) && Content(g, v, st) == Content(g, v0, st)
  {
    hide Row, Col, Entries, ContentOf, Content, BufferOk;
    forall s | 0 <= s < |v| && Owns(g, st.chain, s) ensures v[s] == v0[s] {
      OwnsData(g, |v|, st.chain, s);
      OwnsDisjoint(g, st.chain, ch, s);
    }
    if st.chain != [] {
      ConfinedOther(g, v0, v, ch, st.chain, st.objsize);
    }
    assert ChainOk(g, v, st);
    ObjectFrame(g, v0, win0, v, win, st);
  }

  /** The first FAT and the sectors of other clusters are not a file's. */
  lemma OutsideObject(g: Geometry, size: nat, ch: seq<nat>, s: nat, other: seq<nat>)
    requires g.Good(size) && Clusters(g, ch) && Clusters(g, other) && forall i | 0 <= i < |other| :: other[i] !in ch
    ensures g.InFat1(s) || Owns(g, ch, s) ==> !Owns(g, other, s)
  {
    hide Owns;
    if g.InFat1(s) {
      NotOwned(g, size, other, s);
    } else if Owns(g, ch, s) {
      ApartSym(ch, other);
      OwnsDisjoint(g, ch, other, s);
    }
  }

  lemma ApartSym(a: seq<nat>, b: seq<nat>)
    requires forall i | 0 <= i < |b| :: b[i] !in a
    ensures forall i | 0 <= i < |a| :: a[i] !in b
  {
  }

  /**
   What reading, writing or seeking in one file does to another open file: nothing.  It stays consistent, with
   its unwritten buffer and its contents.  Its buffer must hold a sector of its own, if any.
   */
  lemma OtherObject(g: Geometry, v0: seq<Sector>, win0: nat, ch0: seq<nat>, v: seq<Sector>, win: nat, ch: seq<nat>,
                    st: FileState)
    requires g.Good(|v0|) && Evolves(g, v0, ch0, v, ch) && Clusters(g, ch)
    requires win == win0 || g.InFat1(win) || Owns(g, ch, win)
    requires Ok(g, v0, win0, st) && OwnSector(g, st.chain, st.sect) && forall c | c in st.chain :: c !in ch0
    ensures Ok(g, v, win, st) && Content(g, v, st) == Content(g, v0, st)
  {
    hide Content, BufferOk, Chains.IsChain;
    if st.chain != [] {
      StaysApart(g, v0, ch0, v, ch, st.chain);
    }
    OutsideObject(g, |v0|, ch, win, st.chain);
    ConfinedObject(g, v0, win0, v, win, ch, st);
  }
}
