/**
 Where a directory lies on the volume: in the clusters of its chain, or in the root directory area of a FAT12 or
 FAT16 volume; and its table of entries as a value of the sectors.
 */
module DirTables {
  import opened FatLayout
  import opened FatWindow
  import opened FatContent
  import opened FatFileState
  import opened LongNames
  import opened Directories
  import Chains = FatChains

  /** A table has no more than 0x200000 bytes, whatever its chain is. */
  const MAX_SECTORS := 0x1000

  /** The root directory area of a FAT12 or FAT16 volume, as mounting leaves it. */
  predicate RootArea(g: Geometry) {
    && !g.fsType.Fat32? && g.fatbase + g.FatSectors() <= g.dirbase && g.dirbase + g.nRootdir / 16 <= g.database
    && g.nRootdir % 16 == 0 && 0 < g.nRootdir < 0x1_0000
  }

  /** The directory has the clusters ch; without clusters it is the root directory area. */
  ghost predicate DirGood(g: Geometry, size: nat, ch: seq<nat>) {
    g.Good(size) && Clusters(g, ch) && (ch == [] ==> RootArea(g))
  }

  /** Number of sectors of the table. */
  ghost function Count(g: Geometry, ch: seq<nat>): nat {
    if ch == [] then g.nRootdir / 16 else if g.csize * |ch| < MAX_SECTORS then g.csize * |ch| else MAX_SECTORS
  }

  /** The device sector of the table's k-th sector. */
  ghost function SectorOf(g: Geometry, ch: seq<nat>, k: nat): nat
    requires g.csize > 0
  {
    if ch == [] then g.dirbase + k else if Row(g.csize, k) < |ch| then Lba(g, ch, k) else 0
  }

  /** The i-th entry in sector s. */
  function Slot(v: seq<Sector>, s: nat, i: nat): DirEntry
    requires i < 16
  {
    if s < |v| then v[s][32 * i..32 * i + 32] else Unused()
  }

  /** The entries of the table. */
  ghost function EntriesIn(v: seq<Sector>, g: Geometry, ch: seq<nat>): (t: seq<DirEntry>)
    requires g.csize > 0
    ensures |t| == 16 * Count(g, ch)
  {
    seq(16 * Count(g, ch), k requires 0 <= k < 16 * Count(g, ch) => Slot(v, SectorOf(g, ch, k / 16), k % 16))
  }

  /** Entry k of the root directory area is at byte 32 * (k % 16) of sector k / 16 of that area. */
  lemma AreaEntryPlace(v: seq<Sector>, g: Geometry, k: nat)
    requires g.Good(|v|) && RootArea(g) && k < g.nRootdir
    ensures |EntriesIn(v, g, [])| == g.nRootdir && g.dirbase + k / 16 < |v|
    ensures EntriesIn(v, g, [])[k] == v[g.dirbase + k / 16][32 * (k % 16)..32 * (k % 16) + 32]
  {
    ClustersDisjoint(g, 2, g.nFatent);
  }

  /** Entry k of any other directory is there in sector k / 16 of its clusters. */
  lemma EntryPlace(v: seq<Sector>, g: Geometry, ch: seq<nat>, k: nat)
    requires DirGood(g, |v|, ch) && ch != [] && k < |EntriesIn(v, g, ch)|
    ensures k / 16 / g.csize < |ch|
    ensures var s := g.database + g.csize * (ch[k / 16 / g.csize] - 2) + k / 16 % g.csize;
      0 <= s < |v| && EntriesIn(v, g, ch)[k] == v[s][32 * (k % 16)..32 * (k % 16) + 32]
  {
    hide Row, Col;
    InTable(g, |v|, ch, k / 16);
    RowColFormula(g.csize, k / 16);
    ClusterBaseFormula(g, ch[k / 16 / g.csize]);
  }

  /** Sector s belongs to the directory. */
  ghost predicate TableSector(g: Geometry, ch: seq<nat>, s: int) {
    if ch == [] then g.dirbase <= s < g.dirbase + g.nRootdir / 16 else Owns(g, ch, s)
  }

  /** The sectors of a table lie on the volume outside the FATs. */
  lemma InTable(g: Geometry, size: nat, ch: seq<nat>, k: nat)
    requires DirGood(g, size, ch) && k < Count(g, ch)
    ensures 0 < SectorOf(g, ch, k) < size && !g.InFat1(SectorOf(g, ch, k)) && !g.InFat2(SectorOf(g, ch, k))
    ensures TableSector(g, ch, SectorOf(g, ch, k)) && (ch != [] ==> Row(g.csize, k) < |ch|)
  {
    hide Row, Col, Owns;
    ClustersDisjoint(g, 2, g.nFatent);
    if ch != [] {
      RowBelow(g.csize, |ch|, k);
      LbaInside(g, size, ch, k);
    }
  }

  /** Different sectors of a table are different sectors of the device. */
  lemma SectorsApart(g: Geometry, size: nat, ch: seq<nat>, j: nat, k: nat)
    requires DirGood(g, size, ch) && j < Count(g, ch) && k < Count(g, ch) && SectorOf(g, ch, j) == SectorOf(g, ch, k)
    ensures j == k
  {
    hide Row, Col;
    if ch != [] {
      RowBelow(g.csize, |ch|, j);
      RowBelow(g.csize, |ch|, k);
      var c, d := ch[Row(g.csize, j)], ch[Row(g.csize, k)];
      if c < d {
        ClustersDisjoint(g, c, d);
      } else if d < c {
        ClustersDisjoint(g, d, c);
      }
      RowColInjective(g.csize, j, k);
    }
  }

  /** Changes outside the sectors of a table do not matter to it. */
  lemma EntriesFrame(v: seq<Sector>, w: seq<Sector>, g: Geometry, ch: seq<nat>)
    requires DirGood(g, |v|, ch) && |w| == |v| && forall s | 0 <= s < |v| && TableSector(g, ch, s) :: w[s] == v[s]
    ensures EntriesIn(w, g, ch) == EntriesIn(v, g, ch)
  {
    hide SectorOf, TableSector;
    forall k | 0 <= k < 16 * Count(g, ch)
      ensures EntriesIn(w, g, ch)[k] == EntriesIn(v, g, ch)[k]
    {
      InTable(g, |v|, ch, k / 16);
    }
  }

  lemma TableOutsideFats(g: Geometry, size: nat, ch: seq<nat>, s: int)
    requires DirGood(g, size, ch) && TableSector(g, ch, s)
    ensures 0 < s < size && !g.InFat1(s) && !g.InFat2(s)
  {
    if ch == [] {
      ClustersDisjoint(g, 2, g.nFatent);
    } else {
      OwnsData(g, size, ch, s);
    }
  }

  /** What changes the FATs only does not matter to a table. */
  lemma EntriesKept(v: seq<Sector>, w: seq<Sector>, g: Geometry, ch: seq<nat>)
    requires DirGood(g, |v|, ch) && KeepsData(g, v, w)
    ensures EntriesIn(w, g, ch) == EntriesIn(v, g, ch)
  {
    hide TableSector;
    forall s | 0 <= s < |v| && TableSector(g, ch, s)
      ensures w[s] == v[s]
    {
      TableOutsideFats(g, |v|, ch, s);
    }
    EntriesFrame(v, w, g, ch);
  }

  /** Changing one entry of a sector changes one entry of the table. */
  lemma EntryWritten(v: seq<Sector>, g: Geometry, ch: seq<nat>, k: nat, x: Sector)
    requires DirGood(g, |v|, ch) && k < 16 * Count(g, ch)
    requires SectorOf(g, ch, k / 16) < |v|
    requires forall o | 0 <= o < 512 && !(32 * (k % 16) <= o < 32 * (k % 16) + 32) ::
      x[o] == v[SectorOf(g, ch, k / 16)][o]
    ensures EntriesIn(v[SectorOf(g, ch, k / 16) := x], g, ch)
         == EntriesIn(v, g, ch)[k := x[32 * (k % 16)..32 * (k % 16) + 32]]
  {
    hide SectorOf, Count;
    var s, i := SectorOf(g, ch, k / 16), k % 16;
    var w, t := v[s := x], EntriesIn(v, g, ch);
    forall j | 0 <= j < 16 * Count(g, ch)
      ensures EntriesIn(w, g, ch)[j] == t[k := x[32 * i..32 * i + 32]][j]
    {
      InTable(g, |v|, ch, j / 16);
      if SectorOf(g, ch, j / 16) == s {
        SectorsApart(g, |v|, ch, j / 16, k / 16);
        if j != k {
          SlotsApart(v[s], x, i, j % 16);
        }
      }
    }
  }

  lemma SlotsApart(a: Sector, b: Sector, i: nat, j: nat)
    requires i < 16 && j < 16 && i != j && forall o | 0 <= o < 512 && !(32 * i <= o < 32 * i + 32) :: b[o] == a[o]
    ensures b[32 * j..32 * j + 32] == a[32 * j..32 * j + 32]
  {
  }

  /** n unused entries. */
  function Blanks(n: nat): seq<DirEntry> { seq(n, _ => Unused()) }

  /** A cleared cluster adds unused entries to the table. */
  lemma EntriesGrow(v: seq<Sector>, w: seq<Sector>, g: Geometry, ch: seq<nat>, c: nat)
    requires DirGood(g, |v|, ch) && DirGood(g, |w|, ch + [c]) && |w| == |v| && ch != [] && Count(g, ch) < MAX_SECTORS
    requires forall s | 0 <= s < |v| && Owns(g, ch, s) :: w[s] == v[s]
    requires forall s | 0 <= s < |v| && InCluster(g, c, s) :: w[s] == seq(512, _ => 0)
    ensures Count(g, ch) < Count(g, ch + [c])
    ensures EntriesIn(w, g, ch + [c]) == EntriesIn(v, g, ch) + Blanks(16 * (Count(g, ch + [c]) - Count(g, ch)))
  {
    hide Row, Col;
    var ch' := ch + [c];
    OneMore(g.csize, |ch|);
    forall k | 0 <= k < 16 * Count(g, ch')
      ensures EntriesIn(w, g, ch')[k] == (EntriesIn(v, g, ch) + Blanks(16 * (Count(g, ch') - Count(g, ch))))[k]
    {
      var s := SectorOf(g, ch', k / 16);
      InTable(g, |w|, ch', k / 16);
      RowBelow(g.csize, |ch|, k / 16);
      if k < 16 * Count(g, ch) {
        InTable(g, |v|, ch, k / 16);
      } else {
        assert InCluster(g, c, s);
      }
    }
  }

  /** The table with n entries, the additional ones unused. */
  function Widened(t: seq<DirEntry>, n: nat): seq<DirEntry>
    requires |t| <= n
  {
    t + Blanks(n - |t|)
  }

  /** Unused entries more do not matter to what a table holds. */
  lemma {:induction false} WidenedLays(t: seq<DirEntry>, n: nat, p: nat, items: seq<Item>)
    requires |t| <= n && Lays(t, p, items)
    ensures Lays(Widened(t, n), p, items)
    decreases |items|
  {
    hide ItemAt, Widened;
    if items == [] {
      WidenedAt(t, n);
    } else {
      WidenedItem(t, n, p, items[0]);
      WidenedLays(t, n, p + Span(items[0]), items[1..]);
    }
  }

  lemma WidenedAt(t: seq<DirEntry>, n: nat)
    requires |t| <= n
    ensures |Widened(t, n)| == n && forall k | 0 <= k < n :: Widened(t, n)[k] == if k < |t| then t[k] else Unused()
    ensures Unused()[0] == 0
  {
  }

  lemma WidenedItem(t: seq<DirEntry>, n: nat, p: nat, it: Item)
    requires |t| <= n && ItemAt(t, p, it)
    ensures ItemAt(Widened(t, n), p, it)
  {
    hide SumSfn, IsPiece, IsShort, Widened, ScanAt;
    WidenedAt(t, n);
    SameBefore(t, Widened(t, n), p);
  }

  /** Nor do they to a search, which ends at the first unused entry. */
  lemma {:induction false} WidenedFind(up: wchar -> wchar, x: Target, t: seq<DirEntry>, n: nat, k: nat, st: Scan)
    requires |t| <= n && |x.buf| == LFN_BUF
    ensures FindFrom(up, x, Widened(t, n), k, st).0 == FindFrom(up, x, t, k, st).0
    decreases |t| - k
  {
    hide Widened, FindLong, SumSfn, IsLabel, IsLong;
    WidenedAt(t, n);
    if k < |t| {
      var e := t[k];
      WidenedFind(up, x, t, n, k + 1, Scan(0xFF, st.sum, NO_BLOCK));
      WidenedFind(up, x, t, n, k + 1, FindLong(up, x, e, k, st));
    }
  }
}
