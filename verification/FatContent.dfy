/**
 The contents of a file as a value: the bytes of the clusters on its chain, cut at the file size.
 Positions are counted in sectors; Row and Col say which cluster of the chain a sector of the file is
 in and where in that cluster, without division by the cluster size.
 */
module FatContent {
  import opened FatLayout

  ghost function Col(csize: nat, k: nat): (c: nat)
    requires csize > 0
    ensures c < csize
  {
    if k == 0 then 0 else if Col(csize, k - 1) + 1 < csize then Col(csize, k - 1) + 1 else 0
  }

  ghost function Row(csize: nat, k: nat): (r: nat)
    requires csize > 0
    ensures r <= k
  {
    if k == 0 then 0 else if Col(csize, k - 1) + 1 < csize then Row(csize, k - 1) else Row(csize, k - 1) + 1
  }

  lemma OneMore(a: int, b: int)
    ensures a * (b + 1) == a * b + a
  {
  }

  lemma {:induction false} RowCol(csize: nat, k: nat)
    requires csize > 0
    ensures k == csize * Row(csize, k) + Col(csize, k)
  {
    if k > 0 {
      RowCol(csize, k - 1);
      OneMore(csize, Row(csize, k - 1));
    }
  }

  lemma MulAtLeast(d: int, x: int)
    requires 0 < d && 1 <= x
    ensures d <= d * x
  {
  }

  lemma DivModUnique(k: int, d: int, q: int, r: int)
    requires 0 < d && k == d * q + r && 0 <= r < d
    ensures k / d == q && k % d == r
  {
    var q', r' := k / d, k % d;
    assert k == d * q' + r';
    assert d * (q - q') == d * q - d * q';
    assert d * (q' - q) == d * q' - d * q;
    if q > q' {
      MulAtLeast(d, q - q');
    } else if q < q' {
      MulAtLeast(d, q' - q);
    }
  }

  /** At a cluster boundary the next cluster of the chain starts. */
  lemma RowNext(csize: nat, k: nat)
    requires csize > 0 && k > 0
    ensures Row(csize, k) == if Col(csize, k) == 0 then Row(csize, k - 1) + 1 else Row(csize, k - 1)
  {
  }

  /** The code's own way of computing Row and Col. */
  lemma RowColFormula(csize: nat, k: nat)
    requires csize > 0
    ensures Row(csize, k) == k / csize && Col(csize, k) == k % csize
  {
    RowCol(csize, k);
    DivModUnique(k, csize, Row(csize, k), Col(csize, k));
  }

  lemma {:induction false} RowMonotone(csize: nat, j: nat, k: nat)
    requires csize > 0 && j <= k
    ensures Row(csize, j) <= Row(csize, k)
    decreases k
  {
    if j < k {
      RowMonotone(csize, j, k - 1);
    }
  }

  lemma {:induction false} RowAdvance(csize: nat, k: nat, d: nat)
    requires csize > 0 && Col(csize, k) + d < csize
    ensures Row(csize, k + d) == Row(csize, k) && Col(csize, k + d) == Col(csize, k) + d
    decreases d
  {
    if d > 0 {
      RowAdvance(csize, k, d - 1);
    }
  }

  lemma RowColInjective(csize: nat, j: nat, k: nat)
    requires csize > 0 && Row(csize, j) == Row(csize, k) && Col(csize, j) == Col(csize, k)
    ensures j == k
  {
    RowCol(csize, j);
    RowCol(csize, k);
  }

  /** Within a run of sectors of one cluster, the sector at distance d is the only one there. */
  lemma RunOfSectors(csize: nat, k: nat, cc: nat, j: nat)
    requires csize > 0 && Col(csize, k) + cc <= csize
    requires Row(csize, j) == Row(csize, k) && Col(csize, k) <= Col(csize, j) < Col(csize, k) + cc
    ensures k <= j < k + cc && Col(csize, j) - Col(csize, k) == j - k
  {
    hide Row, Col;
    var d := Col(csize, j) - Col(csize, k);
    RowAdvance(csize, k, d);
    RowColInjective(csize, j, k + d);
  }

  // ---------- whole clusters ----------

  /** One cluster further on. */
  lemma RowSkip(csize: nat, k: nat)
    requires csize > 0 && Col(csize, k) == 0
    ensures Row(csize, k + csize) == Row(csize, k) + 1 && Col(csize, k + csize) == 0
  {
    RowAdvance(csize, k, csize - 1);
  }

  lemma MulAssoc(a: int, b: int, c: int)
    ensures a * b * c == a * (b * c)
  {
  }

  lemma QuotientTimes(p: nat, d: nat)
    requires d > 0
    ensures 0 <= p / d && 0 <= p / d * d
  {
  }

  /** The start of the cluster byte p is in, as f_lseek computes it. */
  function StartOf(csize: nat, p: nat): nat
    requires csize > 0
  {
    QuotientTimes(p, 512 * csize);
    p / (512 * csize) * (512 * csize)
  }

  /** The cluster a byte is in, and the start of that cluster, by division with the cluster size in bytes. */
  lemma ClusterStart(csize: nat, p: nat)
    requires csize > 0
    ensures p / (512 * csize) == Row(csize, p / 512)
    ensures var f := StartOf(csize, p);
      f % 512 == 0 && f <= p < f + 512 * csize
      && Row(csize, f / 512) == Row(csize, p / 512) && Col(csize, f / 512) == 0
  {
    hide Row, Col;
    var q, c := Row(csize, p / 512), Col(csize, p / 512);
    RowCol(csize, p / 512);
    var k := csize * q;
    MulAssoc(512, csize, q);
    DivModUnique(p, 512 * csize, q, 512 * c + p % 512);
    DivModUnique(k, csize, q, 0);
    RowColFormula(csize, k);
    var f := q * (512 * csize);
    assert f == 512 * k;
    assert f / 512 == k && f % 512 == 0;
  }

  lemma QuotientMonotone(p: nat, q: nat, d: nat)
    requires d > 0 && p / d <= q / d
    ensures p / d * d <= q
  {
    var a, b := p / d, q / d;
    assert (b - a) * d == b * d - a * d;
    MulNonneg(b - a, d);
    assert q == b * d + q % d;
  }

  lemma MulNonneg(a: int, b: int)
    requires 0 <= a && 0 <= b
    ensures 0 <= a * b
  {
  }

  /** Places up to one cluster behind the start f of the file's i-th cluster. */
  lemma WithinCluster(csize: nat, f: nat, ofs: nat)
    requires csize > 0 && f % 512 == 0 && Col(csize, f / 512) == 0 && 0 < ofs <= 512 * csize
    ensures Row(csize, (f + ofs - 1) / 512) == Row(csize, f / 512) && (f + ofs) % 512 == ofs % 512
    ensures ofs % 512 != 0 ==> ofs / 512 < csize
    ensures ofs % 512 != 0 ==>
      Row(csize, (f + ofs) / 512) == Row(csize, f / 512) && Col(csize, (f + ofs) / 512) == ofs / 512
  {
    hide Row, Col;
    var k := f / 512;
    assert (f + ofs - 1) / 512 == k + (ofs - 1) / 512;
    RowAdvance(csize, k, (ofs - 1) / 512);
    if ofs % 512 != 0 {
      assert (f + ofs) / 512 == k + ofs / 512;
      RowAdvance(csize, k, ofs / 512);
    }
  }

  // ---------- chains of clusters as sectors ----------

  /** The clusters of a file: valid cluster numbers, none twice. */
  ghost predicate Clusters(g: Geometry, ch: seq<nat>) {
    && (forall i | 0 <= i < |ch| :: g.IsCluster(ch[i]))
    && (forall i, j | 0 <= i < j < |ch| :: ch[i] != ch[j])
  }

  lemma MulMonotone(d: nat, x: nat, y: nat)
    requires x <= y
    ensures d * x <= d * y
  {
    MulNonneg(d, y - x);
    assert d * y - d * x == d * (y - x);
  }

  lemma RowBelow(csize: nat, n: nat, k: nat)
    requires csize > 0
    ensures Row(csize, k) < n <==> k < csize * n
  {
    hide Row, Col;
    RowCol(csize, k);
    if Row(csize, k) < n {
      MulMonotone(csize, Row(csize, k) + 1, n);
      OneMore(csize, Row(csize, k));
    } else {
      MulMonotone(csize, n, Row(csize, k));
    }
  }

  /** Sector s belongs to cluster c. */
  predicate InCluster(g: Geometry, c: nat, s: int) {
    g.ClusterBase(c) <= s < g.ClusterBase(c) + g.csize
  }

  /** Sector s belongs to one of the clusters of ch. */
  ghost predicate Owns(g: Geometry, ch: seq<nat>, s: int) {
    exists i :: 0 <= i < |ch| && InCluster(g, ch[i], s)
  }

  /** The chain is long enough for size bytes. */
  ghost predicate Covers(g: Geometry, ch: seq<nat>, size: nat)
    requires g.csize > 0
  {
    size == 0 || Row(g.csize, (size - 1) / 512) < |ch|
  }

  lemma CoversLess(g: Geometry, ch: seq<nat>, size: nat, i: nat)
    requires g.csize > 0 && Covers(g, ch, size) && i < size
    ensures Row(g.csize, i / 512) < |ch|
  {
    RowMonotone(g.csize, i / 512, (size - 1) / 512);
  }

  /** The device sector of the file's k-th sector. */
  ghost function Lba(g: Geometry, ch: seq<nat>, k: nat): (s: nat)
    requires g.csize > 0 && Row(g.csize, k) < |ch|
  {
    g.ClusterBase(ch[Row(g.csize, k)]) + Col(g.csize, k)
  }

  lemma LbaInside(g: Geometry, size: nat, ch: seq<nat>, k: nat)
    requires g.Good(size) && Clusters(g, ch) && Row(g.csize, k) < |ch|
    ensures Owns(g, ch, Lba(g, ch, k)) && g.database <= Lba(g, ch, k) < size
  {
    hide Row, Col;
    var c := ch[Row(g.csize, k)];
    assert InCluster(g, c, Lba(g, ch, k));
    ClustersDisjoint(g, c, g.nFatent);
  }

  /** The file's j-th sector lies in the run of cc sectors from its k-th only if it is one of them. */
  lemma LbaRun(g: Geometry, ch: seq<nat>, k: nat, cc: nat, j: nat)
    requires g.csize > 0 && Clusters(g, ch) && Row(g.csize, k) < |ch| && Row(g.csize, j) < |ch|
    requires Col(g.csize, k) + cc <= g.csize
    ensures Lba(g, ch, k) <= Lba(g, ch, j) < Lba(g, ch, k) + cc <==> k <= j < k + cc
    ensures k <= j < k + cc ==> Lba(g, ch, j) == Lba(g, ch, k) + (j - k)
  {
    hide Row, Col;
    var c, d := ch[Row(g.csize, k)], ch[Row(g.csize, j)];
    if k <= j < k + cc {
      RowAdvance(g.csize, k, j - k);
    } else if c == d {
      if Col(g.csize, k) <= Col(g.csize, j) < Col(g.csize, k) + cc {
        RunOfSectors(g.csize, k, cc, j);
      }
    } else if c < d {
      ClustersDisjoint(g, c, d);
    } else {
      ClustersDisjoint(g, d, c);
    }
  }

  // ---------- contents ----------

  /** Byte i of the file with the clusters ch on the sectors v. */
  ghost function FileByte(v: seq<Sector>, g: Geometry, ch: seq<nat>, i: nat): byte
    requires g.Good(|v|) && Clusters(g, ch) && Row(g.csize, i / 512) < |ch|
  {
    LbaInside(g, |v|, ch, i / 512);
    v[Lba(g, ch, i / 512)][i % 512]
  }

  ghost function ContentOf(v: seq<Sector>, g: Geometry, ch: seq<nat>, size: nat): (s: seq<byte>)
    requires g.Good(|v|) && Clusters(g, ch) && Covers(g, ch, size)
    ensures |s| == size
  {
    seq(size, i requires 0 <= i < size => CoversLess(g, ch, size, i); FileByte(v, g, ch, i))
  }

  /**
   Byte i of a file lies in cluster number i / 512 / csize of its chain, there in sector i / 512 % csize, at byte
   i % 512; the first cluster is number 2.
   */
  lemma FileBytePlace(v: seq<Sector>, g: Geometry, ch: seq<nat>, size: nat, i: nat)
    requires g.Good(|v|) && Clusters(g, ch) && Covers(g, ch, size) && i < size
    ensures i / 512 / g.csize < |ch|
    ensures var s := g.database + g.csize * (ch[i / 512 / g.csize] - 2) + i / 512 % g.csize;
      0 <= s < |v| && ContentOf(v, g, ch, size)[i] == v[s][i % 512]
  {
    hide Row, Col;
    CoversLess(g, ch, size, i);
    RowColFormula(g.csize, i / 512);
    LbaInside(g, |v|, ch, i / 512);
    ClusterBaseFormula(g, ch[i / 512 / g.csize]);
  }

  /** c with d written over it from position p on; it grows if d reaches past the end. */
  function Overwrite(c: seq<byte>, p: nat, d: seq<byte>): (r: seq<byte>)
    requires p <= |c|
    ensures |r| == if p + |d| > |c| then p + |d| else |c|
  {
    c[..p] + d + if p + |d| < |c| then c[p + |d|..] else []
  }

  lemma OverwriteAt(c: seq<byte>, p: nat, d: seq<byte>, i: nat)
    requires p <= |c| && i < |Overwrite(c, p, d)|
    ensures p <= i < p + |d| ==> Overwrite(c, p, d)[i] == d[i - p]
    ensures !(p <= i < p + |d|) ==> i < |c| && Overwrite(c, p, d)[i] == c[i]
  {
  }

  lemma ContentAt(v: seq<Sector>, g: Geometry, ch: seq<nat>, size: nat, i: nat)
    requires g.Good(|v|) && Clusters(g, ch) && Covers(g, ch, size) && i < size
    ensures Row(g.csize, i / 512) < |ch|
    ensures ContentOf(v, g, ch, size)[i] == FileByte(v, g, ch, i)
  {
    hide Row, Col;
    CoversLess(g, ch, size, i);
  }

  lemma OverwriteNothing(c: seq<byte>, p: nat, d: seq<byte>)
    requires p <= |c| && d == []
    ensures Overwrite(c, p, d) == c
  {
  }

  /** Overwriting with two consecutive slices of w. */
  lemma OverwriteSlices(c: seq<byte>, p: nat, w: seq<byte>, n: nat, m: nat)
    requires p <= |c| && n + m <= |w|
    ensures p + n <= |Overwrite(c, p, w[..n])|
    ensures Overwrite(Overwrite(c, p, w[..n]), p + n, w[n..n + m]) == Overwrite(c, p, w[..n + m])
  {
    OverwriteTwice(c, p, w[..n], w[n..n + m]);
    assert w[..n] + w[n..n + m] == w[..n + m];
  }

  lemma OverwriteTwice(c: seq<byte>, p: nat, d: seq<byte>, e: seq<byte>)
    requires p <= |c|
    ensures Overwrite(Overwrite(c, p, d), p + |d|, e) == Overwrite(c, p, d + e)
  {
  }

  /** Sectors outside the file do not matter. */
  lemma ContentFrame(v: seq<Sector>, w: seq<Sector>, g: Geometry, ch: seq<nat>, size: nat)
    requires g.Good(|v|) && |w| == |v| && Clusters(g, ch) && Covers(g, ch, size)
    requires forall s | 0 <= s < |v| && Owns(g, ch, s) :: v[s] == w[s]
    ensures ContentOf(v, g, ch, size) == ContentOf(w, g, ch, size)
  {
    hide Row, Col;
    forall i: nat | i < size ensures ContentOf(v, g, ch, size)[i] == ContentOf(w, g, ch, size)[i] {
      CoversLess(g, ch, size, i);
      LbaInside(g, |v|, ch, i / 512);
    }
  }

  /** Appending a cluster to the chain leaves the contents alone. */
  lemma ContentExtend(v: seq<Sector>, g: Geometry, ch: seq<nat>, c: nat, size: nat)
    requires g.Good(|v|) && Clusters(g, ch + [c]) && Clusters(g, ch) && Covers(g, ch, size)
    ensures Covers(g, ch + [c], size)
    ensures ContentOf(v, g, ch + [c], size) == ContentOf(v, g, ch, size)
  {
    hide Row, Col;
    forall i: nat | i < size ensures ContentOf(v, g, ch + [c], size)[i] == ContentOf(v, g, ch, size)[i] {
      CoversLess(g, ch, size, i);
      assert (ch + [c])[Row(g.csize, i / 512)] == ch[Row(g.csize, i / 512)];
    }
  }

  lemma WriteFits(g: Geometry, size: nat, ch: seq<nat>, k: nat, cc: nat)
    requires g.Good(size) && Clusters(g, ch) && Row(g.csize, k) < |ch|
    requires 0 < cc && Col(g.csize, k) + cc <= g.csize
    ensures Lba(g, ch, k) + cc <= size
  {
    hide Row, Col;
    RowAdvance(g.csize, k, cc - 1);
    LbaInside(g, size, ch, k + cc - 1);
  }

  lemma WrittenByte(v: seq<Sector>, g: Geometry, ch: seq<nat>, k: nat, data: seq<byte>, i: nat)
    requires g.Good(|v|) && Clusters(g, ch) && Row(g.csize, k) < |ch| && Row(g.csize, i / 512) < |ch|
    requires |data| % 512 == 0 && |data| > 0 && Col(g.csize, k) + |data| / 512 <= g.csize
    ensures Lba(g, ch, k) + |data| / 512 <= |v|
    ensures FileByte(WriteSectors(v, Lba(g, ch, k), data), g, ch, i)
         == if 512 * k <= i < 512 * k + |data| then data[i - 512 * k] else FileByte(v, g, ch, i)
  {
    hide Row, Col, Clusters;
    WriteFits(g, |v|, ch, k, |data| / 512);
    LbaInside(g, |v|, ch, i / 512);
    LbaRun(g, ch, k, |data| / 512, i / 512);
  }

  /** Writing whole sectors of one cluster overwrites the corresponding part of the file. */
  lemma ContentWrite(v: seq<Sector>, g: Geometry, ch: seq<nat>, size: nat, size': nat, k: nat, data: seq<byte>)
    requires g.Good(|v|) && Clusters(g, ch) && Covers(g, ch, size) && Covers(g, ch, size')
    requires |data| % 512 == 0 && |data| > 0 && 512 * k <= size
    requires size' == if 512 * k + |data| > size then 512 * k + |data| else size
    requires Row(g.csize, k) < |ch| && Col(g.csize, k) + |data| / 512 <= g.csize
    ensures Lba(g, ch, k) + |data| / 512 <= |v|
    ensures ContentOf(WriteSectors(v, Lba(g, ch, k), data), g, ch, size')
         == Overwrite(ContentOf(v, g, ch, size), 512 * k, data)
  {
    hide Row, Col, Clusters;
    WriteFits(g, |v|, ch, k, |data| / 512);
    var w := WriteSectors(v, Lba(g, ch, k), data);
    var c := ContentOf(v, g, ch, size);
    var c', o := ContentOf(w, g, ch, size'), Overwrite(c, 512 * k, data);
    forall i: nat | i < size' ensures c'[i] == o[i] {
      ContentAt(w, g, ch, size', i);
      WrittenByte(v, g, ch, k, data, i);
      OverwriteAt(c, 512 * k, data, i);
      if !(512 * k <= i < 512 * k + |data|) {
        ContentAt(v, g, ch, size, i);
      }
    }
  }

  /** Replacing the file's k-th sector by s. */
  lemma ContentSector(v: seq<Sector>, g: Geometry, ch: seq<nat>, k: nat, s: Sector, i: nat)
    requires g.Good(|v|) && Clusters(g, ch) && Row(g.csize, k) < |ch| && Row(g.csize, i / 512) < |ch|
    ensures Lba(g, ch, k) < |v|
    ensures FileByte(v[Lba(g, ch, k) := s], g, ch, i) == if i / 512 == k then s[i % 512] else FileByte(v, g, ch, i)
  {
    hide Row, Col;
    LbaInside(g, |v|, ch, k);
    LbaInside(g, |v|, ch, i / 512);
    LbaRun(g, ch, k, 1, i / 512);
  }

  /** A larger file size only adds bytes. */
  lemma ContentGrow(v: seq<Sector>, g: Geometry, ch: seq<nat>, size: nat, size': nat)
    requires g.Good(|v|) && Clusters(g, ch) && Covers(g, ch, size) && Covers(g, ch, size') && size <= size'
    ensures ContentOf(v, g, ch, size')[..size] == ContentOf(v, g, ch, size)
  {
    hide Row, Col;
    var a, b := ContentOf(v, g, ch, size')[..size], ContentOf(v, g, ch, size);
    forall i | 0 <= i < size ensures a[i] == b[i] {
      ContentAt(v, g, ch, size', i);
      ContentAt(v, g, ch, size, i);
    }
  }

  /** The first clusters of a file hold the first bytes of its contents. */
  lemma ContentPrefix(v: seq<Sector>, g: Geometry, ch: seq<nat>, k: nat, size: nat, size': nat)
    requires g.Good(|v|) && Clusters(g, ch) && k <= |ch| && Covers(g, ch, size) && Covers(g, ch[..k], size')
    requires size' <= size
    ensures Clusters(g, ch[..k])
    ensures ContentOf(v, g, ch[..k], size') == ContentOf(v, g, ch, size)[..size']
  {
    hide Row, Col;
    var a, b := ContentOf(v, g, ch[..k], size'), ContentOf(v, g, ch, size)[..size'];
    forall i | 0 <= i < size' ensures a[i] == b[i] {
      ContentAt(v, g, ch[..k], size', i);
      ContentAt(v, g, ch, size, i);
      assert ch[..k][Row(g.csize, i / 512)] == ch[Row(g.csize, i / 512)];
    }
  }

  /** Filling part of one sector; beyond the end of the file the new sector may hold anything. */
  lemma ContentBuffer(v: seq<Sector>, g: Geometry, ch: seq<nat>, size: nat, size': nat,
                      k: nat, o: nat, s: Sector, data: seq<byte>)
    requires g.Good(|v|) && Clusters(g, ch) && Covers(g, ch, size) && Covers(g, ch, size')
    requires Row(g.csize, k) < |ch| && 0 < |data| && o + |data| <= 512 && 512 * k + o <= size
    requires size' == if 512 * k + o + |data| > size then 512 * k + o + |data| else size
    requires Lba(g, ch, k) < |v|
    requires s[o..o + |data|] == data
    requires forall j | 0 <= j < 512 && !(o <= j < o + |data|) && 512 * k + j < size :: s[j] == v[Lba(g, ch, k)][j]
    ensures ContentOf(v[Lba(g, ch, k) := s], g, ch, size')
         == Overwrite(ContentOf(v, g, ch, size), 512 * k + o, data)
  {
    hide Row, Col, Clusters;
    var w, p, c := v[Lba(g, ch, k) := s], 512 * k + o, ContentOf(v, g, ch, size);
    var c', r := ContentOf(w, g, ch, size'), Overwrite(c, p, data);
    forall i: nat | i < size' ensures c'[i] == r[i] {
      ContentAt(w, g, ch, size', i);
      ContentSector(v, g, ch, k, s, i);
      OverwriteAt(c, p, data, i);
      if p <= i < p + |data| {
        SplitPosition(k, o + (i - p));
        assert data[i - p] == s[o + (i - p)];
      } else {
        ContentAt(v, g, ch, size, i);
      }
    }
  }

  lemma SplitPosition(k: nat, x: nat)
    requires x < 512
    ensures (512 * k + x) / 512 == k && (512 * k + x) % 512 == x
  {
  }

  lemma WholeSectors(cc: nat)
    ensures 512 * cc % 512 == 0 && 512 * cc / 512 == cc
  {
  }

  /** The sector k of the file as the part of the contents it holds. */
  lemma ContentSlice(v: seq<Sector>, g: Geometry, ch: seq<nat>, size: nat, k: nat, o: nat, n: nat)
    requires g.Good(|v|) && Clusters(g, ch) && Covers(g, ch, size)
    requires 0 < n && o + n <= 512 && 512 * k + o + n <= size
    ensures Row(g.csize, k) < |ch| && Lba(g, ch, k) < |v|
    ensures v[Lba(g, ch, k)][o..o + n] == ContentOf(v, g, ch, size)[512 * k + o..512 * k + o + n]
  {
    hide Row, Col, Clusters;
    CoversLess(g, ch, size, 512 * k + o);
    LbaInside(g, |v|, ch, k);
    var c := ContentOf(v, g, ch, size);
    var a, b := v[Lba(g, ch, k)][o..o + n], c[512 * k + o..512 * k + o + n];
    forall j | 0 <= j < n ensures a[j] == b[j] {
      SplitPosition(k, o + j);
      var i := 512 * k + o + j;
      ContentAt(v, g, ch, size, i);
      assert b[j] == c[i] == FileByte(v, g, ch, i);
    }
  }
}
