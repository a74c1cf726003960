/**
 Directory tables: finding an entry by name, reading the entries one after the other, and registering a
 new one.  A directory is a list of items; looking a name up is a search in that list.
 */
module Directories {
  import opened FatLayout
  import opened LongNames

  // ---------- directory tables ----------

  /** The entry is free: deleted, or at or past the end mark. */
  predicate IsFree(e: DirEntry) { e[0] == 0xE5 || e[0] == 0 }

  /** A volume label. */
  predicate IsLabel(e: DirEntry) { Attr(e) / 8 % 2 == 1 && !IsLong(e) }

  /** A short entry with this name, of a file or a directory. */
  ghost predicate IsShort(e: DirEntry, sfn: seq<byte>) {
    e[..11] == sfn && !IsFree(e) && Attr(e) / 8 % 2 == 0
  }

  /** The entries from p on hold the name, last piece first, and then the short entry. */
  ghost predicate IsBlock(t: seq<DirEntry>, p: nat, name: seq<wchar>, sfn: seq<byte>) {
    && Storable(name) && p + Pieces(name) < |t|
    && (forall k | p <= k < p + Pieces(name) :: IsPiece(t[k], name, Pieces(name) - (k - p), SumSfn(sfn)))
    && IsShort(t[p + Pieces(name)], sfn) && t[p + Pieces(name)][0] != 0x2E
  }

  /** The running state of a scan: the order and checksum expected next, and where the block began. */
  datatype Scan = Scan(ord: nat, sum: byte, blk: int)

  const NO_BLOCK := 0xFFFF_FFFF

  const START := Scan(0xFF, 0xFF, NO_BLOCK)

  /** ord - 1 in a byte. */
  function Dec(ord: nat): nat { if ord == 0 then 0xFF else ord - 1 }

  /** The state after a long-name entry is looked at as the possible start of a block. */
  function Begin(e: DirEntry, k: nat, st: Scan): Scan {
    if LastFlag(e) then Scan(OrdOf(e), e[13], k) else st
  }

  // ---------- dir_find ----------

  /** What is looked for: the long name in buf unless noLfn, the short name sfn unless lossy. */
  datatype Target = Target(buf: seq<wchar>, sfn: seq<byte>, noLfn: bool, lossy: bool)

  /** dir_find's loop from entry k on: the index of the entry found and the start of its block. */
  ghost function FindFrom(up: wchar -> wchar, x: Target, t: seq<DirEntry>, k: nat, st: Scan): (r: (bool, nat, int))
    requires |x.buf| == LFN_BUF
    decreases |t| - k
  {
    if k >= |t| || t[k][0] == 0 then (false, k, st.blk)
    else
      var e := t[k];
      if e[0] == 0xE5 || IsLabel(e) then FindFrom(up, x, t, k + 1, Scan(0xFF, st.sum, NO_BLOCK))
      else if IsLong(e) then FindFrom(up, x, t, k + 1, FindLong(up, x, e, k, st))
      else if (st.ord == 0 && st.sum == SumSfn(e[..11])) || (!x.lossy && e[..11] == x.sfn) then (true, k, st.blk)
      else FindFrom(up, x, t, k + 1, Scan(0xFF, st.sum, NO_BLOCK))
  }

  /** dir_find on a long-name entry. */
  ghost function FindLong(up: wchar -> wchar, x: Target, e: DirEntry, k: nat, st: Scan): Scan
    requires |x.buf| == LFN_BUF
  {
    if x.noLfn then st
    else
      var b := Begin(e, k, st);
      b.(ord := if OrdOf(e) == b.ord && b.sum == e[13] && Cmp(up, x.buf, e) then Dec(b.ord) else 0xFF)
  }

  /** Two names are the same up to case. */
  ghost predicate SameName(up: wchar -> wchar, a: seq<wchar>, b: seq<wchar>) {
    |a| == |b| && forall i | 0 <= i < |a| :: up(a[i]) == up(b[i])
  }

  /** The buffer agrees with the name and its terminator from character lo on. */
  ghost predicate AgreeAll(up: wchar -> wchar, buf: seq<wchar>, name: seq<wchar>, lo: int)
    requires |buf| == LFN_BUF && |name| <= 255
  {
    forall k | 0 <= k <= |name| && lo <= k :: up(Padded(name, k)) == up(buf[k])
  }

  lemma AgreeIsSame(up: wchar -> wchar, buf: seq<wchar>, want: seq<wchar>, name: seq<wchar>)
    requires Folding(up) && Holds(buf, want) && Storable(want) && Storable(name)
    ensures AgreeAll(up, buf, name, 0) <==> SameName(up, want, name)
  {
    assert forall k | 0 <= k < |want| :: buf[k] == want[k] by {
      assert forall k | 0 <= k < |want| :: buf[k] == buf[..|want|][k];
    }
    if AgreeAll(up, buf, name, 0) {
      assert up(Padded(name, |name|)) == up(buf[|name|]);
      assert |want| <= |name| ==> up(Padded(name, |want|)) == up(buf[|want|]);
      assert forall i | 0 <= i < |name| :: up(Padded(name, i)) == up(buf[i]) && Padded(name, i) == name[i];
    } else {
      var k :| 0 <= k <= |name| && up(Padded(name, k)) != up(buf[k]);
    }
  }

  lemma AgreePiece(up: wchar -> wchar, buf: seq<wchar>, name: seq<wchar>, ord: nat)
    requires |buf| == LFN_BUF && Storable(name) && 1 <= ord <= Pieces(name)
    ensures AgreeAll(up, buf, name, 13 * (ord - 1)) <==>
      AgreeFrom(up, buf, name, ord, 13 * (ord - 1)) && (ord == Pieces(name) || AgreeAll(up, buf, name, 13 * ord))
  {
    assert 13 * (ord - 1) <= |name| && PieceEnd(name, ord) <= LFN_BUF;
  }

  /** The state of dir_find's scan after the first j entries of a block at p. */
  ghost function Progress(up: wchar -> wchar, buf: seq<wchar>, name: seq<wchar>, sum: byte, p: nat, j: nat): Scan
    requires |buf| == LFN_BUF && Storable(name) && j <= Pieces(name)
  {
    Scan(if AgreeAll(up, buf, name, 13 * (Pieces(name) - j)) then Pieces(name) - j else 0xFF, sum, p)
  }

  lemma LongStep(up: wchar -> wchar, x: Target, e: DirEntry, name: seq<wchar>, sum: byte, p: nat, j: nat, st: Scan)
    requires Folding(up) && |x.buf| == LFN_BUF && !x.noLfn && Storable(name) && j < Pieces(name)
    requires IsPiece(e, name, Pieces(name) - j, sum) && (j == 0 || st == Progress(up, x.buf, name, sum, p, j))
    ensures FindLong(up, x, e, p + j, st) == Progress(up, x.buf, name, sum, p, j + 1)
  {
    hide AgreeAll, AgreeFrom, Cmp, CharOf, Padded, CharOfs;
    var ord := Pieces(name) - j;
    PieceOrder(e, name, ord, sum);
    CmpPiece(up, x.buf, e, name, ord, sum);
    AgreePiece(up, x.buf, name, ord);
  }

  /** The pieces of a block take dir_find from any state to one that says whether the whole name agreed. */
  lemma {:induction false} FindPieces(up: wchar -> wchar, x: Target, t: seq<DirEntry>, p: nat, st: Scan,
                                      name: seq<wchar>, sfn: seq<byte>, j: nat)
    requires Folding(up) && |x.buf| == LFN_BUF && !x.noLfn && IsBlock(t, p, name, sfn) && 1 <= j <= Pieces(name)
    ensures FindFrom(up, x, t, p, st) == FindFrom(up, x, t, p + j, Progress(up, x.buf, name, SumSfn(sfn), p, j))
  {
    hide FindLong, Progress, SumSfn, CharOf;
    if j > 1 {
      FindPieces(up, x, t, p, st, name, sfn, j - 1);
    }
    var was := if j == 1 then st else Progress(up, x.buf, name, SumSfn(sfn), p, j - 1);
    assert IsPiece(t[p + j - 1], name, Pieces(name) - (j - 1), SumSfn(sfn));
    PieceOrder(t[p + j - 1], name, Pieces(name) - (j - 1), SumSfn(sfn));
    LongStep(up, x, t[p + j - 1], name, SumSfn(sfn), p, j - 1, was);
  }

  // ---------- long-name entries that have lost their short entry ----------

  /** A long-name entry as it counts in a scan that compares no names. */
  function Counted(e: DirEntry, k: nat, st: Scan): Scan {
    var b := Begin(e, k, st);
    b.(ord := if OrdOf(e) == b.ord && b.sum == e[13] && Accepted(e) then Dec(b.ord) else 0xFF)
  }

  /** The state of such a scan before entry p. */
  function ScanAt(t: seq<DirEntry>, p: nat): Scan
    requires p <= |t|
  {
    if p == 0 then START
    else
      var st, e := ScanAt(t, p - 1), t[p - 1];
      if IsFree(e) || !IsLong(e) then Scan(0xFF, st.sum, NO_BLOCK) else Counted(e, p - 1, st)
  }

  /** The long-name entries before p are counted down to the last one, for a short name with this checksum. */
  predicate Awaited(t: seq<DirEntry>, p: nat, sfn: seq<byte>)
    requires p <= |t| && |sfn| == 11
  {
    ScanAt(t, p).ord == 0 && ScanAt(t, p).sum == SumSfn(sfn)
  }

  lemma OrdBelow(e: DirEntry)
    ensures OrdOf(e) < 0x40 || 0x80 <= OrdOf(e) < 0xC0
    ensures OrdOf(e) % 0x40 == e[0] as int % 0x40
  {
  }

  /** A scan that compares names is in step with the one that does not, or at an order from which it never gets to 0. */
  predicate InStep(t: seq<DirEntry>, p: nat, st: Scan) {
    p <= |t| && (st.ord >= 0x80 || (st.ord == ScanAt(t, p).ord && st.sum == ScanAt(t, p).sum))
  }

  /** The state in which dir_find may come to an entry. */
  ghost predicate FindState(x: Target, t: seq<DirEntry>, p: nat, st: Scan) {
    InStep(t, p, st) && if x.noLfn then st.ord == 0xFF && st.blk == NO_BLOCK else st.blk == ScanAt(t, p).blk
  }

  lemma LooseStep(up: wchar -> wchar, x: Target, t: seq<DirEntry>, p: nat, st: Scan)
    requires |x.buf| == LFN_BUF && p < |t| && !IsFree(t[p]) && IsLong(t[p]) && FindState(x, t, p, st)
    ensures FindState(x, t, p + 1, FindLong(up, x, t[p], p, st))
  {
    hide Cmp, Accepted, IsLong, LastFlag, OrdOf;
    OrdBelow(t[p]);
    if Cmp(up, x.buf, t[p]) {
      CmpAccepts(up, x.buf, t[p]);
    }
  }

  lemma LooseRead(t: seq<DirEntry>, p: nat, buf: seq<wchar>, st: Scan)
    requires |buf| == LFN_BUF && p < |t| && !IsFree(t[p]) && IsLong(t[p]) && InStep(t, p, st)
    ensures InStep(t, p + 1, ReadLong(t[p], p, buf, st).0)
  {
    hide Pick, Accepted, IsLong, LastFlag, OrdOf;
    OrdBelow(t[p]);
    PickAccepts(buf, t[p]);
    if Accepted(t[p]) {
      AcceptedOrder(t[p]);
    }
  }

  // ---------- a directory as a list of items ----------

  /**
   What is in a directory: a deleted entry, a volume label, a long-name entry that belongs to no object, and a
   file or directory without or with a long name.
   */
  datatype Item = Deleted | Label | Loose | Short(sfn: seq<byte>) | Named(name: seq<wchar>, sfn: seq<byte>)

  /** Number of entries the item takes. */
  function Span(it: Item): nat { if it.Named? then Pieces(it.name) + 1 else 1 }

  /** The entries of the item are in the table. */
  ghost predicate Occupies(t: seq<DirEntry>, p: nat, it: Item) {
    match it
    case Deleted => p < |t| && t[p][0] == 0xE5
    case Label => p < |t| && !IsFree(t[p]) && t[p][0] != 0x2E && Attr(t[p]) in {0x08, 0x28}
    case Loose => p < |t| && !IsFree(t[p]) && IsLong(t[p])
    case Short(sfn) => |sfn| == 11 && p < |t| && IsShort(t[p], sfn)
    case Named(name, sfn) => |sfn| == 11 && IsBlock(t, p, name, sfn)
  }

  /** The item is in the table; an object has no long name only if there is none before its entry. */
  ghost predicate ItemAt(t: seq<DirEntry>, p: nat, it: Item) {
    Occupies(t, p, it) && (it.Short? ==> !Awaited(t, p, it.sfn))
  }

  /** The table from p on holds the items, one after the other, and then only unused entries. */
  ghost predicate Lays(t: seq<DirEntry>, p: nat, items: seq<Item>)
    decreases |items|
  {
    if items == [] then p <= |t| && forall k | p <= k < |t| :: t[k][0] == 0
    else ItemAt(t, p, items[0]) && Lays(t, p + Span(items[0]), items[1..])
  }

  /** The item is what is looked for; want is the name in x.buf. */
  ghost predicate Matches(up: wchar -> wchar, want: seq<wchar>, x: Target, it: Item) {
    || (it.Named? && !x.noLfn && SameName(up, want, it.name))
    || ((it.Named? || it.Short?) && !x.lossy && it.sfn == x.sfn)
  }

  /**
   Where the entries of the object begin for dir_find: at its block, or at
   the loose entries before it if there are any.
   */
  ghost function BlockOf(t: seq<DirEntry>, x: Target, it: Item, p: nat): int {
    if x.noLfn || p > |t| then NO_BLOCK else if it.Named? then p else ScanAt(t, p).blk
  }

  /** Searching the list of items, the first of which is at p: the short entry of the one found, and its block. */
  ghost function Lookup(up: wchar -> wchar, want: seq<wchar>, x: Target, t: seq<DirEntry>, items: seq<Item>, p: nat)
    : (bool, nat, int)
  {
    if items == [] then (false, p, NO_BLOCK)
    else if Matches(up, want, x, items[0]) then (true, p + Span(items[0]) - 1, BlockOf(t, x, items[0], p))
    else Lookup(up, want, x, t, items[1..], p + Span(items[0]))
  }

  lemma {:induction false} FindSkips(up: wchar -> wchar, x: Target, t: seq<DirEntry>, p: nat, st: Scan,
                                     name: seq<wchar>, sfn: seq<byte>, j: nat)
    requires |x.buf| == LFN_BUF && x.noLfn && IsBlock(t, p, name, sfn) && j <= Pieces(name)
    ensures FindFrom(up, x, t, p, st) == FindFrom(up, x, t, p + j, st)
  {
    hide SumSfn, CharOf;
    if j > 0 {
      FindSkips(up, x, t, p, st, name, sfn, j - 1);
      assert IsPiece(t[p + j - 1], name, Pieces(name) - (j - 1), SumSfn(sfn));
      PieceOrder(t[p + j - 1], name, Pieces(name) - (j - 1), SumSfn(sfn));
    }
  }

  /**
   dir_find at a block, in whatever state it gets there: it stops at the block exactly when the stored name is
   the wanted one up to case, or the short name is the wanted one, and otherwise goes on behind it.
   */
  lemma FindBlock(up: wchar -> wchar, x: Target, want: seq<wchar>, t: seq<DirEntry>, p: nat, st: Scan, name: seq<wchar>,
                  sfn: seq<byte>)
    requires Folding(up) && Holds(x.buf, want) && Storable(want) && |sfn| == 11 && IsBlock(t, p, name, sfn)
    requires x.noLfn ==> st.ord != 0
    ensures FindFrom(up, x, t, p, st) ==
      if Matches(up, want, x, Named(name, sfn)) then (true, p + Pieces(name), if x.noLfn then st.blk else p)
      else FindFrom(up, x, t, p + Pieces(name) + 1, Scan(0xFF, if x.noLfn then st.sum else SumSfn(sfn), NO_BLOCK))
  {
    hide SumSfn, FindLong, AgreeAll;
    if x.noLfn {
      FindSkips(up, x, t, p, st, name, sfn, Pieces(name));
    } else {
      FindPieces(up, x, t, p, st, name, sfn, Pieces(name));
      AgreeIsSame(up, x.buf, want, name);
    }
  }

  lemma BlockNotLong(t: seq<DirEntry>, p: nat, it: Item)
    requires Occupies(t, p, it) && !it.Loose?
    ensures p + Span(it) <= |t| && ScanAt(t, p + Span(it)).ord == 0xFF && ScanAt(t, p + Span(it)).blk == NO_BLOCK
  {
    hide SumSfn, IsPiece;
    assert !IsLong(t[p + Span(it) - 1]) || IsFree(t[p + Span(it) - 1]);
  }

  /** dir_find is a search in the list of items. */
  lemma {:induction false} FindItems(up: wchar -> wchar, x: Target, want: seq<wchar>, t: seq<DirEntry>, p: nat,
                                     st: Scan, items: seq<Item>)
    requires Folding(up) && Holds(x.buf, want) && Storable(want) && Lays(t, p, items) && FindState(x, t, p, st)
    ensures var r, w := FindFrom(up, x, t, p, st), Lookup(up, want, x, t, items, p);
      r.0 == w.0 && (r.0 ==> r.1 == w.1 && r.2 == w.2)
    decreases |items|
  {
    hide SumSfn, FindLong, IsBlock, SameName, Storable, ScanAt;
    if items != [] {
      var it, next := items[0], p + Span(items[0]);
      if it.Loose? {
        LooseStep(up, x, t, p, st);
        FindItems(up, x, want, t, next, FindLong(up, x, t[p], p, st), items[1..]);
      } else {
        BlockNotLong(t, p, it);
        if it.Named? {
          FindBlock(up, x, want, t, p, st, it.name, it.sfn);
          FindItems(up, x, want, t, next, Scan(0xFF, if x.noLfn then st.sum else SumSfn(it.sfn), NO_BLOCK), items[1..]);
        } else {
          FindItems(up, x, want, t, next, Scan(0xFF, st.sum, NO_BLOCK), items[1..]);
        }
      }
    }
  }

  // ---------- dir_read ----------

  /** dir_read's loop from entry k on: the index of the entry read, the start of its block and the name buffer. */
  function ReadFrom(t: seq<DirEntry>, k: nat, buf: seq<wchar>, st: Scan): (r: (bool, nat, int, seq<wchar>))
    requires |buf| == LFN_BUF
    ensures |r.3| == LFN_BUF
    decreases |t| - k
  {
    if k >= |t| || t[k][0] == 0 then (false, k, st.blk, buf)
    else
      var e := t[k];
      if e[0] == 0xE5 || e[0] == 0x2E || Attr(e) in {0x08, 0x28} then ReadFrom(t, k + 1, buf, st.(ord := 0xFF))
      else if IsLong(e) then
        var (now, s) := ReadLong(e, k, buf, st);
        ReadFrom(t, k + 1, s, now)
      else (true, k, if st.ord != 0 || st.sum != SumSfn(e[..11]) then NO_BLOCK else st.blk, buf)
  }

  /** dir_read on a long-name entry. */
  function ReadLong(e: DirEntry, k: nat, buf: seq<wchar>, st: Scan): (r: (Scan, seq<wchar>))
    requires |buf| == LFN_BUF
    ensures |r.1| == LFN_BUF
  {
    var b := Begin(e, k, st);
    if OrdOf(e) == b.ord && b.sum == e[13] then
      var (ok, s) := Pick(buf, e);
      (b.(ord := if ok then Dec(b.ord) else 0xFF), s)
    else (b.(ord := 0xFF), buf)
  }

  /** The pieces of a block, from whatever state, bring in the name from its end towards its start. */
  lemma {:induction false} ReadPieces(t: seq<DirEntry>, p: nat, buf: seq<wchar>, st: Scan, name: seq<wchar>,
                                      sfn: seq<byte>, j: nat) returns (s: seq<wchar>)
    requires |buf| == LFN_BUF && IsBlock(t, p, name, sfn) && 1 <= j <= Pieces(name)
    ensures |s| == LFN_BUF && forall k | 13 * (Pieces(name) - j) <= k <= |name| :: s[k] == Padded(name, k)
    ensures ReadFrom(t, p, buf, st) == ReadFrom(t, p + j, s, Scan(Pieces(name) - j, SumSfn(sfn), p))
  {
    hide SumSfn, CharOf, Pick;
    var was, b := st, buf;
    if j > 1 {
      b := ReadPieces(t, p, buf, st, name, sfn, j - 1);
      was := Scan(Pieces(name) - (j - 1), SumSfn(sfn), p);
    }
    var e, ord := t[p + j - 1], Pieces(name) - (j - 1);
    assert IsPiece(e, name, ord, SumSfn(sfn));
    PieceOrder(e, name, ord, SumSfn(sfn));
    PickPiece(b, e, name, ord, SumSfn(sfn));
    s := Pick(b, e).1;
  }

  /** dir_read at a block, in whatever state it gets there, reads its short entry and gives back the long name. */
  lemma ReadBlock(t: seq<DirEntry>, p: nat, buf: seq<wchar>, st: Scan, name: seq<wchar>, sfn: seq<byte>)
    requires |buf| == LFN_BUF && |sfn| == 11 && IsBlock(t, p, name, sfn)
    ensures var r := ReadFrom(t, p, buf, st); r.0 && r.1 == p + Pieces(name) && r.2 == p && Holds(r.3, name)
  {
    hide SumSfn, CharOf, ReadLong;
    var s := ReadPieces(t, p, buf, st, name, sfn, Pieces(name));
    assert s[..|name|] == name by {
      assert forall k | 0 <= k < |name| :: s[k] == Padded(name, k) == name[k];
    }
    assert s[|name|] == Padded(name, |name|);
  }

  /**
   What dir_read has to give for the items from p on: the first one that
   is a file or directory other than a dot entry.
   */
  ghost predicate ReadsNext(items: seq<Item>, p: nat, r: (bool, nat, int, seq<wchar>)) {
    if items == [] then !r.0
    else if items[0].Named? then r.0 && r.1 == p + Pieces(items[0].name) && r.2 == p && Holds(r.3, items[0].name)
    else if items[0].Short? && |items[0].sfn| == 11 && items[0].sfn[0] != 0x2E then r.0 && r.1 == p && r.2 == NO_BLOCK
    else ReadsNext(items[1..], p + Span(items[0]), r)
  }

  /** dir_read finds the first object of a list of items. */
  lemma {:induction false} ReadItems(t: seq<DirEntry>, p: nat, buf: seq<wchar>, st: Scan, items: seq<Item>)
    requires |buf| == LFN_BUF && Lays(t, p, items) && InStep(t, p, st)
    ensures ReadsNext(items, p, ReadFrom(t, p, buf, st))
    decreases |items|
  {
    hide SumSfn, ReadLong, IsBlock, Holds, ScanAt;
    if items != [] {
      if items[0].Named? {
        ReadBlock(t, p, buf, st, items[0].name, items[0].sfn);
      } else if items[0].Loose? && t[p][0] != 0x2E {
        LooseRead(t, p, buf, st);
        ReadItems(t, p + 1, ReadLong(t[p], p, buf, st).1, ReadLong(t[p], p, buf, st).0, items[1..]);
      } else {
        if items[0].Short? {
          assert t[p][0] == t[p][..11][0];
        }
        ReadItems(t, p + 1, buf, st.(ord := 0xFF), items[1..]);
      }
    }
  }

  // ---------- room in a table ----------

  /** n entries from p on are free. */
  ghost predicate FreeRun(t: seq<DirEntry>, p: nat, n: nat) {
    p + n <= |t| && forall k | p <= k < p + n :: IsFree(t[k])
  }

  /** p is where dir_alloc reserves n entries: the first n of the first long enough stretch of free ones. */
  ghost predicate FirstRun(t: seq<DirEntry>, p: nat, n: nat) {
    && FreeRun(t, p, n) && (p == 0 || !IsFree(t[p - 1]))
    && forall q: nat | q < p :: !FreeRun(t, q, n)
  }

  /** dir_alloc has looked at k entries, of which the last c are the free ones in a row so far. */
  ghost predicate Searched(t: seq<DirEntry>, n: nat, k: nat, c: nat)
    requires c <= k <= |t|
  {
    && FreeRun(t, k - c, c) && (k == c || !IsFree(t[k - c - 1]))
    && forall q: nat | q + n <= k :: !FreeRun(t, q, n)
  }

  lemma SearchStart(t: seq<DirEntry>, n: nat)
    requires n >= 1
    ensures Searched(t, n, 0, 0)
  {
  }

  lemma SearchStep(t: seq<DirEntry>, n: nat, k: nat, c: nat)
    requires c < n && c <= k < |t| && Searched(t, n, k, c)
    ensures !IsFree(t[k]) ==> Searched(t, n, k + 1, 0)
    ensures IsFree(t[k]) && c + 1 < n ==> Searched(t, n, k + 1, c + 1)
    ensures IsFree(t[k]) && c + 1 == n ==> FirstRun(t, k - c, n)
  {
    forall q: nat | q + n <= k + 1 && FreeRun(t, q, n)
      ensures IsFree(t[k]) && c + 1 == n && q == k - c
    {
      assert q + n == k + 1;
      assert IsFree(t[k]);
    }
  }

  lemma SearchEnd(t: seq<DirEntry>, n: nat, c: nat)
    requires c <= |t| && Searched(t, n, |t|, c)
    ensures forall q: nat :: !FreeRun(t, q, n)
  {
  }

  /** A short name as an entry may carry it: 11 bytes that do not start like a free or a dot entry. */
  predicate ShortOk(sfn: seq<byte>) { |sfn| == 11 && sfn[0] !in {0, 0xE5, 0x2E} }

  /** The bytes of a short entry as it is made: name, no attributes, case flags, and nothing else. */
  function ShortBytes(sfn: seq<byte>, ntFlags: byte): DirEntry
    requires |sfn| == 11
  {
    sfn + [0, ntFlags] + seq(19, _ => 0)
  }

  /** now is the table t with the item put at p, where dir_alloc found room for it. */
  ghost predicate Registered(t: seq<DirEntry>, now: seq<DirEntry>, p: nat, it: Item) {
    && |now| == |t| && FirstRun(t, p, Span(it)) && Occupies(now, p, it) && (it.Short? || it.Named?)
    && forall k | 0 <= k < |t| && !(p <= k < p + Span(it)) :: now[k] == t[k]
  }

  /** Pieces, if there are any, and a short entry put where there is room are an item registered. */
  lemma PutIsRegistered(t: seq<DirEntry>, now: seq<DirEntry>, p: nat, it: Item)
    requires (it.Short? || (it.Named? && Storable(it.name))) && ShortOk(it.sfn) && |now| == |t|
    requires FirstRun(t, p, Span(it))
    requires it.Named? ==> forall k | p <= k < p + Pieces(it.name) ::
      IsPiece(now[k], it.name, Pieces(it.name) - (k - p), SumSfn(it.sfn))
    requires IsShort(now[p + Span(it) - 1], it.sfn) && now[p + Span(it) - 1][0] != 0x2E
    requires forall k | 0 <= k < |t| && !(p <= k < p + Span(it)) :: now[k] == t[k]
    ensures Registered(t, now, p, it)
  {
    hide SumSfn, IsPiece, IsShort;
  }

  lemma RunFits(t: seq<DirEntry>, p: nat, n: nat)
    requires FirstRun(t, p, n)
    ensures p + n <= |t|
  {
  }

  // ---------- scans entry by entry ----------

  /** dir_find ends at the entry. */
  predicate Stops(x: Target, e: DirEntry, st: Scan) {
    && !IsFree(e) && !IsLabel(e) && !IsLong(e)
    && ((st.ord == 0 && st.sum == SumSfn(e[..11])) || (!x.lossy && e[..11] == x.sfn))
  }

  /** The state in which dir_find goes on behind it otherwise. */
  ghost function FindNext(up: wchar -> wchar, x: Target, e: DirEntry, k: nat, st: Scan): Scan
    requires |x.buf| == LFN_BUF
  {
    if !IsFree(e) && IsLong(e) then FindLong(up, x, e, k, st) else Scan(0xFF, st.sum, NO_BLOCK)
  }

  lemma FindStep(up: wchar -> wchar, x: Target, t: seq<DirEntry>, k: nat, st: Scan)
    requires |x.buf| == LFN_BUF && k < |t| && t[k][0] != 0
    ensures FindFrom(up, x, t, k, st) ==
      if Stops(x, t[k], st) then (true, k, st.blk) else FindFrom(up, x, t, k + 1, FindNext(up, x, t[k], k, st))
    ensures FindState(x, t, k, st) && !Stops(x, t[k], st) ==> FindState(x, t, k + 1, FindNext(up, x, t[k], k, st))
  {
    hide FindLong, SumSfn;
    if FindState(x, t, k, st) && !IsFree(t[k]) && IsLong(t[k]) {
      LooseStep(up, x, t, k, st);
    }
  }

  /** Unless dir_find stops before entry p, it gets there in a state in step, and so it does in the other table. */
  lemma {:induction false} FindPasses(up: wchar -> wchar, x: Target, t: seq<DirEntry>, now: seq<DirEntry>, k: nat,
                                      p: nat, st: Scan) returns (at: Scan)
    requires |x.buf| == LFN_BUF && k <= p <= |t| && p <= |now| && FindState(x, t, k, st)
    requires forall j | k <= j < p :: now[j] == t[j] && t[j][0] != 0
    requires !(FindFrom(up, x, t, k, st).0 && FindFrom(up, x, t, k, st).1 < p)
    ensures FindState(x, t, p, at) && FindFrom(up, x, now, k, st) == FindFrom(up, x, now, p, at)
    decreases p - k
  {
    hide FindState, FindNext, Stops, FindFrom;
    at := st;
    if k < p {
      FindStep(up, x, t, k, st);
      FindStep(up, x, now, k, st);
      at := FindPasses(up, x, t, now, k + 1, p, FindNext(up, x, t[k], k, st));
    }
  }

  /** dir_read passes over the entry. */
  predicate Passes(e: DirEntry) {
    e[0] != 0 && (e[0] == 0xE5 || e[0] == 0x2E || Attr(e) in {0x08, 0x28} || IsLong(e))
  }

  /** dir_read has counted the long-name entries before p. */
  predicate ReadState(t: seq<DirEntry>, p: nat, st: Scan) {
    && p <= |t| && st.ord == ScanAt(t, p).ord
    && (st.ord != 0xFF ==> st.sum == ScanAt(t, p).sum && st.blk == ScanAt(t, p).blk)
  }

  /** The state and the buffer with which it goes on behind it. */
  function ReadNext(e: DirEntry, k: nat, buf: seq<wchar>, st: Scan): (r: (Scan, seq<wchar>))
    requires |buf| == LFN_BUF
    ensures |r.1| == LFN_BUF
  {
    if e[0] == 0xE5 || e[0] == 0x2E || Attr(e) in {0x08, 0x28} then (st.(ord := 0xFF), buf) else ReadLong(e, k, buf, st)
  }

  lemma ReadStep(t: seq<DirEntry>, p: nat, buf: seq<wchar>, st: Scan)
    requires |buf| == LFN_BUF && p < |t| && Passes(t[p]) && ReadState(t, p, st)
    ensures var r := ReadNext(t[p], p, buf, st);
      ReadState(t, p + 1, r.0) && ReadFrom(t, p, buf, st) == ReadFrom(t, p + 1, r.1, r.0)
  {
    hide Pick, Accepted, IsLong, LastFlag, OrdOf, SumSfn;
    var e := t[p];
    OrdBelow(e);
    PickAccepts(buf, e);
    DotRefused(e);
    LabelNotLong(e);
  }

  lemma LabelNotLong(e: DirEntry)
    ensures Attr(e) in {0x08, 0x28} ==> !IsLong(e)
  {
  }

  /** A dot entry counts for no piece. */
  lemma DotRefused(e: DirEntry)
    ensures e[0] == 0x2E ==> !Accepted(e)
  {
    hide Accepted;
    if Accepted(e) {
      AcceptedOrder(e);
    }
  }

  /** An order that is not given up belongs to pieces that begin at an entry of the table. */
  lemma {:induction false} CountBegins(t: seq<DirEntry>, p: nat)
    requires p <= |t|
    ensures ScanAt(t, p).ord != 0xFF ==> 0 <= ScanAt(t, p).blk < p
  {
    hide Accepted, IsLong, LastFlag, OrdOf;
    if p > 0 {
      CountBegins(t, p - 1);
      OrdBelow(t[p - 1]);
    }
  }

  /** The entries counted before p are in the buffer. */
  predicate RunShown(t: seq<DirEntry>, p: nat, buf: seq<wchar>)
    requires |buf| == LFN_BUF && p <= |t|
  {
    ScanAt(t, p).ord != 0xFF ==>
      forall j: nat | ScanAt(t, p).blk <= j < p :: Shown(buf, t[j]) && ScanAt(t, p).ord < OrdOf(t[j]) < 0x80
  }

  /** Picking the next piece leaves those behind it in the buffer. */
  lemma PickKeeps(buf: seq<wchar>, e: DirEntry, d: DirEntry)
    requires |buf| == LFN_BUF && Accepted(e) && !LastFlag(e) && Shown(buf, d) && OrdOf(e) < OrdOf(d) < 0x80
    ensures Shown(Pick(buf, e).1, d)
  {
    hide Pick, Accepted, Shown, LastFlag, OrdOf;
    PickShows(buf, e);
    ShownFrame(buf, Pick(buf, e).1, d);
  }

  lemma RunStep(t: seq<DirEntry>, p: nat, buf: seq<wchar>, st: Scan)
    requires |buf| == LFN_BUF && p < |t| && Passes(t[p]) && ReadState(t, p, st) && RunShown(t, p, buf)
    ensures RunShown(t, p + 1, ReadNext(t[p], p, buf, st).1)
  {
    hide Pick, Accepted, LastFlag, OrdOf, SumSfn, Shown, IsLong, Attr;
    var e, now := t[p], ReadNext(t[p], p, buf, st).1;
    OrdBelow(e);
    DotRefused(e);
    LabelNotLong(e);
    if ScanAt(t, p + 1).ord != 0xFF {
      AcceptedOrder(e);
      PickShows(buf, e);
      PickAccepts(buf, e);
      assert now == Pick(buf, e).1;
      forall j: nat | ScanAt(t, p + 1).blk <= j < p
        ensures Shown(now, t[j]) && ScanAt(t, p + 1).ord < OrdOf(t[j]) < 0x80
      {
        PickKeeps(buf, e, t[j]);
      }
    }
  }

  /** dir_read gets to entry p over entries that are no objects, those it counts being in the buffer. */
  lemma {:induction false} ReadPasses(t: seq<DirEntry>, q: nat, p: nat, buf: seq<wchar>, st: Scan)
    returns (s: seq<wchar>, at: Scan)
    requires |buf| == LFN_BUF && q <= p <= |t| && ReadState(t, q, st) && RunShown(t, q, buf)
    requires forall k | q <= k < p :: Passes(t[k])
    ensures |s| == LFN_BUF && ReadState(t, p, at) && RunShown(t, p, s)
    ensures ReadFrom(t, q, buf, st) == ReadFrom(t, p, s, at)
    decreases p - q
  {
    hide ReadState, ReadFrom, Passes, RunShown, ReadNext;
    s, at := buf, st;
    if q < p {
      ReadStep(t, q, buf, st);
      RunStep(t, q, buf, st);
      s, at := ReadNext(t[q], q, buf, st).1, ReadNext(t[q], q, buf, st).0;
      s, at := ReadPasses(t, q + 1, p, s, at);
    }
  }

  /** The pieces counted before p have been counted from the entry on where they begin. */
  lemma {:induction false} RunBack(t: seq<DirEntry>, p: nat, j: nat)
    requires j <= p <= |t| && ScanAt(t, p).ord != 0xFF && ScanAt(t, p).blk < j
    ensures ScanAt(t, j).ord != 0xFF && ScanAt(t, j).blk == ScanAt(t, p).blk
    decreases p
  {
    hide Accepted, IsLong, LastFlag, OrdOf;
    if j < p {
      OrdBelow(t[p - 1]);
      RunBack(t, p - 1, j);
    }
  }

  /** A search for the characters that are in the buffer counts with the scan. */
  lemma CountStep(up: wchar -> wchar, x: Target, t: seq<DirEntry>, j: nat, st: Scan)
    requires |x.buf| == LFN_BUF && !x.noLfn && j < |t| && ScanAt(t, j + 1).ord != 0xFF
    requires Shown(x.buf, t[j]) && OrdOf(t[j]) < 0x80 && (ScanAt(t, j + 1).blk == j || st == ScanAt(t, j))
    requires t[j][0] != 0
    ensures FindFrom(up, x, t, j, st) == FindFrom(up, x, t, j + 1, ScanAt(t, j + 1))
  {
    hide Cmp, Accepted, IsLong, LastFlag, OrdOf, Shown, SumSfn, FindFrom;
    CountBegins(t, j);
    OrdBelow(t[j]);
    ShownCmp(up, x.buf, t[j]);
    FindStep(up, x, t, j, st);
  }

  lemma {:induction false} FindFollows(up: wchar -> wchar, x: Target, t: seq<DirEntry>, p: nat, j: nat, st: Scan)
    requires |x.buf| == LFN_BUF && !x.noLfn && p <= |t| && ScanAt(t, p).ord != 0xFF && RunShown(t, p, x.buf)
    requires 0 <= ScanAt(t, p).blk < j <= p && forall k | 0 <= k < p :: t[k][0] != 0
    ensures FindFrom(up, x, t, ScanAt(t, p).blk, st) == FindFrom(up, x, t, j, ScanAt(t, j))
    decreases j
  {
    hide FindFrom, ScanAt, Shown, OrdOf;
    var b: nat := ScanAt(t, p).blk;
    RunBack(t, p, j);
    if j - 1 == b {
      CountStep(up, x, t, b, st);
    } else {
      FindFollows(up, x, t, p, j - 1, st);
      CountStep(up, x, t, j - 1, ScanAt(t, j - 1));
    }
  }

  // ---------- entries as other systems write them ----------

  /** Abcdefghijklm.txt */
  const ALPHABET: seq<wchar> := [0x41, 0x62, 0x63, 0x64, 0x65, 0x66, 0x67, 0x68, 0x69, 0x6A, 0x6B, 0x6C, 0x6D,
                                 0x2E, 0x74, 0x78, 0x74]

  /** ABC.TXT */
  const ABC: seq<byte> := [0x41, 0x42, 0x43, 0x20, 0x20, 0x20, 0x20, 0x20, 0x54, 0x58, 0x54]

  function SecondPiece(): DirEntry {
    [0x42, 0x2E, 0, 0x74, 0, 0x78, 0, 0x74, 0, 0, 0, 0x0F, 0, 0xD1,
     0xFF, 0xFF, 0xFF, 0xFF, 0xFF, 0xFF, 0xFF, 0xFF, 0xFF, 0xFF, 0xFF, 0xFF, 0, 0, 0xFF, 0xFF, 0xFF, 0xFF]
  }

  function FirstPiece(): DirEntry {
    [0x01, 0x41, 0, 0x62, 0, 0x63, 0, 0x64, 0, 0x65, 0, 0x0F, 0, 0xD1,
     0x66, 0, 0x67, 0, 0x68, 0, 0x69, 0, 0x6A, 0, 0x6B, 0, 0, 0, 0x6C, 0, 0x6D, 0]
  }

  /** The short entry of an archive file, whatever its times, cluster and size. */
  function ArchiveFile(rest: seq<byte>): DirEntry
    requires |rest| == 20
  {
    ABC + [0x20] + rest
  }

  lemma CharsOfPiece(name: seq<wchar>, ord: nat, c: seq<wchar>)
    requires ord >= 1 && |c| == 13 && forall k | 0 <= k < 13 :: c[k] == Padded(name, (ord - 1) * 13 + k)
    ensures PieceChars(name, ord) == c
  {
  }

  lemma SecondChars()
    ensures PieceChars(ALPHABET, 2) ==
      [0x2E, 0x74, 0x78, 0x74, 0, 0xFFFF, 0xFFFF, 0xFFFF, 0xFFFF, 0xFFFF, 0xFFFF, 0xFFFF, 0xFFFF]
  {
    hide PieceChars;
    var c: seq<wchar> :=
      [0x2E, 0x74, 0x78, 0x74, 0, 0xFFFF, 0xFFFF, 0xFFFF, 0xFFFF, 0xFFFF, 0xFFFF, 0xFFFF, 0xFFFF];
    CharsOfPiece(ALPHABET, 2, c);
  }

  lemma FirstChars()
    ensures PieceChars(ALPHABET, 1) ==
      [0x41, 0x62, 0x63, 0x64, 0x65, 0x66, 0x67, 0x68, 0x69, 0x6A, 0x6B, 0x6C, 0x6D]
  {
    hide PieceChars;
    var c: seq<wchar> := [0x41, 0x62, 0x63, 0x64, 0x65, 0x66, 0x67, 0x68, 0x69, 0x6A, 0x6B, 0x6C, 0x6D];
    CharsOfPiece(ALPHABET, 1, c);
  }

  lemma SecondWritten()
    ensures SecondPiece() == PieceBytes(ALPHABET, 2, 0xD1)
  {
    hide PieceBytes, PieceChars;
    SecondChars();
    BytesParts(SecondPiece(), ALPHABET, 2, 0xD1);
  }

  lemma FirstWritten()
    ensures FirstPiece() == PieceBytes(ALPHABET, 1, 0xD1)
  {
    hide PieceBytes, PieceChars;
    FirstChars();
    BytesParts(FirstPiece(), ALPHABET, 1, 0xD1);
  }

  lemma PiecesWritten()
    ensures Storable(ALPHABET) && Pieces(ALPHABET) == 2
    ensures IsPiece(SecondPiece(), ALPHABET, 2, 0xD1) && IsPiece(FirstPiece(), ALPHABET, 1, 0xD1)
  {
    hide PieceBytes, SecondPiece, FirstPiece, IsPiece;
    SecondWritten();
    FirstWritten();
    PieceIsBytes(SecondPiece(), ALPHABET, 2, 0xD1);
    PieceIsBytes(FirstPiece(), ALPHABET, 1, 0xD1);
  }

  lemma ArchiveIsShort(rest: seq<byte>)
    requires |rest| == 20
    ensures IsShort(ArchiveFile(rest), ABC) && ArchiveFile(rest)[0] != 0x2E
  {
    assert ArchiveFile(rest)[..11] == ABC;
  }

  /** A file written elsewhere as Abcdefghijklm.txt with the short name ABC.TXT is read and found by its long name. */
  lemma WrittenElsewhere(up: wchar -> wchar, buf: seq<wchar>, st: Scan, rest: seq<byte>, x: Target)
    requires |buf| == LFN_BUF && |rest| == 20 && Folding(up) && Holds(x.buf, ALPHABET) && x.lossy && !x.noLfn
    ensures var t := [SecondPiece(), FirstPiece(), ArchiveFile(rest)];
      var r := ReadFrom(t, 0, buf, st);
      && r.0 && r.1 == 2 && r.2 == 0 && Holds(r.3, ALPHABET)
      && FindFrom(up, x, t, 0, START) == (true, 2, 0)
  {
    hide IsPiece, IsShort, ReadFrom, FindFrom, SumSfn, SecondPiece, FirstPiece, ArchiveFile, Storable;
    var t := [SecondPiece(), FirstPiece(), ArchiveFile(rest)];
    PiecesWritten();
    ArchiveIsShort(rest);
    SumOfAbc();
    assert IsBlock(t, 0, ALPHABET, ABC);
    ReadBlock(t, 0, buf, st, ALPHABET, ABC);
    FindBlock(up, x, ALPHABET, t, 0, START, ALPHABET, ABC);
  }

  // ---------- what registering a name does to the directory ----------

  function Spans(items: seq<Item>): nat {
    if items == [] then 0 else Span(items[0]) + Spans(items[1..])
  }

  /** The long-name entries before p count the same in both tables. */
  predicate SameCount(t: seq<DirEntry>, now: seq<DirEntry>, p: nat) {
    && p <= |t| && p <= |now| && ScanAt(t, p).ord == ScanAt(now, p).ord
    && (ScanAt(t, p).ord == 0xFF || ScanAt(t, p).sum == ScanAt(now, p).sum)
  }

  lemma {:induction false} SameBefore(t: seq<DirEntry>, now: seq<DirEntry>, p: nat)
    requires p <= |t| && p <= |now| && forall k | 0 <= k < p :: now[k] == t[k]
    ensures ScanAt(now, p) == ScanAt(t, p)
  {
    if p > 0 {
      SameBefore(t, now, p - 1);
    }
  }

  lemma SameStep(t: seq<DirEntry>, now: seq<DirEntry>, p: nat)
    requires SameCount(t, now, p) && p < |t| && p < |now| && now[p] == t[p]
    ensures SameCount(t, now, p + 1)
  {
    hide LastFlag, OrdOf, IsLong;
    OrdBelow(t[p]);
  }

  lemma {:induction false} SameOn(t: seq<DirEntry>, now: seq<DirEntry>, p: nat, q: nat)
    requires SameCount(t, now, p) && p <= q <= |t| && |now| == |t| && forall k | p <= k < q :: now[k] == t[k]
    ensures SameCount(t, now, q)
    decreases q
  {
    hide SameCount, ScanAt;
    if p < q {
      SameOn(t, now, p, q - 1);
      SameStep(t, now, q - 1);
    }
  }

  /** An item stays what it is when the entries it takes stay and those before it count the same. */
  lemma ItemFrame(t: seq<DirEntry>, now: seq<DirEntry>, p: nat, it: Item)
    requires |now| == |t| && ItemAt(t, p, it) && forall k | p <= k < p + Span(it) && k < |t| :: now[k] == t[k]
    requires SameCount(t, now, p)
    ensures ItemAt(now, p, it)
  {
    hide SumSfn, IsPiece, IsShort, ScanAt;
  }

  lemma {:induction false} LaysFrame(t: seq<DirEntry>, now: seq<DirEntry>, p: nat, items: seq<Item>)
    requires |now| == |t| && Lays(t, p, items) && (forall k | p <= k < |t| :: now[k] == t[k]) && SameCount(t, now, p)
    ensures Lays(now, p, items)
    decreases |items|
  {
    hide ItemAt, ScanAt, SameCount;
    if items != [] {
      ItemFrame(t, now, p, items[0]);
      ItemFits(t, p, items[0]);
      SameOn(t, now, p, p + Span(items[0]));
      LaysFrame(t, now, p + Span(items[0]), items[1..]);
    }
  }

  lemma ItemFits(t: seq<DirEntry>, p: nat, it: Item)
    requires ItemAt(t, p, it)
    ensures p + Span(it) <= |t|
  {
    hide SumSfn, IsPiece, IsShort, Awaited;
  }

  /** The entries an item takes, unless it is a deleted one, are not free. */
  lemma ItemNotFree(t: seq<DirEntry>, p: nat, it: Item, k: nat)
    requires ItemAt(t, p, it) && p <= k < p + Span(it)
    ensures p + Span(it) <= |t| && (it.Deleted? <==> IsFree(t[k]))
  {
    hide SumSfn, Awaited;
    if it.Named? && k < p + Pieces(it.name) {
      assert IsPiece(t[k], it.name, Pieces(it.name) - (k - p), SumSfn(it.sfn));
      PieceOrder(t[k], it.name, Pieces(it.name) - (k - p), SumSfn(it.sfn));
    }
  }

  /** n free entries at the start of a list of items are deleted ones, or the unused rest of the table. */
  lemma {:induction false} FreeIsDeleted(t: seq<DirEntry>, p: nat, items: seq<Item>, n: nat) returns (m: nat)
    requires Lays(t, p, items) && FreeRun(t, p, n)
    ensures m <= |items| && (forall k | 0 <= k < m :: items[k].Deleted?) && Lays(t, p + n, items[m..])
    decreases n
  {
    hide ItemAt;
    if n == 0 || items == [] {
      m := 0;
      assert items[0..] == items;
    } else {
      ItemNotFree(t, p, items[0], p);
      m := FreeIsDeleted(t, p + 1, items[1..], n - 1);
      m := m + 1;
      assert items[m..] == items[1..][m - 1..];
    }
  }

  /** The new item does not take over the long-name entries before it. */
  predicate StandsAlone(t: seq<DirEntry>, p: nat, it: Item) {
    it.Short? ==> |it.sfn| == 11 && p <= |t| && !Awaited(t, p, it.sfn)
  }

  /**
   Registering an item in a directory gives again a directory: the same items in the same order, except that
   the new one takes the place of m deleted ones, or stands at the end.
   */
  lemma {:induction false} RegisterKeeps(t: seq<DirEntry>, now: seq<DirEntry>, b: nat, items: seq<Item>, p: nat,
                                         it: Item) returns (i: nat, m: nat)
    requires Lays(t, b, items) && b <= p && Registered(t, now, p, it) && StandsAlone(t, p, it)
    ensures i + m <= |items| && forall k | i <= k < i + m :: items[k].Deleted?
    ensures Lays(now, b, items[..i] + [it] + items[i + m..]) && p == b + Spans(items[..i])
    decreases |items|
  {
    hide ItemAt, SumSfn, Registered, Span, StandsAlone;
    if b == p {
      i := 0;
      m := RegisterHere(t, now, items, p, it);
      assert items[..0] + [it] + items[m..] == [it] + items[m..];
    } else {
      BeforeRun(t, now, b, items, p, it);
      i, m := RegisterKeeps(t, now, b + Span(items[0]), items[1..], p, it);
      var rest := items[1..][..i] + [it] + items[1..][i + m..];
      i := i + 1;
      var after := items[..i] + [it] + items[i + m..];
      assert after[1..] == rest && after[0] == items[0];
      assert items[..i][1..] == items[1..][..i - 1];
    }
  }

  /** Behind the reserved run nothing counts differently: free entries and a short entry both end a count. */
  lemma CountEnds(t: seq<DirEntry>, now: seq<DirEntry>, p: nat, it: Item)
    requires Registered(t, now, p, it)
    ensures p + Span(it) <= |t| && SameCount(t, now, p + Span(it))
  {
    hide SumSfn, IsPiece;
    BlockNotLong(now, p, it);
    assert IsFree(t[p + Span(it) - 1]);
  }

  lemma RegisterHere(t: seq<DirEntry>, now: seq<DirEntry>, items: seq<Item>, p: nat, it: Item) returns (m: nat)
    requires Lays(t, p, items) && Registered(t, now, p, it) && StandsAlone(t, p, it)
    ensures m <= |items| && (forall k | 0 <= k < m :: items[k].Deleted?) && Lays(now, p, [it] + items[m..])
  {
    hide Occupies, SumSfn, ScanAt, SameCount;
    m := FreeIsDeleted(t, p, items, Span(it));
    CountEnds(t, now, p, it);
    SameBefore(t, now, p);
    LaysFrame(t, now, p + Span(it), items[m..]);
    assert ([it] + items[m..])[1..] == items[m..];
    assert ItemAt(now, p, it);
  }

  /** The run that is reserved lies behind every item that begins before it. */
  lemma BeforeRun(t: seq<DirEntry>, now: seq<DirEntry>, b: nat, items: seq<Item>, p: nat, it: Item)
    requires Lays(t, b, items) && b < p && Registered(t, now, p, it)
    ensures items != [] && b + Span(items[0]) <= p && ItemAt(now, b, items[0])
  {
    hide ItemAt, SumSfn, ScanAt;
    assert IsFree(t[p]) && !IsFree(t[p - 1]);
    if p < b + Span(items[0]) {
      ItemNotFree(t, b, items[0], p - 1);
      ItemNotFree(t, b, items[0], p);
    }
    SameBefore(t, now, b);
    ItemFrame(t, now, b, items[0]);
  }

  /** Entry q is the first one or behind one that is no long-name entry, and from it to p there is no object. */
  predicate Behind(t: seq<DirEntry>, q: nat, p: nat) {
    && q <= p <= |t| && (q == 0 || IsFree(t[q - 1]) || !IsLong(t[q - 1]))
    && forall k | q <= k < p :: Passes(t[k])
  }

  /**
   The short entry at p is there under its own name only: dir_read, coming from entry q, gives it without a long
   name, and dir_find stops at it for that short name only.
   */
  ghost predicate OwnNameOnly(up: wchar -> wchar, t: seq<DirEntry>, q: nat, p: nat, sfn: seq<byte>) {
    && (forall buf: seq<wchar>, blk | |buf| == LFN_BUF ::
          var r := ReadFrom(t, q, buf, Scan(0xFF, 0xFF, blk)); r.0 && r.1 == p && r.2 == NO_BLOCK)
    && (forall x: Target | |x.buf| == LFN_BUF ::
          var r := FindFrom(up, x, t, 0, START); r.0 && r.1 == p ==> !x.lossy && x.sfn == sfn)
  }

  /** dir_read at the short entry: with the long name that is awaited, or without one. */
  lemma ReadsAs(t: seq<DirEntry>, q: nat, p: nat, sfn: seq<byte>, buf: seq<wchar>, blk: int)
    requires |buf| == LFN_BUF && Behind(t, q, p) && p < |t| && IsShort(t[p], sfn) && ShortOk(sfn)
    ensures var r := ReadFrom(t, q, buf, Scan(0xFF, 0xFF, blk));
      r.0 && r.1 == p && r.2 == if Awaited(t, p, sfn) then ScanAt(t, p).blk else NO_BLOCK
  {
    hide SumSfn, Passes, ScanAt;
    BehindCounts(t, q, p);
    assert RunShown(t, q, buf);
    var s, at := ReadPasses(t, q, p, buf, Scan(0xFF, 0xFF, blk));
    assert t[p][0] == t[p][..11][0];
  }

  lemma BehindCounts(t: seq<DirEntry>, q: nat, p: nat)
    requires Behind(t, q, p)
    ensures ScanAt(t, q).ord == 0xFF
  {
    hide Passes;
  }

  /** dir_find at the short entry, for another name. */
  lemma StopsForOwn(up: wchar -> wchar, x: Target, t: seq<DirEntry>, p: nat, sfn: seq<byte>)
    requires |x.buf| == LFN_BUF && p < |t| && IsShort(t[p], sfn) && !Awaited(t, p, sfn)
    requires FindFrom(up, x, t, 0, START).0 && FindFrom(up, x, t, 0, START).1 == p
    ensures !x.lossy && x.sfn == sfn
  {
    hide SumSfn, FindFrom, ScanAt, FindNext;
    StopAfterUsed(up, x, t, 0, START);
    StartInStep(x, t);
    var at := FindPasses(up, x, t, t, 0, p, START);
    FindStep(up, x, t, p, at);
    if !Stops(x, t[p], at) {
      StopBehind(up, x, t, p + 1, FindNext(up, x, t[p], p, at));
    }
  }

  lemma StartInStep(x: Target, t: seq<DirEntry>)
    ensures FindState(x, t, 0, START)
  {
  }

  /** dir_find stops where it started or behind that. */
  lemma {:induction false} StopBehind(up: wchar -> wchar, x: Target, t: seq<DirEntry>, k: nat, st: Scan)
    requires |x.buf| == LFN_BUF
    ensures FindFrom(up, x, t, k, st).0 ==> k <= FindFrom(up, x, t, k, st).1 < |t|
    decreases |t| - k
  {
    hide Stops, FindNext, FindState;
    if k < |t| && t[k][0] != 0 {
      FindStep(up, x, t, k, st);
      StopBehind(up, x, t, k + 1, FindNext(up, x, t[k], k, st));
    }
  }

  /** It passes no entry that ends the table. */
  lemma {:induction false} StopAfterUsed(up: wchar -> wchar, x: Target, t: seq<DirEntry>, k: nat, st: Scan)
    requires |x.buf| == LFN_BUF && FindFrom(up, x, t, k, st).0
    ensures forall j | k <= j < FindFrom(up, x, t, k, st).1 && j < |t| :: t[j][0] != 0
    decreases |t| - k
  {
    hide Stops, FindNext, FindState;
    if k < |t| && t[k][0] != 0 {
      FindStep(up, x, t, k, st);
      if !Stops(x, t[k], st) {
        StopAfterUsed(up, x, t, k + 1, FindNext(up, x, t[k], k, st));
      }
    }
  }

  lemma OwnNameIf(up: wchar -> wchar, t: seq<DirEntry>, q: nat, p: nat, sfn: seq<byte>)
    requires ShortOk(sfn) && p < |t| && IsShort(t[p], sfn) && Behind(t, q, p) && !Awaited(t, p, sfn)
    ensures OwnNameOnly(up, t, q, p, sfn)
  {
    hide SumSfn, Awaited, IsShort, Behind, FindFrom, ReadFrom;
    forall buf: seq<wchar>, blk | |buf| == LFN_BUF
      ensures var r := ReadFrom(t, q, buf, Scan(0xFF, 0xFF, blk)); r.0 && r.1 == p && r.2 == NO_BLOCK
    {
      ReadsAs(t, q, p, sfn, buf, blk);
    }
    forall x: Target | |x.buf| == LFN_BUF && FindFrom(up, x, t, 0, START).0 && FindFrom(up, x, t, 0, START).1 == p
      ensures !x.lossy && x.sfn == sfn
    {
      StopsForOwn(up, x, t, p, sfn);
    }
  }

  lemma OwnNameOnlyIf(up: wchar -> wchar, t: seq<DirEntry>, q: nat, p: nat, sfn: seq<byte>)
    requires ShortOk(sfn) && p < |t| < NO_BLOCK && IsShort(t[p], sfn) && Behind(t, q, p)
    requires OwnNameOnly(up, t, q, p, sfn)
    ensures !Awaited(t, p, sfn)
  {
    hide SumSfn, IsShort, Behind, ReadFrom, ScanAt, OwnNameOnly;
    var buf: seq<wchar> := seq(LFN_BUF, _ => 0);
    OwnNameRead(up, t, q, p, sfn, buf, 0);
    ReadsAs(t, q, p, sfn, buf, 0);
    CountBegins(t, p);
  }

  lemma OwnNameRead(up: wchar -> wchar, t: seq<DirEntry>, q: nat, p: nat, sfn: seq<byte>, buf: seq<wchar>, blk: int)
    requires |buf| == LFN_BUF && OwnNameOnly(up, t, q, p, sfn)
    ensures ReadFrom(t, q, buf, Scan(0xFF, 0xFF, blk)).2 == NO_BLOCK
  {
    hide FindFrom, ReadFrom;
  }

  /**
   A short name that is registered is in the directory under its own name only exactly when no long-name entries
   that pick_lfn accepts wait for it right before its place.
   */
  lemma KeepsExactly(up: wchar -> wchar, t: seq<DirEntry>, now: seq<DirEntry>, q: nat, p: nat, sfn: seq<byte>)
    requires ShortOk(sfn) && Registered(t, now, p, Short(sfn)) && Behind(now, q, p) && |t| < NO_BLOCK
    ensures StandsAlone(t, p, Short(sfn)) <==> OwnNameOnly(up, now, q, p, sfn)
  {
    hide SumSfn, ScanAt, IsShort, Behind, OwnNameOnly;
    SameBefore(t, now, p);
    if StandsAlone(t, p, Short(sfn)) {
      OwnNameIf(up, now, q, p, sfn);
    } else if OwnNameOnly(up, now, q, p, sfn) {
      OwnNameOnlyIf(up, now, q, p, sfn);
    }
  }

  /** Otherwise dir_find stops at it for the name that dir_read gives it, too, unless it did so somewhere before. */
  lemma AdoptedIsFound(up: wchar -> wchar, t: seq<DirEntry>, now: seq<DirEntry>, q: nat, p: nat, sfn: seq<byte>,
                       buf: seq<wchar>, other: seq<byte>)
    requires ShortOk(sfn) && Registered(t, now, p, Short(sfn)) && Behind(now, q, p) && !StandsAlone(t, p, Short(sfn))
    requires |buf| == LFN_BUF && forall k | 0 <= k < p :: t[k][0] != 0
    ensures var r := ReadFrom(now, q, buf, START);
      r.0 && r.1 == p && r.2 == ScanAt(t, p).blk
      && var x := Target(r.3, other, false, true);
        !FindFrom(up, x, t, 0, START).0 ==> FindFrom(up, x, now, 0, START) == (true, p, r.2)
  {
    hide SumSfn, ScanAt, FindFrom, ReadFrom, Passes, Shown, OrdOf, FirstRun, FindState;
    SameBefore(t, now, p);
    ReadsAs(now, q, p, sfn, buf, NO_BLOCK);
    BehindCounts(now, q, p);
    var s, at := ReadPasses(now, q, p, buf, START);
    ReadEnds(now, p, s, at, sfn);
    var x := Target(s, other, false, true);
    CountBegins(now, p);
    if !FindFrom(up, x, t, 0, START).0 {
      var b: nat := ScanAt(now, p).blk;
      StartInStep(x, t);
      var on := FindPasses(up, x, t, now, 0, b, START);
      FindFollows(up, x, now, p, p, on);
      FindStep(up, x, now, p, ScanAt(now, p));
    }
  }

  lemma ReadEnds(t: seq<DirEntry>, p: nat, buf: seq<wchar>, st: Scan, sfn: seq<byte>)
    requires |buf| == LFN_BUF && p < |t| && IsShort(t[p], sfn) && ShortOk(sfn)
    ensures ReadFrom(t, p, buf, st).3 == buf
  {
    hide SumSfn;
    assert t[p][0] == t[p][..11][0];
  }

  /**
   The other case: registered right behind the pieces of a name that have its checksum and no short entry, a short
   name gets that long name.
   */
  lemma LooseAdopted(t: seq<DirEntry>, now: seq<DirEntry>, p: nat, name: seq<wchar>, sfn: seq<byte>, buf: seq<wchar>,
                     st: Scan)
    requires ShortOk(sfn) && Registered(t, now, p, Short(sfn)) && Storable(name) && Pieces(name) <= p
    requires |buf| == LFN_BUF
    requires forall k | p - Pieces(name) <= k < p :: IsPiece(t[k], name, p - k, SumSfn(sfn))
    ensures !StandsAlone(t, p, Short(sfn))
    ensures var r := ReadFrom(now, p - Pieces(name), buf, st);
      r.0 && r.1 == p && r.2 == p - Pieces(name) && Holds(r.3, name)
  {
    hide SumSfn, ReadFrom, FirstRun, IsPiece;
    var b := p - Pieces(name);
    assert now[p][0] == now[p][..11][0];
    assert IsBlock(now, b, name, sfn);
    ReadBlock(now, b, buf, st, name, sfn);
    PiecesCount(t, b, name, SumSfn(sfn), Pieces(name));
  }

  /** The entry of the name "a", with a checksum, and an unused one. */
  function PieceOfA(sum: byte): DirEntry {
    seq(32, i => if i == 0 then 0x41 else if i == 1 then 0x61 else if i == 11 then 0x0F else if i == 13 then sum
                 else if i in {2, 3, 4, 12, 26, 27} then 0 else 0xFF)
  }


  function Unused(): DirEntry { seq(32, _ => 0) }

  lemma PieceOfAIsPiece(sum: byte)
    ensures IsPiece(PieceOfA(sum), [0x61], 1, sum) && IsLong(PieceOfA(sum)) && !IsFree(PieceOfA(sum))
  {
  }

  lemma ShortEntryIsShort(sfn: seq<byte>, nt: byte)
    requires ShortOk(sfn)
    ensures IsShort(ShortBytes(sfn, nt), sfn) && IsFree(Unused()) && ShortBytes(sfn, nt)[0] != 0x2E
  {
    assert ShortBytes(sfn, nt)[..11] == sfn;
  }

  /** Such a directory: a lone piece of the name "a" with the checksum of the short name, and one unused entry. */
  lemma AdoptsA(sfn: seq<byte>, buf: seq<wchar>, st: Scan)
    requires ShortOk(sfn) && |buf| == LFN_BUF
    ensures var e := PieceOfA(SumSfn(sfn));
      var t, now := [e, Unused()], [e, ShortBytes(sfn, 0)];
      && Lays(t, 0, [Loose]) && Registered(t, now, 1, Short(sfn))
      && ReadFrom(now, 0, buf, st).0 && ReadFrom(now, 0, buf, st).1 == 1 && Holds(ReadFrom(now, 0, buf, st).3, [0x61])
  {
    hide SumSfn, ReadFrom, IsPiece, IsShort, IsLong, PieceOfA, ShortBytes, Unused, Holds;
    var e := PieceOfA(SumSfn(sfn));
    var t, now := [e, Unused()], [e, ShortBytes(sfn, 0)];
    PieceOfAIsPiece(SumSfn(sfn));
    ShortEntryIsShort(sfn, 0);
    UnusedIsFree();
    assert [Loose][1..] == [];
    LooseAdopted(t, now, 1, [0x61], sfn, buf, st);
  }

  lemma UnusedIsFree()
    ensures Unused()[0] == 0
  {
  }

  lemma PieceCounts(e: DirEntry, name: seq<wchar>, ord: nat, sum: byte)
    requires Storable(name) && 1 <= ord <= Pieces(name) && IsPiece(e, name, ord, sum)
    ensures e[13] == sum && Accepted(e)
  {
    hide IsPiece, Pick, Accepted;
    var buf: seq<wchar> := seq(LFN_BUF, _ => 0);
    PickPiece(buf, e, name, ord, sum);
    PickAccepts(buf, e);
    PieceSum(e, name, ord, sum);
  }

  lemma PieceSum(e: DirEntry, name: seq<wchar>, ord: nat, sum: byte)
    requires IsPiece(e, name, ord, sum)
    ensures e[13] == sum
  {
  }

  /** The pieces of a name are counted down. */
  lemma {:induction false} PiecesCount(t: seq<DirEntry>, p: nat, name: seq<wchar>, sum: byte, j: nat)
    requires Storable(name) && 1 <= j <= Pieces(name) && p + Pieces(name) <= |t|
    requires forall k | p <= k < p + Pieces(name) :: IsPiece(t[k], name, Pieces(name) - (k - p), sum)
    ensures ScanAt(t, p + j).ord == Pieces(name) - j && ScanAt(t, p + j).sum == sum
    decreases j
  {
    hide IsPiece, IsLong, LastFlag, OrdOf, Accepted;
    if j > 1 {
      PiecesCount(t, p, name, sum, j - 1);
    }
    var k := p + j - 1;
    var st, e := ScanAt(t, k), t[k];
    PieceOrder(e, name, Pieces(name) - (j - 1), sum);
    PieceCounts(e, name, Pieces(name) - (j - 1), sum);
    assert ScanAt(t, k + 1) == Counted(e, k, st);
  }

  lemma {:induction false} LookupNone(up: wchar -> wchar, want: seq<wchar>, x: Target, t: seq<DirEntry>,
                                      items: seq<Item>, p: nat)
    ensures !Lookup(up, want, x, t, items, p).0 <==> forall k | 0 <= k < |items| :: !Matches(up, want, x, items[k])
    decreases |items|
  {
    if items != [] {
      LookupNone(up, want, x, t, items[1..], p + Span(items[0]));
      if !Matches(up, want, x, items[0]) {
        assert forall k | 1 <= k < |items| :: items[k] == items[1..][k - 1];
        if !Lookup(up, want, x, t, items[1..], p + Span(items[0])).0 {
          forall k | 0 <= k < |items|
            ensures !Matches(up, want, x, items[k])
          {
            assert k > 0 ==> !Matches(up, want, x, items[1..][k - 1]);
          }
        } else {
          var k :| 0 <= k < |items| - 1 && Matches(up, want, x, items[1..][k]);
          assert Matches(up, want, x, items[k + 1]);
        }
      }
    }
  }

  /** No entry before one in use ends the table. */
  lemma {:induction false} UsedBefore(t: seq<DirEntry>, b: nat, items: seq<Item>, p: nat)
    requires Lays(t, b, items) && b <= p <= |t| && (p > b ==> t[p - 1][0] != 0)
    ensures forall k | b <= k < p :: t[k][0] != 0
    decreases |items|
  {
    hide ItemAt;
    if items != [] && b < p {
      forall k | b <= k < p && k < b + Span(items[0])
        ensures t[k][0] != 0
      {
        ItemUsed(t, b, items[0], k);
      }
      if b + Span(items[0]) <= p {
        UsedBefore(t, b + Span(items[0]), items[1..], p);
      }
    }
  }

  lemma ItemUsed(t: seq<DirEntry>, p: nat, it: Item, k: nat)
    requires ItemAt(t, p, it) && p <= k < p + Span(it)
    ensures k < |t| && t[k][0] != 0
  {
    hide SumSfn, Awaited;
    ItemNotFree(t, p, it, k);
  }

  /** The place a new entry gets has the previous object, or the start of the table, before it. */
  lemma {:induction false} PreviousObject(t: seq<DirEntry>, p: nat) returns (q: nat)
    requires p <= |t| && forall k | 0 <= k < p :: t[k][0] != 0
    ensures Behind(t, q, p)
    decreases p
  {
    hide Passes;
    if p == 0 {
      q := 0;
    } else if Passes(t[p - 1]) {
      q := PreviousObject(t, p - 1);
    } else {
      LongPasses(t[p - 1]);
      q := p;
    }
  }

  lemma LongPasses(e: DirEntry)
    ensures e[0] != 0 && IsLong(e) ==> Passes(e)
  {
  }

  /** Every directory: q is behind the object before the new one. */
  lemma OwnNameInDirectory(up: wchar -> wchar, t: seq<DirEntry>, now: seq<DirEntry>, items: seq<Item>, p: nat,
                           sfn: seq<byte>) returns (q: nat)
    requires Lays(t, 0, items) && ShortOk(sfn) && Registered(t, now, p, Short(sfn)) && |t| < NO_BLOCK
    ensures Behind(now, q, p) && (StandsAlone(t, p, Short(sfn)) <==> OwnNameOnly(up, now, q, p, sfn))
  {
    hide Lays, SumSfn, OwnNameOnly, StandsAlone, Behind;
    UsedBefore(t, 0, items, p);
    q := PreviousObject(now, p);
    KeepsExactly(up, t, now, q, p, sfn);
  }

  /** dir_find at the entries of the item that it looks for. */
  lemma StopsAtItem(up: wchar -> wchar, x: Target, want: seq<wchar>, t: seq<DirEntry>, p: nat, it: Item, st: Scan)
    requires Folding(up) && Holds(x.buf, want) && Storable(want) && !x.noLfn && Occupies(t, p, it)
    requires FindState(x, t, p, st) && (it.Short? || it.Named?) && (it.Named? ==> it.name == want)
    requires if x.lossy then it.Named? else it.sfn == x.sfn
    ensures FindFrom(up, x, t, p, st) == (true, p + Span(it) - 1, if it.Named? then p else ScanAt(t, p).blk)
  {
    hide SumSfn, FindFrom, ScanAt, IsBlock, Storable;
    if it.Named? {
      FindBlock(up, x, want, t, p, st, it.name, it.sfn);
    } else {
      FindStep(up, x, t, p, st);
    }
  }

  /**
   A name that dir_find does not find is found once dir_register has registered it, at the very entry that
   was written, and dir_read from the start of that entry's block gives the name back.
   */
  lemma RegisteredIsFound(up: wchar -> wchar, x: Target, want: seq<wchar>, t: seq<DirEntry>, now: seq<DirEntry>,
                          items: seq<Item>, p: nat, it: Item, st: Scan)
    requires Folding(up) && Holds(x.buf, want) && Storable(want) && !x.noLfn
    requires Lays(t, 0, items) && Registered(t, now, p, it)
    requires !FindFrom(up, x, t, 0, START).0
    requires if x.lossy then it.Named? else it.sfn == x.sfn
    requires it.Named? ==> it.name == want
    ensures p <= |t|
    ensures FindFrom(up, x, now, 0, START) == (true, p + Span(it) - 1, if it.Named? then p else ScanAt(t, p).blk)
    ensures it.Named? ==>
      var r := ReadFrom(now, p, x.buf, st); r.0 && r.1 == p + Span(it) - 1 && r.2 == p && Holds(r.3, want)
  {
    hide Lays, SumSfn, FindFrom, ReadFrom, Occupies, Storable, ScanAt, FindState;
    UsedBefore(t, 0, items, p);
    SameBefore(t, now, p);
    StartInStep(x, t);
    var at := FindPasses(up, x, t, now, 0, p, START);
    SameState(x, t, now, p, at);
    StopsAtItem(up, x, want, now, p, it, at);
    if it.Named? {
      NamedIsBlock(now, p, it);
      ReadBlock(now, p, x.buf, st, it.name, it.sfn);
    }
  }

  lemma SameState(x: Target, t: seq<DirEntry>, now: seq<DirEntry>, p: nat, st: Scan)
    requires FindState(x, t, p, st) && p <= |now| && ScanAt(now, p) == ScanAt(t, p)
    ensures FindState(x, now, p, st)
  {
    hide ScanAt;
  }

  lemma NamedIsBlock(t: seq<DirEntry>, p: nat, it: Item)
    requires it.Named? && Occupies(t, p, it)
    ensures |it.sfn| == 11 && IsBlock(t, p, it.name, it.sfn)
  {
  }

  /** Two items of a directory have the same short name, or the same long name up to case. */
  ghost predicate Clash(up: wchar -> wchar, a: Item, b: Item) {
    || ((a.Named? || a.Short?) && (b.Named? || b.Short?) && a.sfn == b.sfn)
    || (a.Named? && b.Named? && SameName(up, a.name, b.name))
  }

  ghost predicate NoClash(up: wchar -> wchar, items: seq<Item>) {
    forall i, j | 0 <= i < |items| && 0 <= j < |items| && i != j :: !Clash(up, items[i], items[j])
  }

  /**
   Creating a name as f_open does, after dir_find did not find it, keeps the names of the directory distinct:
   no two objects have the same short name or, up to case, the same long one.
   */
  lemma RegisterKeepsDistinct(up: wchar -> wchar, x: Target, want: seq<wchar>, t: seq<DirEntry>, now: seq<DirEntry>,
                              items: seq<Item>, p: nat, it: Item) returns (after: seq<Item>)
    requires Folding(up) && Holds(x.buf, want) && Storable(want) && !x.noLfn
    requires Lays(t, 0, items) && NoClash(up, items) && Registered(t, now, p, it) && (it.Named? ==> it.name == want)
    requires StandsAlone(t, p, it)
    requires !FindFrom(up, x, t, 0, START).0
    requires if x.lossy then !FindFrom(up, Target(x.buf, it.sfn, true, false), t, 0, START).0 else it.sfn == x.sfn
    ensures Lays(now, 0, after) && NoClash(up, after) && it in after
    ensures forall o | o in items && !o.Deleted? :: o in after
  {
    hide ItemAt, SumSfn, FindFrom, Lays, SameName, StandsAlone;
    var i, m := RegisterKeeps(t, now, 0, items, p, it);
    after := items[..i] + [it] + items[i + m..];
    FindItems(up, x, want, t, 0, START, items);
    LookupNone(up, want, x, t, items, 0);
    if x.lossy {
      var y := Target(x.buf, it.sfn, true, false);
      FindItems(up, y, want, t, 0, START, items);
      LookupNone(up, want, y, t, items, 0);
    }
    forall k | 0 <= k < |items|
      ensures !Clash(up, it, items[k]) && !Clash(up, items[k], it)
    {
      if it.Named? && items[k].Named? {
        SameNameSym(up, it, items[k]);
      }
      assert !Matches(up, want, x, items[k]);
    }
    forall a, b | 0 <= a < |after| && 0 <= b < |after| && a != b
      ensures !Clash(up, after[a], after[b])
    {
      var ia, ib := if a < i then a else a - 1 + m, if b < i then b else b - 1 + m;
      assert a != i ==> after[a] == items[ia];
      assert b != i ==> after[b] == items[ib];
    }
    assert after[i] == it;
    forall o | o in items && !o.Deleted?
      ensures o in after
    {
      var k :| 0 <= k < |items| && items[k] == o;
      assert after[if k < i then k else k + 1 - m] == o;
    }
  }

  lemma SameNameSym(up: wchar -> wchar, a: Item, b: Item)
    requires a.Named? && b.Named?
    ensures SameName(up, a.name, b.name) <==> SameName(up, b.name, a.name)
  {
  }
}
