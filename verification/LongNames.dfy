/**
 Long file names in a directory: the entries that hold a name piece by piece in front of the short
 entry, how they are written, read back and compared.  A directory is a table of 32-byte entries.
 */
module LongNames {
  import opened Bitwise
  import opened FatLayout

  /** A UTF-16 code unit. */
  type wchar = c: int | 0 <= c < 0x10000

  type DirEntry = s: seq<byte> | |s| == 32 witness seq(32, _ => 0)

  /** Size of the name buffer: 255 characters and a terminator. */
  const LFN_BUF := 256

  /** Case folding, which is not part of this model: all that matters is that only the terminator folds to 0. */
  ghost predicate Folding(up: wchar -> wchar) {
    forall c: wchar :: up(c) == 0 <==> c == 0
  }

  // ---------- fields of an entry ----------

  /** Where the s-th character of a long-name entry is. */
  function CharOfs(s: nat): (o: nat)
    requires s < 13
    ensures 1 <= o <= 30 && o != 11 && o != 12 && o != 13 && o != 26 && o != 27 && o + 1 != 11 && o + 1 != 26
  {
    if s < 5 then 1 + 2 * s else if s < 11 then 14 + 2 * (s - 5) else 28 + 2 * (s - 11)
  }

  function CharOf(e: DirEntry, s: nat): wchar
    requires s < 13
  {
    LdWord(e, CharOfs(s))
  }

  function Attr(e: DirEntry): nat { e[11] as int % 0x40 }
  predicate IsLong(e: DirEntry) { Attr(e) == 0x0F }
  predicate LastFlag(e: DirEntry) { e[0] as int / 0x40 % 2 == 1 }

  /** Checksum of the 11 bytes of a short name. */
  function SumSfn(name: seq<byte>): byte {
    if name == [] then 0
    else
      var sum := SumSfn(name[..|name| - 1]) as int;
      (sum / 2 + sum * 0x80 + name[|name| - 1]) % 0x100
  }

  /** The bits of a byte, the lowest first. */
  function BitsOf(b: nat, n: nat): (r: seq<nat>)
    ensures |r| == n
  {
    if n == 0 then [] else [b % 2] + BitsOf(b / 2, n - 1)
  }

  function FromBits(bs: seq<nat>): nat { if bs == [] then 0 else bs[0] + 2 * FromBits(bs[1..]) }

  /** The byte with the bits of b one place further down, and its lowest bit at the top. */
  function Rotated(b: byte): nat {
    var bs := BitsOf(b, 8);
    FromBits(bs[1..] + [bs[0]])
  }

  lemma {:induction false} BitsBack(b: nat, n: nat, top: nat)
    requires b < Pow2(n)
    ensures FromBits(BitsOf(b, n) + [top]) == b + top * Pow2(n)
  {
    if n == 0 {
      assert [top][1..] == [];
      assert FromBits([]) == 0;
    } else {
      BitsBack(b / 2, n - 1, top);
      var bs := BitsOf(b, n) + [top];
      assert bs[1..] == BitsOf(b / 2, n - 1) + [top];
      assert top * Pow2(n) == 2 * (top * Pow2(n - 1));
    }
  }

  lemma RotatedIs(b: byte)
    ensures Rotated(b) == b / 2 + 0x80 * (b % 2)
  {
    assert Pow2(7) == 0x80;
    BitsBack(b / 2, 7, b % 2);
    assert BitsOf(b, 8)[1..] == BitsOf(b / 2, 7) && BitsOf(b, 8)[0] == b % 2;
  }

  /** The checksum takes in a character by rotating right by a bit and adding it. */
  lemma SumRotates(name: seq<byte>, c: byte)
    ensures SumSfn([]) == 0 && SumSfn(name + [c]) == (Rotated(SumSfn(name)) + c) % 0x100
  {
    hide Rotated;
    var sum := SumSfn(name);
    assert (name + [c])[..|name|] == name;
    RotatedIs(sum);
    ByteSum(sum, c);
  }

  lemma ByteSum(sum: byte, c: byte)
    ensures (sum / 2 + sum * 0x80 + c) % 0x100 == (sum / 2 + 0x80 * (sum % 2) + c) % 0x100
  {
    var h := sum / 2;
    assert sum == 2 * h + sum % 2;
    assert sum / 2 + sum * 0x80 + c == 0x100 * h + (h + 0x80 * (sum % 2) + c);
  }

  lemma SumNext(name: seq<byte>, sum: byte, c: byte, next: byte) returns (longer: seq<byte>)
    requires SumSfn(name) == sum && (sum / 2 + sum * 0x80 + c) % 0x100 == next
    ensures longer == name + [c] && SumSfn(longer) == next
  {
    longer := name + [c];
    assert longer[..|name|] == name;
  }

  /** The checksum of ABC.TXT. */
  lemma SumOfAbc()
    ensures SumSfn([0x41, 0x42, 0x43, 0x20, 0x20, 0x20, 0x20, 0x20, 0x54, 0x58, 0x54]) == 0xD1
  {
    assert SumSfn([]) == 0;
    hide SumSfn;
    var n1 := SumNext([], 0x00, 0x41, 0x41);
    var n2 := SumNext(n1, 0x41, 0x42, 0xE2);
    var n3 := SumNext(n2, 0xE2, 0x43, 0xB4);
    var n4 := SumNext(n3, 0xB4, 0x20, 0x7A);
    var n5 := SumNext(n4, 0x7A, 0x20, 0x5D);
    var n6 := SumNext(n5, 0x5D, 0x20, 0xCE);
    var n7 := SumNext(n6, 0xCE, 0x20, 0x87);
    var n8 := SumNext(n7, 0x87, 0x20, 0xE3);
    var n9 := SumNext(n8, 0xE3, 0x54, 0x45);
    var n10 := SumNext(n9, 0x45, 0x58, 0xFA);
    var n11 := SumNext(n10, 0xFA, 0x54, 0xD1);
    assert n11 == [0x41, 0x42, 0x43, 0x20, 0x20, 0x20, 0x20, 0x20, 0x54, 0x58, 0x54];
  }

  // ---------- what a block of entries looks like ----------

  /** The i-th character a long-name entry has to show for a name: the name, its terminator, then filler. */
  function Padded(name: seq<wchar>, i: nat): wchar {
    if i < |name| then name[i] else if i == |name| then 0 else 0xFFFF
  }

  /** Number of entries a name takes. */
  function Pieces(name: seq<wchar>): nat { (|name| + 12) / 13 }

  /** e is the ord-th entry of the name. */
  ghost predicate IsPiece(e: DirEntry, name: seq<wchar>, ord: nat, sum: byte) {
    && ord >= 1
    && e[0] as int == (if ord == Pieces(name) then 0x40 + ord else ord)
    && e[11] == 0x0F && e[12] == 0 && e[13] == sum && LdWord(e, 26) == 0
    && forall s | 0 <= s < 13 :: CharOf(e, s) == Padded(name, (ord - 1) * 13 + s)
  }

  /** The characters of the ord-th entry of a name. */
  function PieceChars(name: seq<wchar>, ord: nat): (c: seq<wchar>)
    requires ord >= 1
    ensures |c| == 13
  {
    seq<wchar>(13, k requires 0 <= k < 13 => Padded(name, (ord - 1) * 13 + k))
  }

  /** The bytes of the ord-th entry of a name. */
  function PieceBytes(name: seq<wchar>, ord: nat, sum: byte): seq<byte>
    requires 1 <= ord <= 20
  {
    var c := PieceChars(name, ord);
    var lo: seq<byte>, hi: seq<byte> := Lows(c), Highs(c);
    [if 13 * ord >= |name| then 0x40 + ord else ord,
     lo[0], hi[0], lo[1], hi[1], lo[2], hi[2], lo[3], hi[3], lo[4], hi[4],
     0x0F, 0, sum,
     lo[5], hi[5], lo[6], hi[6], lo[7], hi[7], lo[8], hi[8], lo[9], hi[9], lo[10], hi[10],
     0, 0,
     lo[11], hi[11], lo[12], hi[12]]
  }

  function Lows(c: seq<wchar>): (r: seq<byte>)
    ensures |r| == |c| && forall k | 0 <= k < |c| :: r[k] == c[k] % 0x100
  {
    seq(|c|, k requires 0 <= k < |c| => c[k] % 0x100)
  }

  function Highs(c: seq<wchar>): (r: seq<byte>)
    ensures |r| == |c| && forall k | 0 <= k < |c| :: r[k] == c[k] / 0x100
  {
    seq(|c|, k requires 0 <= k < |c| => c[k] / 0x100)
  }

  lemma WordBytes(e: DirEntry, i: nat, c: wchar)
    requires i + 1 < 32
    ensures LdWord(e, i) == c <==> e[i] == c % 0x100 && e[i + 1] == c / 0x100
  {
  }

  /** Where the characters of an entry are. */
  lemma CharPlaces(e: DirEntry)
    ensures CharOf(e, 0) == LdWord(e, 1) && CharOf(e, 1) == LdWord(e, 3) && CharOf(e, 2) == LdWord(e, 5)
    ensures CharOf(e, 3) == LdWord(e, 7) && CharOf(e, 4) == LdWord(e, 9) && CharOf(e, 5) == LdWord(e, 14)
    ensures CharOf(e, 6) == LdWord(e, 16) && CharOf(e, 7) == LdWord(e, 18) && CharOf(e, 8) == LdWord(e, 20)
    ensures CharOf(e, 9) == LdWord(e, 22) && CharOf(e, 10) == LdWord(e, 24) && CharOf(e, 11) == LdWord(e, 28)
    ensures CharOf(e, 12) == LdWord(e, 30)
  {
  }

  /** The entry holds these 13 characters. */
  ghost predicate HoldsChars(e: DirEntry, c: seq<wchar>)
    requires |c| == 13
  {
    forall s | 0 <= s < 13 :: CharOf(e, s) == c[s]
  }

  lemma CharsAre(e: DirEntry, c: seq<wchar>)
    requires |c| == 13
    ensures HoldsChars(e, c) <==>
      && LdWord(e, 1) == c[0] && LdWord(e, 3) == c[1] && LdWord(e, 5) == c[2] && LdWord(e, 7) == c[3]
      && LdWord(e, 9) == c[4] && LdWord(e, 14) == c[5] && LdWord(e, 16) == c[6] && LdWord(e, 18) == c[7]
      && LdWord(e, 20) == c[8] && LdWord(e, 22) == c[9] && LdWord(e, 24) == c[10] && LdWord(e, 28) == c[11]
      && LdWord(e, 30) == c[12]
  {
    hide CharOf, LdWord;
    CharPlaces(e);
    if HoldsChars(e, c) {
      assert CharOf(e, 0) == c[0] && CharOf(e, 1) == c[1] && CharOf(e, 2) == c[2] && CharOf(e, 3) == c[3];
      assert CharOf(e, 4) == c[4] && CharOf(e, 5) == c[5] && CharOf(e, 6) == c[6] && CharOf(e, 7) == c[7];
      assert CharOf(e, 8) == c[8] && CharOf(e, 9) == c[9] && CharOf(e, 10) == c[10] && CharOf(e, 11) == c[11];
      assert CharOf(e, 12) == c[12];
    }
  }

  lemma PieceParts(e: DirEntry, name: seq<wchar>, ord: nat, sum: byte)
    requires Storable(name) && 1 <= ord <= Pieces(name)
    ensures ord <= 20 && Pieces(name) <= 20
    ensures IsPiece(e, name, ord, sum) <==>
      && e[0] == (if 13 * ord >= |name| then 0x40 + ord else ord)
      && e[11] == 0x0F && e[12] == 0 && e[13] == sum && LdWord(e, 26) == 0 && HoldsChars(e, PieceChars(name, ord))
  {
    hide CharOf, LdWord, Padded;
  }

  lemma BytesParts(e: DirEntry, name: seq<wchar>, ord: nat, sum: byte)
    requires 1 <= ord <= 20
    ensures var c := PieceChars(name, ord);
      e == PieceBytes(name, ord, sum) <==>
        && e[0] == (if 13 * ord >= |name| then 0x40 + ord else ord) && e[11] == 0x0F && e[12] == 0 && e[13] == sum
        && e[26] == 0 && e[27] == 0
        && e[1] == c[0] % 0x100 && e[2] == c[0] / 0x100
        && e[3] == c[1] % 0x100 && e[4] == c[1] / 0x100
        && e[5] == c[2] % 0x100 && e[6] == c[2] / 0x100
        && e[7] == c[3] % 0x100 && e[8] == c[3] / 0x100
        && e[9] == c[4] % 0x100 && e[10] == c[4] / 0x100
        && e[14] == c[5] % 0x100 && e[15] == c[5] / 0x100
        && e[16] == c[6] % 0x100 && e[17] == c[6] / 0x100
        && e[18] == c[7] % 0x100 && e[19] == c[7] / 0x100
        && e[20] == c[8] % 0x100 && e[21] == c[8] / 0x100
        && e[22] == c[9] % 0x100 && e[23] == c[9] / 0x100
        && e[24] == c[10] % 0x100 && e[25] == c[10] / 0x100
        && e[28] == c[11] % 0x100 && e[29] == c[11] / 0x100
        && e[30] == c[12] % 0x100 && e[31] == c[12] / 0x100
  {
    hide PieceChars;
  }

  /** Being the ord-th entry of a name is having just these bytes. */
  lemma PieceIsBytes(e: DirEntry, name: seq<wchar>, ord: nat, sum: byte)
    requires Storable(name) && 1 <= ord <= Pieces(name)
    ensures ord <= 20 && (IsPiece(e, name, ord, sum) <==> e == PieceBytes(name, ord, sum))
  {
    PieceParts(e, name, ord, sum);
    BytesParts(e, name, ord, sum);
    hide IsPiece, PieceBytes, HoldsChars, PieceChars, LdWord, Storable, Pieces;
    var c := PieceChars(name, ord);
    CharsAre(e, c);
    WordBytes(e, 26, 0);
    WordBytes(e, 1, c[0]);
    WordBytes(e, 3, c[1]);
    WordBytes(e, 5, c[2]);
    WordBytes(e, 7, c[3]);
    WordBytes(e, 9, c[4]);
    WordBytes(e, 14, c[5]);
    WordBytes(e, 16, c[6]);
    WordBytes(e, 18, c[7]);
    WordBytes(e, 20, c[8]);
    WordBytes(e, 22, c[9]);
    WordBytes(e, 24, c[10]);
    WordBytes(e, 28, c[11]);
    WordBytes(e, 30, c[12]);
  }

  /** A name as it may be stored: 1 to 255 characters, none of them the terminator or the filler. */
  ghost predicate Storable(name: seq<wchar>) {
    1 <= |name| <= 255 && forall i | 0 <= i < |name| :: name[i] != 0 && name[i] != 0xFFFF
  }

  /** The buffer holds the name and its terminator. */
  ghost predicate Holds(buf: seq<wchar>, name: seq<wchar>) {
    |buf| == LFN_BUF && |name| <= 255 && buf[..|name|] == name && buf[|name|] == 0
  }

  // ---------- writing ----------

  lemma CharOfsOrder(s: nat)
    requires s < 13
    ensures forall t: nat | t < s :: CharOfs(t) + 1 < CharOfs(s)
  {
  }

  /** The characters of the piece that starts at character i0, as put_lfn's loop has put s of them at d. */
  ghost predicate CharsPut(tab: seq<byte>, d: nat, name: seq<wchar>, i0: nat, s: nat)
    requires d + 32 <= |tab| && s <= 13
  {
    forall t: nat | t < s ::
      tab[d + CharOfs(t)] as int + 0x100 * tab[d + CharOfs(t) + 1] as int == Padded(name, i0 + t)
  }

  /** Nothing is changed but the characters of the entry at d. */
  ghost predicate Spared(was: seq<byte>, tab: seq<byte>, d: nat) {
    |was| == |tab| && d + 32 <= |tab| && forall j | 0 <= j < |tab| ::
      j < d + 1 || j >= d + 32 || j == d + 11 || j == d + 12 || j == d + 13 || j == d + 26 || j == d + 27 ==>
        tab[j] == was[j]
  }

  /** st_word: a character stored at index i, low byte first. */
  function WithWord(s: seq<byte>, i: nat, c: wchar): seq<byte>
    requires i + 1 < |s|
  {
    var lo: byte, hi: byte := c % 0x100, c / 0x100;
    s[i := lo][i + 1 := hi]
  }

  lemma PutStep(first: seq<byte>, was: seq<byte>, now: seq<byte>, d: nat, name: seq<wchar>, i0: nat, s: nat)
    requires d + 32 <= |was| && s < 13 && CharsPut(was, d, name, i0, s) && Spared(first, was, d)
    requires now == WithWord(was, d + CharOfs(s), Padded(name, i0 + s))
    ensures CharsPut(now, d, name, i0, s + 1) && Spared(first, now, d)
  {
    hide Padded, CharOfs;
    CharOfsOrder(s);
  }

  /** put_lfn's loop over the 13 characters of an entry; wc is 0xFFFF once the terminator is put. */
  method PutChars(lfn: array<wchar>, ghost name: seq<wchar>, tab: array<byte>, d: nat, i0: nat)
    returns (wc: wchar, i: nat)
    requires Storable(name) && Holds(lfn[..], name) && i0 < |name| && d + 32 <= tab.Length
    modifies tab
    ensures CharsPut(tab[..], d, name, i0, 13) && Spared(old(tab[..]), tab[..], d)
    ensures wc == 0xFFFF <==> i0 + 13 > |name|
    ensures wc != 0xFFFF ==> i == i0 + 13
  {
    hide CharOfs, CharsPut, Spared;
    i := i0;
    var s := 0;
    wc := 0;
    ghost var first := tab[..];
    assert CharsPut(first, d, name, i0, 0) && Spared(first, first, d) by {
      StartPut(first, d, name, i0);
    }
    while s < 13
      invariant 0 <= s <= 13
      invariant i0 + s <= |name| ==> i == i0 + s
      invariant wc == 0xFFFF <==> i0 + s > |name|
      invariant CharsPut(tab[..], d, name, i0, s) && Spared(first, tab[..], d)
    {
      if wc != 0xFFFF {
        assert lfn[i] == Padded(name, i) by { assert i < |name| ==> lfn[i] == lfn[..][..|name|][i]; }
        wc := lfn[i];
        i := i + 1;
      }
      ghost var was := tab[..];
      tab[d + CharOfs(s)] := wc % 0x100;
      tab[d + CharOfs(s) + 1] := wc / 0x100;
      assert tab[..] == WithWord(was, d + CharOfs(s), wc);
      PutStep(first, was, tab[..], d, name, i0, s);
      if wc == 0 {
        wc := 0xFFFF;
      }
      s := s + 1;
    }
  }

  lemma StartPut(tab: seq<byte>, d: nat, name: seq<wchar>, i0: nat)
    requires d + 32 <= |tab|
    ensures CharsPut(tab, d, name, i0, 0) && Spared(tab, tab, d)
  {
  }

  /** put_lfn: the ord-th entry of the name in lfn, built in the 32 bytes of tab from d on. */
  method PutLfn(lfn: array<wchar>, ghost name: seq<wchar>, tab: array<byte>, d: nat, ord: nat, sum: byte)
    requires Storable(name) && Holds(lfn[..], name) && 1 <= ord <= Pieces(name) && d + 32 <= tab.Length
    modifies tab
    ensures IsPiece(tab[d..d + 32], name, ord, sum)
    ensures forall i | 0 <= i < tab.Length && !(d <= i < d + 32) :: tab[i] == old(tab[i])
  {
    hide CharOfs;
    tab[d + 13], tab[d + 11], tab[d + 12] := sum, 0x0F, 0;
    tab[d + 26], tab[d + 27] := 0, 0;
    var wc, i := PutChars(lfn, name, tab, d, (ord - 1) * 13);
    tab[d] := if wc == 0xFFFF || lfn[i] == 0 then 0x40 + ord else ord;
    ghost var e := tab[d..d + 32];
    forall s: nat | s < 13 ensures CharOf(e, s) == Padded(name, (ord - 1) * 13 + s) {
      assert e[CharOfs(s)] == tab[d + CharOfs(s)] && e[CharOfs(s) + 1] == tab[d + CharOfs(s) + 1];
    }
  }

  // ---------- reading one entry ----------

  /** The order byte without the last-entry flag. */
  function OrdOf(e: DirEntry): nat { if LastFlag(e) then e[0] as int - 0x40 else e[0] }

  /** Offset in the name buffer of the piece with this order, in unsigned 32-bit arithmetic. */
  function PieceOfs(ord: nat): nat { (ord - 1) * 13 % 0x1_0000_0000 }

  /** pick_lfn's loop from character s on: i is the place in the buffer, wc the last character taken. */
  function PickFrom(buf: seq<wchar>, e: DirEntry, i: nat, s: nat, wc: wchar): (r: (bool, seq<wchar>))
    requires |buf| == LFN_BUF && s <= 13
    ensures |r.1| == LFN_BUF
    decreases 13 - s
  {
    if s == 13 then
      if LastFlag(e) && wc != 0 then (if i >= LFN_BUF then (false, buf) else (true, buf[i := 0])) else (true, buf)
    else
      var uc := CharOf(e, s);
      if wc != 0 then
        if i >= LFN_BUF then (false, buf) else PickFrom(buf[i := uc], e, i + 1, s + 1, uc)
      else if uc != 0xFFFF then (false, buf)
      else PickFrom(buf, e, i, s + 1, wc)
  }

  /** pick_lfn: whether the entry is a proper piece, and the name buffer with its characters. */
  function Pick(buf: seq<wchar>, e: DirEntry): (r: (bool, seq<wchar>))
    requires |buf| == LFN_BUF
    ensures |r.1| == LFN_BUF
  {
    if LdWord(e, 26) != 0 then (false, buf) else PickFrom(buf, e, PieceOfs(OrdOf(e)), 0, 1)
  }

  method PickLfn(lfnbuf: array<wchar>, e: DirEntry) returns (ok: bool)
    requires lfnbuf.Length == LFN_BUF
    modifies lfnbuf
    ensures (ok, lfnbuf[..]) == Pick(old(lfnbuf[..]), e)
  {
    if LdWord(e, 26) != 0 {
      return false;
    }
    var i, s, wc := PieceOfs(OrdOf(e)), 0, 1;
    ghost var want := Pick(lfnbuf[..], e);
    while s < 13
      invariant 0 <= s <= 13 && 0 <= wc < 0x10000 && 0 <= i
      invariant PickFrom(lfnbuf[..], e, i, s, wc) == want
    {
      var uc := CharOf(e, s);
      if wc != 0 {
        if i >= LFN_BUF {
          return false;
        }
        ghost var was := lfnbuf[..];
        lfnbuf[i] := uc;
        assert lfnbuf[..] == was[i := uc];
        wc := uc;
        i := i + 1;
      } else if uc != 0xFFFF {
        return false;
      }
      s := s + 1;
    }
    if LastFlag(e) && wc != 0 {
      if i >= LFN_BUF {
        return false;
      }
      ghost var was := lfnbuf[..];
      lfnbuf[i] := 0;
      assert lfnbuf[..] == was[i := 0];
    }
    return true;
  }

  /** cmp_lfn's loop from character s on. */
  ghost predicate CmpFrom(up: wchar -> wchar, buf: seq<wchar>, e: DirEntry, i: nat, s: nat, wc: wchar)
    requires |buf| == LFN_BUF && s <= 13
    decreases 13 - s
  {
    if s == 13 then !(LastFlag(e) && wc != 0 && i < LFN_BUF && buf[i] != 0)
    else
      var uc := CharOf(e, s);
      if wc != 0 then i < LFN_BUF && up(uc) == up(buf[i]) && CmpFrom(up, buf, e, i + 1, s + 1, uc)
      else uc == 0xFFFF && CmpFrom(up, buf, e, i, s + 1, wc)
  }

  ghost predicate Cmp(up: wchar -> wchar, buf: seq<wchar>, e: DirEntry)
    requires |buf| == LFN_BUF
  {
    LdWord(e, 26) == 0 && CmpFrom(up, buf, e, PieceOfs(e[0] as int % 0x40), 0, 1)
  }

  /** cmp_lfn: compares the entry with the name in the buffer, up to case. */
  method CmpLfn(up: wchar -> wchar, lfnbuf: array<wchar>, e: DirEntry) returns (ok: bool)
    requires lfnbuf.Length == LFN_BUF
    ensures ok == Cmp(up, lfnbuf[..], e)
  {
    if LdWord(e, 26) != 0 {
      return false;
    }
    var i, s, wc := PieceOfs(e[0] as int % 0x40), 0, 1;
    ghost var want := Cmp(up, lfnbuf[..], e);
    while s < 13
      invariant 0 <= s <= 13 && 0 <= wc < 0x10000 && 0 <= i
      invariant CmpFrom(up, lfnbuf[..], e, i, s, wc) == want
    {
      var uc := CharOf(e, s);
      if wc != 0 {
        if i >= LFN_BUF || up(uc) != up(lfnbuf[i]) {
          return false;
        }
        i := i + 1;
        wc := uc;
      } else if uc != 0xFFFF {
        return false;
      }
      s := s + 1;
    }
    if LastFlag(e) && wc != 0 && i < LFN_BUF && lfnbuf[i] != 0 {
      return false;
    }
    return true;
  }

  // ---------- which entries are accepted ----------

  predicate AcceptedFrom(e: DirEntry, i: nat, s: nat, wc: wchar)
    requires s <= 13
    decreases 13 - s
  {
    if s == 13 then LastFlag(e) && wc != 0 ==> i < LFN_BUF
    else if wc != 0 then i < LFN_BUF && AcceptedFrom(e, i + 1, s + 1, CharOf(e, s))
    else CharOf(e, s) == 0xFFFF && AcceptedFrom(e, i, s + 1, wc)
  }

  /** The entry is one that pick_lfn accepts. */
  predicate Accepted(e: DirEntry) { LdWord(e, 26) == 0 && AcceptedFrom(e, PieceOfs(OrdOf(e)), 0, 1) }

  lemma AcceptedOrder(e: DirEntry)
    requires Accepted(e)
    ensures 1 <= OrdOf(e) <= 20
  {
  }

  lemma {:induction false} PickFromAccepts(buf: seq<wchar>, e: DirEntry, i: nat, s: nat, wc: wchar)
    requires |buf| == LFN_BUF && s <= 13
    ensures PickFrom(buf, e, i, s, wc).0 <==> AcceptedFrom(e, i, s, wc)
    decreases 13 - s
  {
    hide CharOf;
    if s < 13 {
      if wc == 0 {
        PickFromAccepts(buf, e, i, s + 1, wc);
      } else if i < LFN_BUF {
        PickFromAccepts(buf[i := CharOf(e, s)], e, i + 1, s + 1, CharOf(e, s));
      }
    }
  }

  /** Whether pick_lfn accepts an entry does not depend on the buffer. */
  lemma PickAccepts(buf: seq<wchar>, e: DirEntry)
    requires |buf| == LFN_BUF
    ensures Pick(buf, e).0 <==> Accepted(e)
  {
    PickFromAccepts(buf, e, PieceOfs(OrdOf(e)), 0, 1);
  }

  lemma {:induction false} CmpFromAccepts(up: wchar -> wchar, buf: seq<wchar>, e: DirEntry, k: nat, s: nat, wc: wchar,
                                          i: nat)
    requires |buf| == LFN_BUF && s <= 13 && (wc != 0 ==> i == 13 * k + s && (s > 0 ==> i <= LFN_BUF))
    requires CmpFrom(up, buf, e, i, s, wc)
    ensures AcceptedFrom(e, i, s, wc)
    decreases 13 - s
  {
    hide CharOf;
    if s < 13 {
      if wc == 0 {
        CmpFromAccepts(up, buf, e, k, s + 1, wc, i);
      } else {
        CmpFromAccepts(up, buf, e, k, s + 1, CharOf(e, s), i + 1);
      }
    }
  }

  lemma CmpInside(up: wchar -> wchar, buf: seq<wchar>, e: DirEntry, i: nat)
    requires |buf| == LFN_BUF && CmpFrom(up, buf, e, i, 0, 1)
    ensures i < LFN_BUF
  {
    hide CharOf;
  }

  lemma OrderParts(e: DirEntry)
    ensures PieceOfs(0) >= LFN_BUF && (OrdOf(e) < 0x80 ==> OrdOf(e) == e[0] as int % 0x40)
    ensures forall k: nat | 1 <= k < 0x40 :: PieceOfs(k) == 13 * (k - 1)
  {
  }

  /** An entry that cmp_lfn accepts pick_lfn accepts, if its order is one of a name. */
  lemma CmpAccepts(up: wchar -> wchar, buf: seq<wchar>, e: DirEntry)
    requires |buf| == LFN_BUF && Cmp(up, buf, e)
    ensures e[0] as int % 0x40 != 0 && (OrdOf(e) < 0x80 ==> Accepted(e))
  {
    hide CmpFrom, AcceptedFrom, PieceOfs, OrdOf, LdWord;
    var ord := e[0] as int % 0x40;
    OrderParts(e);
    CmpInside(up, buf, e, PieceOfs(ord));
    if OrdOf(e) < 0x80 {
      CmpFromAccepts(up, buf, e, ord - 1, 0, 1, PieceOfs(ord));
    }
  }

  // ---------- what is in the buffer once an entry has been picked ----------

  predicate ShownFrom(buf: seq<wchar>, e: DirEntry, i: nat, s: nat, wc: wchar)
    requires |buf| == LFN_BUF && s <= 13
    decreases 13 - s
  {
    if s == 13 then LastFlag(e) && wc != 0 ==> i < LFN_BUF && buf[i] == 0
    else if wc != 0 then i < LFN_BUF && buf[i] == CharOf(e, s) && ShownFrom(buf, e, i + 1, s + 1, CharOf(e, s))
    else CharOf(e, s) == 0xFFFF && ShownFrom(buf, e, i, s + 1, wc)
  }

  /** The characters of the entry are in the buffer. */
  predicate Shown(buf: seq<wchar>, e: DirEntry)
    requires |buf| == LFN_BUF
  {
    LdWord(e, 26) == 0 && ShownFrom(buf, e, PieceOfs(OrdOf(e)), 0, 1)
  }

  lemma {:induction false} PickFromShows(buf: seq<wchar>, e: DirEntry, i: nat, s: nat, wc: wchar)
    requires |buf| == LFN_BUF && s <= 13
    ensures forall k | 0 <= k < LFN_BUF && (k < i || k > i + 13 - s || (k == i + 13 - s && !LastFlag(e))) ::
      PickFrom(buf, e, i, s, wc).1[k] == buf[k]
    ensures PickFrom(buf, e, i, s, wc).0 ==> ShownFrom(PickFrom(buf, e, i, s, wc).1, e, i, s, wc)
    decreases 13 - s
  {
    hide CharOf, LastFlag;
    if s < 13 {
      if wc == 0 {
        PickFromShows(buf, e, i, s + 1, wc);
      } else if i < LFN_BUF {
        PickFromShows(buf[i := CharOf(e, s)], e, i + 1, s + 1, CharOf(e, s));
      }
    }
  }

  /** pick_lfn puts the characters of an entry it accepts into the buffer, and keeps out of the pieces behind. */
  lemma PickShows(buf: seq<wchar>, e: DirEntry)
    requires |buf| == LFN_BUF && Accepted(e)
    ensures Shown(Pick(buf, e).1, e)
    ensures !LastFlag(e) ==> forall k | 13 * OrdOf(e) <= k < LFN_BUF :: Pick(buf, e).1[k] == buf[k]
  {
    hide PickFrom, ShownFrom, LastFlag;
    PickAccepts(buf, e);
    AcceptedOrder(e);
    PickFromShows(buf, e, PieceOfs(OrdOf(e)), 0, 1);
  }

  lemma {:induction false} ShownFromFrame(buf: seq<wchar>, now: seq<wchar>, e: DirEntry, i: nat, s: nat, wc: wchar)
    requires |buf| == |now| == LFN_BUF && s <= 13 && ShownFrom(buf, e, i, s, wc)
    requires forall k | i <= k < LFN_BUF :: now[k] == buf[k]
    ensures ShownFrom(now, e, i, s, wc)
    decreases 13 - s
  {
    hide CharOf;
    if s < 13 {
      if wc == 0 {
        ShownFromFrame(buf, now, e, i, s + 1, wc);
      } else {
        ShownFromFrame(buf, now, e, i + 1, s + 1, CharOf(e, s));
      }
    }
  }

  lemma ShownFrame(buf: seq<wchar>, now: seq<wchar>, e: DirEntry)
    requires |buf| == |now| == LFN_BUF && Shown(buf, e)
    requires forall k | PieceOfs(OrdOf(e)) <= k < LFN_BUF :: now[k] == buf[k]
    ensures Shown(now, e)
  {
    ShownFromFrame(buf, now, e, PieceOfs(OrdOf(e)), 0, 1);
  }

  lemma {:induction false} ShownFromCmp(up: wchar -> wchar, buf: seq<wchar>, e: DirEntry, i: nat, s: nat, wc: wchar)
    requires |buf| == LFN_BUF && s <= 13 && ShownFrom(buf, e, i, s, wc)
    ensures CmpFrom(up, buf, e, i, s, wc)
    decreases 13 - s
  {
    hide CharOf;
    if s < 13 {
      if wc == 0 {
        ShownFromCmp(up, buf, e, i, s + 1, wc);
      } else {
        ShownFromCmp(up, buf, e, i + 1, s + 1, CharOf(e, s));
      }
    }
  }

  /** cmp_lfn accepts an entry whose characters are in the buffer. */
  lemma ShownCmp(up: wchar -> wchar, buf: seq<wchar>, e: DirEntry)
    requires |buf| == LFN_BUF && Shown(buf, e) && OrdOf(e) < 0x80
    ensures Cmp(up, buf, e)
  {
    ShownFromCmp(up, buf, e, PieceOfs(OrdOf(e)), 0, 1);
  }

  // ---------- what reading a piece of a name gives ----------

  lemma PieceOrder(e: DirEntry, name: seq<wchar>, ord: nat, sum: byte)
    requires Storable(name) && ord <= Pieces(name) && IsPiece(e, name, ord, sum)
    ensures OrdOf(e) == ord == e[0] as int % 0x40 && ord <= 20 && (LastFlag(e) <==> ord == Pieces(name))
    ensures IsLong(e) && e[0] != 0 && e[0] != 0xE5 && e[0] != 0x2E
    ensures PieceOfs(ord) == (ord - 1) * 13 < |name|
  {
  }

  /** The end of the part of the name, with its terminator, that the ord-th piece tells. */
  function PieceEnd(name: seq<wchar>, ord: nat): nat {
    if ord == Pieces(name) then |name| + 1 else 13 * ord
  }

  /** Picking from place lo on takes over the name up to the end of the piece, and nothing else. */
  ghost predicate Picked(buf: seq<wchar>, r: seq<wchar>, name: seq<wchar>, ord: nat, lo: nat) {
    |r| == |buf| && forall k | 0 <= k < |r| :: r[k] == if lo <= k < PieceEnd(name, ord) then Padded(name, k) else buf[k]
  }

  lemma PickedStep(buf: seq<wchar>, r: seq<wchar>, name: seq<wchar>, ord: nat, lo: nat)
    requires lo < |buf| && lo < PieceEnd(name, ord) && Picked(buf[lo := Padded(name, lo)], r, name, ord, lo + 1)
    ensures Picked(buf, r, name, ord, lo)
  {
  }

  lemma {:induction false} PickRest(buf: seq<wchar>, e: DirEntry, name: seq<wchar>, ord: nat, sum: byte, s: nat,
                                    wc: wchar)
    requires |buf| == LFN_BUF && Storable(name) && 1 <= ord <= Pieces(name) && IsPiece(e, name, ord, sum) && s <= 13
    requires wc == 0 <==> (ord - 1) * 13 + s > |name|
    ensures var lo, i := (ord - 1) * 13 + s, if wc == 0 then |name| + 1 else (ord - 1) * 13 + s;
      PickFrom(buf, e, i, s, wc).0 && Picked(buf, PickFrom(buf, e, i, s, wc).1, name, ord, lo)
    decreases 13 - s
  {
    var lo, i := (ord - 1) * 13 + s, if wc == 0 then |name| + 1 else (ord - 1) * 13 + s;
    PieceOrder(e, name, ord, sum);
    if s == 13 {
      if LastFlag(e) && wc != 0 {
        assert lo == |name| && Picked(buf[lo := 0], buf[lo := 0], name, ord, lo + 1);
        PickedStep(buf, buf[lo := 0], name, ord, lo);
      }
    } else if wc != 0 {
      assert CharOf(e, s) == Padded(name, lo);
      PickRest(buf[i := CharOf(e, s)], e, name, ord, sum, s + 1, CharOf(e, s));
      PickedStep(buf, PickFrom(buf, e, i, s, wc).1, name, ord, lo);
    } else {
      assert CharOf(e, s) == Padded(name, lo);
      PickRest(buf, e, name, ord, sum, s + 1, wc);
    }
  }

  /** pick_lfn accepts every piece of a name and stores exactly its part of the name. */
  lemma PickPiece(buf: seq<wchar>, e: DirEntry, name: seq<wchar>, ord: nat, sum: byte)
    requires |buf| == LFN_BUF && Storable(name) && 1 <= ord <= Pieces(name) && IsPiece(e, name, ord, sum)
    ensures Pick(buf, e).0 && Picked(buf, Pick(buf, e).1, name, ord, (ord - 1) * 13)
  {
    PieceOrder(e, name, ord, sum);
    PickRest(buf, e, name, ord, sum, 0, 1);
  }

  /** The characters of the buffer from k on agree with the name, as far as the ord-th piece goes. */
  ghost predicate AgreeFrom(up: wchar -> wchar, buf: seq<wchar>, name: seq<wchar>, ord: nat, k: nat)
    requires |buf| == LFN_BUF && |name| <= 255 && ord <= Pieces(name)
  {
    forall j | k <= j < PieceEnd(name, ord) && j < LFN_BUF :: up(Padded(name, j)) == up(buf[j])
  }

  lemma AgreeStep(up: wchar -> wchar, buf: seq<wchar>, name: seq<wchar>, ord: nat, k: nat)
    requires |buf| == LFN_BUF && |name| <= 255 && ord <= Pieces(name) && k < LFN_BUF
    ensures k < PieceEnd(name, ord) ==>
      (AgreeFrom(up, buf, name, ord, k) <==> up(Padded(name, k)) == up(buf[k]) && AgreeFrom(up, buf, name, ord, k + 1))
    ensures k >= PieceEnd(name, ord) ==> AgreeFrom(up, buf, name, ord, k)
  {
  }

  lemma {:induction false} CmpRest(up: wchar -> wchar, buf: seq<wchar>, e: DirEntry, name: seq<wchar>, ord: nat,
                                   sum: byte, s: nat, wc: wchar)
    requires Folding(up) && |buf| == LFN_BUF && Storable(name) && 1 <= ord <= Pieces(name)
    requires IsPiece(e, name, ord, sum) && s <= 13
    requires wc == 0 <==> (ord - 1) * 13 + s > |name|
    ensures var i := if wc == 0 then |name| + 1 else (ord - 1) * 13 + s;
      CmpFrom(up, buf, e, i, s, wc) <==> AgreeFrom(up, buf, name, ord, (ord - 1) * 13 + s)
    decreases 13 - s
  {
    hide AgreeFrom;
    var lo, i := (ord - 1) * 13 + s, if wc == 0 then |name| + 1 else (ord - 1) * 13 + s;
    PieceOrder(e, name, ord, sum);
    if lo < LFN_BUF {
      AgreeStep(up, buf, name, ord, lo);
    }
    if s == 13 {
      if LastFlag(e) && wc != 0 {
        assert lo == |name|;
        AgreeDone(up, buf, name, ord, lo + 1);
      } else {
        AgreeDone(up, buf, name, ord, lo);
      }
    } else if wc != 0 {
      assert CharOf(e, s) == Padded(name, lo);
      CmpRest(up, buf, e, name, ord, sum, s + 1, CharOf(e, s));
    } else {
      assert CharOf(e, s) == Padded(name, lo);
      CmpRest(up, buf, e, name, ord, sum, s + 1, wc);
      AgreeDone(up, buf, name, ord, lo);
      AgreeDone(up, buf, name, ord, lo + 1);
    }
  }

  lemma AgreeDone(up: wchar -> wchar, buf: seq<wchar>, name: seq<wchar>, ord: nat, k: nat)
    requires |buf| == LFN_BUF && |name| <= 255 && ord <= Pieces(name) && k >= PieceEnd(name, ord)
    ensures AgreeFrom(up, buf, name, ord, k)
  {
  }

  /** cmp_lfn accepts a piece exactly when its part of the stored name is that of the buffer, up to case. */
  lemma CmpPiece(up: wchar -> wchar, buf: seq<wchar>, e: DirEntry, name: seq<wchar>, ord: nat, sum: byte)
    requires Folding(up) && |buf| == LFN_BUF && Storable(name) && 1 <= ord <= Pieces(name) && IsPiece(e, name, ord, sum)
    ensures Cmp(up, buf, e) <==> AgreeFrom(up, buf, name, ord, (ord - 1) * 13)
  {
    PieceOrder(e, name, ord, sum);
    CmpRest(up, buf, e, name, ord, sum, 0, 1);
  }
}
