/**
 The short names that stand for a long one: the name with a tilde and a number, which is the attempt's own up to 5
 and from then on a hash of the attempt and the long name.
 */
module NumberedNames {
  import opened FatLayout
  import opened LongNames
  import opened Directories
  import opened Bitwise

  // ---------- the number ----------

  /** A bit shifted into the hash register. */
  function Shift(r: half, b: nat): half
    requires b < 2
  {
    var s := 2 * r + b;
    if s >= 0x1_0000 then
      ShiftStays(s);
      Xor(s, 0x1_1021)
    else s
  }

  lemma ShiftStays(s: word)
    requires 0x1_0000 <= s < 0x2_0000
    ensures Xor(s, 0x1_1021) < 0x1_0000
  {
    hide Xor;
    Pow32();
    XorHighest(s, 0x1_1021, 16);
  }

  /** A step of the remainder modulo x^16 + x^12 + x^5 + 1: what is pushed out comes back as these terms. */
  lemma ShiftIs(r: half, b: nat)
    requires b < 2
    ensures Shift(r, b) == if r < 0x8000 then 2 * r + b else Xor(2 * (r - 0x8000) + b, 0x1021)
  {
    hide Xor;
    if r >= 0x8000 {
      var x: word := 2 * (r - 0x8000) + b;
      Pow32();
      XorAbove(x, 16);
      XorAbove(0x1021, 16);
      XorRegroup(x, 0x1_0000, 0x1021, 0x1_0000);
      XorZero(0x1_0000);
      XorZero(Xor(x, 0x1021));
    }
  }

  /** n bits shifted in, the lowest one first. */
  function ShiftBits(r: half, c: nat, n: nat): half
    decreases n
  {
    if n == 0 then r else ShiftBits(Shift(r, c % 2), c / 2, n - 1)
  }

  /** The register after the whole name. */
  function Hash(name: seq<wchar>, r: half): half {
    if name == [] then r else ShiftBits(Hash(name[..|name| - 1], r), name[|name| - 1], 16)
  }

  /** The number in the n-th name that is tried. */
  function Number(name: seq<wchar>, n: half): half { if n > 5 then Hash(name, n) else n }

  /** Two registers that differ still do so after the same bit. */
  lemma ShiftApart(r: half, s: half, b: nat)
    requires b < 2 && r != s
    ensures Shift(r, b) != Shift(s, b)
  {
    hide Xor;
    var x, y := 2 * r + b, 2 * s + b;
    XorHalf(x, 0x1_1021);
    XorHalf(y, 0x1_1021);
    if x >= 0x1_0000 && y >= 0x1_0000 {
      XorTwice(x, 0x1_1021);
      XorTwice(y, 0x1_1021);
    }
  }

  lemma {:induction false} ShiftBitsApart(r: half, s: half, c: nat, n: nat)
    requires r != s
    ensures ShiftBits(r, c, n) != ShiftBits(s, c, n)
    decreases n
  {
    hide Shift;
    if n > 0 {
      ShiftApart(r, s, c % 2);
      ShiftBitsApart(Shift(r, c % 2), Shift(s, c % 2), c / 2, n - 1);
    }
  }

  /** The hashes of different attempts for the same name are different. */
  lemma {:induction false} HashApart(name: seq<wchar>, r: half, s: half)
    requires r != s
    ensures Hash(name, r) != Hash(name, s)
  {
    hide ShiftBits;
    if name != [] {
      HashApart(name[..|name| - 1], r, s);
      ShiftBitsApart(Hash(name[..|name| - 1], r), Hash(name[..|name| - 1], s), name[|name| - 1], 16);
    }
  }

  // ---------- the name ----------

  /** A digit, letters in upper case. */
  function Digit(d: nat): byte
    requires d < 16
  {
    if d < 10 then 0x30 + d else 0x37 + d
  }

  /** The number in hexadecimal. */
  function Hex(n: nat): (h: seq<byte>)
    ensures |h| >= 1 && 0x7E !in h && 0x20 !in h
  {
    (if n < 16 then [] else Hex(n / 16)) + [Digit(n % 16)]
  }

  lemma HexLength(n: half)
    ensures |Hex(n)| <= 4
  {
    assert |Hex(n)| <= 1 + |Hex(n / 16)|;
    assert |Hex(n / 16)| <= 1 + |Hex(n / 0x100)|;
    assert |Hex(n / 0x100)| <= 1 + |Hex(n / 0x1000)|;
    assert |Hex(n / 0x1000)| == 1;
  }

  lemma HexFirst(n: nat)
    ensures Hex(n) == (if n / 16 == 0 then [] else Hex(n / 16)) + [Digit(n % 16)]
    ensures n / 16 > 0 ==> |Hex(n)| > 1
  {
    hide Digit;
  }

  lemma LastByte(x: seq<byte>, d: byte, y: seq<byte>, e: byte)
    requires x + [d] == y + [e]
    ensures x == y && d == e
  {
    assert x == (x + [d])[..|x|] && |x + [d]| == |x| + 1;
    assert y == (y + [e])[..|y|] && |y + [e]| == |y| + 1;
    assert d == (x + [d])[|x|] && e == (y + [e])[|y|];
  }

  lemma {:induction false} HexApart(a: nat, b: nat)
    requires Hex(a) == Hex(b)
    ensures a == b
  {
    hide Hex;
    HexFirst(a);
    HexFirst(b);
    var x, y := if a / 16 == 0 then [] else Hex(a / 16), if b / 16 == 0 then [] else Hex(b / 16);
    LastByte(x, Digit(a % 16), y, Digit(b % 16));
    if a / 16 > 0 && b / 16 > 0 {
      HexApart(a / 16, b / 16);
    }
  }

  /** A tilde and the number. */
  function Suffix(n: half): (s: seq<byte>)
    ensures 2 <= |s| <= 5 && s[0] == 0x7E && s[1..] == Hex(n)
  {
    HexLength(n);
    [0x7E] + Hex(n)
  }

  /** Where the suffix goes: behind the name's body, cut so that the suffix fits. */
  function Cut(sn: seq<byte>, i: nat): (j: nat)
    requires i <= |sn|
    ensures j <= i && 0x20 !in sn[..j] && (j == i || sn[j] == 0x20)
  {
    if i == 0 then 0
    else
      var j := Cut(sn, i - 1);
      if j < i - 1 || sn[i - 1] == 0x20 then j else i
  }

  /** The short name with a number: body, suffix and blanks in 8 bytes, and the extension. */
  function Numbered(sn: seq<byte>, n: half): (r: seq<byte>)
    requires |sn| == 11
    ensures |r| == 11 && r[8..] == sn[8..]
  {
    var s := Suffix(n);
    var j := Cut(sn, 8 - |s|);
    sn[..j] + s + seq(8 - |s| - j, _ => 0x20) + sn[8..]
  }

  lemma NumberedIsShort(sn: seq<byte>, n: half)
    requires ShortOk(sn)
    ensures ShortOk(Numbered(sn, n))
  {
  }

  /** The suffix begins where the body is cut, and blanks follow it. */
  lemma SuffixAt(sn: seq<byte>, n: half)
    requires |sn| == 11
    ensures |Hex(n)| <= 4
    ensures var r, i, p := Numbered(sn, n), Cut(sn, 7 - |Hex(n)|), |Hex(n)|;
      && r[i] == 0x7E && (forall k | i < k <= i + p :: r[k] == Hex(n)[k - i - 1] && r[k] != 0x7E && r[k] != 0x20)
      && r[i + 1..i + 1 + p] == Hex(n) && forall k | i + p < k < 8 :: r[k] == 0x20
  {
    hide Hex, Cut;
    HexLength(n);
    assert forall k | 0 <= k < |Hex(n)| :: Hex(n)[k] in Hex(n);
  }

  lemma CutOrder(sn: seq<byte>, a: nat, b: nat)
    requires a <= b <= |sn|
    ensures Cut(sn, a) <= Cut(sn, b) && (Cut(sn, a) < Cut(sn, b) ==> Cut(sn, a) == a)
  {
    hide Cut;
    var i, k := Cut(sn, a), Cut(sn, b);
    if i < k {
      assert sn[i] in sn[..k];
    }
  }

  lemma SameSuffix(r: seq<byte>, i: nat, k: nat, p: nat, q: nat)
    requires |r| == 11 && k <= i && i + p < 8 && p <= q && k + q < 8 && (k < i ==> k + q == 7)
    requires r[i] == 0x7E && (k < i <= k + q ==> r[i] != 0x7E)
    requires i + p + 1 < 8 ==> r[i + p + 1] == 0x20
    requires i + p + 1 <= k + q ==> r[i + p + 1] != 0x20
    ensures k == i && p == q
  {
  }

  lemma SameNumber(sn: seq<byte>, a: half, b: half)
    requires |sn| == 11 && Numbered(sn, a) == Numbered(sn, b) && |Hex(a)| <= |Hex(b)|
    ensures a == b
  {
    hide Hex, Cut, Numbered;
    SuffixAt(sn, a);
    SuffixAt(sn, b);
    CutOrder(sn, 7 - |Hex(b)|, 7 - |Hex(a)|);
    SameSuffix(Numbered(sn, a), Cut(sn, 7 - |Hex(a)|), Cut(sn, 7 - |Hex(b)|), |Hex(a)|, |Hex(b)|);
    HexApart(a, b);
  }

  /** Different numbers make different names, whatever the name. */
  lemma NumberedApart(sn: seq<byte>, a: half, b: half)
    requires |sn| == 11
    ensures Numbered(sn, a) == Numbered(sn, b) <==> a == b
  {
    hide Numbered;
    if Numbered(sn, a) == Numbered(sn, b) {
      if |Hex(a)| <= |Hex(b)| {
        SameNumber(sn, a, b);
      } else {
        SameNumber(sn, b, a);
      }
    }
  }

  /** The short name of the n-th attempt. */
  function Attempt(sn: seq<byte>, name: seq<wchar>, n: half): (r: seq<byte>)
    requires |sn| == 11
    ensures |r| == 11
  {
    Numbered(sn, Number(name, n))
  }

  lemma AttemptIsShort(sn: seq<byte>, name: seq<wchar>, n: half)
    requires ShortOk(sn)
    ensures ShortOk(Attempt(sn, name, n))
  {
    hide Hash, Numbered;
    NumberedIsShort(sn, Number(name, n));
  }

  /** The attempts up to 5 are different names, and so are those from 6 on. */
  lemma AttemptsApart(sn: seq<byte>, name: seq<wchar>, m: half, n: half)
    requires |sn| == 11 && m != n && (m <= 5 <==> n <= 5)
    ensures Attempt(sn, name, m) != Attempt(sn, name, n)
  {
    hide Hash, Numbered;
    if m > 5 {
      HashApart(name, m, n);
    }
    NumberedApart(sn, Number(name, m), Number(name, n));
  }

  lemma OneDigit(n: nat)
    requires n < 16
    ensures Hex(n) == [if n < 10 then 0x30 + n else 0x37 + n]
  {
  }

  lemma LastCut(sn: seq<byte>, i: nat)
    requires i <= |sn| && forall k | 0 <= k < i :: sn[k] != 0x20
    ensures Cut(sn, i) == i
  {
  }

  /** The first five names for ABCDEFGH.TXT are ABCDEF~1.TXT to ABCDEF~5.TXT. */
  lemma FirstAttempts(sn: seq<byte>, name: seq<wchar>, n: half)
    requires sn == [0x41, 0x42, 0x43, 0x44, 0x45, 0x46, 0x47, 0x48, 0x54, 0x58, 0x54] && 1 <= n <= 5
    ensures Attempt(sn, name, n) == [0x41, 0x42, 0x43, 0x44, 0x45, 0x46, 0x7E, 0x30 + n, 0x54, 0x58, 0x54]
  {
    hide Hash, Hex, Cut;
    OneDigit(n);
    LastCut(sn, 6);
    assert Suffix(n) == [0x7E, 0x30 + n];
  }

  // ---------- gen_numname ----------

  /** The 16 bits of a character shifted in. */
  method HashChar(c: wchar, r0: half) returns (r: half)
    ensures r == ShiftBits(r0, c, 16)
  {
    hide Shift;
    r := r0;
    var wc, i := c, 0;
    while i < 16
      invariant 0 <= i <= 16 && ShiftBits(r, wc, 16 - i) == ShiftBits(r0, c, 16)
    {
      r := Shift(r, wc % 2);
      wc, i := wc / 2, i + 1;
    }
  }

  /** The hash of the name in the buffer. */
  method HashName(lfn: array<wchar>, ghost name: seq<wchar>, n: half) returns (r: half)
    requires Storable(name) && Holds(lfn[..], name)
    ensures r == Hash(name, n)
  {
    hide ShiftBits;
    r := n;
    var k := 0;
    assert forall i | 0 <= i < |name| :: lfn[i] == name[i] by {
      assert forall i | 0 <= i < |name| :: lfn[i] == lfn[..][..|name|][i];
    }
    assert lfn[..][|name|] == lfn[|name|];
    while lfn[k] != 0
      invariant 0 <= k <= |name| && r == Hash(name[..k], n)
      decreases |name| - k
    {
      assert name[..k + 1][..k] == name[..k];
      r := HashChar(lfn[k], r);
      k := k + 1;
    }
    assert name[..k] == name;
  }

  /** One digit more in front of those that are put. */
  lemma HexStep(n: nat, left: nat, put: seq<byte>)
    requires left > 0 && Hex(n) == Hex(left) + put
    ensures Hex(n) == (if left / 16 == 0 then [] else Hex(left / 16)) + ([Digit(left % 16)] + put)
    ensures |put| < |Hex(n)| && (left / 16 > 0 ==> |put| + 1 < |Hex(n)|)
  {
    hide Digit, Hex;
    HexFirst(left);
    var front := if left / 16 == 0 then [] else Hex(left / 16);
    assert front + [Digit(left % 16)] + put == front + ([Digit(left % 16)] + put);
  }

  /** The tilde and the digits, from the end of ns towards its start; i is where the tilde is. */
  method PutNumber(n: half, ns: array<byte>) returns (i: nat)
    requires ns.Length == 8
    modifies ns
    ensures i == 8 - |Suffix(n)| && ns[i..] == Suffix(n)
  {
    hide Digit, Hex;
    HexLength(n);
    i := 7;
    var left: nat := n;
    HexFirst(n);
    ns[i] := Digit(left % 16);
    ghost var put := [Digit(left % 16)];
    i, left := i - 1, left / 16;
    while i > 0 && left > 0
      invariant 0 <= i < 7 && ns[i + 1..] == put && |put| <= |Hex(n)| && (left > 0 ==> |put| < |Hex(n)|)
      invariant Hex(n) == (if left == 0 then [] else Hex(left)) + put
      decreases i
    {
      HexStep(n, left, put);
      ns[i] := Digit(left % 16);
      put := [Digit(left % 16)] + put;
      i, left := i - 1, left / 16;
    }
    ns[i] := 0x7E;
  }

  lemma CutUnique(sn: seq<byte>, i: nat, j: nat)
    requires j <= i <= |sn| && 0x20 !in sn[..j] && (j == i || sn[j] == 0x20)
    ensures j == Cut(sn, i)
  {
    hide Cut;
  }

  lemma OneMoreByte(src: seq<byte>, cut: nat, tail: seq<byte>, j: nat, was: seq<byte>)
    requires cut <= j < cut + |tail| <= |src| && was == src[..cut] + tail[..j - cut] + src[j..]
    ensures was[j := tail[j - cut]] == src[..cut] + tail[..j + 1 - cut] + src[j + 1..]
  {
  }

  /** The suffix in ns from i0 on, and blanks behind it, put over the name from j0 on. */
  method Append(src: seq<byte>, j0: nat, ns: array<byte>, i0: nat) returns (dst: seq<byte>)
    requires |src| == 11 && ns.Length == 8 && j0 <= i0 < 8
    ensures dst == src[..j0] + ns[i0..] + seq(i0 - j0, _ => 0x20) + src[8..]
  {
    ghost var tail := ns[i0..] + seq(i0 - j0, _ => 0x20);
    dst := src;
    var i, j := i0, j0;
    while true
      invariant j0 <= j < 8 && i == (if i0 + j - j0 < 8 then i0 + j - j0 else 8)
      invariant dst == src[..j0] + tail[..j - j0] + src[j..]
      decreases 8 - j
    {
      OneMoreByte(src, j0, tail, j, dst);
      dst := dst[j := if i < 8 then ns[i] else 0x20];
      if i < 8 {
        i := i + 1;
      }
      j := j + 1;
      if j >= 8 {
        break;
      }
    }
    assert tail[..8 - j0] == tail;
  }

  /** gen_numname: the n-th short name to try for the long one in the buffer. */
  method GenNumname(src: seq<byte>, lfn: array<wchar>, ghost name: seq<wchar>, n: half) returns (dst: seq<byte>)
    requires |src| == 11 && Storable(name) && Holds(lfn[..], name)
    ensures dst == Attempt(src, name, n)
  {
    hide Hash, Hex, Cut;
    var number := n;
    if n > 5 {
      number := HashName(lfn, name, n);
    }
    var ns := new byte[8];
    var i := PutNumber(number, ns);
    var j := 0;
    while j < i && src[j] != 0x20
      invariant 0 <= j <= i && 0x20 !in src[..j]
    {
      assert src[..j + 1] == src[..j] + [src[j]];
      j := j + 1;
    }
    CutUnique(src, i, j);
    dst := Append(src, j, ns, i);
  }

  // ---------- running out of names ----------

  /** An entry has the short name of the n-th attempt. */
  ghost predicate Taken(up: wchar -> wchar, buf: seq<wchar>, sn: seq<byte>, name: seq<wchar>, t: seq<DirEntry>, n: half)
    requires |buf| == LFN_BUF && |sn| == 11
  {
    FindFrom(up, Target(buf, Attempt(sn, name, n), true, false), t, 0, START).0
  }

  /** All attempts before the n-th are taken. */
  ghost predicate AllTaken(up: wchar -> wchar, buf: seq<wchar>, sn: seq<byte>, name: seq<wchar>, t: seq<DirEntry>,
                           n: half)
    requires |buf| == LFN_BUF && |sn| == 11
  {
    forall i | 1 <= i < n :: Taken(up, buf, sn, name, t, i)
  }

  lemma AllTakenStep(up: wchar -> wchar, buf: seq<wchar>, sn: seq<byte>, name: seq<wchar>, t: seq<DirEntry>, n: half)
    requires |buf| == LFN_BUF && |sn| == 11 && 1 <= n < 100
    ensures AllTaken(up, buf, sn, name, t, 1)
    ensures AllTaken(up, buf, sn, name, t, n) && Taken(up, buf, sn, name, t, n) ==>
      AllTaken(up, buf, sn, name, t, n + 1)
  {
    hide Taken;
  }

  /** fn is the first of the 99 attempts that is not taken. */
  ghost predicate FirstUntaken(up: wchar -> wchar, buf: seq<wchar>, sn: seq<byte>, name: seq<wchar>, t: seq<DirEntry>,
                               fn: seq<byte>)
    requires |buf| == LFN_BUF && |sn| == 11
  {
    exists n | 1 <= n < 100 ::
      fn == Attempt(sn, name, n) && !Taken(up, buf, sn, name, t, n) && AllTaken(up, buf, sn, name, t, n)
  }

  lemma Untaken(up: wchar -> wchar, buf: seq<wchar>, sn: seq<byte>, name: seq<wchar>, t: seq<DirEntry>, n: half)
    requires |buf| == LFN_BUF && |sn| == 11 && 1 <= n < 100
    requires !Taken(up, buf, sn, name, t, n) && AllTaken(up, buf, sn, name, t, n)
    ensures FirstUntaken(up, buf, sn, name, t, Attempt(sn, name, n)) && !AllTaken(up, buf, sn, name, t, 100)
  {
    hide Taken, Attempt;
  }

  lemma UntakenIsNotFound(up: wchar -> wchar, buf: seq<wchar>, sn: seq<byte>, name: seq<wchar>, t: seq<DirEntry>,
                          fn: seq<byte>)
    requires |buf| == LFN_BUF && |sn| == 11 && FirstUntaken(up, buf, sn, name, t, fn)
    ensures !FindFrom(up, Target(buf, fn, true, false), t, 0, START).0
  {
    hide AllTaken, Attempt, FindFrom;
  }

  /** An object of the directory has the short name of the n-th attempt. */
  lemma TakenBy(up: wchar -> wchar, buf: seq<wchar>, sn: seq<byte>, name: seq<wchar>, t: seq<DirEntry>, n: half,
                items: seq<Item>) returns (k: nat)
    requires Folding(up) && Holds(buf, name) && Storable(name) && Lays(t, 0, items) && |sn| == 11
    requires Taken(up, buf, sn, name, t, n)
    ensures k < |items| && (items[k].Named? || items[k].Short?) && items[k].sfn == Attempt(sn, name, n)
  {
    hide Lays, Attempt, FindFrom, Storable, Holds;
    var x := Target(buf, Attempt(sn, name, n), true, false);
    FindItems(up, x, name, t, 0, START, items);
    LookupNone(up, name, x, t, items, 0);
    k :| 0 <= k < |items| && Matches(up, name, x, items[k]);
  }

  /** Different objects have the names of the attempts from 6 up to n. */
  lemma {:induction false} TakenObjects(up: wchar -> wchar, buf: seq<wchar>, sn: seq<byte>, name: seq<wchar>,
                                        t: seq<DirEntry>, items: seq<Item>, n: half) returns (s: set<nat>)
    requires Folding(up) && Holds(buf, name) && Storable(name) && Lays(t, 0, items) && |sn| == 11
    requires n >= 6 && forall i | 6 <= i < n :: Taken(up, buf, sn, name, t, i)
    ensures |s| == n - 6
    ensures forall k | k in s :: k < |items| && (items[k].Named? || items[k].Short?)
    ensures forall k | k in s :: exists m | 6 <= m < n :: items[k].sfn == Attempt(sn, name, m)
    decreases n
  {
    hide Lays, Attempt, Taken, Storable, Holds;
    if n == 6 {
      s := {};
    } else {
      var rest := TakenObjects(up, buf, sn, name, t, items, n - 1);
      var k := TakenBy(up, buf, sn, name, t, n - 1, items);
      forall m | 6 <= m < n - 1
        ensures items[k].sfn != Attempt(sn, name, m)
      {
        AttemptsApart(sn, name, m, n - 1);
      }
      assert k !in rest;
      s := rest + {k};
    }
  }

  lemma {:induction false} BelowSize(s: set<nat>, n: nat)
    requires forall k | k in s :: k < n
    ensures |s| <= n
  {
    if n == 0 {
      assert s == {};
    } else {
      BelowSize(s - {n - 1}, n - 1);
    }
  }

  /** Only a directory of 94 objects or more has entries for all 99 attempts. */
  lemma AllTakenIsLarge(up: wchar -> wchar, buf: seq<wchar>, sn: seq<byte>, name: seq<wchar>, t: seq<DirEntry>,
                        items: seq<Item>)
    requires Folding(up) && Holds(buf, name) && Storable(name) && Lays(t, 0, items) && |sn| == 11
    requires AllTaken(up, buf, sn, name, t, 100)
    ensures |items| >= 94
  {
    hide Lays, Attempt, Taken, Storable, Holds;
    var s := TakenObjects(up, buf, sn, name, t, items, 100);
    BelowSize(s, |items|);
  }
}
