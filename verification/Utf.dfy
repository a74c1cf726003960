/** UTF-8 names of the interface and the UTF-16 units of the directory: storing and reading one character. */
module Utf {
  import opened FatLayout

  /** A character as the code handles it: a UTF-16 unit, or a surrogate pair in the two halves of 32 bits. */
  type uni = c: int | 0 <= c < 0x1_0000_0000

  predicate Surrogate(c: int) { 0xD800 <= c <= 0xDFFF }

  /** A character of the basic plane that is no surrogate, or a pair of a high and a low one. */
  predicate Proper(c: uni) {
    if c < 0x1_0000 then !Surrogate(c)
    else 0xD800 <= c / 0x1_0000 < 0xDC00 && 0xDC00 <= c % 0x1_0000 < 0xE000
  }

  /** Number of bytes a character takes. */
  function Size(c: uni): nat { if c < 0x80 then 1 else if c < 0x800 then 2 else if c < 0x1_0000 then 3 else 4 }

  /** put_utf: the bytes stored in a buffer with room for szb, none on an error. */
  function PutUtf(chr: uni, szb: nat): (r: seq<byte>)
    ensures r != [] <==> Proper(chr) && Size(chr) <= szb
    ensures r != [] ==> |r| == Size(chr)
  {
    if chr < 0x80 then (if szb < 1 then [] else [chr])
    else if chr < 0x800 then (if szb < 2 then [] else [0xC0 + chr / 0x40, 0x80 + chr % 0x40])
    else if chr < 0x1_0000 then
      if szb < 3 || Surrogate(chr) then [] else [0xE0 + chr / 0x1000, 0x80 + chr / 0x40 % 0x40, 0x80 + chr % 0x40]
    else if szb < 4 then []
    else
      var hc := (chr / 0x1_0000 * 0x1_0000 + 0x2800_0000) % 0x1_0000_0000 / 0x40;
      var lo := (chr % 0x1_0000 + 0x1_0000_0000 - 0xDC00) % 0x1_0000_0000;
      HighHalf(chr);
      if hc >= 0x10_0000 || lo >= 0x400 then []
      else
        var c := hc + lo + 0x1_0000;
        [0xF0 + c / 0x4_0000, 0x80 + c / 0x1000 % 0x40, 0x80 + c / 0x40 % 0x40, 0x80 + c % 0x40]
  }

  /** The two halves of a pair, in unsigned 32-bit arithmetic. */
  lemma HighHalf(chr: uni)
    requires chr >= 0x1_0000
    ensures var hs, hc := chr / 0x1_0000, (chr / 0x1_0000 * 0x1_0000 + 0x2800_0000) % 0x1_0000_0000 / 0x40;
      (hc < 0x10_0000 <==> 0xD800 <= hs < 0xDC00) && (hc < 0x10_0000 ==> hc == (hs - 0xD800) * 0x400)
    ensures var ls, lo := chr % 0x1_0000, (chr % 0x1_0000 + 0x1_0000_0000 - 0xDC00) % 0x1_0000_0000;
      (lo < 0x400 <==> 0xDC00 <= ls < 0xE000) && (lo < 0x400 ==> lo == ls - 0xDC00)
  {
    var hs := chr / 0x1_0000;
    if hs >= 0xD800 {
      assert (hs * 0x1_0000 + 0x2800_0000) % 0x1_0000_0000 == (hs - 0xD800) * 0x1_0000;
    } else {
      assert (hs * 0x1_0000 + 0x2800_0000) % 0x1_0000_0000 == hs * 0x1_0000 + 0x2800_0000;
    }
  }

  /** The letter A, e with an acute accent, and the euro sign. */
  lemma KnownEncodings()
    ensures PutUtf(0x41, 1) == [0x41] && PutUtf(0xE9, 2) == [0xC3, 0xA9] && PutUtf(0x20AC, 3) == [0xE2, 0x82, 0xAC]
  {
  }

  /** A pair: U+1F600. */
  lemma KnownPair()
    ensures PutUtf(0xD83D_DE00, 4) == [0xF0, 0x9F, 0x98, 0x80]
  {
    HighHalf(0xD83D_DE00);
    assert 0xD83D_DE00 / 0x1_0000 == 0xD83D && 0xD83D_DE00 % 0x1_0000 == 0xDE00;
  }

  // ---------- reading ----------

  datatype Decoded = Bad | Ch(uc: uni, next: nat)

  /** A byte of a string, which ends with a zero byte. */
  function At(s: seq<byte>, i: nat): byte { if i < |s| then s[i] else 0 }

  /** The trailing bytes, nf of them from i on. */
  function Trail(s: seq<byte>, i: nat, nf: nat, uc: nat): (r: (bool, nat))
    decreases nf
  {
    if nf == 0 then (true, uc)
    else if At(s, i) / 0x40 != 2 then (false, 0)
    else Trail(s, i + 1, nf - 1, uc * 0x40 + At(s, i) % 0x40)
  }

  /** Number of trailing bytes that a first byte announces; 0 for a wrong one. */
  function Follow(b: byte): nat {
    if b / 0x20 == 6 then 1 else if b / 0x10 == 14 then 2 else if b / 8 == 30 then 3 else 0
  }

  /** The bits of the character in the first byte. */
  function Lead(b: byte): nat {
    if b / 0x20 == 6 then b % 0x20 else if b / 0x10 == 14 then b % 0x10 else b % 8
  }

  /** A code point in the form the code handles. */
  function Pair(uc: nat): uni
    requires uc < 0x11_0000
  {
    if uc < 0x1_0000 then uc else (0xD800 + (uc - 0x1_0000) / 0x400) * 0x1_0000 + 0xDC00 + uc % 0x400
  }

  /** tchar2uni: the character at place i of a string and the place behind it. */
  function Tchar2Uni(s: seq<byte>, i: nat): Decoded {
    var b := At(s, i);
    if b < 0x80 then Ch(b, i + 1)
    else if Follow(b) == 0 then Bad
    else
      var (ok, uc) := Trail(s, i + 1, Follow(b), Lead(b));
      if !ok || uc < 0x80 || Surrogate(uc) || uc >= 0x11_0000 then Bad else Ch(Pair(uc), i + 1 + Follow(b))
  }

  /** tchar2uni, with its loop over the trailing bytes. */
  method ReadChar(s: seq<byte>, i: nat) returns (r: Decoded)
    ensures r == Tchar2Uni(s, i)
  {
    var p, uc: nat := i, At(s, i);
    p := p + 1;
    if uc >= 0x80 {
      var nf;
      if uc / 0x20 == 6 {
        uc, nf := uc % 0x20, 1;
      } else if uc / 0x10 == 14 {
        uc, nf := uc % 0x10, 2;
      } else if uc / 8 == 30 {
        uc, nf := uc % 8, 3;
      } else {
        return Bad;
      }
      ghost var want := Trail(s, p, nf, uc);
      while nf != 0
        invariant 0 <= nf && p + nf == i + 1 + Follow(At(s, i)) && Trail(s, p, nf, uc) == want
      {
        var b := At(s, p);
        p := p + 1;
        if b / 0x40 != 2 {
          return Bad;
        }
        uc, nf := uc * 0x40 + b % 0x40, nf - 1;
      }
      if uc < 0x80 || Surrogate(uc) || uc >= 0x11_0000 {
        return Bad;
      }
      uc := Pair(uc);
    }
    return Ch(uc, p);
  }

  // ---------- round trips ----------

  lemma Trail2(s: seq<byte>, i: nat, uc: nat)
    ensures Trail(s, i, 1, uc) == if At(s, i) / 0x40 != 2 then (false, 0) else (true, uc * 0x40 + At(s, i) % 0x40)
  {
  }

  lemma Trail3(s: seq<byte>, i: nat, uc: nat)
    ensures Trail(s, i, 2, uc) == if At(s, i) / 0x40 != 2 || At(s, i + 1) / 0x40 != 2 then (false, 0)
                                  else (true, uc * 0x1000 + At(s, i) % 0x40 * 0x40 + At(s, i + 1) % 0x40)
  {
    Trail2(s, i + 1, uc * 0x40 + At(s, i) % 0x40);
  }

  lemma Trail4(s: seq<byte>, i: nat, uc: nat)
    ensures Trail(s, i, 3, uc) ==
      if At(s, i) / 0x40 != 2 || At(s, i + 1) / 0x40 != 2 || At(s, i + 2) / 0x40 != 2 then (false, 0)
      else (true, uc * 0x4_0000 + At(s, i) % 0x40 * 0x1000 + At(s, i + 1) % 0x40 * 0x40 + At(s, i + 2) % 0x40)
  {
    Trail3(s, i + 1, uc * 0x40 + At(s, i) % 0x40);
  }

  /** The code point of a proper pair. */
  function CodePoint(c: uni): nat
    requires Proper(c)
  {
    if c < 0x1_0000 then c else (c / 0x1_0000 - 0xD800) * 0x400 + (c % 0x1_0000 - 0xDC00) + 0x1_0000
  }

  lemma PairOf(c: uni)
    requires Proper(c)
    ensures CodePoint(c) < 0x11_0000 && !Surrogate(CodePoint(c)) && Pair(CodePoint(c)) == c
    ensures c >= 0x1_0000 <==> CodePoint(c) >= 0x1_0000
  {
    if c >= 0x1_0000 {
      var h, l := c / 0x1_0000 - 0xD800, c % 0x1_0000 - 0xDC00;
      assert (CodePoint(c) - 0x1_0000) / 0x400 == h && CodePoint(c) % 0x400 == l;
    }
  }

  lemma PairIsProper(uc: nat)
    requires uc < 0x11_0000 && !Surrogate(uc)
    ensures Proper(Pair(uc)) && CodePoint(Pair(uc)) == uc
  {
    if uc >= 0x1_0000 {
      var h := (uc - 0x1_0000) / 0x400;
      assert Pair(uc) / 0x1_0000 == 0xD800 + h && Pair(uc) % 0x1_0000 == 0xDC00 + uc % 0x400;
      assert (uc - 0x1_0000) % 0x400 == uc % 0x400;
    }
  }

  /** The bytes of a character, by its code point. */
  lemma PutBytes(c: uni)
    requires Proper(c)
    ensures var u := CodePoint(c);
      PutUtf(c, 4) ==
        if u < 0x80 then [u] else if u < 0x800 then [0xC0 + u / 0x40, 0x80 + u % 0x40]
        else if u < 0x1_0000 then [0xE0 + u / 0x1000, 0x80 + u / 0x40 % 0x40, 0x80 + u % 0x40]
        else [0xF0 + u / 0x4_0000, 0x80 + u / 0x1000 % 0x40, 0x80 + u / 0x40 % 0x40, 0x80 + u % 0x40]
  {
    PairOf(c);
    if c >= 0x1_0000 {
      HighHalf(c);
    }
  }

  /** Reading at the start of the bytes of a code point. */
  lemma ReadPut(s: seq<byte>, i: nat, u: nat, b: seq<byte>)
    requires u < 0x11_0000 && !Surrogate(u)
    requires b == if u < 0x80 then [u] else if u < 0x800 then [0xC0 + u / 0x40, 0x80 + u % 0x40]
                  else if u < 0x1_0000 then [0xE0 + u / 0x1000, 0x80 + u / 0x40 % 0x40, 0x80 + u % 0x40]
                  else [0xF0 + u / 0x4_0000, 0x80 + u / 0x1000 % 0x40, 0x80 + u / 0x40 % 0x40, 0x80 + u % 0x40]
    requires i + |b| <= |s| && s[i..i + |b|] == b
    ensures Tchar2Uni(s, i) == Ch(Pair(u), i + |b|)
  {
    hide Pair, Surrogate, Trail;
    Slices(s, i);
    if u >= 0x1_0000 {
      assert |b| == 4 && b == [At(s, i), At(s, i + 1), At(s, i + 2), At(s, i + 3)];
      Digits4(u);
      Trail4(s, i + 1, Lead(b[0]));
    } else if u >= 0x800 {
      assert |b| == 3 && b == [At(s, i), At(s, i + 1), At(s, i + 2)];
      Digits3(u);
      Trail3(s, i + 1, Lead(b[0]));
    } else if u >= 0x80 {
      assert |b| == 2 && b == [At(s, i), At(s, i + 1)];
      Trail2(s, i + 1, Lead(b[0]));
    } else {
      SmallPair(u);
    }
  }

  lemma SmallPair(u: nat)
    requires u < 0x1_0000
    ensures Pair(u) == u
  {
  }

  /** What put_utf stores tchar2uni reads back, and goes on right behind it. */
  lemma RoundTrip(c: uni, before: seq<byte>, after: seq<byte>)
    requires Proper(c)
    ensures Tchar2Uni(before + PutUtf(c, 4) + after, |before|) == Ch(c, |before| + Size(c))
  {
    hide PutUtf, Pair, Surrogate, Proper, CodePoint, Tchar2Uni;
    PutBytes(c);
    PairOf(c);
    SizeOfPoint(c);
    var b := PutUtf(c, 4);
    var s := before + b + after;
    assert s[|before|..|before| + |b|] == b;
    ReadPut(s, |before|, CodePoint(c), b);
  }

  lemma SizeOfPoint(c: uni)
    requires Proper(c)
    ensures var u := CodePoint(c);
      Size(c) == if u < 0x80 then 1 else if u < 0x800 then 2 else if u < 0x1_0000 then 3 else 4
    ensures CodePoint(c) < 0x1_0000 ==> c == CodePoint(c)
  {
    PairOf(c);
  }

  lemma Digits3(u: nat)
    ensures u == u / 0x1000 * 0x1000 + u / 0x40 % 0x40 * 0x40 + u % 0x40
  {
    assert u / 0x1000 == u / 0x40 / 0x40;
  }

  lemma Digits4(u: nat)
    ensures u == u / 0x4_0000 * 0x4_0000 + u / 0x1000 % 0x40 * 0x1000 + u / 0x40 % 0x40 * 0x40 + u % 0x40
  {
    Digits3(u);
    assert u / 0x4_0000 == u / 0x1000 / 0x40;
  }

  /** An encoding longer than it need be, told by its first two bytes. */
  predicate OverLong(s: seq<byte>, i: nat) {
    (At(s, i) == 0xE0 && At(s, i + 1) < 0xA0) || (At(s, i) == 0xF0 && At(s, i + 1) < 0x90)
  }

  lemma Bytes2(b0: byte, b1: byte)
    requires b0 / 0x20 == 6 && b1 / 0x40 == 2
    ensures var u := b0 % 0x20 * 0x40 + b1 % 0x40; 0xC0 + u / 0x40 == b0 && 0x80 + u % 0x40 == b1 && u < 0x800
  {
  }

  lemma Bytes3(b0: byte, b1: byte, b2: byte)
    requires b0 / 0x10 == 14 && b1 / 0x40 == 2 && b2 / 0x40 == 2
    ensures var u := b0 % 0x10 * 0x1000 + b1 % 0x40 * 0x40 + b2 % 0x40;
      && 0xE0 + u / 0x1000 == b0 && 0x80 + u / 0x40 % 0x40 == b1 && 0x80 + u % 0x40 == b2 && u < 0x1_0000
      && (u < 0x800 <==> b0 == 0xE0 && b1 < 0xA0)
  {
    var h := b0 % 0x10 * 0x40 + b1 % 0x40;
    var u := h * 0x40 + b2 % 0x40;
    assert u / 0x40 == h && h / 0x40 == b0 % 0x10 && h % 0x40 == b1 % 0x40 && u / 0x1000 == h / 0x40;
  }

  lemma Bytes4(b0: byte, b1: byte, b2: byte, b3: byte)
    requires b0 / 8 == 30 && b1 / 0x40 == 2 && b2 / 0x40 == 2 && b3 / 0x40 == 2
    ensures var u := b0 % 8 * 0x4_0000 + b1 % 0x40 * 0x1000 + b2 % 0x40 * 0x40 + b3 % 0x40;
      && 0xF0 + u / 0x4_0000 == b0 && 0x80 + u / 0x1000 % 0x40 == b1
      && 0x80 + u / 0x40 % 0x40 == b2 && 0x80 + u % 0x40 == b3
      && (u < 0x1_0000 <==> b0 == 0xF0 && b1 < 0x90)
  {
    var g := b0 % 8 * 0x40 + b1 % 0x40;
    var h := g * 0x40 + b2 % 0x40;
    var u := h * 0x40 + b3 % 0x40;
    assert u / 0x40 == h && h / 0x40 == g && g / 0x40 == b0 % 8 && g % 0x40 == b1 % 0x40 && h % 0x40 == b2 % 0x40;
    assert u / 0x1000 == h / 0x40 && u / 0x4_0000 == h / 0x1000 && h / 0x1000 == g / 0x40;
  }

  lemma Slices(s: seq<byte>, i: nat)
    ensures i + 1 <= |s| ==> s[i..i + 1] == [At(s, i)]
    ensures i + 2 <= |s| ==> s[i..i + 2] == [At(s, i), At(s, i + 1)]
    ensures i + 3 <= |s| ==> s[i..i + 3] == [At(s, i), At(s, i + 1), At(s, i + 2)]
    ensures i + 4 <= |s| ==> s[i..i + 4] == [At(s, i), At(s, i + 1), At(s, i + 2), At(s, i + 3)]
  {
  }

  lemma FollowIs(b: byte)
    ensures Follow(b) == 1 ==> b / 0x20 == 6 && Lead(b) == b % 0x20
    ensures Follow(b) == 2 ==> b / 0x10 == 14 && Lead(b) == b % 0x10
    ensures Follow(b) == 3 ==> b / 8 == 30 && Lead(b) == b % 8
    ensures Follow(b) <= 3
  {
  }

  /** What reading gives for the code point behind it. */
  lemma ReadPoint(s: seq<byte>, i: nat) returns (u: nat)
    requires Tchar2Uni(s, i).Ch?
    ensures var r := Tchar2Uni(s, i);
      Proper(r.uc) && CodePoint(r.uc) == u
    ensures Tchar2Uni(s, i).next == i + 1 + if At(s, i) < 0x80 then 0 else Follow(At(s, i))
    ensures if At(s, i) < 0x80 then u == At(s, i)
            else Follow(At(s, i)) != 0 && u >= 0x80 && Trail(s, i + 1, Follow(At(s, i)), Lead(At(s, i))) == (true, u)
  {
    hide Pair, Proper, CodePoint, Follow, Lead, Trail, Surrogate;
    var b := At(s, i);
    if b < 0x80 {
      SmallIsProper(b);
      u := b;
    } else {
      u := Trail(s, i + 1, Follow(b), Lead(b)).1;
      PairIsProper(u);
    }
  }

  /**
   A character that tchar2uni accepts is a proper one, and storing it again gives the bytes it was read from
   exactly when these were not over-long, which RFC 3629, section 3, does not allow but tchar2uni does.
   */
  lemma ReadBack(s: seq<byte>, i: nat)
    requires i < |s| && Tchar2Uni(s, i).Ch? && Tchar2Uni(s, i).next <= |s|
    ensures var r := Tchar2Uni(s, i);
      Proper(r.uc) && i < r.next && (PutUtf(r.uc, 4) == s[i..r.next] <==> !OverLong(s, i))
  {
    hide PutUtf, Pair, Proper, CodePoint, Trail, Tchar2Uni, At, Follow, Lead;
    var b := At(s, i);
    FollowIs(b);
    var u := ReadPoint(s, i);
    PutBytes(Tchar2Uni(s, i).uc);
    Slices(s, i);
    if b >= 0x80 {
      if Follow(b) == 1 {
        Trail2(s, i + 1, Lead(b));
        Bytes2(b, At(s, i + 1));
      } else if Follow(b) == 2 {
        Trail3(s, i + 1, Lead(b));
        Bytes3(b, At(s, i + 1), At(s, i + 2));
      } else {
        Trail4(s, i + 1, Lead(b));
        Bytes4(b, At(s, i + 1), At(s, i + 2), At(s, i + 3));
      }
    }
  }

  lemma SmallIsProper(b: byte)
    requires b < 0x80
    ensures Proper(b) && CodePoint(b) == b
  {
  }

  /** Three bytes are taken for U+0080, which takes two. */
  lemma OverLongAccepted()
    ensures Tchar2Uni([0xE0, 0x82, 0x80], 0) == Ch(0x80, 3) && PutUtf(0x80, 4) == [0xC2, 0x80]
  {
    Trail3([0xE0, 0x82, 0x80], 1, 0);
  }
}
