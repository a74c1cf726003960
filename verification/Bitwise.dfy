/** Exclusive or of machine words, on their values. */
module Bitwise {
  type word = w: int | 0 <= w < 0x1_0000_0000

  /** Words of 16 bits. */
  type half = h: int | 0 <= h < 0x1_0000

  function Pow2(k: nat): (p: nat)
    ensures p > 0
  {
    if k == 0 then 1 else 2 * Pow2(k - 1)
  }

  /** Exclusive or of the lowest k bits. */
  function XorBits(a: nat, b: nat, k: nat): (r: nat) {
    if k == 0 then 0 else 2 * XorBits(a / 2, b / 2, k - 1) + (a + b) % 2
  }

  lemma {:induction false} XorBitsBound(a: nat, b: nat, k: nat)
    ensures XorBits(a, b, k) < Pow2(k)
  {
    if k > 0 {
      XorBitsBound(a / 2, b / 2, k - 1);
    }
  }

  lemma Pow32()
    ensures Pow2(8) == 0x100 && Pow2(16) == 0x1_0000 && Pow2(32) == 0x1_0000_0000
  {
    assert Pow2(8) == 0x100;
    assert Pow2(16) == 0x1_0000;
    assert Pow2(24) == 0x100_0000;
  }

  /** The exclusive or of two words. */
  function Xor(a: word, b: word): word {
    Pow32();
    XorBitsBound(a, b, 32);
    XorBits(a, b, 32)
  }

  // ---------- laws ----------

  lemma BitLaws(a: nat, b: nat, t: nat)
    ensures (2 * t + (a + b) % 2 + b) % 2 == a % 2 && (2 * t + (a + b) % 2) / 2 == t
    ensures (2 * t + (a + b) % 2) % 2 == (a + b) % 2
  {
  }

  lemma {:induction false} XorBitsTwice(a: nat, b: nat, k: nat)
    requires a < Pow2(k)
    ensures XorBits(XorBits(a, b, k), b, k) == a
  {
    if k > 0 {
      XorBitsTwice(a / 2, b / 2, k - 1);
      BitLaws(a, b, XorBits(a / 2, b / 2, k - 1));
    }
  }

  /** Exclusive or with the same word twice changes nothing. */
  lemma XorTwice(a: word, b: word)
    ensures Xor(Xor(a, b), b) == a
  {
    Pow32();
    XorBitsTwice(a, b, 32);
  }

  lemma {:induction false} XorBitsComm(a: nat, b: nat, k: nat)
    ensures XorBits(a, b, k) == XorBits(b, a, k)
  {
    if k > 0 {
      XorBitsComm(a / 2, b / 2, k - 1);
    }
  }

  lemma XorStep(a: nat, b: nat, k: nat)
    requires k > 0
    ensures XorBits(a, b, k) / 2 == XorBits(a / 2, b / 2, k - 1) && XorBits(a, b, k) % 2 == (a + b) % 2
  {
    BitLaws(a, b, XorBits(a / 2, b / 2, k - 1));
  }

  lemma Halves(x: nat, y: nat)
    requires x / 2 == y / 2 && x % 2 == y % 2
    ensures x == y
  {
  }

  lemma {:induction false} XorBitsAssoc(a: nat, b: nat, c: nat, k: nat)
    ensures XorBits(XorBits(a, b, k), c, k) == XorBits(a, XorBits(b, c, k), k)
  {
    if k > 0 {
      XorBitsAssoc(a / 2, b / 2, c / 2, k - 1);
      AssocStep(a, b, c, k);
    }
  }

  lemma AssocStep(a: nat, b: nat, c: nat, k: nat)
    requires k > 0
    requires XorBits(XorBits(a / 2, b / 2, k - 1), c / 2, k - 1) == XorBits(a / 2, XorBits(b / 2, c / 2, k - 1), k - 1)
    ensures XorBits(XorBits(a, b, k), c, k) == XorBits(a, XorBits(b, c, k), k)
  {
    hide XorBits;
    var x, y := XorBits(a, b, k), XorBits(b, c, k);
    XorStep(a, b, k);
    XorStep(b, c, k);
    XorStep(x, c, k);
    XorStep(a, y, k);
    Parities(a, b, c, x, y);
    Halves(XorBits(x, c, k), XorBits(a, y, k));
  }

  lemma Parities(a: nat, b: nat, c: nat, x: nat, y: nat)
    requires x % 2 == (a + b) % 2 && y % 2 == (b + c) % 2
    ensures (x + c) % 2 == (a + y) % 2
  {
  }

  lemma {:induction false} XorBitsZero(a: nat, k: nat)
    requires a < Pow2(k)
    ensures XorBits(a, 0, k) == a
  {
    if k > 0 {
      XorBitsZero(a / 2, k - 1);
    }
  }

  lemma {:induction false} XorBitsSelf(a: nat, k: nat)
    ensures XorBits(a, a, k) == 0
  {
    if k > 0 {
      XorBitsSelf(a / 2, k - 1);
      Even(a);
    }
  }

  lemma Even(a: nat)
    ensures (a + a) % 2 == 0
  {
    assert a + a == 2 * a;
  }

  /** Bits above those of both numbers are zero. */
  lemma {:induction false} XorBitsWide(a: nat, b: nat, k: nat, n: nat)
    requires a < Pow2(k) && b < Pow2(k) && k <= n
    ensures XorBits(a, b, n) == XorBits(a, b, k)
  {
    if k > 0 {
      XorBitsWide(a / 2, b / 2, k - 1, n - 1);
    } else if n > 0 {
      XorBitsWide(0, 0, 0, n - 1);
    }
  }

  lemma XorZero(a: word)
    ensures Xor(a, 0) == a && Xor(0, a) == a && Xor(a, a) == 0
  {
    Pow32();
    XorBitsZero(a, 32);
    XorBitsComm(a, 0, 32);
    XorBitsSelf(a, 32);
  }

  /** The terms of a sum may be grouped in another way. */
  lemma XorRegroup(a: word, b: word, c: word, d: word)
    ensures Xor(Xor(a, b), Xor(c, d)) == Xor(Xor(a, c), Xor(b, d))
  {
    XorAssoc(Xor(a, b), c, d);
    XorAssoc(a, b, c);
    XorBitsComm(b, c, 32);
    XorAssoc(a, c, b);
    XorAssoc(Xor(a, c), b, d);
  }

  lemma XorAssoc(a: word, b: word, c: word)
    ensures Xor(Xor(a, b), c) == Xor(a, Xor(b, c))
  {
    XorBitsAssoc(a, b, c, 32);
  }

  /** Shifting, and the lowest bit. */
  lemma XorHalf(a: word, b: word)
    ensures Xor(a, b) / 2 == Xor(a / 2, b / 2) && Xor(a, b) % 2 == (a + b) % 2
  {
    assert Pow2(31) == 0x8000_0000 by {
      Pow32();
    }
    XorBitsWide(a / 2, b / 2, 31, 32);
    BitLaws(a, b, XorBits(a / 2, b / 2, 31));
  }

  /** A word that is small enough does not touch the higher bits. */
  lemma {:induction false} XorTop(a: word, b: word, n: nat)
    requires b < Pow2(n)
    ensures Xor(a, b) / Pow2(n) == a / Pow2(n)
  {
    if n == 0 {
      XorZero(a);
    } else {
      XorHalf(a, b);
      XorTop(a / 2, b / 2, n - 1);
      DivTwice(Xor(a, b), Pow2(n - 1));
      DivTwice(a, Pow2(n - 1));
    }
  }

  /** The highest bit, if both numbers have it, goes away. */
  lemma {:induction false} XorHighest(a: word, b: word, n: nat)
    requires Pow2(n) <= a < 2 * Pow2(n) && Pow2(n) <= b < 2 * Pow2(n)
    ensures Xor(a, b) < Pow2(n)
  {
    hide Xor;
    if n == 0 {
      XorZero(1);
    } else {
      XorHalf(a, b);
      XorHighest(a / 2, b / 2, n - 1);
    }
  }

  lemma DivTwice(x: nat, p: nat)
    requires p > 0
    ensures x / (2 * p) == x / 2 / p
    ensures x % (2 * p) / 2 == x / 2 % p && x % (2 * p) % 2 == x % 2
  {
    var h := x / 2;
    var q, r := h / p, h % p;
    assert h == p * q + r && x == 2 * h + x % 2;
    var low := 2 * r + x % 2;
    assert x == (2 * p) * q + low && 0 <= low < 2 * p by {
      assert (2 * p) * q == 2 * (p * q);
    }
    DivUnique(x, 2 * p, q, low);
  }

  lemma DivUnique(x: nat, p: nat, q: nat, r: nat)
    requires p > 0 && x == p * q + r && r < p
    ensures x / p == q && x % p == r
  {
    var d := x / p - q;
    Multiple(p, d);
    assert x == p * (x / p) + x % p;
    assert p * (x / p) - p * q == p * d;
  }

  lemma Multiple(p: nat, d: int)
    ensures d >= 1 ==> p * d >= p
    ensures d <= -1 ==> p * d <= 0 - p
  {
  }

  /** The exclusive or of words below a power of two is below it. */
  lemma XorBelow(a: word, b: word, n: nat)
    requires a < Pow2(n) && b < Pow2(n) && n <= 32
    ensures Xor(a, b) < Pow2(n)
  {
    XorBitsWide(a, b, n, 32);
    XorBitsBound(a, b, n);
  }

  lemma SmallWord(x: nat, p: nat)
    requires p > 0
    ensures x % p <= x
  {
    if x < p {
      DivUnique(x, p, 0, x);
    }
  }

  lemma BothHalves(r: nat, x: nat, p: nat)
    requires p > 0 && x / 2 % p == 0 && x % 2 == (r + r % (2 * p)) % 2
    ensures x % (2 * p) == 0
  {
    DivTwice(x, p);
    DivTwice(r, p);
    SameParity(r, r % (2 * p));
  }

  lemma SameParity(a: nat, b: nat)
    requires a % 2 == b % 2
    ensures (a + b) % 2 == 0
  {
  }

  /** A word and its own lowest bits: these go away. */
  lemma {:induction false} XorOwnLow(r: word, n: nat)
    ensures r % Pow2(n) <= r && Xor(r, r % Pow2(n)) % Pow2(n) == 0
  {
    hide Xor;
    SmallWord(r, Pow2(n));
    if n > 0 {
      XorHalf(r, r % Pow2(n));
      XorOwnLow(r / 2, n - 1);
      DivTwice(r, Pow2(n - 1));
      BothHalves(r, Xor(r, r % Pow2(n)), Pow2(n - 1));
    }
  }

  lemma {:induction false} Pow2Grows(n: nat, m: nat)
    requires n <= m
    ensures Pow2(n) <= Pow2(m)
    decreases m
  {
    if n < m {
      Pow2Grows(n, m - 1);
    }
  }

  /** A word and a bit above it: nothing overlaps. */
  lemma {:induction false} XorAbove(a: word, n: nat)
    requires a < Pow2(n) && n <= 16
    ensures Pow2(n) <= 0x1_0000 && Xor(a, Pow2(n)) == a + Pow2(n)
  {
    hide Xor;
    Pow32();
    Pow2Grows(n, 16);
    if n == 0 {
      XorZero(1);
    } else {
      XorHalf(a, Pow2(n));
      XorAbove(a / 2, n - 1);
    }
  }
}
