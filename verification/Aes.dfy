/**
 The AES driver: counters and initialisation vectors in their four memory layouts, and the block modes
 as functions of the position of a block.  The block cipher itself is a parameter.
 */
module Aes {
  import opened Bitwise

  /** Sixteen bytes, as four words loaded from memory. */
  type Block = s: seq<word> | |s| == 4 witness [0, 0, 0, 0]

  // ---------- blocks and words ----------

  function XorBlock(a: Block, b: Block): Block {
    [Xor(a[0], b[0]), Xor(a[1], b[1]), Xor(a[2], b[2]), Xor(a[3], b[3])]
  }

  lemma XorBlockTwice(a: Block, b: Block)
    ensures XorBlock(XorBlock(a, b), b) == a
  {
    hide Xor;
    XorTwice(a[0], b[0]);
    XorTwice(a[1], b[1]);
    XorTwice(a[2], b[2]);
    XorTwice(a[3], b[3]);
  }

  type octet = b: int | 0 <= b < 0x100

  /** A word from its bytes, least significant first. */
  function Bytes(b0: octet, b1: octet, b2: octet, b3: octet): word {
    b0 + 0x100 * (b1 + 0x100 * (b2 + 0x100 * b3))
  }

  /** The word with its bytes in the other order. */
  function Swap(w: word): word {
    var q := w / 0x100;
    Bytes(q / 0x1_0000, q / 0x100 % 0x100, q % 0x100, w % 0x100)
  }

  lemma SwapBytes(b0: octet, b1: octet, b2: octet, b3: octet)
    ensures Swap(Bytes(b0, b1, b2, b3)) == Bytes(b3, b2, b1, b0)
  {
    var w := Bytes(b0, b1, b2, b3);
    assert w % 0x100 == b0 && w / 0x100 == b1 + 0x100 * (b2 + 0x100 * b3);
    var q := w / 0x100;
    assert q % 0x100 == b1 && q / 0x100 == b2 + 0x100 * b3;
    assert q / 0x1_0000 == b3;
    assert q / 0x100 % 0x100 == b2;
  }

  lemma SwapTwice(w: word)
    ensures Swap(Swap(w)) == w
  {
    hide Bytes;
    var q := w / 0x100;
    SwapBytes(q / 0x1_0000, q / 0x100 % 0x100, q % 0x100, w % 0x100);
    AllBytes(w);
  }

  lemma AllBytes(w: word)
    ensures var q := w / 0x100; w == Bytes(w % 0x100, q % 0x100, q / 0x100 % 0x100, q / 0x1_0000)
  {
    var q := w / 0x100;
    assert q / 0x1_0000 == q / 0x100 / 0x100;
  }

  // ---------- counters in memory ----------

  /** How a 128-bit value is laid out: bytes of a word most significant first, most significant word first. */
  datatype IvMode = IvMode(be: bool, normal: bool)

  /** How the driver hands data blocks to the engine. */
  const DATA := IvMode(true, true)

  const TWO32 := 0x1_0000_0000
  const TWO128 := 0x1_0000_0000_0000_0000_0000_0000_0000_0000

  function Number(w0: word, w1: word, w2: word, w3: word): (v: nat)
    ensures v < TWO128
  {
    w0 + 0x1_0000_0000 * (w1 + 0x1_0000_0000 * (w2 + 0x1_0000_0000 * w3))
  }

  /** The i-th word of a value, least significant first. */
  function Digit(v: nat, i: nat): word
    requires v < TWO128 && i < 4
  {
    var q1 := v / 0x1_0000_0000;
    var q2 := q1 / 0x1_0000_0000;
    if i == 0 then v % 0x1_0000_0000 else if i == 1 then q1 % 0x1_0000_0000 else
    if i == 2 then q2 % 0x1_0000_0000 else q2 / 0x1_0000_0000
  }

  lemma Digits(w0: word, w1: word, w2: word, w3: word)
    ensures var v := Number(w0, w1, w2, w3);
      Digit(v, 0) == w0 && Digit(v, 1) == w1 && Digit(v, 2) == w2 && Digit(v, 3) == w3
  {
    var v := Number(w0, w1, w2, w3);
    assert v / 0x1_0000_0000 == w1 + 0x1_0000_0000 * (w2 + 0x1_0000_0000 * w3);
    assert v / 0x1_0000_0000 / 0x1_0000_0000 == w2 + 0x1_0000_0000 * w3;
  }

  function Order(w: word, be: bool): word { if be then Swap(w) else w }

  /** The 128-bit value that four words stand for. */
  function Value(iv: Block, m: IvMode): (v: nat)
    ensures v < TWO128
  {
    var a, b, c, d := Order(iv[0], m.be), Order(iv[1], m.be), Order(iv[2], m.be), Order(iv[3], m.be);
    if m.normal then Number(d, c, b, a) else Number(a, b, c, d)
  }

  /** The block that stands for a value in data order. */
  function BlockOf(v: nat): Block
    requires v < TWO128
  {
    [Swap(Digit(v, 3)), Swap(Digit(v, 2)), Swap(Digit(v, 1)), Swap(Digit(v, 0))]
  }

  lemma BlockOfValue(b: Block)
    ensures BlockOf(Value(b, DATA)) == b
  {
    hide Swap, Digit, Number;
    Digits(Swap(b[3]), Swap(b[2]), Swap(b[1]), Swap(b[0]));
    SwapTwice(b[0]);
    SwapTwice(b[1]);
    SwapTwice(b[2]);
    SwapTwice(b[3]);
  }

  /** The number that bytes write, the first one highest. */
  function BigNumber(b: seq<octet>): nat {
    if b == [] then 0 else 0x100 * BigNumber(b[..|b| - 1]) + b[|b| - 1]
  }

  lemma OneMoreByte(b: seq<octet>, i: nat)
    requires i < |b|
    ensures BigNumber(b[..i + 1]) == 0x100 * BigNumber(b[..i]) + b[i]
  {
    assert b[..i + 1][..i] == b[..i];
  }

  /** Four bytes loaded as a word and swapped go on with the number. */
  lemma OneMoreWord(b: seq<octet>, i: nat)
    requires i + 4 <= |b|
    ensures BigNumber(b[..i + 4]) == TWO32 * BigNumber(b[..i]) + Swap(Bytes(b[i], b[i + 1], b[i + 2], b[i + 3]))
  {
    hide BigNumber, Swap;
    OneMoreByte(b, i);
    OneMoreByte(b, i + 1);
    OneMoreByte(b, i + 2);
    OneMoreByte(b, i + 3);
    SwapBytes(b[i], b[i + 1], b[i + 2], b[i + 3]);
  }

  /** Sixteen bytes as the words that are loaded from them. */
  function Loaded(b: seq<octet>): Block
    requires |b| == 16
  {
    [Bytes(b[0], b[1], b[2], b[3]), Bytes(b[4], b[5], b[6], b[7]),
     Bytes(b[8], b[9], b[10], b[11]), Bytes(b[12], b[13], b[14], b[15])]
  }

  lemma NoBytes(b: seq<octet>)
    ensures BigNumber(b[..0]) == 0
  {
  }

  /** In data order the value of sixteen bytes in memory is the number they write, the first one highest. */
  lemma ValueOfBytes(b: seq<octet>)
    requires |b| == 16
    ensures Value(Loaded(b), DATA) == BigNumber(b)
  {
    hide BigNumber, Swap, Bytes;
    NoBytes(b);
    OneMoreWord(b, 0);
    OneMoreWord(b, 4);
    OneMoreWord(b, 8);
    OneMoreWord(b, 12);
    assert b[..16] == b;
  }

  /** The other layouts have the bytes of each word, or the words, in the other order. */
  lemma OtherLayouts(b: Block)
    ensures Value(b, IvMode(true, false)) == Value([b[3], b[2], b[1], b[0]], DATA)
    ensures Value(b, IvMode(false, true)) == Value([Swap(b[0]), Swap(b[1]), Swap(b[2]), Swap(b[3])], DATA)
    ensures Value(b, IvMode(false, false)) == Value([Swap(b[3]), Swap(b[2]), Swap(b[1]), Swap(b[0])], DATA)
  {
    hide Swap, Number;
    SwapTwice(b[0]);
    SwapTwice(b[1]);
    SwapTwice(b[2]);
    SwapTwice(b[3]);
  }

  /** Byte order of all four words changed. */
  method SwapAll(iv: array<word>)
    requires iv.Length == 4
    modifies iv
    ensures iv[..] == [Swap(old(iv[0])), Swap(old(iv[1])), Swap(old(iv[2])), Swap(old(iv[3]))]
  {
    hide Swap;
    var i := 0;
    while i < 4
      invariant 0 <= i <= 4
      invariant forall j | 0 <= j < 4 :: iv[j] == if j < i then Swap(old(iv[j])) else old(iv[j])
    {
      iv[i] := Swap(iv[i]);
      i := i + 1;
    }
  }

  /** The words of a 128-bit number plus a 32-bit one, by carries. */
  lemma CarryAdd(w: Block, val: word, r: Block, c0: nat, c1: nat, c2: nat, c3: nat)
    requires w[0] + val == r[0] + 0x1_0000_0000 * c0 && w[1] + c0 == r[1] + 0x1_0000_0000 * c1
    requires w[2] + c1 == r[2] + 0x1_0000_0000 * c2 && w[3] + c2 == r[3] + 0x1_0000_0000 * c3
    ensures Number(r[0], r[1], r[2], r[3]) == (Number(w[0], w[1], w[2], w[3]) + val) % TWO128
  {
    var x, y := Number(r[0], r[1], r[2], r[3]), Number(w[0], w[1], w[2], w[3]) + val;
    assert x + TWO128 * c3 == y;
    assert x == y % TWO128 by {
      hide Number;
      Remainder(x, y, c3);
    }
  }

  lemma Remainder(x: nat, y: nat, c: nat)
    requires x < TWO128 && x + TWO128 * c == y
    ensures x == y % TWO128
  {
  }

  /** ADD_u128_u32: the words at a, b, c, d, least significant first. */
  method AddWord(iv: array<word>, a: nat, b: nat, c: nat, d: nat, val: word)
    requires iv.Length == 4 && [a, b, c, d] in [[0, 1, 2, 3], [3, 2, 1, 0]]
    modifies iv
    ensures Number(iv[a], iv[b], iv[c], iv[d]) == (old(Number(iv[a], iv[b], iv[c], iv[d])) + val) % TWO128
  {
    hide Number;
    ghost var w: Block := [iv[a], iv[b], iv[c], iv[d]];
    var s := iv[a] + val;
    var c0 := s / 0x1_0000_0000;
    iv[a] := s % 0x1_0000_0000;
    s := iv[b] + c0;
    var c1 := s / 0x1_0000_0000;
    iv[b] := s % 0x1_0000_0000;
    s := iv[c] + c1;
    var c2 := s / 0x1_0000_0000;
    iv[c] := s % 0x1_0000_0000;
    s := iv[d] + c2;
    iv[d] := s % 0x1_0000_0000;
    CarryAdd(w, val, [iv[a], iv[b], iv[c], iv[d]], c0, c1, c2, s / 0x1_0000_0000);
  }

  /** aes_advctr: adds to a counter, whatever its layout. */
  method AdvCtr(ctr: array<word>, val: word, m: IvMode)
    requires ctr.Length == 4
    modifies ctr
    ensures Value(ctr[..], m) == (Value(old(ctr[..]), m) + val) % TWO128
  {
    hide Swap, Number;
    ghost var was := ctr[..];
    if m.be {
      SwapAll(ctr);
    }
    ghost var mid := ctr[..];
    assert Value(was, m) ==
           if m.normal then Number(mid[3], mid[2], mid[1], mid[0]) else Number(mid[0], mid[1], mid[2], mid[3]);
    if m.normal {
      AddWord(ctr, 3, 2, 1, 0, val);
    } else {
      AddWord(ctr, 0, 1, 2, 3, val);
    }
    ghost var sum := ctr[..];
    if m.be {
      SwapAll(ctr);
      SwapTwice(sum[0]);
      SwapTwice(sum[1]);
      SwapTwice(sum[2]);
      SwapTwice(sum[3]);
    }
    assert Value(ctr[..], m) ==
           if m.normal then Number(sum[3], sum[2], sum[1], sum[0]) else Number(sum[0], sum[1], sum[2], sum[3]);
  }

  /** aes_change_ctrmode: another layout of the same value. */
  method ChangeCtrMode(ctr: array<word>, from: IvMode, to: IvMode)
    requires ctr.Length == 4
    modifies ctr
    ensures Value(ctr[..], to) == Value(old(ctr[..]), from)
  {
    hide Swap, Number;
    ghost var was := ctr[..];
    SwapTwice(was[0]);
    SwapTwice(was[1]);
    SwapTwice(was[2]);
    SwapTwice(was[3]);
    if from.be != to.be {
      SwapAll(ctr);
    }
    if from.normal != to.normal {
      ctr[0], ctr[3] := ctr[3], ctr[0];
      ctr[1], ctr[2] := ctr[2], ctr[1];
    }
  }

  // ---------- modes ----------

  datatype Mode = Ctr | CbcDecrypt | CbcEncrypt | EcbDecrypt | EcbEncrypt

  /** The block cipher under the selected key. */
  datatype Cipher = Cipher(enc: Block -> Block, dec: Block -> Block)

  /** What the engine makes of a block, v being the counter or the chaining value. */
  function Out(c: Cipher, m: Mode, v: nat, b: Block): Block
    requires v < TWO128
  {
    match m
    case Ctr => XorBlock(b, c.enc(BlockOf(v)))
    case CbcDecrypt => XorBlock(c.dec(b), BlockOf(v))
    case CbcEncrypt => c.enc(XorBlock(b, BlockOf(v)))
    case EcbDecrypt => c.dec(b)
    case EcbEncrypt => c.enc(b)
  }

  /** The counter or chaining value for the block after this one. */
  function Next(c: Cipher, m: Mode, v: nat, b: Block): (n: nat)
    requires v < TWO128
    ensures n < TWO128
  {
    match m
    case Ctr => (v + 1) % TWO128
    case CbcDecrypt => Value(b, DATA)
    case CbcEncrypt => Value(Out(c, m, v, b), DATA)
    case EcbDecrypt => v
    case EcbEncrypt => v
  }

  /** The k-th block of the data that starts at word src. */
  function BlockAt(ws: seq<word>, src: nat, k: nat): Block
    requires src + 4 * k + 4 <= |ws|
  {
    ws[src + 4 * k..src + 4 * k + 4]
  }

  /** The counter or chaining value for the k-th block. */
  function ChainAt(c: Cipher, m: Mode, v: nat, ws: seq<word>, src: nat, k: nat): (n: nat)
    requires v < TWO128 && src + 4 * k <= |ws|
    ensures n < TWO128
  {
    if k == 0 then v else Next(c, m, ChainAt(c, m, v, ws, src, k - 1), BlockAt(ws, src, k - 1))
  }

  /** The k-th block of the result. */
  function OutAt(c: Cipher, m: Mode, v: nat, ws: seq<word>, src: nat, k: nat): Block
    requires v < TWO128 && src + 4 * k + 4 <= |ws|
  {
    Out(c, m, ChainAt(c, m, v, ws, src, k), BlockAt(ws, src, k))
  }

  /** One pass over n blocks from src to dst, the source read before anything is written. */
  function OneShot(c: Cipher, m: Mode, v: nat, ws: seq<word>, dst: nat, src: nat, n: nat): (r: seq<word>)
    requires v < TWO128 && src + 4 * n <= |ws|
    ensures |r| == |ws|
  {
    seq(|ws|, i requires 0 <= i < |ws| =>
      if dst <= i < dst + 4 * n then OutAt(c, m, v, ws, src, (i - dst) / 4)[(i - dst) % 4] else ws[i])
  }

  /** Where the result may go: not above the source inside it. */
  predicate Overlap(dst: nat, src: nat, n: nat) { dst <= src || src + 4 * n <= dst }

  // ---------- passes in several parts ----------

  /** Chaining values depend on the blocks before only. */
  lemma {:induction false} ChainFrame(c: Cipher, m: Mode, v: nat, ws: seq<word>, ws2: seq<word>, src: nat, k: nat)
    requires v < TWO128 && src + 4 * k <= |ws| == |ws2|
    requires forall i | src <= i < src + 4 * k :: ws[i] == ws2[i]
    ensures ChainAt(c, m, v, ws, src, k) == ChainAt(c, m, v, ws2, src, k)
  {
    if k > 0 {
      ChainFrame(c, m, v, ws, ws2, src, k - 1);
      assert BlockAt(ws, src, k - 1) == BlockAt(ws2, src, k - 1);
    }
  }

  lemma {:induction false} ChainSplit(c: Cipher, m: Mode, v: nat, ws: seq<word>, src: nat, a: nat, k: nat)
    requires v < TWO128 && src + 4 * (a + k) <= |ws|
    ensures ChainAt(c, m, ChainAt(c, m, v, ws, src, a), ws, src + 4 * a, k) == ChainAt(c, m, v, ws, src, a + k)
  {
    hide Next;
    if k > 0 {
      ChainSplit(c, m, v, ws, src, a, k - 1);
      assert BlockAt(ws, src + 4 * a, k - 1) == BlockAt(ws, src, a + k - 1);
    }
  }

  lemma OutSplit(c: Cipher, m: Mode, v: nat, ws: seq<word>, ws2: seq<word>, src: nat, a: nat, k: nat)
    requires v < TWO128 && src + 4 * (a + k) + 4 <= |ws| == |ws2|
    requires forall i | src + 4 * a <= i < src + 4 * (a + k) + 4 :: ws2[i] == ws[i]
    ensures OutAt(c, m, ChainAt(c, m, v, ws, src, a), ws2, src + 4 * a, k) == OutAt(c, m, v, ws, src, a + k)
  {
    hide Next, Out;
    ChainSplit(c, m, v, ws, src, a, k);
    ChainFrame(c, m, ChainAt(c, m, v, ws, src, a), ws2, ws, src + 4 * a, k);
    assert BlockAt(ws2, src + 4 * a, k) == BlockAt(ws, src, a + k);
  }

  lemma FourOn(x: nat, a: nat)
    requires x >= 4 * a
    ensures (x - 4 * a) / 4 == x / 4 - a && (x - 4 * a) % 4 == x % 4
  {
  }

  lemma ShotWord(c: Cipher, m: Mode, v: nat, ws: seq<word>, dst: nat, src: nat, n: nat, i: nat)
    requires v < TWO128 && src + 4 * n <= |ws| && dst + 4 * n <= |ws| && i < |ws|
    ensures OneShot(c, m, v, ws, dst, src, n)[i] ==
      if dst <= i < dst + 4 * n then OutAt(c, m, v, ws, src, (i - dst) / 4)[(i - dst) % 4] else ws[i]
  {
    hide OutAt, ChainAt;
  }

  /** The first pass does not touch what the second reads. */
  lemma ShotBelow(c: Cipher, m: Mode, v: nat, ws: seq<word>, dst: nat, src: nat, a: nat, b: nat)
    requires v < TWO128 && src + 4 * (a + b) <= |ws| && dst + 4 * (a + b) <= |ws| && Overlap(dst, src, a + b)
    ensures forall i | src + 4 * a <= i < src + 4 * (a + b) :: OneShot(c, m, v, ws, dst, src, a)[i] == ws[i]
  {
    hide OutAt, ChainAt;
  }

  /** Two passes, the second going on where the first stopped, are one. */
  lemma TwoShots(c: Cipher, m: Mode, v: nat, ws: seq<word>, dst: nat, src: nat, a: nat, b: nat)
    requires v < TWO128 && src + 4 * (a + b) <= |ws| && dst + 4 * (a + b) <= |ws| && Overlap(dst, src, a + b)
    ensures OneShot(c, m, v, ws, dst, src, a + b) ==
      OneShot(c, m, ChainAt(c, m, v, ws, src, a), OneShot(c, m, v, ws, dst, src, a), dst + 4 * a, src + 4 * a, b)
  {
    hide Next, Out, ChainAt, OutAt, OneShot;
    var mid, v2 := OneShot(c, m, v, ws, dst, src, a), ChainAt(c, m, v, ws, src, a);
    ShotBelow(c, m, v, ws, dst, src, a, b);
    var r, w := OneShot(c, m, v2, mid, dst + 4 * a, src + 4 * a, b), OneShot(c, m, v, ws, dst, src, a + b);
    forall i | 0 <= i < |ws|
      ensures r[i] == w[i]
    {
      ShotWord(c, m, v, ws, dst, src, a, i);
      ShotWord(c, m, v2, mid, dst + 4 * a, src + 4 * a, b, i);
      ShotWord(c, m, v, ws, dst, src, a + b, i);
      if dst + 4 * a <= i < dst + 4 * (a + b) {
        FourOn(i - dst, a);
        OutSplit(c, m, v, ws, mid, src, a, (i - dst) / 4 - a);
      }
    }
  }

  // ---------- decrypting undoes encrypting ----------

  /** The mode that undoes this one. */
  function Inverse(m: Mode): Mode {
    match m
    case Ctr => Ctr
    case CbcDecrypt => CbcEncrypt
    case CbcEncrypt => CbcDecrypt
    case EcbDecrypt => EcbEncrypt
    case EcbEncrypt => EcbDecrypt
  }

  /** Decryption with the selected key undoes encryption. */
  ghost predicate Undoes(c: Cipher) {
    forall b: Block :: c.dec(c.enc(b)) == b
  }

  lemma EncryptedAt(c: Cipher, m: Mode, v: nat, ws: seq<word>, p: nat, n: nat, k: nat)
    requires v < TWO128 && p + 4 * n <= |ws| && k < n
    ensures BlockAt(OneShot(c, m, v, ws, p, p, n), p, k) == OutAt(c, m, v, ws, p, k)
  {
    hide OutAt;
    var r, o := OneShot(c, m, v, ws, p, p, n), OutAt(c, m, v, ws, p, k);
    forall i | 0 <= i < 4
      ensures BlockAt(r, p, k)[i] == o[i]
    {
      assert (4 * k + i) / 4 == k && (4 * k + i) % 4 == i;
      assert r[p + 4 * k + i] == o[i];
    }
  }

  /** Counters and chaining values of the way back are those of the way there. */
  lemma {:induction false} SameChain(c: Cipher, m: Mode, v: nat, ws: seq<word>, p: nat, n: nat, k: nat)
    requires v < TWO128 && p + 4 * n <= |ws| && k <= n && (m == Ctr || m == CbcEncrypt || m == EcbEncrypt)
    ensures ChainAt(c, Inverse(m), v, OneShot(c, m, v, ws, p, p, n), p, k) == ChainAt(c, m, v, ws, p, k)
  {
    hide OneShot, BlockAt, Out;
    if k > 0 {
      SameChain(c, m, v, ws, p, n, k - 1);
      EncryptedAt(c, m, v, ws, p, n, k - 1);
    }
  }

  lemma BackAgain(c: Cipher, m: Mode, v: nat, b: Block)
    requires Undoes(c) && v < TWO128 && (m == Ctr || m == CbcEncrypt || m == EcbEncrypt)
    ensures Out(c, Inverse(m), v, Out(c, m, v, b)) == b
  {
    hide XorBlock, BlockOf;
    XorBlockTwice(b, BlockOf(v));
    XorBlockTwice(b, c.enc(BlockOf(v)));
  }

  /** A pass in place, and then a pass with the inverse mode from the same counter or chaining value, change nothing. */
  lemma PassAndBack(c: Cipher, m: Mode, v: nat, ws: seq<word>, p: nat, n: nat)
    requires Undoes(c) && v < TWO128 && p + 4 * n <= |ws| && (m == Ctr || m == CbcEncrypt || m == EcbEncrypt)
    ensures OneShot(c, Inverse(m), v, OneShot(c, m, v, ws, p, p, n), p, p, n) == ws
  {
    hide Out, ChainAt, Undoes;
    var enc := OneShot(c, m, v, ws, p, p, n);
    var back := OneShot(c, Inverse(m), v, enc, p, p, n);
    forall i | 0 <= i < |ws|
      ensures back[i] == ws[i]
    {
      if p <= i < p + 4 * n {
        var k := (i - p) / 4;
        SameChain(c, m, v, ws, p, n, k);
        EncryptedAt(c, m, v, ws, p, n, k);
        BackAgain(c, m, ChainAt(c, m, v, ws, p, k), BlockAt(ws, p, k));
        assert BlockAt(ws, p, k)[(i - p) % 4] == ws[i];
      }
    }
  }

  /** What a chained block is combined with is the cipher block before it. */
  lemma ChainIsCipherBlock(c: Cipher, v: nat, ws: seq<word>, p: nat, n: nat, k: nat)
    requires v < TWO128 && p + 4 * n <= |ws| && 1 <= k < n
    ensures BlockAt(OneShot(c, CbcEncrypt, v, ws, p, p, n), p, k) ==
      c.enc(XorBlock(BlockAt(ws, p, k), BlockAt(OneShot(c, CbcEncrypt, v, ws, p, p, n), p, k - 1)))
  {
    hide OneShot, BlockAt, XorBlock, BlockOf, Value;
    EncryptedAt(c, CbcEncrypt, v, ws, p, n, k);
    EncryptedAt(c, CbcEncrypt, v, ws, p, n, k - 1);
    BlockOfValue(OutAt(c, CbcEncrypt, v, ws, p, k - 1));
  }
}
