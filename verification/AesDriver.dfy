/**
 The AES driver itself: the polling loop of one batch, and a pass over any number of blocks in batches of
 at most 0xFFFF, which is what the block counter of the engine holds.
 */
module AesDriver {
  import opened Bitwise
  import opened Aes
  import opened AesFifo

  /** The engine: the selected key and mode, the chaining value and the two FIFOs. */
  class Engine {
    const cipher: Cipher
    var mode: Mode
    var chain: nat
    var wf: seq<word>
    var rf: seq<word>

    constructor (cipher: Cipher)
      ensures this.cipher == cipher && wf == rf == [] && chain == 0
    {
      this.cipher, mode, chain, wf, rf := cipher, EcbEncrypt, 0, [], [];
    }

    /** The engine is as in state s. */
    ghost predicate Shows(j: Job, s: State)
      reads this
    {
      cipher == j.c && mode == j.m && chain == s.chain && wf == s.wf && rf == s.rf
    }

    /** The engine at work between two looks of the driver: any number of blocks, but one at least if it can. */
    method Run(ghost j: Job, ghost s: State) returns (ghost t: State)
      requires Inv(j, s) && Shows(j, s)
      modifies this`wf, this`rf, this`chain
      ensures Inv(j, t) && Shows(j, t) && t == s.(wf := t.wf, rf := t.rf, e := t.e, chain := t.chain)
      ensures t.e >= s.e && (|s.wf| >= 4 && |s.rf| <= FIFO - 4 ==> t.e > s.e)
    {
      hide Inv, Out, Aes.Next, Counts;
      t := s;
      ChainFits(j, s);
      var most :| most >= 1;
      var done := 0;
      while done < most && |wf| >= 4 && |rf| <= FIFO - 4
        invariant Inv(j, t) && Shows(j, t) && t == s.(wf := t.wf, rf := t.rf, e := t.e, chain := t.chain)
        invariant 0 <= done && t.e == s.e + done && (done == 0 ==> t == s)
        decreases most - done
      {
        ChainFits(j, t);
        WorkInv(j, t);
        var b := wf[..4];
        wf, rf, chain := wf[4..], rf + Out(cipher, mode, chain, b), Aes.Next(cipher, mode, chain, b);
        t := Work(j, t);
        done := done + 1;
      }
    }

    /** Four words from place at of the memory into the write FIFO. */
    method PutBlock(mem: array<word>, at: nat, ghost j: Job, ghost s: State) returns (ghost t: State)
      requires Inv(j, s) && Shows(j, s) && CanStartFeed(j, s) && s.mem == mem[..] && at == j.src + s.fw
      modifies this`wf
      ensures Inv(j, t) && Shows(j, t) && t == s.(wf := t.wf, fw := s.fw + 4)
    {
      hide Inv, Counts;
      StartInv(j, s);
      t := StartFeed(s);
      var k := 0;
      while k < 4
        invariant 0 <= k <= 4 && Inv(j, t) && Shows(j, t)
        invariant t == s.(wf := t.wf, fw := s.fw + k, pc := if k == 4 then Idle else Feeding(4 - k))
      {
        FeedInv(j, t);
        wf := wf + [mem[at + k]];
        t := Feed(j, t);
        k := k + 1;
      }
    }

    /** Four words from the read FIFO to place at of the memory. */
    method GetBlock(mem: array<word>, at: nat, ghost j: Job, ghost s: State) returns (ghost t: State)
      requires Inv(j, s) && Shows(j, s) && CanStartDrain(j, s) && s.mem == mem[..] && at == j.dst + s.dw
      modifies this`rf, mem
      ensures Inv(j, t) && Shows(j, t) && t == s.(rf := t.rf, mem := mem[..], dw := s.dw + 4)
    {
      hide Inv, Counts;
      StartInv(j, s);
      t := StartDrain(s);
      var k := 0;
      while k < 4
        invariant 0 <= k <= 4 && Inv(j, t) && Shows(j, t)
        invariant t == s.(rf := t.rf, mem := mem[..], dw := s.dw + k, pc := if k == 4 then Idle else Draining(4 - k))
      {
        DrainInv(j, t);
        ghost var was := mem[..];
        mem[at + k] := rf[0];
        assert mem[..] == was[at + k := rf[0]];
        rf := rf[1..];
        t := Drain(j, t);
        k := k + 1;
      }
    }

    /** aes_batch: the polling loop. */
    method AesBatch(mem: array<word>, dst: nat, src: nat, n: nat)
      requires wf == rf == [] && JobOk(Job(cipher, mode, chain, mem[..], dst, src, n))
      modifies this`wf, this`rf, this`chain, mem
      ensures mem[..] == OneShot(cipher, mode, old(chain), old(mem[..]), dst, src, n)
      ensures wf == rf == [] && chain == ChainAt(cipher, mode, old(chain), old(mem[..]), src, n)
    {
      hide Inv, OneShot, ChainAt;
      ghost var j := Job(cipher, mode, chain, mem[..], dst, src, n);
      ghost var s := Init(j);
      InitInv(j);
      var wbc, rbc, from, to := n, n, src, dst;
      while rbc != 0
        invariant Inv(j, s) && Shows(j, s) && s.mem == mem[..] && s.pc == Idle
        invariant 0 <= rbc <= wbc + FIFO && 0 <= wbc && s.fw == 4 * (n - wbc) && s.dw == 4 * (n - rbc)
        invariant from == src + s.fw && to == dst + s.dw
        decreases wbc + rbc + (n - s.e)
      {
        Waiting(j, s);
        ghost var s0, wbc0, rbc0 := s, wbc, rbc;
        s := Run(j, s);
        if wbc != 0 && |wf| <= 12 {
          s := PutBlock(mem, from, j, s);
          from, wbc := from + 4, wbc - 1;
        }
        Waiting(j, s);
        s := Run(j, s);
        Waiting(j, s);
        assert s.e == s0.e && wbc == wbc0 ==> |rf| >= 4;
        if rbc != 0 && |rf| >= 4 {
          s := GetBlock(mem, to, j, s);
          to, rbc := to + 4, rbc - 1;
        }
        Waiting(j, s);
        assert s.e > s0.e || wbc < wbc0 || rbc < rbc0;
      }
      DoneResult(j, s);
    }

    /** aes_setiv, for the modes that chain: the engine takes the value that iv stands for. */
    method SetIv(iv: array<word>, ivMode: IvMode)
      requires iv.Length == 4
      modifies this`chain
      ensures chain == Value(iv[..], ivMode)
    {
      chain := Value(iv[..], ivMode);
    }

    /** One round of aes: a batch of the blocks from src on, and the iv made ready for the next one. */
    method AesRound(mem: array<word>, dst: nat, src: nat, blocks: nat, iv: array<word>, ivMode: IvMode)
      requires iv.Length == 4 && iv != mem && wf == rf == [] && 1 <= blocks <= 0xFFFF && chain < TWO128
      requires src + 4 * blocks <= mem.Length && dst + 4 * blocks <= mem.Length && Overlap(dst, src, blocks)
      modifies this`wf, this`rf, this`chain, mem, iv
      ensures wf == rf == [] && chain < TWO128
      ensures mem[..] == OneShot(cipher, mode, Value(old(iv[..]), ivMode), old(mem[..]), dst, src, blocks)
      ensures Value(iv[..], ivMode) == ChainAt(cipher, mode, Value(old(iv[..]), ivMode), old(mem[..]), src, blocks)
    {
      hide OneShot, Value, Overlap, ChainAt;
      ghost var was, v := mem[..], Value(iv[..], ivMode);
      if !mode.EcbEncrypt? && !mode.EcbDecrypt? {
        SetIv(iv, ivMode);
      }
      ghost var v1 := chain;
      LastBlock(cipher, mode, v1, was, dst, src, blocks);
      if mode.CbcDecrypt? {
        CopyBlock(mem, src + 4 * (blocks - 1), iv);
        ChangeCtrMode(iv, DATA, ivMode);
      }
      AesBatch(mem, dst, src, blocks);
      if mode.CbcEncrypt? {
        CopyBlock(mem, dst + 4 * (blocks - 1), iv);
        ChangeCtrMode(iv, DATA, ivMode);
      } else if mode.Ctr? {
        AdvCtr(iv, blocks, ivMode);
        CtrChain(cipher, v, was, src, blocks);
      }
      if mode.EcbEncrypt? || mode.EcbDecrypt? {
        EcbIgnoresIv(cipher, mode, v1, v, was, dst, src, blocks);
      }
    }

    /** aes: a whole pass, the chaining value carried from batch to batch in iv. */
    method AesPass(mem: array<word>, dst: nat, src: nat, blockCount: word, iv: array<word>, mode: Mode, ivMode: IvMode)
      requires iv.Length == 4 && iv != mem && chain < TWO128
      requires src + 4 * blockCount <= mem.Length && dst + 4 * blockCount <= mem.Length && Overlap(dst, src, blockCount)
      modifies this, mem, iv
      ensures chain < TWO128
      ensures mem[..] == OneShot(cipher, mode, Value(old(iv[..]), ivMode), old(mem[..]), dst, src, blockCount)
      ensures Value(iv[..], ivMode) == ChainAt(cipher, mode, Value(old(iv[..]), ivMode), old(mem[..]), src, blockCount)
    {
      hide OneShot, Value, ChainAt;
      this.mode, wf, rf := mode, [], [];
      ghost var was, v := mem[..], Value(iv[..], ivMode);
      var left, s, d := blockCount, src, dst;
      NoShot(cipher, mode, v, was, dst, src);
      while left != 0
        invariant 0 <= left <= blockCount && s == src + 4 * (blockCount - left) && d == dst + 4 * (blockCount - left)
        invariant wf == rf == [] && chain < TWO128 && this.mode == mode
        invariant mem[..] == OneShot(cipher, mode, v, was, dst, src, blockCount - left)
        invariant Value(iv[..], ivMode) == ChainAt(cipher, mode, v, was, src, blockCount - left)
      {
        var blocks := if left >= 0xFFFF then 0xFFFF else left;
        ghost var done := blockCount - left;
        ghost var mid := mem[..];
        TwoShots(cipher, mode, v, was, dst, src, done, blocks);
        ChainOn(cipher, mode, v, was, mid, dst, src, done, blocks);
        AesRound(mem, d, s, blocks, iv, ivMode);
        s, d, left := s + 4 * blocks, d + 4 * blocks, left - blocks;
      }
    }
  }

  lemma Waiting(j: Job, s: State)
    requires Inv(j, s)
    ensures s.dw <= 4 * s.e <= s.fw <= 4 * j.n && |s.wf| == s.fw - 4 * s.e <= FIFO && |s.rf| == 4 * s.e - s.dw <= FIFO
  {
    hide Contents;
  }

  lemma {:induction false} CtrChain(c: Cipher, v: nat, ws: seq<word>, src: nat, k: nat)
    requires v < TWO128 && src + 4 * k <= |ws|
    ensures ChainAt(c, Ctr, v, ws, src, k) == (v + k) % TWO128
  {
    if k > 0 {
      CtrChain(c, v, ws, src, k - 1);
      CountOn(v + k - 1);
    }
  }

  lemma CountOn(x: nat)
    ensures (x % TWO128 + 1) % TWO128 == (x + 1) % TWO128
  {
    if x % TWO128 + 1 < TWO128 {
      OneRemainder(x + 1, x / TWO128, x % TWO128 + 1);
    } else {
      OneRemainder(x + 1, x / TWO128 + 1, 0);
    }
  }

  lemma OneRemainder(y: nat, q: nat, r: nat)
    requires y == TWO128 * q + r && r < TWO128
    ensures y % TWO128 == r
  {
  }

  method CopyBlock(mem: array<word>, at: nat, iv: array<word>)
    requires iv.Length == 4 && iv != mem && at + 4 <= mem.Length
    modifies iv
    ensures iv[..] == mem[at..at + 4]
  {
    iv[0], iv[1], iv[2], iv[3] := mem[at], mem[at + 1], mem[at + 2], mem[at + 3];
  }

  /** The last block of a batch, before and after, is what the next chaining value is made of. */
  lemma LastBlock(c: Cipher, m: Mode, v: nat, ws: seq<word>, dst: nat, src: nat, n: nat)
    requires v < TWO128 && n >= 1 && src + 4 * n <= |ws| && dst + 4 * n <= |ws|
    ensures m == CbcDecrypt ==> ChainAt(c, m, v, ws, src, n) == Value(ws[src + 4 * (n - 1)..src + 4 * n], DATA)
    ensures m == CbcEncrypt ==>
      ChainAt(c, m, v, ws, src, n) == Value(OneShot(c, m, v, ws, dst, src, n)[dst + 4 * (n - 1)..dst + 4 * n], DATA)
  {
    hide Value, Out;
    assert ChainAt(c, m, v, ws, src, n) == Aes.Next(c, m, ChainAt(c, m, v, ws, src, n - 1), BlockAt(ws, src, n - 1));
    var r := OneShot(c, m, v, ws, dst, src, n);
    var o := OutAt(c, m, v, ws, src, n - 1);
    assert r[dst + 4 * (n - 1)..dst + 4 * n] == o by {
      forall i | 0 <= i < 4
        ensures r[dst + 4 * (n - 1) + i] == o[i]
      {
        assert (4 * (n - 1) + i) / 4 == n - 1 && (4 * (n - 1) + i) % 4 == i;
      }
    }
  }

  /** Nothing is done in no block. */
  lemma NoShot(c: Cipher, m: Mode, v: nat, ws: seq<word>, dst: nat, src: nat)
    requires v < TWO128 && src <= |ws|
    ensures OneShot(c, m, v, ws, dst, src, 0) == ws && ChainAt(c, m, v, ws, src, 0) == v
  {
  }

  /** The electronic codebook takes no account of the chaining value, and keeps it. */
  lemma {:induction false} EcbChain(c: Cipher, m: Mode, v: nat, ws: seq<word>, src: nat, k: nat)
    requires (m.EcbEncrypt? || m.EcbDecrypt?) && v < TWO128 && src + 4 * k <= |ws|
    ensures ChainAt(c, m, v, ws, src, k) == v
  {
    if k > 0 {
      EcbChain(c, m, v, ws, src, k - 1);
    }
  }

  lemma EcbIgnoresIv(c: Cipher, m: Mode, v: nat, v2: nat, ws: seq<word>, dst: nat, src: nat, n: nat)
    requires (m.EcbEncrypt? || m.EcbDecrypt?) && v < TWO128 && v2 < TWO128 && src + 4 * n <= |ws|
    ensures OneShot(c, m, v, ws, dst, src, n) == OneShot(c, m, v2, ws, dst, src, n)
    ensures ChainAt(c, m, v, ws, src, n) == v && ChainAt(c, m, v2, ws, src, n) == v2
  {
    hide ChainAt;
    var r, w := OneShot(c, m, v, ws, dst, src, n), OneShot(c, m, v2, ws, dst, src, n);
    forall i | 0 <= i < |ws|
      ensures r[i] == w[i]
    {
      if dst <= i < dst + 4 * n {
        var k := (i - dst) / 4;
        assert OutAt(c, m, v, ws, src, k) == OutAt(c, m, v2, ws, src, k);
      }
    }
    EcbChain(c, m, v, ws, src, n);
    EcbChain(c, m, v2, ws, src, n);
  }

  /** What is still to be read is as it was, so the chaining values of the rest are those of the whole. */
  lemma ChainOn(c: Cipher, m: Mode, v: nat, ws: seq<word>, mid: seq<word>, dst: nat, src: nat, a: nat, b: nat)
    requires v < TWO128 && src + 4 * (a + b) <= |ws| && dst + 4 * (a + b) <= |ws| && Overlap(dst, src, a + b)
    requires mid == OneShot(c, m, v, ws, dst, src, a)
    ensures ChainAt(c, m, ChainAt(c, m, v, ws, src, a), mid, src + 4 * a, b) == ChainAt(c, m, v, ws, src, a + b)
  {
    hide ChainAt, OutAt;
    ChainFrame(c, m, ChainAt(c, m, v, ws, src, a), mid, ws, src + 4 * a, b);
    ChainSplit(c, m, v, ws, src, a, b);
  }
}
