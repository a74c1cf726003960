/**
 The encrypted NAND partition as an array of plain words: reading and writing sectors in counter mode.
 A sector is 128 words, that is 32 cipher blocks.
 */
module CtrNand {
  import opened Bitwise
  import opened Aes
  import opened AesFifo
  import opened AesDriver

  datatype Location = SYSNAND | EMUNAND

  /** First sector whose byte offset does not fit 32 bits. */
  const WINDOW: nat := 0x80_0000

  // ---------- the key stream ----------

  /** Word i of the key stream that begins with this counter. */
  function KeyWord(c: Cipher, base: nat, i: nat): word {
    c.enc(BlockOf((base + i / 4) % TWO128))[i % 4]
  }

  /** Words encrypted, or decrypted, with the key stream that begins with this counter. */
  function Crypt(c: Cipher, base: nat, ws: seq<word>): (r: seq<word>)
    ensures |r| == |ws|
  {
    seq(|ws|, i requires 0 <= i < |ws| => Xor(ws[i], KeyWord(c, base, i)))
  }

  lemma CryptTwice(c: Cipher, base: nat, ws: seq<word>)
    ensures Crypt(c, base, Crypt(c, base, ws)) == ws
  {
    hide KeyWord, Xor;
    forall i | 0 <= i < |ws|
      ensures Crypt(c, base, Crypt(c, base, ws))[i] == ws[i]
    {
      XorTwice(ws[i], KeyWord(c, base, i));
    }
  }

  /** The key stream depends on the position only, not on where a transfer is split. */
  lemma CryptSplit(c: Cipher, base: nat, a: seq<word>, b: seq<word>)
    requires |a| % 4 == 0
    ensures Crypt(c, base, a + b) == Crypt(c, base, a) + Crypt(c, base + |a| / 4, b)
  {
    hide Xor, KeyWord;
    var l, r := Crypt(c, base, a + b), Crypt(c, base, a) + Crypt(c, base + |a| / 4, b);
    forall i | 0 <= i < |l|
      ensures l[i] == r[i]
    {
      if i >= |a| {
        KeyOn(c, base, |a| / 4, i - |a|);
      }
    }
  }

  lemma KeyOn(c: Cipher, base: nat, k: nat, i: nat)
    ensures KeyWord(c, base, 4 * k + i) == KeyWord(c, base + k, i)
  {
    hide BlockOf;
    assert (4 * k + i) / 4 == k + i / 4 && (4 * k + i) % 4 == i % 4;
  }

  lemma CtrWord(c: Cipher, v: nat, ws: seq<word>, i: nat)
    requires v < TWO128 && 4 * (i / 4) + 4 <= |ws|
    ensures OutAt(c, Ctr, v, ws, 0, i / 4)[i % 4] == Xor(ws[i], c.enc(BlockOf((v + i / 4) % TWO128))[i % 4])
  {
    hide Xor, BlockOf;
    CtrChain(c, v, ws, 0, i / 4);
    assert BlockAt(ws, 0, i / 4)[i % 4] == ws[i];
  }

  lemma AddUp(x: nat, k: nat)
    ensures (x % TWO128 + k) % TWO128 == (x + k) % TWO128
  {
    var r := x % TWO128 + k;
    OneRemainder(x + k, x / TWO128 + r / TWO128, r % TWO128);
  }

  /** A counter-mode pass over the first words of memory encrypts them. */
  lemma PassIsCrypt(c: Cipher, base: nat, ws: seq<word>, n: nat)
    requires 4 * n <= |ws|
    ensures OneShot(c, Ctr, base % TWO128, ws, 0, 0, n) == Crypt(c, base, ws[..4 * n]) + ws[4 * n..]
  {
    hide Xor, BlockOf;
    var v := base % TWO128;
    var r, w := OneShot(c, Ctr, v, ws, 0, 0, n), Crypt(c, base, ws[..4 * n]) + ws[4 * n..];
    forall i | 0 <= i < |ws|
      ensures r[i] == w[i]
    {
      if i < 4 * n {
        CtrWord(c, v, ws, i);
        AddUp(base, i / 4);
      }
    }
  }

  // ---------- the devices ----------

  /** The NAND, the SD card with the emulated NAND, and what the driver was set up with. */
  datatype Dev = Dev(nand: seq<word>, sd: seq<word>, ctr: nat, fatStart: word, emuOffset: word, location: Location)

  /** The sector of the partition on the NAND, in unsigned 32-bit arithmetic. */
  function NandSector(d: Dev, sector: word): word { (sector + d.fatStart) % TWO32 }

  /** The sector of the partition on the SD card. */
  function SdSector(d: Dev, sector: word): word { (sector + d.emuOffset + d.fatStart) % TWO32 }

  /** What a transfer from this sector adds to the counter: its byte offset in 32 bits, in blocks. */
  function FirstBlock(sec: word): word { sec * 0x200 % TWO32 / 0x10 }

  function Base(d: Dev, sector: word): nat { d.ctr + FirstBlock(NandSector(d, sector)) }

  /** The sectors are on the NAND. */
  predicate OnNand(d: Dev, sector: word, count: word) {
    (NandSector(d, sector) + count) * 0x80 <= |d.nand| <= 0x80 * TWO32 && count < WINDOW
  }

  /** The sectors are where a read looks for them. */
  predicate Readable(d: Dev, sector: word, count: word) {
    && (d.location == SYSNAND ==> OnNand(d, sector, count))
    && (d.location == EMUNAND ==> (SdSector(d, sector) + count) * 0x80 <= |d.sd| && count < WINDOW)
  }

  /** The sectors of a read, before they are decrypted. */
  function Raw(d: Dev, sector: word, count: word): (r: seq<word>)
    requires Readable(d, sector, count)
    ensures |r| == 0x80 * count
  {
    var from := if d.location == SYSNAND then d.nand else d.sd;
    var s := if d.location == SYSNAND then NandSector(d, sector) else SdSector(d, sector);
    from[0x80 * s..0x80 * (s + count)]
  }

  function ReadSpec(c: Cipher, d: Dev, sector: word, count: word): (r: seq<word>)
    requires Readable(d, sector, count)
  {
    Crypt(c, Base(d, sector), Raw(d, sector, count))
  }

  /** Writing goes to the NAND, wherever reading goes to. */
  function WriteSpec(c: Cipher, d: Dev, sector: word, count: word, data: seq<word>): Dev
    requires |data| == 0x80 * count && OnNand(d, sector, count)
  {
    var s := NandSector(d, sector);
    d.(nand := d.nand[..0x80 * s] + Crypt(c, Base(d, sector), data) + d.nand[0x80 * s + |data|..])
  }

  lemma DecryptedIs(c: Cipher, d: Dev, sector: word, count: word, raw: seq<word>, rest: seq<word>)
    requires Readable(d, sector, count) && raw == Raw(d, sector, count) + rest
    ensures Crypt(c, Base(d, sector), raw[..0x80 * count]) + raw[0x80 * count..] == ReadSpec(c, d, sector, count) + rest
  {
    hide Crypt, Base, Raw;
    assert raw[..0x80 * count] == Raw(d, sector, count) && raw[0x80 * count..] == rest;
  }

  class Nand {
    const engine: Engine
    const ctr: Block
    var nand: seq<word>
    var sd: seq<word>
    var fatStart: word
    var emuOffset: word
    var location: Location

    constructor (cipher: Cipher, ctr: Block, nand: seq<word>, sd: seq<word>, fatStart: word, emuOffset: word,
                 location: Location)
      ensures State() == Dev(nand, sd, Value(ctr, DATA), fatStart, emuOffset, location)
      ensures engine.cipher == cipher && engine.chain == 0 && fresh(engine)
    {
      engine := new Engine(cipher);
      this.ctr, this.nand, this.sd, this.fatStart := ctr, nand, sd, fatStart;
      this.emuOffset, this.location := emuOffset, location;
    }

    function State(): Dev
      reads this
    {
      Dev(nand, sd, Value(ctr, DATA), fatStart, emuOffset, location)
    }

    /** The counter for a transfer from this sector. */
    method StartCtr(sector: word) returns (tmpCtr: array<word>)
      ensures fresh(tmpCtr) && tmpCtr.Length == 4 && Value(tmpCtr[..], DATA) == Base(State(), sector) % TWO128
    {
      hide Value, FirstBlock, NandSector;
      tmpCtr := new word[4];
      tmpCtr[0], tmpCtr[1], tmpCtr[2], tmpCtr[3] := ctr[0], ctr[1], ctr[2], ctr[3];
      assert tmpCtr[..] == ctr;
      AdvCtr(tmpCtr, FirstBlock(NandSector(State(), sector)), DATA);
    }

    /** ctrNandRead. */
    method Read(sector: word, count: word, outbuf: array<word>)
      requires Readable(State(), sector, count) && 0x80 * count <= outbuf.Length && engine.chain < TWO128
      modifies outbuf, engine
      ensures outbuf[..] == ReadSpec(engine.cipher, State(), sector, count) + old(outbuf[0x80 * count..])
      ensures engine.chain < TWO128
    {
      hide OneShot, Crypt, Value, Base, FirstBlock, NandSector, SdSector, ReadSpec;
      ghost var c, base := engine.cipher, Base(State(), sector);
      var tmpCtr := StartCtr(sector);
      if location == SYSNAND {
        Fetch(nand, NandSector(State(), sector), count, outbuf);
      } else {
        Fetch(sd, SdSector(State(), sector), count, outbuf);
      }
      ghost var raw := outbuf[..];
      DecryptedIs(c, State(), sector, count, raw, old(outbuf[0x80 * count..]));
      assert count * 0x200 / 0x10 == 0x20 * count;
      engine.AesPass(outbuf, 0, 0, count * 0x200 / 0x10, tmpCtr, Ctr, DATA);
      PassIsCrypt(c, base, raw, 0x20 * count);
    }

    /** One round of ctrNandWrite: up to 32 sectors through the buffer. */
    method WritePiece(sec: word, count: word, inbuf: array<word>, at: nat, buffer: array<word>, tmpCtr: array<word>,
                      ghost base: nat)
      requires count <= 0x20 && at + 0x80 * count <= inbuf.Length && buffer.Length == 0x1000 && tmpCtr.Length == 4
      requires tmpCtr != buffer && tmpCtr != inbuf && buffer != inbuf && engine.chain < TWO128
      requires Value(tmpCtr[..], DATA) == base % TWO128 && 0x80 * (sec + count) <= |nand|
      modifies this`nand, engine, buffer, tmpCtr
      ensures nand == old(nand)[..0x80 * sec] + Crypt(engine.cipher, base, inbuf[at..at + 0x80 * count])
                      + old(nand)[0x80 * (sec + count)..]
      ensures Value(tmpCtr[..], DATA) == (base + 0x20 * count) % TWO128 && engine.chain < TWO128
    {
      hide OneShot, Crypt, Value, ChainAt;
      CopyIn(inbuf, at, 0x80 * count, buffer);
      ghost var raw := buffer[..];
      assert count * 0x200 / 0x10 == 0x20 * count;
      engine.AesPass(buffer, 0, 0, count * 0x200 / 0x10, tmpCtr, Ctr, DATA);
      CtrChain(engine.cipher, base % TWO128, raw, 0, 0x20 * count);
      AddUp(base, 0x20 * count);
      PassIsCrypt(engine.cipher, base, raw, 0x20 * count);
      assert raw[..0x80 * count] == inbuf[at..at + 0x80 * count];
      Store(sec, count, buffer);
    }

    /** ctrNandWrite. */
    method Write(sector: word, count: word, inbuf: array<word>)
      requires OnNand(State(), sector, count) && 0x80 * count <= inbuf.Length && engine.chain < TWO128
      modifies this`nand, engine
      ensures State() == WriteSpec(engine.cipher, old(State()), sector, count, inbuf[..0x80 * count])
      ensures engine.chain < TWO128
    {
      hide Crypt, Value, FirstBlock, Patched, NandSector, Base, WriteSpec, OnNand;
      ghost var c, d, data, base := engine.cipher, State(), inbuf[..0x80 * count], Base(State(), sector);
      ghost var sec := NandSector(d, sector);
      var buffer := new word[0x1000];
      var tmpCtr := StartCtr(sector);
      var tempSector := 0;
      Fits(d, sector, count);
      NothingWritten(c, base, d.nand, sec);
      assert data[..0] == [];
      while tempSector < count
        invariant 0 <= tempSector <= count && engine.chain < TWO128 && fresh(buffer) && fresh(tmpCtr)
        invariant nand == Patched(c, base, d.nand, sec, data[..0x80 * tempSector])
        invariant Value(tmpCtr[..], DATA) == (base + 0x20 * tempSector) % TWO128
      {
        var tempCount := if 0x20 < count - tempSector then 0x20 else count - tempSector;
        PatchOn(c, base, d.nand, sec, data, tempSector, tempCount);
        SectorOn(d, sector, count, tempSector);
        SliceOfPrefix(inbuf[..], 0x80 * count, 0x80 * tempSector, 0x80 * tempCount);
        WritePiece((tempSector + sector + fatStart) % TWO32, tempCount, inbuf, 0x80 * tempSector, buffer, tmpCtr,
                   base + 0x20 * tempSector);
        tempSector := tempSector + tempCount;
      }
      assert data[..0x80 * count] == data && State() == d.(nand := nand);
      PatchedIsWritten(c, d, sector, count, data);
    }

    /** sdmmc_nand_writesectors, on a device that does not fail. */
    method Store(sec: word, count: word, buffer: array<word>)
      requires 0x80 * count <= buffer.Length && 0x80 * (sec + count) <= |nand|
      modifies this`nand
      ensures nand == old(nand)[..0x80 * sec] + buffer[..0x80 * count] + old(nand)[0x80 * (sec + count)..]
    {
      nand := nand[..0x80 * sec] + buffer[..0x80 * count] + nand[0x80 * (sec + count)..];
    }
  }

  /** Reading sectors from a device that does not fail. */
  method Fetch(dev: seq<word>, sec: word, count: word, outbuf: array<word>)
    requires 0x80 * count <= outbuf.Length && 0x80 * (sec + count) <= |dev|
    modifies outbuf
    ensures outbuf[..] == dev[0x80 * sec..0x80 * (sec + count)] + old(outbuf[0x80 * count..])
  {
    var i := 0;
    while i < 0x80 * count
      invariant 0 <= i <= 0x80 * count
      invariant forall k | 0 <= k < outbuf.Length :: outbuf[k] == if k < i then dev[0x80 * sec + k] else old(outbuf[k])
    {
      outbuf[i] := dev[0x80 * sec + i];
      i := i + 1;
    }
  }

  method CopyIn(inbuf: array<word>, at: nat, n: nat, buffer: array<word>)
    requires inbuf != buffer && at + n <= inbuf.Length && n <= buffer.Length
    modifies buffer
    ensures buffer[..n] == inbuf[at..at + n]
  {
    var i := 0;
    while i < n
      invariant 0 <= i <= n
      invariant forall k | 0 <= k < i :: buffer[k] == inbuf[at + k]
    {
      buffer[i] := inbuf[at + i];
      i := i + 1;
    }
  }

  /** The NAND with the encrypted data put at sector s. */
  function Patched(c: Cipher, base: nat, nand: seq<word>, s: nat, data: seq<word>): (r: seq<word>)
    requires 0x80 * s + |data| <= |nand|
    ensures |r| == |nand|
  {
    nand[..0x80 * s] + Crypt(c, base, data) + nand[0x80 * s + |data|..]
  }

  lemma NothingWritten(c: Cipher, base: nat, nand: seq<word>, s: nat)
    requires 0x80 * s <= |nand|
    ensures Patched(c, base, nand, s, []) == nand
  {
  }

  lemma PatchedIsWritten(c: Cipher, d: Dev, sector: word, count: word, data: seq<word>)
    requires |data| == 0x80 * count && OnNand(d, sector, count)
    ensures WriteSpec(c, d, sector, count, data) ==
      d.(nand := Patched(c, Base(d, sector), d.nand, NandSector(d, sector), data))
  {
    hide FirstBlock, NandSector;
  }

  lemma Fits(d: Dev, sector: word, count: word)
    requires OnNand(d, sector, count)
    ensures 0x80 * (NandSector(d, sector) + count) <= |d.nand| && count < WINDOW
  {
  }

  /** Sector numbers do not wrap around in the middle of a transfer on the device. */
  lemma SectorOn(d: Dev, sector: word, count: word, t: nat)
    requires OnNand(d, sector, count) && t < count
    ensures (t + sector + d.fatStart) % TWO32 == NandSector(d, sector) + t
  {
    var x := sector + d.fatStart;
    assert x == TWO32 * (x / TWO32) + x % TWO32;
  }

  lemma PatchOn(c: Cipher, base: nat, nand: seq<word>, s: nat, data: seq<word>, t: nat, k: nat)
    requires 0x80 * (t + k) <= |data| && 0x80 * s + |data| <= |nand|
    ensures var now, piece := Patched(c, base, nand, s, data[..0x80 * t]), data[0x80 * t..0x80 * (t + k)];
      now[..0x80 * (s + t)] + Crypt(c, base + 0x20 * t, piece) + now[0x80 * (s + t + k)..]
      == Patched(c, base, nand, s, data[..0x80 * (t + k)])
  {
    hide Crypt, Patched;
    var done, piece := data[..0x80 * t], data[0x80 * t..0x80 * (t + k)];
    Quarter(|done|, 0x20 * t);
    CryptSplit(c, base, done, piece);
    Join(data, 0x80 * t, 0x80 * (t + k));
    Shift(nand, s, t, k, Crypt(c, base, done), Crypt(c, base + 0x20 * t, piece));
    PatchedIs(c, base, nand, s, done, t);
    PatchedIs(c, base, nand, s, done + piece, t + k);
  }

  lemma PatchedIs(c: Cipher, base: nat, nand: seq<word>, s: nat, data: seq<word>, k: nat)
    requires 0x80 * s + |data| <= |nand| && |data| == 0x80 * k
    ensures Patched(c, base, nand, s, data) == nand[..0x80 * s] + Crypt(c, base, data) + nand[0x80 * (s + k)..]
  {
  }

  lemma Quarter(x: nat, q: nat)
    requires x == 4 * q
    ensures x % 4 == 0 && x / 4 == q
  {
  }

  lemma SliceOfPrefix(s: seq<word>, n: nat, a: nat, k: nat)
    requires a + k <= n <= |s|
    ensures s[a..a + k] == s[..n][a..a + k]
  {
  }

  lemma Join(s: seq<word>, a: nat, b: nat)
    requires a <= b <= |s|
    ensures s[..a] + s[a..b] == s[..b]
  {
  }

  lemma Shift(nand: seq<word>, s: nat, t: nat, k: nat, a: seq<word>, b: seq<word>)
    requires 0x80 * (s + t + k) <= |nand| && |a| == 0x80 * t && |b| == 0x80 * k
    ensures var now := nand[..0x80 * s] + a + nand[0x80 * (s + t)..];
      now[..0x80 * (s + t)] + b + now[0x80 * (s + t + k)..] == nand[..0x80 * s] + (a + b) + nand[0x80 * (s + t + k)..]
  {
    var now := nand[..0x80 * s] + a + nand[0x80 * (s + t)..];
    assert now[..0x80 * (s + t)] == nand[..0x80 * s] + a;
    assert now[0x80 * (s + t + k)..] == nand[0x80 * (s + t + k)..];
  }

  // ---------- the partition as a plain array ----------

  /** The NAND decrypted as one piece: what it holds for whoever goes by absolute positions. */
  function Plain(c: Cipher, d: Dev): seq<word> { Crypt(c, d.ctr, d.nand) }

  lemma CryptSlice(c: Cipher, base: nat, ws: seq<word>, s: nat, n: nat)
    requires 0x80 * (s + n) <= |ws|
    ensures Crypt(c, base + 0x20 * s, ws[0x80 * s..0x80 * (s + n)]) == Crypt(c, base, ws)[0x80 * s..0x80 * (s + n)]
  {
    hide Xor, KeyWord;
    var l, r := Crypt(c, base + 0x20 * s, ws[0x80 * s..0x80 * (s + n)]), Crypt(c, base, ws)[0x80 * s..0x80 * (s + n)];
    forall i | 0 <= i < |l|
      ensures l[i] == r[i]
    {
      KeyOn(c, base, 0x20 * s, i);
    }
  }

  /** Reading sectors whose byte offset fits 32 bits gives that part of the plain array. */
  lemma ReadsPlain(c: Cipher, d: Dev, sector: word, count: word)
    requires d.location == SYSNAND && OnNand(d, sector, count) && NandSector(d, sector) < WINDOW
    ensures var s := (sector + d.fatStart) % 0x1_0000_0000;
      ReadSpec(c, d, sector, count) == Plain(c, d)[0x80 * s..0x80 * (s + count)]
  {
    hide Crypt;
    assert FirstBlock(NandSector(d, sector)) == 0x20 * NandSector(d, sector);
    CryptSlice(c, d.ctr, d.nand, NandSector(d, sector), count);
  }

  /**
   The emulated NAND is the image of a NAND that begins emuOffset sectors into the SD card, encrypted as on the NAND:
   reading gives the same part of the plain array of that image.
   */
  lemma EmuReadsPlain(c: Cipher, d: Dev, sector: word, count: word)
    requires d.location == EMUNAND && Readable(d, sector, count)
    requires sector + d.fatStart + d.emuOffset < TWO32 && sector + d.fatStart < WINDOW
    ensures var s, at := sector + d.fatStart, d.emuOffset;
      && 0x80 * (at + s + count) <= |d.sd|
      && ReadSpec(c, d, sector, count) == Crypt(c, d.ctr, d.sd[0x80 * at..])[0x80 * s..0x80 * (s + count)]
  {
    hide Crypt;
    var s, at := sector + d.fatStart, d.emuOffset;
    assert NandSector(d, sector) == s && SdSector(d, sector) == at + s && FirstBlock(s) == 0x20 * s;
    var image := d.sd[0x80 * at..];
    assert image[0x80 * s..0x80 * (s + count)] == d.sd[0x80 * (at + s)..0x80 * (at + s + count)];
    CryptSlice(c, d.ctr, image, s, count);
  }

  lemma CryptPatch(c: Cipher, base: nat, ws: seq<word>, s: nat, data: seq<word>)
    requires 0x80 * s + |data| <= |ws|
    ensures Crypt(c, base, ws[..0x80 * s] + Crypt(c, base + 0x20 * s, data) + ws[0x80 * s + |data|..]) ==
      Crypt(c, base, ws)[..0x80 * s] + data + Crypt(c, base, ws)[0x80 * s + |data|..]
  {
    hide Xor, KeyWord;
    var enc := Crypt(c, base + 0x20 * s, data);
    var l := Crypt(c, base, ws[..0x80 * s] + enc + ws[0x80 * s + |data|..]);
    var r := Crypt(c, base, ws)[..0x80 * s] + data + Crypt(c, base, ws)[0x80 * s + |data|..];
    forall i | 0 <= i < |l|
      ensures l[i] == r[i]
    {
      if 0x80 * s <= i < 0x80 * s + |data| {
        var k := i - 0x80 * s;
        KeyOn(c, base, 0x20 * s, k);
        XorTwice(data[k], KeyWord(c, base + 0x20 * s, k));
      }
    }
  }

  /** Writing sectors whose byte offset fits 32 bits puts the data into the plain array and changes nothing else. */
  lemma WritesPlain(c: Cipher, d: Dev, sector: word, count: word, data: seq<word>)
    requires |data| == 0x80 * count && OnNand(d, sector, count)
    requires NandSector(d, sector) < WINDOW
    ensures var s := (sector + d.fatStart) % 0x1_0000_0000;
      Plain(c, WriteSpec(c, d, sector, count, data)) ==
      Plain(c, d)[..0x80 * s] + data + Plain(c, d)[0x80 * s + |data|..]
  {
    hide Crypt;
    assert FirstBlock(NandSector(d, sector)) == 0x20 * NandSector(d, sector);
    CryptPatch(c, d.ctr, d.nand, NandSector(d, sector), data);
  }

  /** The counter with which a transfer from sector s goes over absolute block b. */
  function CounterAt(ctr: nat, s: word, b: nat): nat
    requires 0x20 * s <= b
  {
    (ctr + FirstBlock(s) + (b - 0x20 * s)) % TWO128
  }

  /** Two transfers go over a block with the same counter exactly when they start in the same 4 GiB of the device. */
  lemma SameCounter(ctr: nat, s: word, t: word, b: nat)
    requires 0x20 * s <= b && 0x20 * t <= b
    ensures CounterAt(ctr, s, b) == CounterAt(ctr, t, b) <==> s / WINDOW == t / WINDOW
  {
    FirstBlockIs(s);
    FirstBlockIs(t);
    var x, y := ctr + FirstBlock(s) + (b - 0x20 * s), ctr + FirstBlock(t) + (b - 0x20 * t);
    var k := s / WINDOW - t / WINDOW;
    assert y - x == 0x20 * WINDOW * k;
    assert -0x200 < k < 0x200;
    if k == 0 {
    } else if k > 0 {
      Apart(x, y);
    } else {
      Apart(y, x);
    }
  }

  lemma FirstBlockIs(s: word)
    ensures FirstBlock(s) == 0x20 * s - 0x20 * WINDOW * (s / WINDOW) && s / WINDOW < 0x200
  {
    var q, r := s / WINDOW, s % WINDOW;
    assert s * 0x200 == TWO32 * q + r * 0x200;
    assert r * 0x200 < TWO32;
    assert s * 0x200 % TWO32 == r * 0x200;
  }

  /** Different numbers less than 2^128 apart have different remainders. */
  lemma Apart(x: nat, y: nat)
    requires x < y < x + TWO128
    ensures x % TWO128 != y % TWO128
  {
    var a, b := x / TWO128, y / TWO128;
    assert x == TWO128 * a + x % TWO128 && y == TWO128 * b + y % TWO128;
    assert b - a >= 1 ==> TWO128 * (b - a) >= TWO128;
  }

  /** Writing changes nothing but the contents of the NAND. */
  lemma WriteKeeps(c: Cipher, d: Dev, sector: word, data: seq<word>, n: word)
    requires |data| == 0x80 * n && OnNand(d, sector, n)
    ensures var e := WriteSpec(c, d, sector, n, data);
      && e == d.(nand := e.nand) && (Readable(d, sector, n) ==> Readable(e, sector, n))
      && (d.location == EMUNAND && Readable(d, sector, n) ==> ReadSpec(c, e, sector, n) == ReadSpec(c, d, sector, n))
  {
    hide Crypt, FirstBlock;
  }

  lemma ReadLength(c: Cipher, d: Dev, sector: word, n: word)
    requires Readable(d, sector, n)
    ensures |ReadSpec(c, d, sector, n)| == 0x80 * n
  {
  }

  /** What is written is read back by the same call, on the NAND itself. */
  lemma ReadAfterWrite(c: Cipher, d: Dev, sector: word, count: word, data: seq<word>)
    requires |data| == 0x80 * count && OnNand(d, sector, count) && d.location == SYSNAND
    ensures ReadSpec(c, WriteSpec(c, d, sector, count, data), sector, count) == data
  {
    hide Crypt;
    var s := NandSector(d, sector);
    assert WriteSpec(c, d, sector, count, data).nand[0x80 * s..0x80 * s + |data|] == Crypt(c, Base(d, sector), data);
    CryptTwice(c, Base(d, sector), data);
  }

  /** Reading gives the data that was just written to the same sectors. */
  predicate ReadsBack(c: Cipher, d: Dev, sector: word, n: word, data: seq<word>)
    requires n >= 1 && OnNand(d, sector, n) && |data| == 0x80 * n
  {
    var e := WriteSpec(c, d, sector, n, data);
    Readable(e, sector, n) && ReadSpec(c, e, sector, n) == data
  }

  /**
   Reading back what was written works for all data exactly when the partition is on the NAND itself: in the
   emulated case reads go to the SD card and writes still go to the NAND.
   */
  lemma ReadsBackIffSysNand(c: Cipher, d: Dev, sector: word, n: word)
    requires n >= 1 && Readable(d, sector, n) && OnNand(d, sector, n)
    ensures d.location == SYSNAND <==>
      forall data: seq<word> | |data| == 0x80 * n :: ReadsBack(c, d, sector, n, data)
  {
    hide Crypt, NandSector, SdSector, ReadSpec, WriteSpec, Readable;
    if d.location == SYSNAND {
      forall data: seq<word> | |data| == 0x80 * n
        ensures ReadsBack(c, d, sector, n, data)
      {
        WriteKeeps(c, d, sector, data, n);
        ReadAfterWrite(c, d, sector, n, data);
      }
    } else {
      var seen := ReadSpec(c, d, sector, n);
      ReadLength(c, d, sector, n);
      var data := seen[0 := if seen[0] == 0 then 1 else 0];
      WriteKeeps(c, d, sector, data, n);
      assert !ReadsBack(c, d, sector, n, data) by {
        assert data[0] != seen[0];
      }
    }
  }

  // ---------- inputs that show the failures ----------

  /**
   With the emulated NAND, a sector of zeros is written, and the ones
   that are on the SD card are read; for any cipher.
   */
  lemma EmuNandReadsOther(c: Cipher)
    ensures var zeros: seq<word>, ones: seq<word> := seq(0x80, _ => 0), seq(0x80, _ => 1);
      var d := Dev(zeros, Crypt(c, 0, ones), 0, 0, 0, EMUNAND);
      && OnNand(d, 0, 1) && Readable(d, 0, 1) && !ReadsBack(c, d, 0, 1, zeros)
      && ReadSpec(c, WriteSpec(c, d, 0, 1, zeros), 0, 1) == ones
  {
    hide Crypt;
    var zeros: seq<word>, ones: seq<word> := seq(0x80, _ => 0), seq(0x80, _ => 1);
    var stored := Crypt(c, 0, ones);
    var d := Dev(zeros, stored, 0, 0, 0, EMUNAND);
    WriteKeeps(c, d, 0, zeros, 1);
    CryptTwice(c, 0, ones);
    assert stored[0..0x80] == stored && zeros[0] != ones[0];
  }

  /**
   The first block behind 4 GiB has one counter in a transfer that starts
   before, and another in one that starts there.
   */
  lemma CounterWraps(ctr: nat)
    ensures CounterAt(ctr, WINDOW - 1, 0x20 * WINDOW) != CounterAt(ctr, WINDOW, 0x20 * WINDOW)
  {
    SameCounter(ctr, WINDOW - 1, WINDOW, 0x20 * WINDOW);
  }
}
