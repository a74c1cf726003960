/** The table-driven checksums, and the bit-by-bit definition they compute. */
module Crc {
  import opened FatLayout
  import opened Bitwise

  const POLY16: word := 0xA001
  const POLY32: word := 0xEDB8_8320

  // ---------- the definition ----------

  /** One bit of the reflected checksum. */
  function Bit(poly: word, r: word): word { Xor(r / 2, if r % 2 == 1 then poly else 0) }

  function Bits(poly: word, r: word, n: nat): word
    decreases n
  {
    if n == 0 then r else Bits(poly, Bit(poly, r), n - 1)
  }

  /** The register after all bits of the data, least significant bit of each byte first. */
  function Register(poly: word, data: seq<byte>, init: word): word {
    if data == [] then init
    else Bits(poly, Xor(Register(poly, data[..|data| - 1], init), data[|data| - 1]), 8)
  }

  // ---------- linearity ----------

  lemma BitXor(poly: word, x: word, y: word)
    ensures Bit(poly, Xor(x, y)) == Xor(Bit(poly, x), Bit(poly, y))
  {
    hide Xor;
    XorHalf(x, y);
    XorZero(poly);
    XorZero(0);
    XorRegroup(x / 2, if x % 2 == 1 then poly else 0, y / 2, if y % 2 == 1 then poly else 0);
  }

  /** The checksum is linear: the bits of a sum are the sum of the bits. */
  lemma {:induction false} BitsXor(poly: word, x: word, y: word, n: nat)
    ensures Bits(poly, Xor(x, y), n) == Xor(Bits(poly, x, n), Bits(poly, y, n))
    decreases n
  {
    hide Xor, Bit;
    if n > 0 {
      BitXor(poly, x, y);
      BitsXor(poly, Bit(poly, x), Bit(poly, y), n - 1);
    }
  }

  /** n bits at once: the higher bits are shifted down, and the lower ones act through their own n steps. */
  lemma {:induction false} BitsAtOnce(poly: word, z: word, n: nat)
    ensures z / Pow2(n) < 0x1_0000_0000 && z % Pow2(n) < 0x1_0000_0000
    ensures Bits(poly, z, n) == Xor(z / Pow2(n), Bits(poly, z % Pow2(n), n))
    decreases n
  {
    hide Xor;
    if n == 0 {
      XorZero(z);
    } else {
      var p := Pow2(n - 1);
      DivTwice(z, p);
      DivBound(z, p);
      DivBound(z / 2, p);
      DivBound(z, 2 * p);
      var t := if z % 2 == 1 then poly else 0;
      BitsXor(poly, z / 2, t, n - 1);
      BitsAtOnce(poly, z / 2, n - 1);
      BitsXor(poly, z / 2 % p, t, n - 1);
      XorAssoc(z / 2 / p, Bits(poly, z / 2 % p, n - 1), Bits(poly, t, n - 1));
      BitsOnce(poly, z, n);
      BitsOnce(poly, z % (2 * p), n);
    }
  }

  lemma BitsOnce(poly: word, r: word, n: nat)
    requires n > 0
    ensures Bits(poly, r, n) == Bits(poly, Xor(r / 2, if r % 2 == 1 then poly else 0), n - 1)
  {
    hide Xor;
  }

  lemma DivBound(z: word, p: nat)
    requires p > 0
    ensures 0 <= z / p <= z && 0 <= z % p <= z
  {
    if z < p {
      DivUnique(z, p, 0, z);
    } else {
      assert z == p * (z / p) + z % p;
      assert z / p >= 0;
      Multiple(z / p, p - 1);
      assert p * (z / p) == z / p + (p - 1) * (z / p);
      assert (p - 1) * (z / p) >= 0;
    }
  }

  /** What the table is for: the eight bits of a byte at once. */
  lemma TableStep(poly: word, r: word, b: byte)
    ensures Bits(poly, Xor(r, b), 8) == Xor(r / 0x100, Bits(poly, Xor(r, b) % 0x100, 8))
  {
    hide Xor, Bits;
    Pow32();
    BitsAtOnce(poly, Xor(r, b), 8);
    XorTop(r, b, 8);
  }

  // ---------- the table ----------

  /** The table holds the eight-bit step of every byte. */
  ghost predicate IsTable(poly: word, lut: seq<word>) {
    |lut| == 256 && forall i: nat | i < 256 :: lut[i] == Bits(poly, i, 8)
  }

  /** The loops that fill the table. */
  method MakeTable(poly: word, lut: array<word>)
    requires lut.Length == 256
    modifies lut
    ensures IsTable(poly, lut[..])
  {
    hide Bit, Xor;
    var i := 0;
    while i < 256
      invariant 0 <= i <= 256
      invariant forall k: nat | k < i :: lut[k] == Bits(poly, k, 8)
    {
      var r: word, j := i, 0;
      while j < 8
        invariant 0 <= j <= 8 && Bits(poly, r, 8 - j) == Bits(poly, i, 8)
      {
        r := Bit(poly, r);
        j := j + 1;
      }
      lut[i] := r;
      i := i + 1;
    }
  }

  /** A checksum function with its table, which is made at the first call. */
  class Checksum {
    const poly: word
    const lut: array<word>
    var ready: bool

    constructor (poly: word)
      ensures this.poly == poly && Valid() && fresh(lut)
    {
      this.poly := poly;
      lut := new word[256](_ => 0);
      ready := false;
    }

    ghost predicate Valid()
      reads this, lut
    {
      lut.Length == 256 && (ready ==> IsTable(poly, lut[..]))
    }

    /** crc16: table, initial value and register have 16 bits, which no step leaves. */
    method Crc16(data: seq<byte>, init: half) returns (r: half)
      requires Valid() && poly == POLY16
      modifies this`ready, lut
      ensures Valid() && r == Register(POLY16, data, init)
    {
      hide Bits, Xor;
      if !ready {
        MakeTable(poly, lut);
        ready := true;
      }
      r := init;
      var i := 0;
      while i < |data|
        invariant 0 <= i <= |data| && Valid() && ready && r == Register(POLY16, data[..i], init)
      {
        TableStep(poly, r, data[i]);
        Stays16(data[..i + 1], init);
        var c: nat := Xor(r, data[i]) % 0x100;
        assert lut[c] == lut[..][c];
        assert data[..i + 1][..i] == data[..i];
        r := Xor(r / 0x100, lut[c]);
        i := i + 1;
      }
      assert data[..i] == data;
    }

    /** crc32 up to its last line. */
    method Run(data: seq<byte>, init: word) returns (r: word)
      requires Valid()
      modifies this`ready, lut
      ensures Valid() && r == Register(poly, data, init)
    {
      hide Bits, Xor;
      if !ready {
        MakeTable(poly, lut);
        ready := true;
      }
      r := init;
      var i := 0;
      while i < |data|
        invariant 0 <= i <= |data| && Valid() && ready && r == Register(poly, data[..i], init)
      {
        TableStep(poly, r, data[i]);
        var c: nat := Xor(r, data[i]) % 0x100;
        assert lut[c] == lut[..][c];
        r := Xor(r / 0x100, lut[c]);
        assert data[..i + 1][..i] == data[..i];
        i := i + 1;
      }
      assert data[..i] == data;
    }

    /** crc32: the register with all bits changed at the end. */
    method Crc32(data: seq<byte>, init: word) returns (r: word)
      requires Valid() && poly == POLY32
      modifies this`ready, lut
      ensures Valid() && r == 0xFFFF_FFFF - Register(POLY32, data, init)
    {
      hide Register;
      r := Run(data, init);
      r := 0xFFFF_FFFF - r;
    }
  }

  // ---------- properties ----------

  lemma {:induction false} Bits16(r: word, n: nat)
    requires r < 0x1_0000
    ensures Bits(POLY16, r, n) < 0x1_0000
    decreases n
  {
    hide Xor;
    if n > 0 {
      Pow32();
      XorBelow(r / 2, POLY16, 16);
      XorBelow(r / 2, 0, 16);
      Bits16(Bit(POLY16, r), n - 1);
    }
  }

  /** With the 16-bit polynomial the register never gets more than 16 bits. */
  lemma {:induction false} Stays16(data: seq<byte>, init: word)
    requires init < 0x1_0000
    ensures Register(POLY16, data, init) < 0x1_0000
  {
    hide Xor, Bits;
    if data != [] {
      var r, b := Register(POLY16, data[..|data| - 1], init), data[|data| - 1];
      Stays16(data[..|data| - 1], init);
      Pow32();
      XorBelow(r, b, 16);
      Bits16(Xor(r, b), 8);
    }
  }

  /** A checksum can be taken in parts: the register after the first is where the second begins. */
  lemma {:induction false} InParts(poly: word, a: seq<byte>, b: seq<byte>, init: word)
    ensures Register(poly, a + b, init) == Register(poly, b, Register(poly, a, init))
    decreases |b|
  {
    hide Bits, Xor;
    if b == [] {
      assert a + b == a;
    } else {
      InParts(poly, a, b[..|b| - 1], init);
      assert (a + b)[..|a + b| - 1] == a + b[..|b| - 1];
    }
  }

  // ---------- known checksums ----------

  /** One more byte. */
  lemma NextByte(poly: word, data: seq<byte>, b: byte, init: word)
    ensures Register(poly, data + [b], init) == Bits(poly, Xor(Register(poly, data, init), b), 8)
  {
    hide Bits, Xor;
    assert (data + [b])[..|data|] == data;
  }

  lemma EvenShifts(poly: word, r: word, n: nat)
    requires n > 0 && r % 2 == 0
    ensures Bits(poly, r, n) == Bits(poly, r / 2, n - 1)
  {
    hide Xor;
    XorZero(r / 2);
  }

  lemma LastBit(poly: word)
    ensures Bits(poly, 0x80, 8) == poly
  {
    hide Bits, Xor;
    EvenShifts(poly, 0x80, 8);
    EvenShifts(poly, 0x40, 7);
    EvenShifts(poly, 0x20, 6);
    EvenShifts(poly, 0x10, 5);
    EvenShifts(poly, 8, 4);
    EvenShifts(poly, 4, 3);
    EvenShifts(poly, 2, 2);
    BitsOnce(poly, 1, 1);
    XorZero(poly);
    NoBits(poly, poly);
  }

  lemma NoBits(poly: word, r: word)
    ensures Bits(poly, r, 0) == r
  {
  }

  /** From 0 the byte 0x80, whose only bit comes last, gives the polynomial. */
  lemma Polynomials()
    ensures Register(POLY16, [0x80], 0) == 0xA001 && Register(POLY32, [0x80], 0) == 0xEDB8_8320
  {
    hide Xor, Bits;
    XorZero(0x80);
    NextByte(POLY16, [], 0x80, 0);
    NextByte(POLY32, [], 0x80, 0);
    LastBit(POLY16);
    LastBit(POLY32);
    assert [] + [0x80 as byte] == [0x80];
  }

  /** Eight steps shift a register with a low byte of 0 down. */
  lemma {:induction false} ZerosShift(poly: word, r: word, n: nat)
    requires r % Pow2(n) == 0
    ensures Bits(poly, r, n) == r / Pow2(n)
    decreases n
  {
    hide Xor, Bits;
    BitsAtOnce(poly, r, n);
    ZeroStays(poly, n);
    XorZero(r / Pow2(n));
  }

  lemma {:induction false} ZeroStays(poly: word, n: nat)
    ensures Bits(poly, 0, n) == 0
    decreases n
  {
    hide Xor, Bits;
    if n > 0 {
      EvenShifts(poly, 0, n);
      ZeroStays(poly, n - 1);
    } else {
      NoBits(poly, 0);
    }
  }

  /** The lowest byte of a register brings the rest down. */
  lemma OwnByte(poly: word, data: seq<byte>, init: word, r: word)
    requires Register(poly, data, init) == r
    ensures Register(poly, data + [r % 0x100], init) == r / 0x100
  {
    hide Xor, Bits, Register;
    NextByte(poly, data, r % 0x100, init);
    Pow32();
    XorOwnLow(r, 8);
    XorTop(r, r % 0x100, 8);
    ZerosShift(poly, Xor(r, r % 0x100), 8);
  }

  /** The n lowest bytes of a register, lowest first. */
  function LowBytes(r: word, n: nat): seq<byte> {
    if n == 0 then [] else [r % 0x100] + LowBytes(r / 0x100, n - 1)
  }

  /** The register shifted down by n bytes. */
  function Shifted(r: word, n: nat): word { if n == 0 then r else Shifted(r / 0x100, n - 1) }

  /** n bytes of the register bring the rest down by n bytes. */
  lemma {:induction false} OwnBytes(poly: word, data: seq<byte>, init: word, n: nat)
    ensures var r := Register(poly, data, init);
      Register(poly, data + LowBytes(r, n), init) == Shifted(r, n)
    decreases n
  {
    hide Register;
    var r := Register(poly, data, init);
    if n == 0 {
      assert data + LowBytes(r, n) == data;
    } else {
      OwnByte(poly, data, init, r);
      OwnBytes(poly, data + [r % 0x100], init, n - 1);
      assert data + [r % 0x100] + LowBytes(r / 0x100, n - 1) == data + LowBytes(r, n);
    }
  }

  lemma NothingLeft(r: word)
    ensures Shifted(r, 4) == 0 && (r < 0x1_0000 ==> Shifted(r, 2) == 0)
  {
    var a := r / 0x100;
    var b := a / 0x100;
    var c := b / 0x100;
    assert Shifted(c, 1) == 0 && Shifted(b, 2) == Shifted(c, 1) && Shifted(a, 3) == Shifted(b, 2);
  }

  /**
   Data followed by its own checksum, lowest byte first, leaves the register at 0: so the receiver of a message and
   its checksum tells that neither has been changed.  For 16 bits two bytes do, for 32 bits four.
   */
  lemma OwnChecksum(data: seq<byte>, init16: half, init32: word)
    ensures Register(POLY16, data + LowBytes(Register(POLY16, data, init16), 2), init16) == 0
    ensures Register(POLY32, data + LowBytes(Register(POLY32, data, init32), 4), init32) == 0
  {
    hide Register, LowBytes;
    Stays16(data, init16);
    OwnBytes(POLY16, data, init16, 2);
    OwnBytes(POLY32, data, init32, 4);
    NothingLeft(Register(POLY16, data, init16));
    NothingLeft(Register(POLY32, data, init32));
  }
}
