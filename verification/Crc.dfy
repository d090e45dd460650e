/** CRC-8/CCITT as both ends of the wire compute it. */
module Crc {
  import opened Bytes

  const POLY: byte := 0x07
  const INIT: byte := 0x00

  /** One bit: shift, and fold the polynomial back in when a one falls off. */
  function Bit1(c: byte): byte {
    if c & 0x80 != 0 then (c << 1) ^ POLY else c << 1
  }

  function Bits(c: byte, n: nat): byte {
    if n == 0 then c else Bit1(Bits(c, n - 1))
  }

  /** One octet: eight bit steps of the register with the octet folded in. */
  function Octet1(c: byte, d: byte): byte {
    Bits(Mix(c, d), 8)
  }

  function From(c: byte, data: seq<byte>): byte {
    if data == [] then c else Octet1(From(c, data[..|data| - 1]), data[|data| - 1])
  }

  function Crc8(data: seq<byte>): byte {
    From(INIT, data)
  }

  lemma BitInjective(a: byte, b: byte)
    requires Bit1(a) == Bit1(b)
    ensures a == b
  {
  }

  lemma {:induction false} BitsInjective(a: byte, b: byte, n: nat)
    requires Bits(a, n) == Bits(b, n)
    ensures a == b
  {
    hide Bit1;
    if n > 0 {
      BitInjective(Bits(a, n - 1), Bits(b, n - 1));
      BitsInjective(a, b, n - 1);
    }
  }

  lemma MixCancel(a: byte, b: byte, d: byte)
    ensures Mix(a, d) == Mix(b, d) ==> a == b
    ensures Mix(d, a) == Mix(d, b) ==> a == b
  {
  }

  lemma {:induction false} FromInjective(a: byte, b: byte, data: seq<byte>)
    requires From(a, data) == From(b, data)
    ensures a == b
  {
    hide Bits, Mix;
    if data != [] {
      var p, d := data[..|data| - 1], data[|data| - 1];
      BitsInjective(Mix(From(a, p), d), Mix(From(b, p), d), 8);
      MixCancel(From(a, p), From(b, p), d);
      FromInjective(a, b, p);
    }
  }

  lemma {:induction false} FromConcat(c: byte, a: seq<byte>, b: seq<byte>)
    ensures From(c, a + b) == From(From(c, a), b)
  {
    hide Octet1;
    if b == [] {
      assert a + b == a;
    } else {
      FromConcat(c, a, b[..|b| - 1]);
      assert (a + b)[..|a + b| - 1] == a + b[..|b| - 1];
    }
  }

  /** Changing any single byte of a message of any length changes its CRC. */
  lemma SingleByteDetected(data: seq<byte>, i: nat, b: byte)
    requires i < |data| && b != data[i]
    ensures Crc8(data[i := b]) != Crc8(data)
  {
    hide Bits, From, Mix;
    var p, q := data[..i], data[i + 1..];
    assert data == p + ([data[i]] + q) && data[i := b] == p + ([b] + q);
    FromConcat(INIT, p, [data[i]] + q);
    FromConcat(INIT, p, [b] + q);
    var c := From(INIT, p);
    FromConcat(c, [data[i]], q);
    FromConcat(c, [b], q);
    FromOne(c, data[i]);
    FromOne(c, b);
    if Crc8(data[i := b]) == Crc8(data) {
      FromInjective(Octet1(c, data[i]), Octet1(c, b), q);
      BitsInjective(Mix(c, data[i]), Mix(c, b), 8);
      MixCancel(data[i], b, c);
    }
  }

  /** The check value of this CRC: the digits 1 to 9 give 0xF4. */
  lemma CheckValue()
    ensures Crc8(Ascii("123456789")) == 0xF4
  {
    hide Ascii, From;
    var d: seq<byte> := [0x31, 0x32, 0x33, 0x34, 0x35, 0x36, 0x37, 0x38, 0x39];
    AsciiIs("123456789", d);
    FromNothing(INIT);
    assert d[..1] == [] + [0x31] && Octet1(0x00, 0x31) == 0x97 by { EightBits(0x00, 0x31); }
    FromSnoc([], 0x31);
    assert d[..2] == d[..1] + [0x32] && Octet1(0x97, 0x32) == 0x72 by { EightBits(0x97, 0x32); }
    FromSnoc(d[..1], 0x32);
    assert d[..3] == d[..2] + [0x33] && Octet1(0x72, 0x33) == 0xc0 by { EightBits(0x72, 0x33); }
    FromSnoc(d[..2], 0x33);
    assert d[..4] == d[..3] + [0x34] && Octet1(0xc0, 0x34) == 0xc2 by { EightBits(0xc0, 0x34); }
    FromSnoc(d[..3], 0x34);
    assert d[..5] == d[..4] + [0x35] && Octet1(0xc2, 0x35) == 0xcb by { EightBits(0xc2, 0x35); }
    FromSnoc(d[..4], 0x35);
    assert d[..6] == d[..5] + [0x36] && Octet1(0xcb, 0x36) == 0xfd by { EightBits(0xcb, 0x36); }
    FromSnoc(d[..5], 0x36);
    assert d[..7] == d[..6] + [0x37] && Octet1(0xfd, 0x37) == 0x78 by { EightBits(0xfd, 0x37); }
    FromSnoc(d[..6], 0x37);
    assert d[..8] == d[..7] + [0x38] && Octet1(0x78, 0x38) == 0xc7 by { EightBits(0x78, 0x38); }
    FromSnoc(d[..7], 0x38);
    assert d == d[..8] + [0x39] && Octet1(0xc7, 0x39) == 0xf4 by { EightBits(0xc7, 0x39); }
    FromSnoc(d[..8], 0x39);
  }

  lemma FromNothing(c: byte)
    ensures From(c, []) == c
  {
  }

  lemma FromSnoc(data: seq<byte>, d: byte)
    ensures From(INIT, data + [d]) == Octet1(From(INIT, data), d)
  {
    hide Octet1;
    assert (data + [d])[..|data + [d]| - 1] == data;
  }

  lemma EightBits(c: byte, d: byte)
    ensures Octet1(c, d) == Bit1(Bit1(Bit1(Bit1(Bit1(Bit1(Bit1(Bit1(Mix(c, d)))))))))
  {
    hide Bit1;
    var m := Mix(c, d);
    BitsStep(m, 0);
    BitsStep(m, 1);
    BitsStep(m, 2);
    BitsStep(m, 3);
    BitsStep(m, 4);
    BitsStep(m, 5);
    BitsStep(m, 6);
    BitsStep(m, 7);
  }

  lemma BitsStep(m: byte, n: nat)
    ensures Bits(m, 0) == m && Bits(m, n + 1) == Bit1(Bits(m, n))
  {
    hide Bit1;
  }

  // ---- parity ----

  function One(c: byte, mask: byte): nat { if c & mask == 0 then 0 else 1 }

  /** The number of one bits. */
  function Ones(c: byte): nat {
    One(c, 1) + One(c, 2) + One(c, 4) + One(c, 8) + One(c, 16) + One(c, 32) + One(c, 64) + One(c, 128)
  }

  /** The number of bits in which two messages of one length differ. */
  function Distance(a: seq<byte>, b: seq<byte>): nat
    requires |a| == |b|
  {
    if a == [] then 0
    else Distance(a[..|a| - 1], b[..|b| - 1]) + Ones(Mix(a[|a| - 1], b[|b| - 1]))
  }

  lemma OneOfMix(c: byte, d: byte)
    ensures One(c ^ d, 1) == One(c, 1) + One(d, 1) - 2 * One(c & d, 1)
    ensures One(c ^ d, 2) == One(c, 2) + One(d, 2) - 2 * One(c & d, 2)
    ensures One(c ^ d, 4) == One(c, 4) + One(d, 4) - 2 * One(c & d, 4)
    ensures One(c ^ d, 8) == One(c, 8) + One(d, 8) - 2 * One(c & d, 8)
    ensures One(c ^ d, 16) == One(c, 16) + One(d, 16) - 2 * One(c & d, 16)
    ensures One(c ^ d, 32) == One(c, 32) + One(d, 32) - 2 * One(c & d, 32)
    ensures One(c ^ d, 64) == One(c, 64) + One(d, 64) - 2 * One(c & d, 64)
    ensures One(c ^ d, 128) == One(c, 128) + One(d, 128) - 2 * One(c & d, 128)
  {
  }

  /** The ones of both, less those that cancel. */
  lemma OnesOfMix(c: byte, d: byte)
    ensures Ones(Mix(c, d)) == Ones(c) + Ones(d) - 2 * Ones(c & d)
  {
    hide One;
    OneOfMix(c, d);
  }

  lemma OnesOfShift(c: byte)
    ensures Ones(c << 1) == Ones(c) - One(c, 128)
  {
  }

  /** The polynomial has the factor x + 1: a bit step keeps the parity of the register. */
  lemma OnesOfBit(c: byte)
    ensures Ones(Bit1(c)) % 2 == Ones(c) % 2
  {
    hide Ones;
    OnesOfShift(c);
    OnesOfMix(c << 1, POLY);
    OnesOfPoly();
  }

  lemma OnesOfPoly()
    ensures Ones(POLY) == 3
  {
  }

  lemma {:induction false} OnesOfBits(c: byte, n: nat)
    ensures Ones(Bits(c, n)) % 2 == Ones(c) % 2
  {
    hide Bit1, Ones;
    if n > 0 {
      OnesOfBits(c, n - 1);
      OnesOfBit(Bits(c, n - 1));
    }
  }

  lemma OnesOfOctet(c: byte, d: byte)
    ensures Ones(Octet1(c, d)) % 2 == (Ones(c) + Ones(d)) % 2
  {
    hide Ones, Mix, Bits;
    OnesOfBits(Mix(c, d), 8);
    OnesOfMix(c, d);
  }

  /** The number of one bits in a message. */
  function OnesIn(data: seq<byte>): nat {
    if data == [] then 0 else OnesIn(data[..|data| - 1]) + Ones(data[|data| - 1])
  }

  /** The CRC has as many ones as the message, modulo 2. */
  lemma {:induction false} ParityCarried(data: seq<byte>)
    ensures Ones(Crc8(data)) % 2 == OnesIn(data) % 2
  {
    hide Octet1, Ones;
    if data == [] {
      OnesOfInit();
    } else {
      ParityCarried(data[..|data| - 1]);
      var c, d := Crc8(data[..|data| - 1]), data[|data| - 1];
      OnesOfOctet(c, d);
      SumParity(Ones(c), OnesIn(data[..|data| - 1]), Ones(d), Ones(d));
    }
  }

  lemma SumParity(a: int, b: int, c: int, d: int)
    requires a % 2 == b % 2 && c % 2 == d % 2
    ensures (a + c) % 2 == (b + d) % 2
  {
  }

  lemma OnesOfInit()
    ensures Ones(INIT) == 0
  {
  }

  /** The number of places where both messages have a one. */
  function Common(a: seq<byte>, b: seq<byte>): nat
    requires |a| == |b|
  {
    if a == [] then 0
    else Common(a[..|a| - 1], b[..|b| - 1]) + Ones(a[|a| - 1] & b[|b| - 1])
  }

  lemma {:induction false} DistanceIs(a: seq<byte>, b: seq<byte>)
    requires |a| == |b|
    ensures Distance(a, b) == OnesIn(a) + OnesIn(b) - 2 * Common(a, b)
  {
    hide Mix, Ones;
    if a != [] {
      DistanceIs(a[..|a| - 1], b[..|b| - 1]);
      OnesOfMix(a[|a| - 1], b[|b| - 1]);
    }
  }

  /** Changing any odd number of bits of a message, wherever they are, changes its CRC. */
  lemma OddChangeDetected(a: seq<byte>, b: seq<byte>)
    requires |a| == |b| && Distance(a, b) % 2 == 1
    ensures Crc8(a) != Crc8(b)
  {
    hide Crc8, Distance, Ones, OnesIn, Common;
    DistanceIs(a, b);
    ParityCarried(a);
    ParityCarried(b);
  }

  lemma FromOne(c: byte, d: byte)
    ensures From(c, [d]) == Octet1(c, d)
  {
    hide Octet1;
    assert [d][..0] == [];
  }

  /** swarm_crc8. */
  method SwarmCrc8(data: seq<byte>) returns (crc: byte)
    ensures crc == Crc8(data)
  {
    hide Bit1;
    crc := INIT;
    for i := 0 to |data|
      invariant crc == From(INIT, data[..i])
    {
      ghost var c := crc ^ data[i];
      assert data[..i + 1][..i] == data[..i];
      crc := crc ^ data[i];
      for b := 0 to 8
        invariant crc == Bits(c, b)
      {
        crc := Bit1(crc);
      }
    }
    assert data[..|data|] == data;
  }

  /** The host's bit step works in wider integers and masks. */
  function HostBit(c: bv16): bv16 {
    if c & 0x80 != 0 then ((c << 1) ^ 0x07) & 0xff else (c << 1) & 0xff
  }

  function HostBits(c: bv16, n: nat): bv16 {
    if n == 0 then c else HostBit(HostBits(c, n - 1))
  }

  function HostCrc(data: seq<byte>): bv16 {
    if data == [] then 0 else HostBits(HostCrc(data[..|data| - 1]) ^ (data[|data| - 1] as bv16), 8)
  }

  lemma HostBitAgrees(c: byte)
    ensures HostBit(c as bv16) == Bit1(c) as bv16
  {
  }

  lemma WidenXor(c: byte, d: byte)
    ensures (c as bv16) ^ (d as bv16) == (c ^ d) as bv16
  {
  }

  lemma {:induction false} HostBitsAgree(c: byte, n: nat)
    ensures HostBits(c as bv16, n) == Bits(c, n) as bv16
  {
    hide Bit1, HostBit;
    if n > 0 {
      HostBitsAgree(c, n - 1);
      HostBitAgrees(Bits(c, n - 1));
    }
  }

  /** Guest and host compute the same function. */
  lemma {:induction false} HostAgrees(data: seq<byte>)
    ensures HostCrc(data) == Crc8(data) as bv16
  {
    hide Bits, HostBits;
    if data != [] {
      var p, d := data[..|data| - 1], data[|data| - 1];
      HostAgrees(p);
      WidenXor(From(INIT, p), d);
      HostBitsAgree(Mix(From(INIT, p), d), 8);
    }
  }
}
