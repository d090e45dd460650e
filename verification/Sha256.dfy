/** Streaming SHA-256 and HMAC over an arbitrary compression function. */
module Sha256 {
  import opened Bytes

  type Words = s: seq<u32> | |s| == 8 witness seq(8, _ => 0)
  type Block = s: seq<byte> | |s| == 64 witness seq(64, _ => 0)
  type Compression = (Words, Block) -> Words

  const INIT: Words :=
    [0x6a09e667, 0xbb67ae85, 0x3c6ef372, 0xa54ff53a, 0x510e527f, 0x9b05688c, 0x1f83d9ab, 0x5be0cd19]

  // ---- the standard ----

  /** The compression function folded over the 64-byte blocks of m. */
  function Fold(f: Compression, m: seq<byte>): Words
    requires |m| % 64 == 0
  {
    if m == [] then INIT else f(Fold(f, m[..|m| - 64]), m[|m| - 64..])
  }

  /** The least k >= 0 with |m| + 1 + k congruent to 56 modulo 64. */
  function PadZeros(len: nat): (k: nat)
    ensures k < 64 && (len + 1 + k) % 64 == 56
  {
    (55 - len) % 64
  }

  function Zeros(n: nat): (z: seq<byte>)
    ensures |z| == n
  {
    seq(n, _ => 0)
  }

  function LengthBytes(bits: nat): (r: seq<byte>)
    ensures |r| == 8
  {
    Be(bits, 8)
  }

  lemma PadLength(len: nat)
    ensures (len + (1 + PadZeros(len) + 8)) % 64 == 0
  {
  }

  /** What follows a message of the given length. */
  function Tail(len: nat): (r: seq<byte>)
    ensures |r| == 1 + PadZeros(len) + 8
  {
    [0x80] + Zeros(PadZeros(len)) + LengthBytes(8 * len)
  }

  /** Section 5.1.1 of FIPS 180-4: a one bit, k zero bits, the 64-bit big-endian bit length. */
  function Pad(m: seq<byte>): (p: seq<byte>)
    ensures |p| % 64 == 0
  {
    hide Tail, PadZeros;
    PadLength(|m|);
    m + Tail(|m|)
  }

  /** The digest of eight words, each big-endian. */
  function WordBytes(w: seq<u32>): (r: seq<byte>)
    ensures |r| == 4 * |w|
  {
    if w == [] then [] else WordBytes(w[..|w| - 1]) + Be(w[|w| - 1], 4)
  }

  function Digest(f: Compression, m: seq<byte>): (d: seq<byte>)
    ensures |d| == 32
  {
    WordBytes(Fold(f, Pad(m)))
  }

  /** The padded message octet by octet: the message, 0x80, zeros, and the bit length with its most significant octet
      first. */
  lemma PadOctets(m: seq<byte>, k: nat)
    requires k < |Pad(m)|
    ensures |m| + 9 <= |Pad(m)| < |m| + 73
    ensures var n := |Pad(m)|;
            Pad(m)[k] as nat ==
            if k < |m| then m[k] as nat
            else if k == |m| then 128
            else if k < n - 8 then 0
            else 8 * |m| / Pow256(n - 1 - k) % 256
  {
    hide LengthBytes, Zeros, PadZeros;
    var z, n := PadZeros(|m|), |Pad(m)|;
    LengthOctets(8 * |m|);
    ZerosAt(z);
    assert Pad(m) == m + ([0x80] + Zeros(z) + LengthBytes(8 * |m|));
    assert n == |m| + 1 + z + 8;
  }

  lemma LengthOctets(bits: nat)
    ensures forall k: nat | k < 8 :: LengthBytes(bits)[k] as nat == bits / Pow256(7 - k) % 256
  {
    hide Be, Pow256;
    forall k: nat | k < 8
      ensures LengthBytes(bits)[k] as nat == bits / Pow256(7 - k) % 256
    {
      BeAt(bits, 8, k);
    }
  }

  lemma ZerosAt(n: nat)
    ensures forall k | 0 <= k < n :: Zeros(n)[k] == 0
  {
  }

  /** Octet 4 j + i of the digest has the weight 256^(3 - i) in word j of the last state. */
  lemma DigestOctets(f: Compression, m: seq<byte>, j: nat, i: nat)
    requires j < 8 && i < 4
    ensures Digest(f, m)[4 * j + i] as nat == Fold(f, Pad(m))[j] / Pow256(3 - i) % 256
  {
    hide Fold, Pad, Be, Pow256;
    WordOctets(Fold(f, Pad(m)), j, i);
  }

  lemma {:induction false} WordOctets(w: seq<u32>, j: nat, i: nat)
    requires j < |w| && i < 4
    ensures WordBytes(w)[4 * j + i] as nat == w[j] / Pow256(3 - i) % 256
  {
    hide Be, Pow256;
    if j < |w| - 1 {
      WordOctets(w[..|w| - 1], j, i);
    } else {
      BeAt(w[j], 4, i);
    }
  }

  /** w is the first 32 bits of the fractional part of the square root of p. */
  predicate RootFraction(p: nat, whole: nat, w: u32) {
    var x := whole * 0x1_0000_0000 + w;
    x * x <= p * 0x1_0000_0000_0000_0000 < (x + 1) * (x + 1)
  }

  /** Section 5.3.3 of FIPS 180-4: the first state comes from the square roots of the first eight primes. */
  lemma FirstState(f: Compression)
    ensures var s := Fold(f, []);
            && RootFraction(2, 1, s[0]) && RootFraction(3, 1, s[1])
            && RootFraction(5, 2, s[2]) && RootFraction(7, 2, s[3])
            && RootFraction(11, 3, s[4]) && RootFraction(13, 3, s[5])
            && RootFraction(17, 4, s[6]) && RootFraction(19, 4, s[7])
  {
  }

  lemma FoldBlock(f: Compression, m: seq<byte>, b: Block)
    requires |m| % 64 == 0
    ensures Fold(f, m + b) == f(Fold(f, m), b)
  {
    assert (m + b)[..|m + b| - 64] == m && (m + b)[|m + b| - 64..] == b;
  }

  lemma FoldTwoBlocks(f: Compression, m: seq<byte>, b: Block, c: Block)
    requires |m| % 64 == 0
    ensures |(m + b) + c| % 64 == 0 && Fold(f, (m + b) + c) == f(f(Fold(f, m), b), c)
  {
    hide Fold;
    FoldBlock(f, m, b);
    FoldBlock(f, m + b, c);
  }

  /** The tail depends on the length only through its last partial block and the bit count. */
  lemma TailOf(m: seq<byte>, rest: seq<byte>, done: seq<byte>)
    requires m == done + rest && |done| % 64 == 0 && |rest| < 64
    ensures Tail(|m|) == [0x80] + Zeros(if |rest| < 56 then 55 - |rest| else 119 - |rest|) + LengthBytes(8 * |m|)
  {
    hide LengthBytes, Zeros;
    assert |m| % 64 == |rest|;
  }

  lemma CounterStep(n: nat, c: u64)
    requires c == 8 * n % 0x1_0000_0000_0000_0000
    ensures (c + 512) % 0x1_0000_0000_0000_0000 == 8 * (n + 64) % 0x1_0000_0000_0000_0000
  {
  }

  /** The bit counter agrees with the padded length field. */
  lemma BitCountAgrees(len: nat, r: nat, bits: u64)
    requires r <= len && bits == (8 * (len - r) % 0x1_0000_0000_0000_0000 + 8 * r) % 0x1_0000_0000_0000_0000
    ensures LengthBytes(8 * len) == LengthBytes(bits)
  {
    hide Le, Reverse, Pow256;
    FieldSizes();
    ModAbsorb(8 * (len - r), 8 * r, 0x1_0000_0000_0000_0000);
    LeMod(8 * len, 8);
    LeMod(bits, 8);
  }

  lemma ModAbsorb(a: nat, b: nat, m: nat)
    requires m > 0
    ensures (a % m + b) % m == (a + b) % m
    ensures (a + b) % m % m == (a + b) % m
  {
    var c := a % m + b;
    DivMod(a, m);
    DivMod(c, m);
    Distribute(a / m, c / m, m);
    ModUnique(a + b, m, a / m + c / m, c % m);
    ModUnique(c % m, m, 0, c % m);
  }

  lemma Distribute(a: int, b: int, m: int)
    ensures (a + b) * m == a * m + b * m
  {
  }

  /** A message whose last partial block leaves room for the length ends in one padding block. */
  lemma ShortTail(f: Compression, m: seq<byte>, done: seq<byte>, rest: seq<byte>, b: seq<byte>, bits: u64)
    requires m == done + rest && |done| % 64 == 0 && |rest| < 56
    requires bits == (8 * |done| % 0x1_0000_0000_0000_0000 + 8 * |rest|) % 0x1_0000_0000_0000_0000
    requires b == rest + [0x80] + Zeros(55 - |rest|)
    ensures Fold(f, Pad(m)) == f(Fold(f, done), b + LengthBytes(bits))
  {
    hide Fold, LengthBytes, Pad, Zeros;
    ShortPad(m, done, rest, b, bits);
    FoldBlock(f, done, b + LengthBytes(bits));
  }

  lemma ShortPad(m: seq<byte>, done: seq<byte>, rest: seq<byte>, b: seq<byte>, bits: u64)
    requires m == done + rest && |done| % 64 == 0 && |rest| < 56
    requires bits == (8 * |done| % 0x1_0000_0000_0000_0000 + 8 * |rest|) % 0x1_0000_0000_0000_0000
    requires b == rest + [0x80] + Zeros(55 - |rest|)
    ensures Pad(m) == done + (b + LengthBytes(bits))
  {
    hide LengthBytes, Tail, Zeros;
    TailOf(m, rest, done);
    BitCountAgrees(|m|, |rest|, bits);
    RegroupShort(done, rest, [0x80], Zeros(55 - |rest|), LengthBytes(bits));
  }

  lemma RegroupShort(a: seq<byte>, r: seq<byte>, x: seq<byte>, z: seq<byte>, l: seq<byte>)
    ensures (a + r) + (x + z + l) == a + (r + x + z + l)
  {
  }

  lemma ZerosSplit(a: nat, b: nat)
    ensures Zeros(a + b) == Zeros(a) + Zeros(b)
  {
  }

  lemma Regroup(a: seq<byte>, r: seq<byte>, x: seq<byte>, c: seq<byte>, d: seq<byte>, e: seq<byte>)
    ensures (a + r) + (x + (c + d) + e) == (a + (r + x + c)) + (d + e)
  {
  }

  /** Otherwise it ends in two. */
  lemma LongTail(f: Compression, m: seq<byte>, done: seq<byte>, rest: seq<byte>, b: seq<byte>, bits: u64)
    requires m == done + rest && |done| % 64 == 0 && 56 <= |rest| < 64
    requires bits == (8 * |done| % 0x1_0000_0000_0000_0000 + 8 * |rest|) % 0x1_0000_0000_0000_0000
    requires b == rest + [0x80] + Zeros(63 - |rest|)
    ensures Fold(f, Pad(m)) == f(f(Fold(f, done), b), Zeros(56) + LengthBytes(bits))
  {
    hide Fold, LengthBytes, Pad, Zeros;
    LongPad(m, done, rest, b, bits);
    FoldTwoBlocks(f, done, b, Zeros(56) + LengthBytes(bits));
  }

  lemma LongPad(m: seq<byte>, done: seq<byte>, rest: seq<byte>, b: seq<byte>, bits: u64)
    requires m == done + rest && |done| % 64 == 0 && 56 <= |rest| < 64
    requires bits == (8 * |done| % 0x1_0000_0000_0000_0000 + 8 * |rest|) % 0x1_0000_0000_0000_0000
    requires b == rest + [0x80] + Zeros(63 - |rest|)
    ensures Pad(m) == (done + b) + (Zeros(56) + LengthBytes(bits))
  {
    hide LengthBytes, Tail, Zeros;
    TailOf(m, rest, done);
    BitCountAgrees(|m|, |rest|, bits);
    ZerosSplit(63 - |rest|, 56);
    Regroup(done, rest, [0x80], Zeros(63 - |rest|), Zeros(56), LengthBytes(bits));
  }

  // ---- the streaming implementation ----

  /** The context holds msg: whole blocks folded into the state, the remainder in the buffer, the blocks' bits
      counted. */
  ghost predicate Represents(f: Compression, msg: seq<byte>, state: Words, bitlen: u64, rest: seq<byte>) {
    && |rest| < 64 && |rest| <= |msg| && (|msg| - |rest|) % 64 == 0
    && rest == msg[|msg| - |rest|..]
    && state == Fold(f, msg[..|msg| - |rest|])
    && bitlen == 8 * (|msg| - |rest|) % 0x1_0000_0000_0000_0000
  }

  lemma NothingYet(f: Compression)
    ensures Represents(f, [], INIT, 0, [])
  {
  }

  /** One more byte: either it stays in the buffer or it completes a block. */
  lemma OneMore(f: Compression, msg: seq<byte>, state: Words, bitlen: u64, rest: seq<byte>, b: byte)
    requires Represents(f, msg, state, bitlen, rest)
    ensures |rest| < 63 ==> Represents(f, msg + [b], state, bitlen, rest + [b])
    ensures |rest| == 63 ==>
              Represents(f, msg + [b], f(state, rest + [b]), (bitlen + 512) % 0x1_0000_0000_0000_0000, [])
  {
    hide Fold;
    if |rest| < 63 { ByteKept(f, msg, state, bitlen, rest, b); } else { BlockFull(f, msg, state, bitlen, rest, b); }
  }

  lemma ByteKept(f: Compression, msg: seq<byte>, state: Words, bitlen: u64, rest: seq<byte>, b: byte)
    requires Represents(f, msg, state, bitlen, rest) && |rest| < 63
    ensures Represents(f, msg + [b], state, bitlen, rest + [b])
  {
    hide Fold;
    var n, m, r := |msg| - |rest|, msg + [b], rest + [b];
    assert |m| - |r| == n;
    assert m[..n] == msg[..n] && m[n..] == r;
  }

  lemma BlockFull(f: Compression, msg: seq<byte>, state: Words, bitlen: u64, rest: seq<byte>, b: byte)
    requires Represents(f, msg, state, bitlen, rest) && |rest| == 63
    ensures Represents(f, msg + [b], f(state, rest + [b]), (bitlen + 512) % 0x1_0000_0000_0000_0000, [])
  {
    hide Fold;
    var done, m := msg[..|msg| - |rest|], msg + [b];
    assert m == done + (rest + [b]) && state == Fold(f, done) && bitlen == 8 * |done| % 0x1_0000_0000_0000_0000;
    hide Represents;
    FoldBlock(f, done, rest + [b]);
    CounterStep(|done|, bitlen);
    assert |m| == |done| + 64;
    NextBlock(|done|);
    Whole(f, m, f(state, rest + [b]), (bitlen + 512) % 0x1_0000_0000_0000_0000);
  }

  lemma NextBlock(n: nat)
    requires n % 64 == 0
    ensures (n + 64) % 64 == 0
  {
  }

  /** A message of whole blocks leaves the buffer empty. */
  lemma Whole(f: Compression, m: seq<byte>, state: Words, bitlen: u64)
    requires |m| % 64 == 0 && state == Fold(f, m) && bitlen == 8 * |m| % 0x1_0000_0000_0000_0000
    ensures Represents(f, m, state, bitlen, [])
  {
    hide Fold;
    assert m[..|m|] == m;
  }

  class Ctx {
    const f: Compression
    const buf: array<byte>
    var state: Words
    var bitlen: u64
    var buflen: nat
    ghost var msg: seq<byte> // everything fed so far

    ghost predicate Valid()
      reads this, buf
    {
      buf.Length == 64 && buflen < 64 && Represents(f, msg, state, bitlen, buf[..buflen])
    }

    constructor (f: Compression)
      ensures Valid() && fresh(buf) && this.f == f && msg == []
    {
      this.f := f;
      buf := new byte[64](_ => 0);
      state, bitlen, buflen, msg := INIT, 0, 0, [];
      new;
      NothingYet(f);
      assert buf[..0] == [];
    }

    /** sha256_update: feed any number of bytes; the split into calls leaves no trace. */
    method Update(data: seq<byte>)
      requires Valid()
      modifies this, buf
      ensures Valid() && msg == old(msg) + data
    {
      var i := 0;
      while i < |data|
        invariant i <= |data| && Valid() && msg == old(msg) + data[..i]
      {
        Feed(data[i]);
        i := i + 1;
      }
    }

    /** The body of the update loop: one byte into the buffer, and a compression when it is full. */
    method Feed(b: byte)
      requires Valid()
      modifies this, buf
      ensures Valid() && msg == old(msg) + [b]
    {
      hide Represents;
      ghost var rest := buf[..buflen];
      buf[buflen] := b;
      buflen := buflen + 1;
      assert buf[..buflen] == rest + [b];
      OneMore(f, msg, state, bitlen, rest, b);
      msg := msg + [b];
      if buflen == 64 {
        assert buf[..] == buf[..64];
        state := f(state, buf[..]);
        bitlen := (bitlen + 512) % 0x1_0000_0000_0000_0000;
        buflen := 0;
        assert buf[..0] == [];
      }
    }

    /** sha256_final: one or two padding blocks, then the big-endian state. */
    method Final() returns (out: seq<byte>)
      requires Valid()
      modifies this`state, buf
      ensures out == Digest(f, msg)
    {
      hide Fold, Pad, PadZeros, Zeros, LengthBytes;
      ghost var rest, done := buf[..buflen], msg[..|msg| - buflen];
      assert msg == done + rest;
      var bits := (bitlen + 8 * buflen) % 0x1_0000_0000_0000_0000;
      var i := buflen;
      buf[i] := 0x80;
      i := i + 1;
      assert buf[..i] == rest + [0x80];
      if i > 56 {
        ZeroFill(i, 64);
        assert buf[..] == buf[..i] + buf[i..64];
        LongTail(f, msg, done, rest, buf[..], bits);
        state := f(state, buf[..]);
        ZeroFill(0, 56);
        assert buf[..56] == buf[0..56];
      } else {
        ZeroFill(i, 56);
        assert buf[..56] == buf[..i] + buf[i..56];
        ShortTail(f, msg, done, rest, buf[..56], bits);
      }
      PutBits(bits);
      state := f(state, buf[..]);
      out := WordBytes(state);
    }

    method ZeroFill(lo: nat, hi: nat)
      requires lo <= hi <= buf.Length
      modifies buf
      ensures buf[..lo] == old(buf[..lo]) && buf[hi..] == old(buf[hi..])
      ensures buf[lo..hi] == Zeros(hi - lo)
    {
      for i := lo to hi
        invariant buf[..lo] == old(buf[..lo]) && buf[hi..] == old(buf[hi..])
        invariant forall j | lo <= j < i :: buf[j] == 0
      {
        buf[i] := 0;
      }
    }

    /** The length field, most significant byte first. */
    method PutBits(bits: u64)
      requires buf.Length == 64
      modifies buf
      ensures buf[..] == old(buf[..56]) + LengthBytes(bits)
    {
      for k := 0 to 8
        invariant buf[..56] == old(buf[..56])
        invariant forall j | 0 <= j < k :: buf[56 + j] == LengthBytes(bits)[j]
      {
        buf[56 + k] := LengthBytes(bits)[k];
      }
      assert buf[56..] == LengthBytes(bits);
      assert buf[..] == buf[..56] + buf[56..];
    }
  }
}
