/** QSAV1 sealed saves: encrypt-then-MAC with a synthetic nonce, on the guest and on the host. */
module Qsave {
  import opened Bytes
  import opened Sha256
  import opened Hmac

  const HDR_FIELDS := 32
  const HDR_LEN := 64
  const KEY_LEN := 32
  const NONCE_LEN := 16
  const QSAVE_VERSION: u16 := 1
  const QSAVE_SUITE: u16 := 1
  const MAGIC: seq<byte> := [0x51, 0x53, 0x41, 0x56] // "QSAV"

  // the three derivation labels "QSAVE1-enc", "QSAVE1-mac" and "QSAVE1-nonce"
  const LABEL: seq<byte> := [0x51, 0x53, 0x41, 0x56, 0x45, 0x31, 0x2d]
  const ENC_LABEL: seq<byte> := LABEL + [0x65, 0x6e, 0x63]
  const MAC_LABEL: seq<byte> := LABEL + [0x6d, 0x61, 0x63]
  const NONCE_LABEL: seq<byte> := LABEL + [0x6e, 0x6f, 0x6e, 0x63, 0x65]

  datatype Keys = Keys(enc: seq<byte>, mac: seq<byte>, nonce: seq<byte>)

  function Derive(f: Compression, master: seq<byte>): Keys {
    Keys(Mac(f, master, ENC_LABEL), Mac(f, master, MAC_LABEL), Mac(f, master, NONCE_LABEL))
  }

  // ---- the host's reference construction ----

  /** Keystream byte j: block j / 32 of HMAC in counter mode. */
  function KeyByte(f: Compression, enc: seq<byte>, nonce: seq<byte>, j: nat): byte {
    Mac(f, enc, nonce + Le(j / 32, 8))[j % 32]
  }

  function KeystreamXor(f: Compression, enc: seq<byte>, nonce: seq<byte>, data: seq<byte>): (r: seq<byte>)
    ensures |r| == |data|
  {
    seq(|data|, j requires 0 <= j < |data| => Mix(data[j], KeyByte(f, enc, nonce, j)))
  }

  function Fields(nonce: seq<byte>, len: nat): (r: seq<byte>)
    requires |nonce| == NONCE_LEN
    ensures |r| == HDR_FIELDS
  {
    MAGIC + Le(QSAVE_VERSION, 2) + Le(QSAVE_SUITE, 2) + nonce + Le(len, 8)
  }

  /** The blob for a given nonce. */
  function SealWith(f: Compression, k: Keys, nonce: seq<byte>, pt: seq<byte>): (blob: seq<byte>)
    requires |nonce| == NONCE_LEN
    ensures |blob| == HDR_LEN + |pt|
  {
    var fields, ct := Fields(nonce, |pt|), KeystreamXor(f, k.enc, nonce, pt);
    fields + Mac(f, k.mac, fields + ct) + ct
  }

  /** seal(): the nonce is a MAC of the entropy and the plaintext. */
  function SealBlob(f: Compression, master: seq<byte>, rng: seq<byte>, pt: seq<byte>): (blob: seq<byte>)
    ensures |blob| == HDR_LEN + |pt|
  {
    var k := Derive(f, master);
    SealWith(f, k, Mac(f, k.nonce, rng + pt)[..NONCE_LEN], pt)
  }

  datatype Opened = Plain(pt: seq<byte>) | BadBlob | BadAuth | NoSpace

  predicate HeaderOk(b: seq<byte>) {
    && |b| >= HDR_LEN && b[..4] == MAGIC
    && FromLe(b[4..6]) == QSAVE_VERSION && FromLe(b[6..8]) == QSAVE_SUITE
    && FromLe(b[24..32]) == |b| - HDR_LEN
  }

  /** What opening a blob into `cap` bytes of room yields. */
  function OpenBlob(f: Compression, master: seq<byte>, b: seq<byte>, cap: nat): Opened {
    if !HeaderOk(b) then BadBlob
    else if |b| - HDR_LEN > cap then NoSpace
    else
      var k := Derive(f, master);
      if Mac(f, k.mac, b[..HDR_FIELDS] + b[HDR_LEN..]) != b[HDR_FIELDS..HDR_LEN] then BadAuth
      else Plain(KeystreamXor(f, k.enc, b[8..24], b[HDR_LEN..]))
  }

  // ---- what the construction promises ----

  lemma XorTwice(a: byte, b: byte)
    ensures Mix(Mix(a, b), b) == a
  {
  }

  lemma KeystreamInvolution(f: Compression, enc: seq<byte>, nonce: seq<byte>, data: seq<byte>)
    ensures KeystreamXor(f, enc, nonce, KeystreamXor(f, enc, nonce, data)) == data
  {
    hide KeyByte;
    forall j | 0 <= j < |data|
      ensures Mix(Mix(data[j], KeyByte(f, enc, nonce, j)), KeyByte(f, enc, nonce, j)) == data[j]
    {
      XorTwice(data[j], KeyByte(f, enc, nonce, j));
    }
  }

  lemma FieldsParse(nonce: seq<byte>, len: nat, rest: seq<byte>)
    requires |nonce| == NONCE_LEN && len < 0x1_0000_0000_0000_0000
    ensures var b := Fields(nonce, len) + rest;
            && b[..4] == MAGIC && FromLe(b[4..6]) == QSAVE_VERSION && FromLe(b[6..8]) == QSAVE_SUITE
            && b[8..24] == nonce && FromLe(b[24..32]) == len
  {
    hide Le, FromLe, Pow256;
    FieldSizes();
    var b := Fields(nonce, len) + rest;
    assert b[..4] == MAGIC && b[4..6] == Le(QSAVE_VERSION, 2) && b[6..8] == Le(QSAVE_SUITE, 2);
    assert b[8..24] == nonce && b[24..32] == Le(len, 8);
    LeSmall(QSAVE_VERSION, 2);
    LeSmall(QSAVE_SUITE, 2);
    LeSmall(len, 8);
  }

  /** A header that parses is the header that sealing writes. */
  lemma FieldsUnique(b: seq<byte>)
    requires HeaderOk(b)
    ensures b[..HDR_FIELDS] == Fields(b[8..24], |b| - HDR_LEN)
  {
    hide Le, FromLe, Pow256;
    LeOfFromLe(b[4..6]);
    LeOfFromLe(b[6..8]);
    LeOfFromLe(b[24..32]);
    assert b[..HDR_FIELDS] == b[..4] + b[4..6] + b[6..8] + b[8..24] + b[24..32];
  }

  /** Opening yields p exactly for the blob that sealing p under the blob's own nonce produces. */
  lemma OpensExactly(f: Compression, master: seq<byte>, b: seq<byte>, cap: nat, p: seq<byte>)
    requires |b| < 0x1_0000_0000_0000_0000
    ensures OpenBlob(f, master, b, cap) == Plain(p) <==>
            |p| <= cap && |b| >= HDR_LEN && b == SealWith(f, Derive(f, master), b[8..24], p)
  {
    hide Mac, Fields, KeystreamXor, Le, FromLe, Derive;
    var k := Derive(f, master);
    if OpenBlob(f, master, b, cap) == Plain(p) {
      FieldsUnique(b);
      KeystreamInvolution(f, k.enc, b[8..24], b[HDR_LEN..]);
      assert b == b[..HDR_FIELDS] + b[HDR_FIELDS..HDR_LEN] + b[HDR_LEN..];
    }
    if |p| <= cap && |b| >= HDR_LEN && b == SealWith(f, k, b[8..24], p) {
      SealOpens(f, k, b[8..24], p);
    }
  }

  lemma SealOpens(f: Compression, k: Keys, nonce: seq<byte>, p: seq<byte>)
    requires |nonce| == NONCE_LEN && |p| < 0x1_0000_0000_0000_0000
    ensures var b := SealWith(f, k, nonce, p);
            && HeaderOk(b) && b[8..24] == nonce
            && Mac(f, k.mac, b[..HDR_FIELDS] + b[HDR_LEN..]) == b[HDR_FIELDS..HDR_LEN]
            && KeystreamXor(f, k.enc, b[8..24], b[HDR_LEN..]) == p
  {
    hide Mac, Fields, KeystreamXor, Le, FromLe;
    var b := SealWith(f, k, nonce, p);
    var fields, ct := Fields(nonce, |p|), KeystreamXor(f, k.enc, nonce, p);
    assert b == fields + (Mac(f, k.mac, fields + ct) + ct);
    FieldsParse(nonce, |p|, Mac(f, k.mac, fields + ct) + ct);
    assert b[..HDR_FIELDS] == fields && b[HDR_LEN..] == ct && b[HDR_FIELDS..HDR_LEN] == Mac(f, k.mac, fields + ct);
    KeystreamInvolution(f, k.enc, nonce, p);
  }

  /** qsave_open inverts qsave_seal for every key, entropy and plaintext with room for it. */
  lemma OpenInvertsSeal(f: Compression, master: seq<byte>, rng: seq<byte>, pt: seq<byte>, cap: nat)
    requires |pt| <= cap && |pt| < 0x1_0000_0000_0000_0000
    ensures OpenBlob(f, master, SealBlob(f, master, rng, pt), cap) == Plain(pt)
  {
    hide Mac, Fields, KeystreamXor, Le, FromLe, SealWith, HeaderOk;
    var k := Derive(f, master);
    SealOpens(f, k, Mac(f, k.nonce, rng + pt)[..NONCE_LEN], pt);
  }

  /** Any length other than 64 plus the length field is refused, whatever the key. */
  lemma LengthEnforced(f: Compression, master: seq<byte>, b: seq<byte>, cap: nat)
    requires |b| < HDR_LEN || |b| != HDR_LEN + FromLe(b[24..32])
    ensures OpenBlob(f, master, b, cap) == BadBlob
  {
  }

  /** Appending to, or cutting, a well-formed blob makes it malformed. */
  lemma NoTrailingData(f: Compression, master: seq<byte>, b: seq<byte>, cap: nat, extra: seq<byte>, n: nat)
    requires OpenBlob(f, master, b, cap) != BadBlob
    ensures extra != [] ==> OpenBlob(f, master, b + extra, cap) == BadBlob
    ensures n < |b| ==> OpenBlob(f, master, b[..n], cap) == BadBlob
  {
    hide Mac, KeystreamXor, FromLe;
    assert (b + extra)[24..32] == b[24..32];
    if extra != [] { LengthEnforced(f, master, b + extra, cap); }
    if n < |b| {
      if n >= 32 { assert b[..n][24..32] == b[24..32]; }
      LengthEnforced(f, master, b[..n], cap);
    }
  }

  // ---- the layout of a sealed blob ----

  lemma Labels()
    ensures ENC_LABEL == Ascii("QSAVE1-enc") && MAC_LABEL == Ascii("QSAVE1-mac") && NONCE_LABEL == Ascii("QSAVE1-nonce")
  {
    hide Ascii;
    AsciiIs("QSAVE1-", LABEL);
    AsciiIs("enc", [0x65, 0x6e, 0x63]);
    AsciiIs("mac", [0x6d, 0x61, 0x63]);
    AsciiIs("nonce", [0x6e, 0x6f, 0x6e, 0x63, 0x65]);
    AsciiConcat("QSAVE1-", "enc");
    AsciiConcat("QSAVE1-", "mac");
    AsciiConcat("QSAVE1-", "nonce");
    assert "QSAVE1-" + "enc" == "QSAVE1-enc";
    assert "QSAVE1-" + "mac" == "QSAVE1-mac";
    assert "QSAVE1-" + "nonce" == "QSAVE1-nonce";
  }

  lemma Prefix()
    ensures MAGIC + Le(QSAVE_VERSION, 2) + Le(QSAVE_SUITE, 2) == Ascii("QSAV") + [1, 0, 1, 0]
  {
    hide Le, Ascii;
    AsciiIs("QSAV", MAGIC);
    Le2And4(1);
  }

  /** A sealed blob octet by octet: "QSAV", version 1, suite 1, the nonce, the length with its least significant octet
      first, the tag over all of this and the ciphertext, and the ciphertext. */
  lemma SealLayout(f: Compression, master: seq<byte>, rng: seq<byte>, pt: seq<byte>)
    ensures var b := SealBlob(f, master, rng, pt);
            var nonce := Mac(f, Mac(f, master, Ascii("QSAVE1-nonce")), rng + pt)[..16];
            && |b| == 64 + |pt|
            && b[..8] == Ascii("QSAV") + [1, 0, 1, 0] && b[8..24] == nonce
            && (forall k: nat | k < 8 :: b[24 + k] as nat == |pt| / Pow256(k) % 256)
            && b[32..64] == Mac(f, Mac(f, master, Ascii("QSAVE1-mac")), b[..32] + b[64..])
            && forall j: nat | j < |pt| ::
                 b[64 + j] == Mix(pt[j], Mac(f, Mac(f, master, Ascii("QSAVE1-enc")), nonce + Le(j / 32, 8))[j % 32])
  {
    hide Mac, Mix, Le, Pow256, Ascii;
    Labels();
    Prefix();
    var b, k := SealBlob(f, master, rng, pt), Derive(f, master);
    var nonce := Mac(f, k.nonce, rng + pt)[..NONCE_LEN];
    var fields, ct := Fields(nonce, |pt|), KeystreamXor(f, k.enc, nonce, pt);
    assert b[..32] == fields && b[64..] == ct && b[32..64] == Mac(f, k.mac, fields + ct);
    FieldsLayout(nonce, |pt|);
    assert b[..8] == fields[..8] && b[8..24] == fields[8..24];
    forall i: nat | i < 8
      ensures b[24 + i] as nat == |pt| / Pow256(i) % 256
    {
      assert b[24 + i] == fields[24..][i];
      LeAt(|pt|, 8, i);
    }
  }

  lemma FieldsLayout(nonce: seq<byte>, len: nat)
    requires |nonce| == NONCE_LEN
    ensures var h := Fields(nonce, len);
            h[..8] == Ascii("QSAV") + [1, 0, 1, 0] && h[8..24] == nonce && h[24..] == Le(len, 8)
  {
    hide Le, Ascii;
    Prefix();
  }

  /** What opening decides, on the octets. */
  lemma OpenDecides(f: Compression, master: seq<byte>, b: seq<byte>, cap: nat)
    ensures var r := OpenBlob(f, master, b, cap);
            var formed := |b| >= 64 && b[..8] == Ascii("QSAV") + [1, 0, 1, 0] && FromLe(b[24..32]) == |b| - 64;
            var fits := formed && |b| - 64 <= cap;
            var genuine := fits && Mac(f, Mac(f, master, Ascii("QSAVE1-mac")), b[..32] + b[64..]) == b[32..64];
            && (r == BadBlob <==> !formed)
            && (r == NoSpace <==> formed && !fits)
            && (r == BadAuth <==> fits && !genuine)
            && (r.Plain? <==> genuine)
  {
    hide Mac, Mix, Le, FromLe, Ascii;
    Labels();
    Prefix();
    if |b| >= 64 { PrefixRead(b); }
  }

  lemma PrefixRead(b: seq<byte>)
    requires |b| >= 64
    ensures b[..8] == Ascii("QSAV") + [1, 0, 1, 0]
            <==> b[..4] == MAGIC && FromLe(b[4..6]) == QSAVE_VERSION && FromLe(b[6..8]) == QSAVE_SUITE
  {
    hide Le, FromLe, Ascii;
    Prefix();
    var p := MAGIC + Le(QSAVE_VERSION, 2) + Le(QSAVE_SUITE, 2);
    LeOfFromLe(b[4..6]);
    LeOfFromLe(b[6..8]);
    FieldSizes();
    LeSmall(1, 2);
    assert b[..8] == b[..4] + b[4..6] + b[6..8];
    assert p[..4] == MAGIC && p[4..6] == Le(1, 2) && p[6..8] == Le(1, 2);
    assert b[..8][..4] == b[..4] && b[..8][4..6] == b[4..6] && b[..8][6..8] == b[6..8];
  }

  /** Two plaintexts sealed with the same entropy under the same nonce exhibit two inputs of one truncated tag. */
  lemma NonceBindsPlaintext(f: Compression, master: seq<byte>, rng: seq<byte>, p: seq<byte>, q: seq<byte>)
    requires p != q && SealBlob(f, master, rng, p)[8..24] == SealBlob(f, master, rng, q)[8..24]
    ensures var k := Mac(f, master, Ascii("QSAVE1-nonce"));
            rng + p != rng + q && Mac(f, k, rng + p)[..16] == Mac(f, k, rng + q)[..16]
  {
    hide Mac, Ascii, SealBlob;
    SealLayout(f, master, rng, p);
    SealLayout(f, master, rng, q);
    assert (rng + p)[|rng|..] == p && (rng + q)[|rng|..] == q;
  }

  // ---- the guest's in-place implementation ----

  const QSAVE_EBADBLOB := -1
  const QSAVE_EAUTH := -2
  const QSAVE_ESPACE := -3

  method DeriveKeys(f: Compression, master: seq<byte>) returns (k: Keys)
    ensures k == Derive(f, master)
  {
    var enc := HmacSha256(f, master, ENC_LABEL);
    var mac := HmacSha256(f, master, MAC_LABEL);
    var nonce := HmacSha256(f, master, NONCE_LABEL);
    return Keys(enc, mac, nonce);
  }

  /** The part of the stream not yet reached is still the source's. */
  ghost predicate Streamed(f: Compression, enc: seq<byte>, nonce: seq<byte>, data: seq<byte>, src: seq<byte>,
                           dst: seq<byte>, done: nat) {
    && |src| == |dst| == |data|
    && (forall j | 0 <= j < |data| && j < done :: dst[j] == KeystreamXor(f, enc, nonce, data)[j])
    && (forall j | done <= j < |data| :: src[j] == data[j])
  }

  /** qsave_xor_stream: src and dst are either different buffers or the very same range. */
  method XorStream(f: Compression, enc: seq<byte>, nonce: seq<byte>, src: array<byte>, soff: nat, dst: array<byte>,
                   doff: nat, len: nat)
    requires soff + len <= src.Length && doff + len <= dst.Length
    requires src != dst || soff == doff
    modifies dst
    ensures dst[..doff] == old(dst[..doff]) && dst[doff + len..] == old(dst[doff + len..])
    ensures dst[doff..doff + len] == KeystreamXor(f, enc, nonce, old(src[soff..soff + len]))
  {
    hide KeyByte, Le, Streamed, KeystreamXor;
    ghost var data := src[soff..soff + len];
    StreamStart(f, enc, nonce, data, src[soff..soff + len], dst[doff..doff + len]);
    var blk := 0;
    while blk * 32 < len
      invariant Streamed(f, enc, nonce, data, src[soff..soff + len], dst[doff..doff + len], 32 * blk)
      invariant dst[..doff] == old(dst[..doff]) && dst[doff + len..] == old(dst[doff + len..])
      decreases len - blk * 32
    {
      var ks := HmacSha256(f, enc, nonce + Le(blk, 8));
      XorBlock(f, enc, nonce, src, soff, dst, doff, len, blk, ks, data);
      blk := blk + 1;
    }
    StreamEnd(f, enc, nonce, data, src[soff..soff + len], dst[doff..doff + len], 32 * blk);
  }

  /** The inner loop: one keystream block. */
  method XorBlock(f: Compression, enc: seq<byte>, nonce: seq<byte>, src: array<byte>, soff: nat, dst: array<byte>,
                  doff: nat, len: nat,
                  blk: nat, ks: seq<byte>, ghost data: seq<byte>)
    requires soff + len <= src.Length && doff + len <= dst.Length && 32 * blk < len == |data|
    requires src != dst || soff == doff
    requires ks == Mac(f, enc, nonce + Le(blk, 8))
    requires Streamed(f, enc, nonce, data, src[soff..soff + len], dst[doff..doff + len], 32 * blk)
    modifies dst
    ensures Streamed(f, enc, nonce, data, src[soff..soff + len], dst[doff..doff + len], 32 * (blk + 1))
    ensures dst[..doff] == old(dst[..doff]) && dst[doff + len..] == old(dst[doff + len..])
  {
    hide Mac, Le, Streamed, KeystreamXor, Mix;
    var off, i := 32 * blk, 0;
    while i < 32 && off + i < len
      invariant i <= 32 && off + i <= len
      invariant Streamed(f, enc, nonce, data, src[soff..soff + len], dst[doff..doff + len], off + i)
      invariant dst[..doff] == old(dst[..doff]) && dst[doff + len..] == old(dst[doff + len..])
    {
      ghost var s, d := src[soff..soff + len], dst[doff..doff + len];
      StreamByte(f, enc, nonce, data, s, d, blk, i, ks);
      dst[doff + off + i] := Mix(src[soff + off + i], ks[i]);
      StreamNext(f, enc, nonce, data, s, d, src[soff..soff + len], dst[doff..doff + len], off + i);
      i := i + 1;
    }
    if i < 32 {
      StreamPast(f, enc, nonce, data, src[soff..soff + len], dst[doff..doff + len], off + i, 32 * (blk + 1));
    }
  }

  lemma StreamStart(f: Compression, enc: seq<byte>, nonce: seq<byte>, data: seq<byte>, src: seq<byte>, dst: seq<byte>)
    requires src == data && |dst| == |data|
    ensures Streamed(f, enc, nonce, data, src, dst, 0)
  {
  }

  lemma StreamByte(f: Compression, enc: seq<byte>, nonce: seq<byte>, data: seq<byte>, src: seq<byte>, dst: seq<byte>,
                   blk: nat, i: nat, ks: seq<byte>)
    requires Streamed(f, enc, nonce, data, src, dst, 32 * blk + i) && i < 32 && 32 * blk + i < |data|
    requires ks == Mac(f, enc, nonce + Le(blk, 8))
    ensures |ks| == 32 && |src| == |data|
    ensures Mix(src[32 * blk + i], ks[i]) == KeystreamXor(f, enc, nonce, data)[32 * blk + i]
  {
    hide Mac, Le, Mix;
    assert (32 * blk + i) / 32 == blk && (32 * blk + i) % 32 == i;
  }

  lemma StreamNext(f: Compression, enc: seq<byte>, nonce: seq<byte>, data: seq<byte>, src: seq<byte>, dst: seq<byte>,
                   src': seq<byte>, dst': seq<byte>, n: nat)
    requires Streamed(f, enc, nonce, data, src, dst, n) && n < |data|
    requires |src'| == |data| && |dst'| == |data| && dst' == dst[n := KeystreamXor(f, enc, nonce, data)[n]]
    requires forall j | n < j < |data| :: src'[j] == src[j]
    ensures Streamed(f, enc, nonce, data, src', dst', n + 1)
  {
    hide KeystreamXor;
  }

  lemma StreamPast(f: Compression, enc: seq<byte>, nonce: seq<byte>, data: seq<byte>, src: seq<byte>, dst: seq<byte>,
                   n: nat, m: nat)
    requires Streamed(f, enc, nonce, data, src, dst, n) && |data| <= n <= m
    ensures Streamed(f, enc, nonce, data, src, dst, m)
  {
  }

  lemma StreamEnd(f: Compression, enc: seq<byte>, nonce: seq<byte>, data: seq<byte>, src: seq<byte>, dst: seq<byte>,
                  n: nat)
    requires Streamed(f, enc, nonce, data, src, dst, n) && |data| <= n
    ensures dst == KeystreamXor(f, enc, nonce, data)
  {
  }

  /** qsave_seal: the guest writes byte for byte what the host's construction says, or refuses for lack of room.
      The plaintext may already sit where the ciphertext goes. */
  method Seal(f: Compression, master: seq<byte>, rng: seq<byte>, pt: array<byte>, poff: nat, len: nat,
              out: array<byte>) returns (rc: int)
    requires poff + len <= pt.Length && (pt != out || poff == HDR_LEN)
    modifies out
    ensures out.Length < HDR_LEN + len ==> rc == -3 && out[..] == old(out[..])
    ensures out.Length >= HDR_LEN + len ==>
              rc == HDR_LEN + len && out[HDR_LEN + len..] == old(out[HDR_LEN + len..]) &&
              out[..HDR_LEN + len] == SealBlob(f, master, rng, old(pt[poff..poff + len]))
  {
    hide Mac, Derive, KeystreamXor, Fields;
    if out.Length < HDR_LEN + len {
      return QSAVE_ESPACE;
    }
    ghost var p, rest := pt[poff..poff + len], out[HDR_LEN + len..];
    assert rest == out[HDR_FIELDS..][HDR_LEN - HDR_FIELDS + len..];
    var k := DeriveKeys(f, master);
    var full := Hmac2(f, k.nonce, rng, pt[poff..poff + len]);
    WriteFields(out, full[..NONCE_LEN], len);
    assert pt[poff..poff + len] == p;
    assert out[HDR_LEN + len..] == out[HDR_FIELDS..][HDR_LEN - HDR_FIELDS + len..];
    XorStream(f, k.enc, full[..NONCE_LEN], pt, poff, out, HDR_LEN, len);
    ghost var fields, ct := Fields(full[..NONCE_LEN], len), KeystreamXor(f, k.enc, full[..NONCE_LEN], p);
    assert out[..HDR_FIELDS] == out[..HDR_LEN][..HDR_FIELDS] == fields;
    var tag := Hmac2(f, k.mac, out[..HDR_FIELDS], out[HDR_LEN..HDR_LEN + len]);
    JoinAt(out[..], HDR_LEN, HDR_LEN + len);
    assert out[HDR_LEN..] == out[..][HDR_LEN..] == ct + rest;
    CopyBytes(out, HDR_FIELDS, tag);
    SealedParts(out[..], out[..HDR_LEN], ct, rest);
    return HDR_LEN + len;
  }

  lemma SealedParts(out: seq<byte>, header: seq<byte>, ct: seq<byte>, rest: seq<byte>)
    requires |header| == HDR_LEN <= |out| && header <= out && out[HDR_LEN..] == ct + rest
    ensures out[HDR_LEN + |ct|..] == rest && out[..HDR_LEN + |ct|] == header + ct
  {
    assert out == header + (ct + rest);
  }

  lemma JoinAt(s: seq<byte>, a: nat, b: nat)
    requires a <= b <= |s|
    ensures s[a..] == s[a..b] + s[b..]
  {
  }

  method WriteFields(out: array<byte>, nonce: seq<byte>, len: nat)
    requires out.Length >= HDR_FIELDS && |nonce| == NONCE_LEN
    modifies out
    ensures out[..HDR_FIELDS] == Fields(nonce, len) && out[HDR_FIELDS..] == old(out[HDR_FIELDS..])
  {
    hide Le;
    ghost var rest := out[HDR_FIELDS..];
    CopyBytes(out, 0, MAGIC);
    assert out[HDR_FIELDS..] == rest;
    PutLe(out, 4, QSAVE_VERSION, 2);
    assert out[HDR_FIELDS..] == rest;
    PutLe(out, 6, QSAVE_SUITE, 2);
    assert out[HDR_FIELDS..] == rest;
    CopyBytes(out, 8, nonce);
    assert out[HDR_FIELDS..] == rest;
    PutLe(out, 24, len, 8);
    assert out[HDR_FIELDS..] == rest;
  }

  /** qsave_open: nothing is written unless the tag matched; blob and output are different buffers or
      the plaintext replaces the ciphertext in place. */
  method Open(f: Compression, master: seq<byte>, blob: array<byte>, blobLen: nat, out: array<byte>, ooff: nat,
              cap: nat) returns (rc: int)
    requires blobLen <= blob.Length && ooff + cap <= out.Length && (blob != out || ooff == HDR_LEN)
    modifies out
    ensures match OpenBlob(f, master, old(blob[..blobLen]), cap)
            case Plain(pt) => rc == |pt| <= cap && out[ooff..ooff + |pt|] == pt &&
                              out[..ooff] == old(out[..ooff]) && out[ooff + |pt|..] == old(out[ooff + |pt|..])
            case BadBlob => rc == -1 && out[..] == old(out[..])
            case NoSpace => rc == -3 && out[..] == old(out[..])
            case BadAuth => rc == -2 && out[..] == old(out[..])
  {
    hide Mac, Derive, KeystreamXor, FromLe;
    ghost var b := blob[..blobLen];
    if blobLen < HDR_LEN || blob[0] != MAGIC[0] || blob[1] != MAGIC[1] || blob[2] != MAGIC[2] || blob[3] != MAGIC[3] ||
       FromLe(blob[4..6]) != QSAVE_VERSION || FromLe(blob[6..8]) != QSAVE_SUITE {
      Slices(blob, blobLen);
      return QSAVE_EBADBLOB;
    }
    Slices(blob, blobLen);
    var len := FromLe(blob[24..32]);
    if len != blobLen - HDR_LEN {
      return QSAVE_EBADBLOB;
    }
    assert HeaderOk(b);
    if len > cap {
      return QSAVE_ESPACE;
    }
    var k := DeriveKeys(f, master);
    var tag := Hmac2(f, k.mac, blob[..HDR_FIELDS], blob[HDR_LEN..blobLen]);
    var same := Equal(tag, blob[HDR_FIELDS..HDR_LEN]);
    if !same {
      return QSAVE_EAUTH;
    }
    XorStream(f, k.enc, blob[8..24], blob, HDR_LEN, out, ooff, len);
    return len;
  }

  lemma Slices(blob: array<byte>, n: nat)
    requires n <= blob.Length
    ensures var b := blob[..n];
            n >= HDR_LEN ==>
              && (b[..4] == MAGIC <==>
                    blob[0] == MAGIC[0] && blob[1] == MAGIC[1] && blob[2] == MAGIC[2] && blob[3] == MAGIC[3])
              && b[4..6] == blob[4..6] && b[6..8] == blob[6..8] && b[8..24] == blob[8..24] && b[24..32] == blob[24..32]
              && b[..HDR_FIELDS] == blob[..HDR_FIELDS] && b[HDR_FIELDS..HDR_LEN] == blob[HDR_FIELDS..HDR_LEN]
              && b[HDR_LEN..] == blob[HDR_LEN..n]
  {
  }
}
