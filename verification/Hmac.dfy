/** HMAC-SHA256 in one message or two, and the constant-time tag comparison. */
module Hmac {
  import opened Bytes
  import opened Sha256

  /** K': the key, hashed first if it exceeds a block, zero-padded to 64 bytes. */
  function PadKey(f: Compression, key: seq<byte>): (k: seq<byte>)
    ensures |k| == 64
  {
    if |key| > 64 then Digest(f, key) + Zeros(32) else key + Zeros(64 - |key|)
  }

  function XorAll(k: seq<byte>, b: byte): (r: seq<byte>)
    ensures |r| == |k|
  {
    seq(|k|, i requires 0 <= i < |k| => Mix(k[i], b))
  }

  /** Section 2 of RFC 2104: H(K' xor opad, H(K' xor ipad, m)). */
  function Mac(f: Compression, key: seq<byte>, m: seq<byte>): (t: seq<byte>)
    ensures |t| == 32
  {
    Digest(f, XorAll(PadKey(f, key), 0x5c) + Digest(f, XorAll(PadKey(f, key), 0x36) + m))
  }

  /** The key octet by octet, zero beyond its end. */
  function KeyOctet(key: seq<byte>, i: nat): byte { if i < |key| then key[i] else 0 }

  /** A key of at most a block: 0x5c over the outer block, 0x36 over the inner one. */
  lemma ShortKey(f: Compression, key: seq<byte>, m: seq<byte>)
    requires |key| <= 64
    ensures Mac(f, key, m)
            == Digest(f, seq(64, i requires 0 <= i => Mix(KeyOctet(key, i), 0x5c)) +
                         Digest(f, seq(64, i requires 0 <= i => Mix(KeyOctet(key, i), 0x36)) + m))
  {
    hide Mix, Digest;
    var outer := seq(64, i requires 0 <= i => Mix(KeyOctet(key, i), 0x5c));
    var inner := seq(64, i requires 0 <= i => Mix(KeyOctet(key, i), 0x36));
    assert XorAll(PadKey(f, key), 0x5c) == outer;
    assert XorAll(PadKey(f, key), 0x36) == inner;
  }

  /** A longer key stands for its digest. */
  lemma LongKey(f: Compression, key: seq<byte>, m: seq<byte>)
    requires |key| > 64
    ensures Mac(f, key, m) == Mac(f, Digest(f, key), m)
  {
    hide Mix, Digest;
    assert PadKey(f, key) == PadKey(f, Digest(f, key));
  }

  method Sha256Of(f: Compression, data: seq<byte>) returns (out: seq<byte>)
    ensures out == Digest(f, data)
  {
    hide Ctx.Valid, Digest;
    var c := new Ctx(f);
    c.Update(data);
    assert [] + data == data;
    out := c.Final();
  }

  method PaddedKey(f: Compression, key: seq<byte>) returns (k: array<byte>)
    ensures fresh(k) && k.Length == 64 && k[..] == PadKey(f, key)
  {
    k := new byte[64](_ => 0);
    var d := key;
    if |key| > 64 {
      d := Sha256Of(f, key);
    }
    for i := 0 to |d|
      invariant forall j | 0 <= j < i :: k[j] == d[j]
      invariant forall j | i <= j < 64 :: k[j] == 0
    {
      k[i] := d[i];
    }
    assert k[..] == PadKey(f, key);
  }

  method XorPad(k: array<byte>, b: byte) returns (pad: array<byte>)
    ensures fresh(pad) && pad[..] == XorAll(k[..], b)
  {
    hide Mix;
    pad := new byte[k.Length](_ => 0);
    for i := 0 to k.Length
      invariant forall j | 0 <= j < i :: pad[j] == Mix(k[j], b)
    {
      pad[i] := Mix(k[i], b);
    }
  }

  /** One keyed pass: the padded key, then the message. */
  method KeyedPass(f: Compression, pad: array<byte>, m: seq<byte>) returns (out: seq<byte>)
    ensures out == Digest(f, pad[..] + m)
  {
    hide Ctx.Valid, Digest;
    var c := new Ctx(f);
    c.Update(pad[..]);
    c.Update(m);
    assert ([] + pad[..]) + m == pad[..] + m;
    out := c.Final();
  }

  /** The same pass over a message fed in two parts. */
  method KeyedPass2(f: Compression, pad: array<byte>, a: seq<byte>, b: seq<byte>) returns (out: seq<byte>)
    ensures out == Digest(f, pad[..] + (a + b))
  {
    hide Ctx.Valid, Digest;
    var c := new Ctx(f);
    c.Update(pad[..]);
    c.Update(a);
    c.Update(b);
    assert ([] + pad[..]) + a + b == pad[..] + (a + b);
    out := c.Final();
  }

  /** hmac_sha256. */
  method HmacSha256(f: Compression, key: seq<byte>, msg: seq<byte>) returns (out: seq<byte>)
    ensures out == Mac(f, key, msg)
  {
    hide Digest, PadKey, XorAll;
    var k := PaddedKey(f, key);
    var pad := XorPad(k, 0x36);
    var inner := KeyedPass(f, pad, msg);
    pad := XorPad(k, 0x5c);
    out := KeyedPass(f, pad, inner);
  }

  /** qsave_hmac2 authenticates a || b without building it, and agrees with hmac_sha256 on the joined message. */
  method Hmac2(f: Compression, key: seq<byte>, a: seq<byte>, b: seq<byte>) returns (out: seq<byte>)
    ensures out == Mac(f, key, a + b)
  {
    hide Digest, PadKey, XorAll;
    var k := PaddedKey(f, key);
    var pad := XorPad(k, 0x36);
    var inner := KeyedPass2(f, pad, a, b);
    pad := XorPad(k, 0x5c);
    out := KeyedPass(f, pad, inner);
  }

  lemma OrXorZero(d: byte, a: byte, b: byte)
    ensures (d | Mix(a, b)) == 0 <==> d == 0 && a == b
  {
  }

  /** hmac_sha256_equal: accumulates every difference, with no early exit, and accepts exactly equal tags. */
  method Equal(a: seq<byte>, b: seq<byte>) returns (eq: bool)
    requires |a| == |b|
    ensures eq <==> a == b
  {
    var diff: byte := 0;
    for i := 0 to |a|
      invariant diff == 0 <==> a[..i] == b[..i]
    {
      OrXorZero(diff, a[i], b[i]);
      assert a[..i + 1] == a[..i] + [a[i]] && b[..i + 1] == b[..i] + [b[i]];
      diff := diff | Mix(a[i], b[i]);
    }
    assert a[..|a|] == a && b[..|b|] == b;
    return diff == 0;
  }
}
