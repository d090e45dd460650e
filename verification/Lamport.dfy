/** The hash-based one-time signature over the boot attestation, signed by the guest and verified by the host. */
module Lamport {
  import opened Bytes
  import opened Sha256
  import opened Hmac
  import opened QsvBits

  const BITS := 256
  const HASH_LEN := 32
  const SIG_ELEM := 64
  const SIG_LEN := 16384

  /** Bit i of the message digest, as (md[i >> 3] >> (i & 7)) & 1. */
  function BitOf(md: seq<byte>, i: nat): bool
    requires |md| == HASH_LEN && i < BITS
  {
    (md[i / 8] >> (i % 8)) & 1 == 1
  }

  predicate Shifted(b: byte, s: nat)
    requires s < 8
  {
    (b >> s) & 1 == 1
  }

  lemma {:induction false} BitShift(b: byte, s: nat, v: nat)
    requires s < 8 && v == b as nat
    ensures Shifted(b, s) <==> Bit(v, s) == 1
    decreases s
  {
    hide Shifted;
    if s > 0 {
      ShiftOne(b, s);
      BitShift(b >> 1, s - 1, v / 2);
    } else {
      LowBit(b);
    }
  }

  lemma ShiftOne(b: byte, s: nat)
    requires 0 < s < 8
    ensures Shifted(b, s) == Shifted(b >> 1, s - 1) && (b >> 1) as nat == b as nat / 2
  {
  }

  lemma LowBit(b: byte)
    ensures Shifted(b, 0) <==> b as nat % 2 == 1
  {
  }

  /** Bit i has the weight 2^(i mod 8) in octet i / 8. */
  lemma BitOfIs(md: seq<byte>, i: nat)
    requires |md| == HASH_LEN && i < BITS
    ensures BitOf(md, i) <==> md[i / 8] as nat / Pow2(i % 8) % 2 == 1
  {
    hide Bit, Pow2;
    BitShift(md[i / 8], i % 8, md[i / 8] as nat);
    BitIs(md[i / 8] as nat, i % 8);
    assert BitOf(md, i) == Shifted(md[i / 8], i % 8);
  }

  lemma SameOctet(x: byte, y: byte)
    requires forall q: nat | q < 8 :: Shifted(x, q) == Shifted(y, q)
    ensures x == y
  {
    assert Shifted(x, 0) == Shifted(y, 0) && Shifted(x, 1) == Shifted(y, 1) && Shifted(x, 2) == Shifted(y, 2);
    assert Shifted(x, 3) == Shifted(y, 3) && Shifted(x, 4) == Shifted(y, 4) && Shifted(x, 5) == Shifted(y, 5);
    assert Shifted(x, 6) == Shifted(y, 6) && Shifted(x, 7) == Shifted(y, 7);
  }

  /** The 256 bits determine the digest. */
  lemma BitsDetermineDigest(a: seq<byte>, b: seq<byte>)
    requires |a| == |b| == HASH_LEN && forall i: nat | i < BITS :: BitOf(a, i) == BitOf(b, i)
    ensures a == b
  {
    forall k | 0 <= k < HASH_LEN
      ensures a[k] == b[k]
    {
      forall q: nat | q < 8
        ensures Shifted(a[k], q) == Shifted(b[k], q)
      {
        assert (8 * k + q) / 8 == k && (8 * k + q) % 8 == q;
        assert BitOf(a, 8 * k + q) == BitOf(b, 8 * k + q);
      }
      SameOctet(a[k], b[k]);
    }
  }

  /** sk[i][b] = H(seed, be32(i), b) */
  function Sk(f: Compression, seed: seq<byte>, i: nat, b: bool): (r: seq<byte>)
    ensures |r| == HASH_LEN
  {
    Digest(f, seed + (Be(i, 4) + [if b then 1 else 0]))
  }

  function Pk(f: Compression, seed: seq<byte>, i: nat, b: bool): (r: seq<byte>)
    ensures |r| == HASH_LEN
  {
    Digest(f, Sk(f, seed, i, b))
  }

  /** pk[0][0], pk[0][1], ..., pk[n-1][1] */
  function PkStream(f: Compression, seed: seq<byte>, n: nat): (r: seq<byte>)
    ensures |r| == SIG_ELEM * n
  {
    if n == 0 then [] else PkStream(f, seed, n - 1) + (Pk(f, seed, n - 1, false) + Pk(f, seed, n - 1, true))
  }

  /** The revealed preimage for the message bit, and the public hash of the other one. */
  function Element(f: Compression, seed: seq<byte>, md: seq<byte>, i: nat): (r: seq<byte>)
    requires |md| == HASH_LEN && i < BITS
    ensures |r| == SIG_ELEM
  {
    Sk(f, seed, i, BitOf(md, i)) + Pk(f, seed, i, !BitOf(md, i))
  }

  function Signature(f: Compression, seed: seq<byte>, md: seq<byte>, n: nat): (r: seq<byte>)
    requires |md| == HASH_LEN && n <= BITS
    ensures |r| == SIG_ELEM * n
  {
    if n == 0 then [] else Signature(f, seed, md, n - 1) + Element(f, seed, md, n - 1)
  }

  // ---- the host verifier ----

  /** The two public hashes the host rebuilds from one signature element. */
  function Rebuilt(f: Compression, elem: seq<byte>, bit: bool): (r: seq<byte>)
    requires |elem| == SIG_ELEM
    ensures |r| == SIG_ELEM
  {
    if bit then elem[HASH_LEN..] + Digest(f, elem[..HASH_LEN]) else Digest(f, elem[..HASH_LEN]) + elem[HASH_LEN..]
  }

  function HostStream(f: Compression, md: seq<byte>, sig: seq<byte>, n: nat): (r: seq<byte>)
    requires |md| == HASH_LEN && n <= BITS && SIG_ELEM * n <= |sig|
    ensures |r| == SIG_ELEM * n
  {
    if n == 0 then []
    else HostStream(f, md, sig, n - 1) + Rebuilt(f, sig[SIG_ELEM * (n - 1)..SIG_ELEM * n], BitOf(md, n - 1))
  }

  predicate Verifies(f: Compression, msg: seq<byte>, pkDigest: seq<byte>, sig: seq<byte>) {
    |sig| == SIG_LEN && |pkDigest| == HASH_LEN && Digest(f, HostStream(f, Digest(f, msg), sig, BITS)) == pkDigest
  }

  lemma RebuiltElement(f: Compression, seed: seq<byte>, md: seq<byte>, i: nat)
    requires |md| == HASH_LEN && i < BITS
    ensures Rebuilt(f, Element(f, seed, md, i), BitOf(md, i)) == Pk(f, seed, i, false) + Pk(f, seed, i, true)
  {
    hide Digest, BitOf, Be;
    var e := Element(f, seed, md, i);
    assert e[..HASH_LEN] == Sk(f, seed, i, BitOf(md, i)) && e[HASH_LEN..] == Pk(f, seed, i, !BitOf(md, i));
  }

  /** Element i of a signature that agrees with ours up to n. */
  lemma {:induction false} SignatureAt(f: Compression, seed: seq<byte>, md: seq<byte>, n: nat, i: nat)
    requires |md| == HASH_LEN && i < n <= BITS
    ensures Signature(f, seed, md, n)[SIG_ELEM * i..SIG_ELEM * (i + 1)] == Element(f, seed, md, i)
  {
    hide Element;
    if i < n - 1 {
      SignatureAt(f, seed, md, n - 1, i);
      assert Signature(f, seed, md, n)[SIG_ELEM * i..SIG_ELEM * (i + 1)]
        == Signature(f, seed, md, n - 1)[SIG_ELEM * i..SIG_ELEM * (i + 1)];
    }
  }

  lemma {:induction false} HostRebuilds(f: Compression, seed: seq<byte>, md: seq<byte>, n: nat)
    requires |md| == HASH_LEN && n <= BITS
    ensures HostStream(f, md, Signature(f, seed, md, BITS), n) == PkStream(f, seed, n)
  {
    hide Signature, Element, Rebuilt, BitOf, Pk;
    if n > 0 {
      HostRebuilds(f, seed, md, n - 1);
      SignatureAt(f, seed, md, BITS, n - 1);
      RebuiltElement(f, seed, md, n - 1);
    }
  }

  /** Every message signed under any seed verifies against the published digest. */
  lemma SignedVerifies(f: Compression, seed: seq<byte>, msg: seq<byte>)
    ensures Verifies(f, msg, Digest(f, PkStream(f, seed, BITS)), Signature(f, seed, Digest(f, msg), BITS))
  {
    hide Digest, HostStream, PkStream, Signature;
    HostRebuilds(f, seed, Digest(f, msg), BITS);
  }

  /** The secret for bit value b of position i: the digest of the seed, the position with its most significant octet
      first, and the bit. */
  lemma SkLayout(f: Compression, seed: seq<byte>, i: nat)
    ensures var p := [Octet(i / 0x100_0000), Octet(i / 0x1_0000), Octet(i / 0x100), Octet(i)];
            Sk(f, seed, i, false) == Digest(f, seed + (p + [0])) && Sk(f, seed, i, true) == Digest(f, seed + (p + [1]))
  {
    hide Digest, Be, Octet;
    Be4(i);
  }

  /** The published stream: for each position the hash of the secret for 0, then that of the secret for 1. */
  lemma {:induction false} PkStreamAt(f: Compression, seed: seq<byte>, n: nat, i: nat)
    requires i < n
    ensures PkStream(f, seed, n)[64 * i..64 * i + 32] == Digest(f, Sk(f, seed, i, false))
    ensures PkStream(f, seed, n)[64 * i + 32..64 * i + 64] == Digest(f, Sk(f, seed, i, true))
  {
    hide Sk, Digest;
    var before := PkStream(f, seed, n - 1);
    if i < n - 1 {
      PkStreamAt(f, seed, n - 1, i);
      assert PkStream(f, seed, n)[64 * i..64 * i + 32] == before[64 * i..64 * i + 32];
      assert PkStream(f, seed, n)[64 * i + 32..64 * i + 64] == before[64 * i + 32..64 * i + 64];
    }
  }

  /** Where two inputs differ and hash alike. */
  ghost predicate Collision(f: Compression, x: seq<byte>, y: seq<byte>) {
    x != y && Digest(f, x) == Digest(f, y)
  }

  /** A signature the host accepts for any message is the genuine one for that message, unless it exhibits a
      collision against the published key stream or against one of the secret preimages it should reveal. */
  lemma AcceptedIsGenuine(f: Compression, seed: seq<byte>, msg: seq<byte>, sig: seq<byte>)
    requires Verifies(f, msg, Digest(f, PkStream(f, seed, BITS)), sig)
    ensures var md := Digest(f, msg);
            || sig == Signature(f, seed, md, BITS)
            || Collision(f, HostStream(f, md, sig, BITS), PkStream(f, seed, BITS))
            || exists i: nat :: i < BITS
                 && Collision(f, sig[SIG_ELEM * i..SIG_ELEM * (i + 1)][..HASH_LEN], Sk(f, seed, i, BitOf(md, i)))
  {
    hide Digest, HostStream, PkStream, Signature, Sk, Pk, BitOf;
    var md := Digest(f, msg);
    if HostStream(f, md, sig, BITS) == PkStream(f, seed, BITS) &&
       forall i: nat | i < BITS ::
         !Collision(f, sig[SIG_ELEM * i..SIG_ELEM * (i + 1)][..HASH_LEN], Sk(f, seed, i, BitOf(md, i))) {
      StreamsEqual(f, seed, md, sig, BITS);
      assert sig[..SIG_LEN] == sig;
    }
  }

  lemma {:induction false} StreamsEqual(f: Compression, seed: seq<byte>, md: seq<byte>, sig: seq<byte>, n: nat)
    requires |md| == HASH_LEN && n <= BITS && |sig| == SIG_LEN
    requires HostStream(f, md, sig, n) == PkStream(f, seed, n)
    requires forall i: nat | i < BITS ::
               !Collision(f, sig[SIG_ELEM * i..SIG_ELEM * (i + 1)][..HASH_LEN], Sk(f, seed, i, BitOf(md, i)))
    ensures sig[..SIG_ELEM * n] == Signature(f, seed, md, n)
  {
    hide Digest, Sk, BitOf, Rebuilt, Pk, Element;
    if n > 0 {
      var a, b := HostStream(f, md, sig, n), PkStream(f, seed, n);
      var e := sig[SIG_ELEM * (n - 1)..SIG_ELEM * n];
      assert a[..SIG_ELEM * (n - 1)] == HostStream(f, md, sig, n - 1)
        && b[..SIG_ELEM * (n - 1)] == PkStream(f, seed, n - 1);
      assert a[SIG_ELEM * (n - 1)..] == Rebuilt(f, e, BitOf(md, n - 1));
      assert b[SIG_ELEM * (n - 1)..] == Pk(f, seed, n - 1, false) + Pk(f, seed, n - 1, true);
      StreamsEqual(f, seed, md, sig, n - 1);
      ElementForced(f, seed, md, n - 1, e);
      assert sig[..SIG_ELEM * n] == sig[..SIG_ELEM * (n - 1)] + e;
    }
  }

  lemma ElementForced(f: Compression, seed: seq<byte>, md: seq<byte>, i: nat, e: seq<byte>)
    requires |md| == HASH_LEN && i < BITS && |e| == SIG_ELEM
    requires Rebuilt(f, e, BitOf(md, i)) == Pk(f, seed, i, false) + Pk(f, seed, i, true)
    requires !Collision(f, e[..HASH_LEN], Sk(f, seed, i, BitOf(md, i)))
    ensures e == Element(f, seed, md, i)
  {
    hide Digest, Sk, BitOf;
    var r := Rebuilt(f, e, BitOf(md, i));
    assert r[..HASH_LEN] == Pk(f, seed, i, false) && r[HASH_LEN..] == Pk(f, seed, i, true);
    assert e == e[..HASH_LEN] + e[HASH_LEN..];
  }

  /** Octet by octet of the signature: at position i the secret for the message's bit, whose weight in octet i / 8 is
      2^(i mod 8), then the hash of the secret for the other value. */
  lemma SignatureReveals(f: Compression, seed: seq<byte>, md: seq<byte>, i: nat)
    requires |md| == HASH_LEN && i < BITS
    ensures var sig, b := Signature(f, seed, md, BITS), md[i / 8] as nat / Pow2(i % 8) % 2 == 1;
            && sig[64 * i..64 * i + 32] == Sk(f, seed, i, b)
            && sig[64 * i + 32..64 * i + 64] == Digest(f, Sk(f, seed, i, !b))
  {
    hide Sk, Digest, BitOf, Signature, Pow2;
    SignatureAt(f, seed, md, BITS, i);
    BitOfIs(md, i);
    var sig, e := Signature(f, seed, md, BITS), Element(f, seed, md, i);
    assert sig[64 * i..64 * (i + 1)] == e;
    assert sig[64 * i..64 * i + 32] == e[..32] && sig[64 * i + 32..64 * i + 64] == e[32..];
  }

  /** The two secrets of position i hash alike. */
  ghost predicate TwinSecrets(f: Compression, seed: seq<byte>, i: nat) {
    Collision(f, seed + (Be(i, 4) + [0]), seed + (Be(i, 4) + [1]))
  }

  lemma SecretsDiffer(f: Compression, seed: seq<byte>, i: nat)
    ensures Sk(f, seed, i, false) == Sk(f, seed, i, true) ==> TwinSecrets(f, seed, i)
  {
    hide Digest, Be;
    var x, y := seed + (Be(i, 4) + [0]), seed + (Be(i, 4) + [1]);
    assert x[|x| - 1] == 0 && y[|y| - 1] == 1;
  }

  /** Equal signatures of different digests: at a bit in which the digests differ the two secrets are equal. */
  lemma SignatureDetermines(f: Compression, seed: seq<byte>, a: seq<byte>, b: seq<byte>)
    requires |a| == |b| == HASH_LEN && Signature(f, seed, a, BITS) == Signature(f, seed, b, BITS)
    ensures a == b || exists i: nat :: i < BITS && TwinSecrets(f, seed, i)
  {
    hide Digest, Sk, Pk, BitOf, Signature, TwinSecrets;
    if forall i: nat | i < BITS :: BitOf(a, i) == BitOf(b, i) {
      BitsDetermineDigest(a, b);
    } else {
      var i: nat :| i < BITS && BitOf(a, i) != BitOf(b, i);
      SignatureAt(f, seed, a, BITS, i);
      SignatureAt(f, seed, b, BITS, i);
      var d, e := Element(f, seed, a, i), Element(f, seed, b, i);
      assert d[..HASH_LEN] == Sk(f, seed, i, BitOf(a, i)) && e[..HASH_LEN] == Sk(f, seed, i, BitOf(b, i));
      SecretsDiffer(f, seed, i);
    }
  }

  /** The signature exhibits a collision against the published stream or a second preimage of a secret it reveals. */
  ghost predicate Exhibits(f: Compression, seed: seq<byte>, md: seq<byte>, sig: seq<byte>)
    requires |md| == HASH_LEN && |sig| == SIG_LEN
  {
    || Collision(f, HostStream(f, md, sig, BITS), PkStream(f, seed, BITS))
    || exists i: nat :: i < BITS
         && Collision(f, sig[SIG_ELEM * i..SIG_ELEM * (i + 1)][..HASH_LEN], Sk(f, seed, i, BitOf(md, i)))
  }

  lemma GenuineOrExhibits(f: Compression, seed: seq<byte>, msg: seq<byte>, sig: seq<byte>)
    requires Verifies(f, msg, Digest(f, PkStream(f, seed, BITS)), sig)
    ensures sig == Signature(f, seed, Digest(f, msg), BITS) || Exhibits(f, seed, Digest(f, msg), sig)
  {
    hide Digest, HostStream, PkStream, Signature, Sk, BitOf, Collision;
    AcceptedIsGenuine(f, seed, msg, sig);
  }

  /** The signature of one message is accepted for another only if their digests are equal or an explicit collision is
      at hand. */
  lemma SignatureBindsMessage(f: Compression, seed: seq<byte>, msg: seq<byte>, other: seq<byte>)
    requires Verifies(f, other, Digest(f, PkStream(f, seed, BITS)), Signature(f, seed, Digest(f, msg), BITS))
    ensures || Digest(f, msg) == Digest(f, other)
            || Exhibits(f, seed, Digest(f, other), Signature(f, seed, Digest(f, msg), BITS))
            || exists i: nat :: i < BITS && TwinSecrets(f, seed, i)
  {
    hide Digest, HostStream, PkStream, Signature, Sk, BitOf, TwinSecrets, Verifies, Collision, Exhibits;
    GenuineOrExhibits(f, seed, other, Signature(f, seed, Digest(f, msg), BITS));
    if Signature(f, seed, Digest(f, msg), BITS) == Signature(f, seed, Digest(f, other), BITS) {
      SignatureDetermines(f, seed, Digest(f, msg), Digest(f, other));
    }
  }

  // ---- the streaming implementations ----

  /** expand_sk */
  method ExpandSk(f: Compression, seed: seq<byte>, i: nat, b: bool) returns (out: seq<byte>)
    ensures out == Sk(f, seed, i, b)
  {
    hide Digest, Ctx.Valid, Be;
    var c := new Ctx(f);
    c.Update(seed);
    c.Update(Be(i, 4) + [if b then 1 else 0]);
    assert ([] + seed) + (Be(i, 4) + [if b then 1 else 0]) == seed + (Be(i, 4) + [if b then 1 else 0]);
    out := c.Final();
  }

  /** compute_pubkey_digest: the 16 KB key stream is hashed as it is produced. */
  method ComputePubkeyDigest(f: Compression, seed: seq<byte>) returns (out: seq<byte>)
    ensures out == Digest(f, PkStream(f, seed, BITS))
  {
    hide Digest, Ctx.Valid, Sk;
    var c := new Ctx(f);
    for i := 0 to BITS
      invariant c.Valid() && c.f == f && c.msg == PkStream(f, seed, i) && fresh(c) && fresh(c.buf)
    {
      ghost var before := c.msg;
      var sk := ExpandSk(f, seed, i, false);
      var pk := Sha256Of(f, sk);
      c.Update(pk);
      sk := ExpandSk(f, seed, i, true);
      pk := Sha256Of(f, sk);
      c.Update(pk);
      assert c.msg == before + (Pk(f, seed, i, false) + Pk(f, seed, i, true));
    }
    out := c.Final();
  }

  /** verify_lamport */
  method VerifyLamport(f: Compression, msg: seq<byte>, pkDigest: seq<byte>, sig: seq<byte>) returns (ok: bool)
    ensures ok == Verifies(f, msg, pkDigest, sig)
  {
    hide Digest;
    if |sig| != SIG_LEN {
      return false;
    }
    if |pkDigest| != HASH_LEN {
      return false;
    }
    var md := Sha256Of(f, msg);
    var stream: seq<byte> := [];
    for i := 0 to BITS
      invariant stream == HostStream(f, md, sig, i)
    {
      var elem := sig[SIG_ELEM * i..SIG_ELEM * (i + 1)];
      var preimage, comp := elem[..HASH_LEN], elem[HASH_LEN..];
      var pk := Sha256Of(f, preimage);
      if BitOf(md, i) {
        stream := stream + (comp + pk);
      } else {
        stream := stream + (pk + comp);
      }
    }
    var d := Sha256Of(f, stream);
    return d == pkDigest;
  }
}
