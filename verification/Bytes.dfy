/** Octets and fixed-width integers in little- and big-endian order. */
module Bytes {

  type byte = bv8
  type u16 = x: int | 0 <= x < 0x1_0000
  type u32 = x: int | 0 <= x < 0x1_0000_0000
  type u64 = x: int | 0 <= x < 0x1_0000_0000_0000_0000

  function Pow256(n: nat): (p: nat)
    ensures p > 0
  {
    if n == 0 then 1 else 256 * Pow256(n - 1)
  }

  /** The truncating cast to an unsigned octet. */
  function Octet(v: nat): (b: byte)
    ensures b as nat == v % 256
  {
    if v < 256 then v as byte else Octet(v - 256)
  }

  /** The octets of a text. */
  function Ascii(s: string): (r: seq<byte>)
    ensures |r| == |s|
  {
    seq(|s|, i requires 0 <= i < |s| => Octet(s[i] as nat))
  }

  function Mix(a: byte, b: byte): byte { a ^ b }

  /** The low n bytes of v, least significant first: the successive truncating casts of v >> 8i. */
  function Le(v: nat, n: nat): (s: seq<byte>)
    ensures |s| == n
  {
    if n == 0 then [] else [Octet(v)] + Le(v / 256, n - 1)
  }

  function FromLe(s: seq<byte>): nat {
    if s == [] then 0 else s[0] as nat + 256 * FromLe(s[1..])
  }

  function Reverse(s: seq<byte>): (r: seq<byte>)
    ensures |r| == |s|
  {
    if s == [] then [] else Reverse(s[1..]) + [s[0]]
  }

  /** The low n bytes of v, most significant first. */
  function Be(v: nat, n: nat): (s: seq<byte>)
    ensures |s| == n
  {
    Reverse(Le(v, n))
  }

  lemma CharIs(c: char, b: byte)
    requires c as nat == b as nat
    ensures Octet(c as nat) == b
  {
    hide Octet;
    OctetIs(c as nat, b);
  }

  lemma AsciiIs(s: string, b: seq<byte>)
    requires |s| == |b| && forall i | 0 <= i < |s| :: s[i] as nat == b[i] as nat
    ensures Ascii(s) == b
  {
    hide Octet;
    forall i | 0 <= i < |s|
      ensures Ascii(s)[i] == b[i]
    {
      CharIs(s[i], b[i]);
    }
  }

  lemma AsciiConcat(s: string, t: string)
    ensures Ascii(s + t) == Ascii(s) + Ascii(t)
  {
    hide Octet;
  }

  /** Encoding then decoding keeps the value modulo the field width. */
  lemma {:induction false} LeRoundTrip(v: nat, n: nat)
    ensures FromLe(Le(v, n)) == v % Pow256(n)
  {
    hide Octet;
    if n > 0 {
      LeRoundTrip(v / 256, n - 1);
      assert Le(v, n)[1..] == Le(v / 256, n - 1);
      ModSplit(v, Pow256(n - 1));
    }
  }

  lemma ModSplit(v: nat, p: nat)
    requires p > 0
    ensures v % 256 + 256 * ((v / 256) % p) == v % (256 * p)
  {
    var hi, r := (v / 256) / p, v % 256 + 256 * ((v / 256) % p);
    assert (v / 256) % p <= p - 1;
    assert v == 256 * (hi * p + (v / 256) % p) + v % 256;
    assert v == hi * (256 * p) + r;
    ModUnique(v, 256 * p, hi, r);
  }

  lemma DivMod(v: nat, m: nat)
    requires m > 0
    ensures (v / m) * m + v % m == v && v % m < m
  {
  }

  lemma MulSign(d: int, m: int)
    requires m > 0
    ensures d >= 1 ==> d * m >= m
    ensures d <= -1 ==> d * m <= -m
  {
    assert d * m == (d - 1) * m + m == (d + 1) * m - m;
  }

  lemma ModUnique(v: nat, m: nat, q: nat, r: nat)
    requires m > 0 && r < m && v == q * m + r
    ensures v % m == r && v / m == q
  {
    var d := v / m - q;
    assert d * m == (v / m) * m - q * m == r - v % m;
    MulSign(d, m);
  }

  lemma {:induction false} FromLeBound(s: seq<byte>)
    ensures FromLe(s) < Pow256(|s|)
  {
    if s != [] { FromLeBound(s[1..]); }
  }

  lemma OctetIs(v: nat, b: byte)
    requires v % 256 == b as nat
    ensures Octet(v) == b
  {
    hide Octet;
  }

  lemma FromLeStep(s: seq<byte>)
    requires s != []
    ensures FromLe(s) % 256 == s[0] as nat && FromLe(s) / 256 == FromLe(s[1..])
  {
    ModUnique(FromLe(s), 256, FromLe(s[1..]), s[0] as nat);
  }

  /** Decoding then encoding gives the bytes back. */
  lemma {:induction false} LeOfFromLe(s: seq<byte>)
    ensures Le(FromLe(s), |s|) == s
  {
    hide Octet, FromLe;
    if s != [] {
      LeOfFromLe(s[1..]);
      FromLeStep(s);
      OctetIs(FromLe(s), s[0]);
      assert s == [s[0]] + s[1..];
    }
  }

  /** The low n bytes of v see v only modulo 256^n. */
  lemma LeMod(v: nat, n: nat)
    ensures Le(v, n) == Le(v % Pow256(n), n)
  {
    hide Le, FromLe;
    LeRoundTrip(v, n);
    LeOfFromLe(Le(v, n));
  }

  /** A value that fits its field survives the round trip. */
  lemma LeSmall(v: nat, n: nat)
    requires v < Pow256(n)
    ensures FromLe(Le(v, n)) == v
  {
    hide Le, FromLe;
    LeRoundTrip(v, n);
    ModUnique(v, Pow256(n), 0, v);
  }

  lemma FieldSizes()
    ensures Pow256(1) == 0x100 && Pow256(2) == 0x1_0000 && Pow256(4) == 0x1_0000_0000
    ensures Pow256(8) == 0x1_0000_0000_0000_0000
  {
    assert Pow256(4) == 0x1_0000_0000;
    assert Pow256(6) == 0x1_0000_0000_0000;
  }

  lemma DivDiv(v: nat, p: nat)
    requires p > 0
    ensures (v / 256) / p == v / (256 * p)
  {
    var h, q := v / 256, (v / 256) / p;
    DivMod(h, p);
    DivMod(v, 256);
    assert v == q * (256 * p) + (256 * (h % p) + v % 256);
    ModUnique(v, 256 * p, q, 256 * (h % p) + v % 256);
  }

  /** Byte k of the little-endian form has the weight 256^k. */
  lemma {:induction false} LeAt(v: nat, n: nat, k: nat)
    requires k < n
    ensures Le(v, n)[k] as nat == v / Pow256(k) % 256
  {
    hide Octet;
    if k > 0 {
      LeAt(v / 256, n - 1, k - 1);
      DivDiv(v, Pow256(k - 1));
    }
  }

  lemma {:induction false} ReverseAt(s: seq<byte>, k: nat)
    requires k < |s|
    ensures Reverse(s)[k] == s[|s| - 1 - k]
  {
    if k < |s| - 1 { ReverseAt(s[1..], k); }
  }

  /** Byte k of the big-endian form has the weight 256^(n - 1 - k). */
  lemma BeAt(v: nat, n: nat, k: nat)
    requires k < n
    ensures Be(v, n)[k] as nat == v / Pow256(n - 1 - k) % 256
  {
    hide Le, Reverse;
    ReverseAt(Le(v, n), k);
    LeAt(v, n, n - 1 - k);
  }

  /** The four bytes of a 32-bit word, most significant first. */
  lemma Be4(v: nat)
    ensures Be(v, 4) == [Octet(v / 0x100_0000), Octet(v / 0x1_0000), Octet(v / 0x100), Octet(v)]
  {
    hide Be, Octet;
    assert Pow256(1) == 0x100 && Pow256(2) == 0x1_0000 && Pow256(3) == 0x100_0000 && Pow256(0) == 1;
    forall k: nat | k < 4
      ensures Be(v, 4)[k] == Octet(v / Pow256(3 - k))
    {
      BeAt(v, 4, k);
      OctetIs(v / Pow256(3 - k), Be(v, 4)[k]);
    }
  }

  /** The two bytes of a 16-bit word and the four of a 32-bit one, least significant first. */
  lemma Le2And4(v: nat)
    ensures Le(v, 2) == [Octet(v), Octet(v / 0x100)]
    ensures Le(v, 4) == [Octet(v), Octet(v / 0x100), Octet(v / 0x1_0000), Octet(v / 0x100_0000)]
  {
    hide Le, Octet;
    assert Pow256(1) == 0x100 && Pow256(2) == 0x1_0000 && Pow256(3) == 0x100_0000 && Pow256(0) == 1;
    forall n: nat, k: nat | (n == 2 || n == 4) && k < n
      ensures Le(v, n)[k] == Octet(v / Pow256(k))
    {
      LeAt(v, n, k);
      OctetIs(v / Pow256(k), Le(v, n)[k]);
    }
  }

  /** An eight-octet field is two four-octet ones, the lower half first. */
  lemma LeHalves(v: nat)
    ensures Le(v, 8) == Le(v, 4) + Le(v / 0x1_0000_0000, 4)
  {
    hide Le, Octet;
    assert Pow256(4) == 0x1_0000_0000;
    forall k: nat | k < 8
      ensures Le(v, 8)[k] == (Le(v, 4) + Le(v / 0x1_0000_0000, 4))[k]
    {
      LeAt(v, 8, k);
      if k < 4 {
        LeAt(v, 4, k);
        SameValue(Le(v, 8)[k], Le(v, 4)[k]);
      } else {
        LeAt(v / 0x1_0000_0000, 4, k - 4);
        Pow256Add(4, k - 4);
        DivMul(v, 0x1_0000_0000, Pow256(k - 4));
        SameValue(Le(v, 8)[k], Le(v / 0x1_0000_0000, 4)[k - 4]);
      }
    }
  }

  lemma SameValue(a: byte, b: byte)
    requires a as nat == b as nat
    ensures a == b
  {
  }

  lemma {:induction false} Pow256Add(a: nat, b: nat)
    ensures Pow256(a + b) == Pow256(a) * Pow256(b)
  {
    if b > 0 { Pow256Add(a, b - 1); }
  }

  lemma DivMul(v: nat, a: nat, b: nat)
    requires a > 0 && b > 0
    ensures a * b > 0 && v / (a * b) == (v / a) / b
  {
    var h, q := v / a, (v / a) / b;
    DivMod(v, a);
    DivMod(h, b);
    assert a * (h % b) + v % a < a * b by { MulSign(b - h % b, a); assert (b - h % b) * a == a * b - a * (h % b); }
    assert (q * b + h % b) * a == q * (a * b) + a * (h % b);
    ModUnique(v, a * b, q, a * (h % b) + v % a);
  }

  /** Bit by bit, Mix is the sum without carry. */
  lemma MixIs(a: byte, b: byte, mask: byte)
    requires mask in {1, 2, 4, 8, 16, 32, 64, 128}
    ensures Mix(a, b) & mask != 0 <==> (a & mask != 0) != (b & mask != 0)
  {
  }

  /** Write the low `width` bytes of v at off, least significant first. */
  method PutLe(out: array<byte>, off: nat, v: nat, width: nat)
    requires off + width <= out.Length
    modifies out
    ensures out[..off + width] == old(out[..off]) + Le(v, width)
    ensures out[off + width..] == old(out[off + width..])
  {
    var x := v;
    for i := 0 to width
      invariant out[..off + i] + Le(x, width - i) == old(out[..off]) + Le(v, width)
      invariant out[off + width..] == old(out[off + width..])
    {
      ghost var before := out[..off + i];
      out[off + i] := Octet(x);
      assert out[..off + i + 1] == before + [Octet(x)];
      assert Le(x, width - i) == [Octet(x)] + Le(x / 256, width - i - 1);
      x := x / 256;
    }
  }

  method CopyBytes(buf: array<byte>, off: nat, src: seq<byte>)
    requires off + |src| <= buf.Length
    modifies buf
    ensures buf[..off + |src|] == old(buf[..off]) + src
    ensures buf[off + |src|..] == old(buf[off + |src|..])
  {
    for i := 0 to |src|
      invariant buf[..off] == old(buf[..off])
      invariant forall j | 0 <= j < i :: buf[off + j] == src[j]
      invariant buf[off + |src|..] == old(buf[off + |src|..])
    {
      buf[off + i] := src[i];
    }
  }
}
