/** Numbers as ASCII digits: the guest's formatters and the host's int(). */
module Numerals {
  import opened Options
  import opened Bytes

  function Digit(d: nat, upper: bool): byte
    requires d < 16
  {
    if d < 10 then Octet(48 + d) else if upper then Octet(55 + d) else Octet(87 + d)
  }

  function DigitVal(c: byte): (r: Option<nat>)
    ensures r.Some? ==> r.value < 16
  {
    var n := c as nat;
    if 48 <= n <= 57 then Some(n - 48)
    else if 65 <= n <= 70 then Some(n - 55)
    else if 97 <= n <= 102 then Some(n - 87)
    else None
  }

  /** v in the given base, most significant digit first, no leading zeros. */
  function Digits(v: nat, base: nat, upper: bool): (s: seq<byte>)
    requires 2 <= base <= 16
    ensures s != []
  {
    if v < base then [Digit(v, upper)] else Digits(v / base, base, upper) + [Digit(v % base, upper)]
  }

  function Fold(s: seq<byte>, base: nat): Option<nat>
    requires 2 <= base <= 16
  {
    if s == [] then Some(0)
    else
      var hi, lo := Fold(s[..|s| - 1], base), DigitVal(s[|s| - 1]);
      if hi.None? || lo.None? || lo.value >= base then None else Some(hi.value * base + lo.value)
  }

  /** int(s, base) on a string of digits; None where it raises. */
  function ParseInt(s: seq<byte>, base: nat): Option<nat>
    requires 2 <= base <= 16
  {
    if s == [] then None else Fold(s, base)
  }

  lemma DigitRoundTrip(d: nat, upper: bool)
    requires d < 16
    ensures DigitVal(Digit(d, upper)) == Some(d)
  {
    hide Octet;
  }

  /** Formatting then parsing gives the number back, in either letter case. */
  lemma {:induction false} DigitsRoundTrip(v: nat, base: nat, upper: bool)
    requires 2 <= base <= 16
    ensures Fold(Digits(v, base, upper), base) == Some(v) == ParseInt(Digits(v, base, upper), base)
  {
    hide Digit, DigitVal;
    if v < base {
      DigitRoundTrip(v, upper);
      assert [Digit(v, upper)][..0] == [];
    } else {
      DigitsRoundTrip(v / base, base, upper);
      DigitRoundTrip(v % base, upper);
      DivMod(v, base);
      var s := Digits(v, base, upper);
      assert s[..|s| - 1] == Digits(v / base, base, upper);
    }
  }

  /** Every character of a formatted number is a digit. */
  lemma {:induction false} DigitsAreDigits(v: nat, base: nat, upper: bool)
    requires 2 <= base <= 16
    ensures forall c | c in Digits(v, base, upper) :: DigitVal(c).Some?
  {
    hide Digit, DigitVal;
    if v < base {
      DigitRoundTrip(v, upper);
    } else {
      DigitsAreDigits(v / base, base, upper);
      DigitRoundTrip(v % base, upper);
    }
  }

  /** A number below base^k has at most k digits. */
  lemma {:induction false} DigitsShort(v: nat, base: nat, upper: bool, k: nat)
    requires 2 <= base <= 16 && v < Power(base, k) && k > 0
    ensures |Digits(v, base, upper)| <= k
    decreases k
  {
    hide Digit;
    assert Power(base, 1) == base * Power(base, 0) == base;
    if v >= base {
      QuotientBelow(v, base, Power(base, k - 1));
      DigitsShort(v / base, base, upper, k - 1);
    }
  }

  function Power(b: nat, k: nat): nat { if k == 0 then 1 else b * Power(b, k - 1) }

  /** The characters of the digits. */
  lemma DigitIs(d: nat, upper: bool)
    requires d < 16
    ensures Digit(d, upper) as nat ==
            if d < 10 then '0' as nat + d else if upper then 'A' as nat + (d - 10) else 'a' as nat + (d - 10)
  {
    hide Octet;
  }

  lemma DigitValIs(c: byte)
    ensures var n := c as nat;
            DigitVal(c) == if '0' as nat <= n <= '9' as nat then Some(n - '0' as nat)
                           else if 'a' as nat <= n <= 'f' as nat then Some(10 + n - 'a' as nat)
                           else if 'A' as nat <= n <= 'F' as nat then Some(10 + n - 'A' as nat)
                           else None
  {
  }

  /** The digit of weight base^k. */
  function Place(v: nat, base: nat, k: nat): (d: nat)
    requires 2 <= base <= 16
    ensures d < 16
  {
    PowerPositive(base, k);
    v / Power(base, k) % base
  }

  lemma PlaceStep(v: nat, base: nat, k: nat)
    requires 2 <= base <= 16
    ensures Place(v, base, 0) == v % base && (v < base ==> Place(v, base, 0) == v)
    ensures k > 0 ==> Place(v, base, k) == Place(v / base, base, k - 1)
  {
    hide Power;
    PowerUnfold(base, k);
    RemainderSmall(v, base);
    if k > 0 { QuotientTwice(v, base, Power(base, k - 1)); }
  }

  /** The digit k places from the right is the one of weight base^k. */
  lemma {:induction false} DigitsAt(v: nat, base: nat, upper: bool, k: nat)
    requires 2 <= base <= 16 && k < |Digits(v, base, upper)|
    ensures var s := Digits(v, base, upper); s[|s| - 1 - k] == Digit(Place(v, base, k), upper)
    decreases k
  {
    hide Digit, Digits, Place;
    DigitsUnfold(v, base, upper);
    PlaceStep(v, base, k);
    if k > 0 {
      var s, t := Digits(v, base, upper), Digits(v / base, base, upper);
      DigitsAt(v / base, base, upper, k - 1);
      assert s[|s| - 1 - k] == t[|t| - 1 - (k - 1)];
    }
  }

  /** There is no digit too many. */
  lemma {:induction false} DigitsNeeded(v: nat, base: nat, upper: bool, k: nat)
    requires 2 <= base <= 16 && 0 < k < |Digits(v, base, upper)|
    ensures v >= Power(base, k)
    decreases k
  {
    hide Digit, Digits, Power;
    DigitsUnfold(v, base, upper);
    PowerUnfold(base, k);
    if k > 1 { DigitsNeeded(v / base, base, upper, k - 1); }
    QuotientAtLeast(v, base, Power(base, k - 1));
  }

  lemma DigitsUnfold(v: nat, base: nat, upper: bool)
    requires 2 <= base <= 16
    ensures Digits(v, base, upper)
            == if v < base then [Digit(v, upper)] else Digits(v / base, base, upper) + [Digit(v % base, upper)]
    ensures v >= base ==> v / base >= 1
  {
    hide Digit;
  }

  lemma PowerUnfold(base: nat, k: nat)
    requires base > 0
    ensures Power(base, k) > 0 && Power(base, 0) == 1
    ensures k > 0 ==> Power(base, k) == base * Power(base, k - 1) && Power(base, k - 1) > 0
  {
    PowerPositive(base, k);
    if k > 0 { PowerPositive(base, k - 1); }
  }

  lemma RemainderSmall(v: nat, base: nat)
    requires base >= 2
    ensures v / 1 % base == v % base && (v < base ==> v % base == v)
  {
  }

  lemma {:induction false} PowerPositive(b: nat, k: nat)
    requires b > 0
    ensures Power(b, k) > 0
  {
    if k > 0 { PowerPositive(b, k - 1); }
  }

  lemma QuotientTwice(v: nat, b: nat, p: nat)
    requires b > 0 && p > 0
    ensures b * p > 0 && v / b / p == v / (b * p)
  {
    var h := v / b;
    DivMod(v, b);
    DivMod(h, p);
    PlacesSplit(v, b, p, h, h / p, h % p, v % b);
    ModUnique(v, b * p, h / p, b * (h % p) + v % b);
  }

  lemma PlacesSplit(v: nat, b: nat, p: nat, h: nat, q: nat, r: nat, low: nat)
    requires v == h * b + low && h == q * p + r && low < b && r < p
    ensures v == q * (b * p) + (b * r + low) && b * r + low < b * p && b * p > 0
  {
    Places(q, p, r, b);
    MulSign(p - r, b);
    Difference(b, p, r);
  }

  lemma Places(q: int, p: int, r: int, b: int)
    ensures (q * p + r) * b == q * (b * p) + b * r
  {
  }

  lemma Difference(b: int, p: int, r: int)
    ensures (p - r) * b == b * p - b * r
  {
  }

  lemma QuotientAtLeast(v: nat, b: nat, p: nat)
    requires b > 0 && v / b >= p
    ensures v >= b * p
  {
    DivMod(v, b);
    if v / b > p { MulSign(v / b - p, b); }
    Difference(b, v / b, p);
  }

  /** What int() takes: one digit or more, each below the base. */
  lemma {:induction false} ParsesExactly(s: seq<byte>, base: nat)
    requires 2 <= base <= 16
    ensures Fold(s, base).Some? <==> forall c | c in s :: DigitVal(c).Some? && DigitVal(c).value < base
    ensures ParseInt(s, base).Some?
            <==> s != [] && forall c | c in s :: DigitVal(c).Some? && DigitVal(c).value < base
  {
    hide DigitVal;
    if s != [] {
      var t, c := s[..|s| - 1], s[|s| - 1];
      ParsesExactly(t, base);
      assert s == t + [c];
    }
  }

  /** Its value by places, leading zeros included. */
  lemma {:induction false} ParseConcat(s: seq<byte>, t: seq<byte>, base: nat)
    requires 2 <= base <= 16 && Fold(s, base).Some? && Fold(t, base).Some?
    ensures Fold(s + t, base) == Some(Fold(s, base).value * Power(base, |t|) + Fold(t, base).value)
  {
    hide DigitVal, Power;
    if t == [] {
      assert s + t == s;
      PowerUnfold(base, 0);
    } else {
      var u, c := t[..|t| - 1], t[|t| - 1];
      ParseConcat(s, u, base);
      assert (s + t)[..|s + t| - 1] == s + u;
      PowerUnfold(base, |t|);
      Places(Fold(s, base).value, Power(base, |u|), Fold(u, base).value, base);
    }
  }

  lemma QuotientBelow(v: nat, b: nat, p: nat)
    requires b > 0 && v < b * p
    ensures v / b < p
  {
    var d := v / b - p;
    assert d * b == (v / b) * b - p * b == (v - v % b) - b * p;
    MulSign(d, b);
  }

  lemma {:induction false} ReverseSnoc(t: seq<byte>, c: byte)
    ensures Reverse(t + [c]) == [c] + Reverse(t)
  {
    if t == [] {
      assert [] + [c] == [c];
      assert Reverse([c]) == Reverse([c][1..]) + [c];
    } else {
      ReverseSnoc(t[1..], c);
      assert (t + [c])[1..] == t[1..] + [c];
      assert [c] + Reverse(t[1..]) + [t[0]] == [c] + (Reverse(t[1..]) + [t[0]]);
    }
  }

  /** put_hex_u64 / ghost_put_u / put_u64: digits collected backwards in a scratch buffer, then reversed out. */
  method Put(b: seq<byte>, v: nat, base: nat, upper: bool) returns (r: seq<byte>)
    requires 2 <= base <= 16
    ensures r == b + Digits(v, base, upper)
  {
    if v == 0 {
      return b + [Digit(0, upper)];
    }
    var t := Backwards(v, base, upper);
    hide Reverse, Digits;
    r := b;
    var n: nat := |t|;
    assert t[..n] == t;
    while n > 0
      invariant n <= |t| && r + Reverse(t[..n]) == b + Reverse(t)
    {
      ReverseSnoc(t[..n - 1], t[n - 1]);
      assert t[..n] == t[..n - 1] + [t[n - 1]];
      assert r + ([t[n - 1]] + Reverse(t[..n - 1])) == (r + [t[n - 1]]) + Reverse(t[..n - 1]);
      n := n - 1;
      r := r + [t[n]];
    }
    EmptyReverse();
    assert r + [] == r;
  }

  /** Least significant digit first. */
  method Backwards(v: nat, base: nat, upper: bool) returns (t: seq<byte>)
    requires 2 <= base <= 16 && v > 0
    ensures Reverse(t) == Digits(v, base, upper)
  {
    hide Digit, Reverse, Digits;
    var x: nat := v;
    t := [];
    EmptyReverse();
    assert Front(v, base, upper) + [] == Digits(v, base, upper) by { FrontStep(v, base, upper); }
    while x > 0
      invariant Front(x, base, upper) + Reverse(t) == Digits(v, base, upper)
    {
      ReverseSnoc(t, Digit(x % base, upper));
      FrontStep(x, base, upper);
      assert (Front(x / base, base, upper) + [Digit(x % base, upper)]) + Reverse(t)
          == Front(x / base, base, upper) + ([Digit(x % base, upper)] + Reverse(t));
      t := t + [Digit(x % base, upper)];
      x := x / base;
    }
    assert [] + Reverse(t) == Reverse(t);
  }

  /** The digits still to be collected. */
  ghost function Front(x: nat, base: nat, upper: bool): seq<byte>
    requires 2 <= base <= 16
  {
    if x == 0 then [] else Digits(x, base, upper)
  }

  lemma FrontStep(x: nat, base: nat, upper: bool)
    requires 2 <= base <= 16 && x > 0
    ensures x / base < x
    ensures Front(x, base, upper) == Front(x / base, base, upper) + [Digit(x % base, upper)] == Digits(x, base, upper)
  {
    hide Digit;
    if x < base { assert x / base == 0 && x % base == x; }
  }

  lemma EmptyReverse()
    ensures Reverse([]) == []
  {
  }
}
