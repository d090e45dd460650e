/** The fixed-point resolver: a damped integer reciprocal iteration and a circular integer smoothing. */
module Paradox {
  import opened Int32

  const Q16_ONE: int := 65536
  const EPS := 4
  const MAX_ITERS: nat := 64
  const VK: nat := 4

  /** C's division: the quotient rounded toward zero. */
  function Tdiv(a: int, b: int): (q: int)
    requires b != 0
  {
    var q := (if a < 0 then -a else a) / (if b < 0 then -b else b);
    if (a < 0) == (b < 0) then q else -q
  }

  // ---- the scalar rule ----

  /** q16_recip, every int32 negation and cast wrapping. */
  function Recip(x: int32): int32
    requires x != 0
  {
    var half := if x > 0 then Tdiv(x, 2) else Wrap32(-Tdiv(Wrap32(-(x as int)), 2));
    Wrap32(Tdiv(Q16_ONE * Q16_ONE + half, x))
  }

  function Next(x: int32): int32
    requires x != 0
  {
    Wrap32(Tdiv(x + Recip(x), 2))
  }

  function Change(x: int32, nx: int32): int32 {
    var d := Wrap32(nx - x);
    if d < 0 then Wrap32(-(d as int)) else d
  }

  /** q is 2^32 + half divided by m, rounded down. */
  ghost predicate Quotient(m: int, half: int, q: int) {
    q * m <= 0x1_0000_0000 + half < q * m + m
  }

  /** The rounding term and the fixed point on each side: to nearest for positive values, and a whole unit
      lower for negative ones. */
  ghost predicate Sided(m: int, half: int, b: int) {
    (b == 65536 && half == m / 2) || (b == 65535 && half == -(m / 2))
  }

  lemma MulLess(k: int, q: int, m: int)
    requires m > 0 && k * m < q * m
    ensures k < q
  {
  }

  lemma Square(m: int, b: int)
    ensures (m - b) * (m - b) == m * m - 2 * (b * m) + b * b
    ensures (m - b) * (m - b) >= 0
  {
  }

  /** Both roundings cost less than one unit: the mean of m and its rounded reciprocal is at least b. */
  lemma MeanBound(m: int, half: int, q: int, b: int)
    requires m > 0 && Quotient(m, half, q) && Sided(m, half, b)
    ensures m + q >= 2 * b
  {
    Square(m, 65536);
    assert (2 * b - 1 - m) * m == 2 * (b * m) - m - m * m;
    MulLess(2 * b - 1 - m, q, m);
  }

  /** The excess over b after a step, against the excess before it. */
  lemma ExcessBound(m: int, half: int, q: int, b: int)
    requires m >= 65530 && Quotient(m, half, q) && Sided(m, half, b)
    ensures 4 * (m * ((m + q) / 2 - b)) <= 2 * ((m - b) * (m - b)) + 3 * m + 64
  {
    var h := (m + q) / 2;
    Square(m, b);
    MulAtLeast(2 * h, m + q, m);
    assert (2 * h) * m == 2 * (h * m) && (m + q) * m == m * m + q * m;
    assert m * (h - b) == h * m - b * m;
    assert 2 * (0x1_0000_0000 + half) <= 2 * (b * b) + 3 * m + 64;
  }

  lemma MulAtLeast(a: int, b: int, m: int)
    requires m >= 0 && a <= b
    ensures a * m <= b * m
  {
  }

  /** Where the first step can land. */
  lemma FirstBound(m: int, half: int, q: int)
    requires 3 <= m <= 0x7FFF_FFFF && Quotient(m, half, q) && -m <= 2 * half <= m
    ensures 0 <= q < 0x7000_0000 && m + q <= 0x8000_2000
  {
    MulLess(-1, q, m);
    if m <= 0x10_0000 {
      assert q * 3 <= q * m by { MulAtLeast(3, m, q); }
    } else {
      assert q * 0x10_0000 <= q * m by { MulAtLeast(0x10_0000, m, q); }
    }
  }

  function Mag(x: int32): nat { if x < 0 then -(x as int) else x }

  /** The fixed point a seed of this sign settles on. */
  function Base(x: int32): int { if x > 0 then 65536 else 65535 }

  lemma Divides(a: nat, m: int) returns (q: int)
    requires m > 0
    ensures 0 <= q && q * m <= a < q * m + m
    ensures Tdiv(a, m) == q && Tdiv(a, -m) == -q
  {
    q := a / m;
  }

  lemma RecipOf(x: int32, half: int, q: int)
    requires x >= 3 || INT32_MIN < x <= -3
    requires half == (if x > 0 then Mag(x) / 2 else 0 - Mag(x) / 2)
    requires Tdiv(0x1_0000_0000 + half, x) == (if x > 0 then q else -q) && 0 <= q < 0x7000_0000
    ensures Recip(x) == if x > 0 then q else -q
  {
  }

  /** What a step does to the magnitude: the same rounded mean on both sides, without a wrap. */
  lemma StepMean(x: int32) returns (half: int, q: int)
    requires x >= 3 || INT32_MIN < x <= -3
    ensures Sided(Mag(x), half, Base(x)) && Quotient(Mag(x), half, q) && 0 <= q < 0x7000_0000
    ensures Mag(x) + q <= 0x8000_2000
    ensures Recip(x) == if x > 0 then q else -q
    ensures Next(x) == if x > 0 then (x + q) / 2 else -((q - x) / 2)
  {
    hide Tdiv, Recip, Wrap32;
    var m: int := Mag(x);
    half := if x > 0 then m / 2 else -(m / 2);
    q := Divides(0x1_0000_0000 + half, m);
    FirstBound(m, half, q);
    RecipOf(x, half, q);
    Halved(x, q);
  }

  lemma Halved(x: int32, q: int)
    requires x != 0 && 0 <= q < 0x7000_0000 && Mag(x) + q <= 0x8000_2000
    requires Recip(x) == if x > 0 then q else -q
    ensures Next(x) == if x > 0 then (x + q) / 2 else -((q - x) / 2)
  {
    hide Recip;
  }

  /** The reciprocal of a positive seed is 2^32 / x to the nearest integer, that of a negative one in magnitude the
      same quotient less a half, rounded down; the step is the mean of the two, in magnitude rounded down. */
  lemma RecipIs(x: int32)
    requires x >= 3 || INT32_MIN < x <= -3
    ensures var r, m, n := Recip(x) as int, x as int, Next(x) as int;
            && (x > 0 ==> r * m <= 0x1_0000_0000 + m / 2 < r * m + m && 2 * n <= m + r <= 2 * n + 1)
            && (x < 0 ==> (-r) * (-m) <= 0x1_0000_0000 - (-m) / 2 < (-r) * (-m) + (-m)
                          && 2 * (-n) <= (-m) + (-r) <= 2 * (-n) + 1)
  {
    hide Recip, Next;
    var half, q := StepMean(x);
  }

  /** One step keeps the sign, lands on or beyond the fixed point and contracts the excess. */
  lemma StepLands(x: int32)
    requires x >= 3 || INT32_MIN < x <= -3
    ensures Next(x) != 0 && (Next(x) > 0 <==> x > 0)
    ensures Base(x) <= Mag(Next(x)) <= Base(x) + Cap(0)
    ensures Mag(x) >= 65530 ==>
              4 * (Mag(x) * (Mag(Next(x)) - Base(x)))
              <= 2 * ((Mag(x) - Base(x)) * (Mag(x) - Base(x))) + 3 * Mag(x) + 64
  {
    hide Next;
    var half, q := StepMean(x);
    MeanBound(Mag(x), half, q, Base(x));
    if Mag(x) >= 65530 { ExcessBound(Mag(x), half, q, Base(x)); }
  }

  /** An upper bound on the excess after k + 1 steps, from any seed. */
  function Cap(k: nat): nat {
    if k == 0 then 0x4000_1000 else Cap(k - 1) * Cap(k - 1) / (2 * (65535 + Cap(k - 1))) + 1
  }

  lemma DivBound(a: int, b: int, c: int)
    requires b > 0 && a * b <= c
    ensures a <= c / b
  {
    if a > c / b { assert (c / b + 1) * b <= a * b by { MulAtLeast(c / b + 1, a, b); } }
  }

  lemma Assoc(a: int, b: int, c: int)
    ensures a * b * c == a * (b * c)
  {
  }

  lemma Distributes(a: int, b: int, c: int)
    ensures a * (b + c) == a * b + a * c
  {
  }

  lemma CrossBound(e: nat, cap: nat, c: nat)
    requires e <= cap
    ensures e * e * (c + cap) <= cap * cap * (c + e)
  {
    var ee, pp, ec := e * e, cap * cap, e * cap;
    MulAtLeast(e, cap, e);
    MulAtLeast(e, cap, cap);
    MulAtLeast(ee, pp, c);
    MulAtLeast(e, cap, ec);
    assert ee * cap == e * ec by { Assoc(e, e, cap); }
    assert pp * e == cap * ec by { Assoc(cap, cap, e); }
    Distributes(ee, c, cap);
    Distributes(pp, c, e);
  }

  lemma Scale(d: nat, w: nat, m: nat, ee: nat, pp: nat)
    requires m > 0 && 2 * (m * d) <= ee && ee * w <= pp * m
    ensures d * (2 * w) <= pp
  {
    MulAtLeast(2 * (m * d), ee, w);
    assert 2 * (m * d) * w == (d * (2 * w)) * m;
    if d * (2 * w) > pp { MulAtLeast(pp + 1, d * (2 * w), m); }
  }

  /** The contraction is monotone in the excess. */
  lemma Contracts(e: nat, cap: nat, m: nat, e': nat)
    requires e <= cap && m >= 65535 + e
    requires 4 * (m * e') <= 2 * (e * e) + 3 * m + 64
    ensures e' <= cap * cap / (2 * (65535 + cap)) + 1
  {
    if e' > 0 {
      var d, w := e' - 1, 65535 + cap;
      Distributes(m, d, 1);
      HalfExcess(m * d, m * e', m, e * e);
      CrossBound(e, cap, 65535);
      MulChain(e * e, w, cap * cap, 65535 + e, m);
      Scale(d, w, m, e * e, cap * cap);
      DivBound(d, 2 * w, cap * cap);
    }
  }

  lemma HalfExcess(md: int, me: int, m: int, ee: int)
    requires me == md + m && m >= 65535 && 4 * me <= 2 * ee + 3 * m + 64
    ensures 2 * md <= ee
  {
  }

  lemma MulChain(ee: nat, w: nat, pp: nat, low: nat, m: nat)
    requires ee * w <= pp * low && low <= m
    ensures ee * w <= pp * m
  {
    MulAtLeast(low, m, pp);
  }

  lemma CapStep(k: nat, c: nat, d: nat)
    requires Cap(k) == c && d > 0 && (d - 1) * (2 * (65535 + c)) <= c * c < d * (2 * (65535 + c))
    ensures Cap(k + 1) == d
  {
    hide Cap;
    assert Cap(k + 1) == c * c / (2 * (65535 + c)) + 1 by { CapUnfold(k); }
    DivIs(c * c, 2 * (65535 + c), d - 1);
  }

  lemma CapUnfold(k: nat)
    ensures Cap(k + 1) == Cap(k) * Cap(k) / (2 * (65535 + Cap(k))) + 1
  {
  }

  lemma DivIs(a: int, b: int, q: int)
    requires b > 0 && q * b <= a < (q + 1) * b
    ensures a / b == q
  {
    var r := a / b;
    assert r * b <= a < (r + 1) * b;
    MulLess(q, r + 1, b);
    MulLess(r, q + 1, b);
  }

  lemma CapHalving()
    ensures Cap(9) == 2032436
  {
    assert Cap(0) == 0x4000_1000;
    hide Cap;
    CapStep(0, 1073745920, 536840195);
    CapStep(1, 536840195, 268387334);
    CapStep(2, 268387334, 134160908);
    CapStep(3, 134160908, 67047703);
    CapStep(4, 67047703, 33491116);
    CapStep(5, 33491116, 16712855);
    CapStep(6, 16712855, 8323788);
    CapStep(7, 8323788, 4129383);
    CapStep(8, 4129383, 2032436);
  }

  /** The caps shrink to a single unit: halving first, then quadratically. */
  lemma CapSmall()
    ensures Cap(17) <= 1
  {
    hide Cap;
    CapHalving();
    CapStep(9, 2032436, 984475);
    CapStep(10, 984475, 461516);
    CapStep(11, 461516, 202065);
    CapStep(12, 202065, 76290);
    CapStep(13, 76290, 20519);
    CapStep(14, 20519, 2447);
    CapStep(15, 2447, 45);
    CapStep(16, 45, 1);
  }

  /** Two nearby excesses, the second contracted from the first: the second is nothing. */
  lemma NearIsNone(m: nat, e: int, e': nat)
    requires m >= 65530 && e <= m && -3 <= e' - e <= 3
    requires 4 * (m * e') <= 2 * (e * e) + 3 * m + 64
    ensures e' == 0
  {
    if e > 7 {
      assert e * e <= m * e by { MulAtLeast(e, m, e); }
      assert m * (2 * e') <= m * (e + 2) by { assert m * (2 * e') == 2 * (m * e') && m * (e + 2) == m * e + 2 * m; }
      if 2 * e' > e + 2 { MulAtLeast(e + 3, 2 * e', m); }
      assert false;
    } else {
      assert e * e <= 49;
      if e' >= 1 { MulAtLeast(1, e', m); }
    }
  }

  /** The delta test fires only on the fixed point itself, not merely near it. */
  lemma StopsExact(x: int32)
    requires x >= 3 || INT32_MIN < x <= -3
    ensures Change(x, Next(x)) == if Next(x) < x then x - Next(x) else Next(x) - x
    ensures Change(x, Next(x)) < 4 ==> Mag(Next(x)) == Base(x)
  {
    StepLands(x);
    hide Next, Cap;
    if Change(x, Next(x)) < EPS {
      NearIsNone(Mag(x), Mag(x) - Base(x), Mag(Next(x)) - Base(x));
    }
  }

  lemma UnitSeeds()
    ensures Next(1) == 0 && Next(-1) == 0 && Change(1, 0) == 1 && Change(-1, 0) == 1
  {
    assert Recip(1) == 0;
    assert Recip(-1) == 0;
  }

  lemma TwoSeeds()
    ensures Next(2) == -1073741823 && Next(-2) == -1073741824
    ensures Change(2, -1073741823) == 1073741825 && Change(-2, -1073741824) == 1073741822
  {
    assert Recip(2) == INT32_MIN;
    assert Recip(-2) == -2147483647;
  }

  lemma LeastSeed()
    ensures Next(INT32_MIN) == -1073741825 && Change(INT32_MIN, -1073741825) == 1073741823
  {
    assert Recip(INT32_MIN) == -2;
  }

  /** The seeds the general step does not cover, among them the ones the int32 cast of the reciprocal breaks:
      1 and -1 have reciprocal 2^32, which truncates to 0, and 2 has 2^31, which turns negative. */
  lemma SmallSeeds()
    ensures Next(1) == 0 && Next(-1) == 0 && Change(1, 0) == 1 && Change(-1, 0) == 1
    ensures Next(2) == -1073741823 && Next(-2) == -1073741824 && Next(INT32_MIN) == -1073741825
    ensures Change(2, -1073741823) == 1073741825 && Change(-2, -1073741824) == 1073741822
    ensures Change(INT32_MIN, -1073741825) == 1073741823
  {
    hide *;
    UnitSeeds();
    TwoSeeds();
    LeastSeed();
  }

  /** A step from nonzero reaches zero only where the delta test stops the loop, so it never divides by zero. */
  lemma NeverZero(x: int32)
    requires x != 0
    ensures Next(x) == 0 ==> Change(x, Next(x)) < EPS
  {
    hide Next, Change;
    SmallSeeds();
    if x >= 3 || INT32_MIN < x <= -3 { StepLands(x); }
  }

  /** The loop of resolve_scalar from iteration `it` on: the settled value and the number of iterations. */
  function Resolve(x: int32, it: nat): (int32, nat)
    requires x != 0 && it <= MAX_ITERS
    decreases MAX_ITERS - it
  {
    if it == MAX_ITERS then (x, it)
    else
      NeverZero(x);
      var nx := Next(x);
      if Change(x, nx) < EPS then (nx, it + 1) else Resolve(nx, it + 1)
  }

  /** The seed a zero request is replaced by. */
  function Seed(x0: int32): int32 { if x0 == 0 then 1 else x0 }

  /** The fixed point on the side of x. */
  function Goal(x: int32): int32 { if x > 0 then 65536 else -65535 }

  /** Once past the first step the excess stays under the caps, so the loop stops at the latest in its 19th
      iteration, exactly on the fixed point. */
  lemma {:induction false} Converges(x: int32, k: nat)
    requires k <= 17 && Base(x) <= Mag(x) <= Base(x) + Cap(k) && Mag(x) <= Base(x) + Cap(0)
    ensures x != 0 && Resolve(x, k + 1).0 == Goal(x) && Resolve(x, k + 1).1 <= 19
    decreases 17 - k
  {
    hide Next, Cap, Change;
    CapZero();
    StepLands(x);
    StopsExact(x);
    var nx := Next(x);
    var e, e' := Mag(x) - Base(x), Mag(nx) - Base(nx);
    if Change(x, nx) >= EPS {
      if k == 17 {
        CapSmall();
        OneStays(Mag(x), e, e');
      } else {
        Contracts(e, Cap(k), Mag(x), e');
        CapUnfold(k);
        Converges(nx, k + 1);
      }
    }
  }

  lemma OneStays(m: nat, e: nat, e': nat)
    requires m >= 65530 && e <= 1 && 4 * (m * e') <= 2 * (e * e) + 3 * m + 64
    ensures e' == 0
  {
    if e' >= 1 { MulAtLeast(1, e', m); }
  }

  /** The loop: 64 steps at most, ended by the first that moves the value by less than 4. */
  lemma StopRule(x: int32, it: nat)
    requires x != 0 && it < 64
    ensures var n := Next(x);
            if Change(x, n) < 4 then Resolve(x, it) == (n, it + 1)
            else n != 0 && Resolve(x, it) == Resolve(n, it + 1)
    ensures Resolve(x, 64) == (x, 64)
  {
    hide Next, Change;
    NeverZero(x);
  }

  /** What every seed settles on, and how soon. */
  lemma ResolvesTo(x0: int32)
    ensures var (x, iters) := Resolve(Seed(x0), 0);
            iters <= 19 && x == if x0 >= 3 then 65536 else if x0 == 2 || x0 <= -2 then -65535 else 0
  {
    hide Next, Cap, Change;
    var x := Seed(x0);
    CapZero();
    SmallSeeds();
    if x >= 3 || INT32_MIN < x <= -3 {
      StepLands(x);
      StopsExact(x);
    }
    if x != 1 && x != -1 && Change(x, Next(x)) >= EPS { Converges(Next(x), 0); }
  }

  lemma CapZero()
    ensures Cap(0) == 0x4000_1000
  {
  }

  /** The header's promise, that positive seeds settle near +1 and negative seeds near -1, holds exactly for
      the seeds whose reciprocal fits an int32. */
  lemma PromiseKept(x0: int32)
    requires x0 != 0
    ensures var x := Resolve(Seed(x0), 0).0;
            (if x0 > 0 then -4 < x - 65536 < 4 else -4 < x + 65536 < 4) <==> x0 >= 3 || x0 <= -2
  {
    hide Next;
    ResolvesTo(x0);
  }

  /** resolve_scalar. */
  method ResolveScalar(x0: int32) returns (x: int32, iters: nat)
    ensures (x, iters) == Resolve(Seed(x0), 0)
    ensures iters <= 19
    ensures x == if x0 >= 3 then 65536 else if x0 == 2 || x0 <= -2 then -65535 else 0
  {
    hide Next, Change;
    ResolvesTo(x0);
    x := Seed(x0);
    iters := 0;
    while iters < MAX_ITERS
      invariant x != 0 && iters <= MAX_ITERS
      invariant Resolve(x, iters) == Resolve(Seed(x0), 0)
    {
      NeverZero(x);
      var nx := Next(x);
      var d := Change(x, nx);
      x := nx;
      iters := iters + 1;
      if d < EPS {
        break;
      }
    }
  }

  // ---- the vector rule ----

  type Vector = v: seq<int32> | |v| == VK witness [0, 0, 0, 0]

  function At(v: Vector, i: nat): int { v[i % VK] }

  /** Four times the circular average at i. */
  function Weight(v: Vector, i: nat): int
    requires i < VK
  {
    At(v, i + VK - 1) + 2 * At(v, i) + At(v, i + 1)
  }

  function Smooth(v: Vector): (w: Vector) {
    seq(VK, i requires 0 <= i < VK => Wrap32(Tdiv(Weight(v, i), 4)))
  }

  function Smooths(v: Vector, k: nat): Vector {
    if k == 0 then v else Smooth(Smooths(v, k - 1))
  }

  /** The largest change among the first k components, as the int32 test computes it. */
  function Largest(v: Vector, w: Vector, k: nat): (d: int32)
    requires k <= VK
    ensures d >= 0
  {
    if k == 0 then 0
    else
      var d := Change(v[k - 1], w[k - 1]);
      if d > Largest(v, w, k - 1) then d else Largest(v, w, k - 1)
  }

  predicate Within(v: Vector, lo: int, hi: int) { forall i | 0 <= i < VK :: lo <= v[i] <= hi }

  /** No two components differ by more than s. */
  predicate Spread(v: Vector, s: int) { forall i, j | 0 <= i < VK && 0 <= j < VK :: At(v, i) - At(v, j) <= s }

  function Total(v: Vector): int { At(v, 0) + At(v, 1) + At(v, 2) + At(v, 3) }

  /** The remainder of a truncating division by 4, which has the sign of the dividend. */
  function Residue(a: int): int { if a >= 0 then a % 4 else -((-a) % 4) }

  /** The remainders of the four circular averages of v, added up. */
  function Residues(v: Vector): int {
    Residue(Weight(v, 0)) + Residue(Weight(v, 1)) + Residue(Weight(v, 2)) + Residue(Weight(v, 3))
  }

  lemma TdivResidue(a: int)
    ensures a == 4 * Tdiv(a, 4) + Residue(a)
  {
  }

  /** q is a / 4 without its fraction. */
  predicate Quarter(a: int, q: int) { if a >= 0 then 4 * q <= a <= 4 * q + 3 else 4 * q - 3 <= a <= 4 * q }

  lemma TdivQuarter(a: int)
    ensures Quarter(a, Tdiv(a, 4))
  {
  }

  lemma SmoothAt(v: Vector, i: nat)
    requires i < VK
    ensures Smooth(v)[i] == Tdiv(Weight(v, i), 4)
  {
    TdivQuarter(Weight(v, i));
  }

  /** The whole of a smoothing without its truncating cast. */
  lemma SmoothWhole(v: Vector)
    ensures forall i | 0 <= i < VK :: Smooth(v)[i] == Tdiv(Weight(v, i), 4)
    ensures Weight(v, 0) == At(v, 3) + 2 * At(v, 0) + At(v, 1) && Weight(v, 1) == At(v, 0) + 2 * At(v, 1) + At(v, 2)
    ensures Weight(v, 2) == At(v, 1) + 2 * At(v, 2) + At(v, 3) && Weight(v, 3) == At(v, 2) + 2 * At(v, 3) + At(v, 0)
  {
    forall i | 0 <= i < VK
      ensures Smooth(v)[i] == Tdiv(Weight(v, i), 4)
    {
      SmoothAt(v, i);
    }
  }

  /** The smoothing in full: each component becomes a quarter of its left neighbour, twice itself and its right
      neighbour, truncated. */
  lemma SmoothIn(v: Vector)
    ensures var s := [v[3] as int + 2 * (v[0] as int) + v[1] as int, v[0] as int + 2 * (v[1] as int) + v[2] as int,
                      v[1] as int + 2 * (v[2] as int) + v[3] as int, v[2] as int + 2 * (v[3] as int) + v[0] as int];
            forall i | 0 <= i < 4 :: Smooth(v)[i] as int == if s[i] >= 0 then s[i] / 4 else -((-s[i]) / 4)
  {
    hide Smooth, Weight;
    SmoothWhole(v);
  }

  /** Smoothing never leaves the range of the components, so they stay bounded. */
  lemma HullKept(v: Vector, lo: int, hi: int)
    requires Within(v, lo, hi)
    ensures Within(Smooth(v), lo, hi)
  {
    hide Smooth, Tdiv, Weight;
    SmoothWhole(v);
    forall i | 0 <= i < VK
      ensures lo <= Smooth(v)[i] <= hi
    {
      TdivQuarter(Weight(v, i));
      assert i == 0 || i == 1 || i == 2 || i == 3;
      assert 4 * lo <= Weight(v, i) <= 4 * hi;
    }
  }

  lemma TdivGap(a: int, b: int, s: nat)
    requires a - b <= 2 * s
    ensures Tdiv(a, 4) - Tdiv(b, 4) <= (s + 1) / 2
  {
    hide Tdiv;
    TdivQuarter(a);
    TdivQuarter(b);
  }

  /** Each smoothing halves the spread, rounded up. */
  lemma SpreadHalves(v: Vector, s: nat)
    requires Spread(v, s)
    ensures Spread(Smooth(v), (s + 1) / 2)
  {
    hide Smooth, Tdiv, Weight;
    SmoothWhole(v);
    forall i, j | 0 <= i < VK && 0 <= j < VK
      ensures At(Smooth(v), i) - At(Smooth(v), j) <= (s + 1) / 2
    {
      assert (i == 0 || i == 1 || i == 2 || i == 3) && (j == 0 || j == 1 || j == 2 || j == 3);
      assert Weight(v, i) - Weight(v, j) <= 2 * s;
      TdivGap(Weight(v, i), Weight(v, j), s);
    }
  }

  predicate Uniform(v: Vector) { Spread(v, 0) }

  /** With two adjacent values left, truncation sends a component to the one nearer zero unless its whole
      neighbourhood holds the other. */
  lemma TwoValues(v: Vector, near: int, far: int, i: nat)
    requires i < VK && (near == far - 1 >= 0 || near == far + 1 <= 0)
    requires forall k | 0 <= k < VK :: v[k] == near || v[k] == far
    ensures Smooth(v)[i]
            == if At(v, i + VK - 1) == far && At(v, i) == far && At(v, i + 1) == far then far else near
  {
    hide Smooth, Tdiv;
    SmoothAt(v, i);
    TdivQuarter(Weight(v, i));
  }

  lemma TwoValuesAll(v: Vector, near: int, far: int) returns (w: Vector)
    requires near == far - 1 >= 0 || near == far + 1 <= 0
    requires forall k | 0 <= k < VK :: v[k] == near || v[k] == far
    ensures w == Smooth(v)
    ensures w[0] == if v[3] == far && v[0] == far && v[1] == far then far else near
    ensures w[1] == if v[0] == far && v[1] == far && v[2] == far then far else near
    ensures w[2] == if v[1] == far && v[2] == far && v[3] == far then far else near
    ensures w[3] == if v[2] == far && v[3] == far && v[0] == far then far else near
  {
    hide Smooth;
    w := Smooth(v);
    TwoValues(v, near, far, 0);
    TwoValues(v, near, far, 1);
    TwoValues(v, near, far, 2);
    TwoValues(v, near, far, 3);
  }

  lemma SpreadOneEnds(v: Vector, near: int, far: int)
    requires near == far - 1 >= 0 || near == far + 1 <= 0
    requires forall k | 0 <= k < VK :: v[k] == near || v[k] == far
    ensures Uniform(Smooth(Smooth(v)))
  {
    hide Smooth;
    var w := TwoValuesAll(v, near, far);
    var u := TwoValuesAll(w, near, far);
    assert u[0] == u[1] == u[2] == u[3];
  }

  /** A spread of at most one vanishes within two more steps. */
  lemma SpreadOneDies(v: Vector)
    requires Spread(v, 1)
    ensures Uniform(Smooth(Smooth(v)))
  {
    hide Smooth;
    var least := if exists k :: 0 <= k < VK && v[k] < v[0] then var k :| 0 <= k < VK && v[k] < v[0]; k else 0;
    var lo: int := v[least];
    forall k | 0 <= k < VK
      ensures v[k] == lo || v[k] == lo + 1
    {
      assert At(v, k) - At(v, least) <= 1 && At(v, 0) - At(v, k) <= 1;
    }
    if lo >= 0 { SpreadOneEnds(v, lo, lo + 1); } else { SpreadOneEnds(v, lo + 1, lo); }
  }

  /** An upper bound on the spread of any int32 vector after k smoothings. */
  function Halved32(k: nat): nat {
    if k == 0 then 0x1_0000_0000 else (Halved32(k - 1) + 1) / 2
  }

  lemma {:induction false} SpreadAfter(v: Vector, k: nat)
    ensures Spread(Smooths(v, k), Halved32(k))
  {
    hide Smooth;
    if k > 0 {
      SpreadAfter(v, k - 1);
      SpreadHalves(Smooths(v, k - 1), Halved32(k - 1));
    }
  }

  lemma SpreadSmall()
    ensures Halved32(31) == 2 && Halved32(32) == 1
  {
    assert Halved32(8) == 0x100_0000;
    assert Halved32(16) == 0x1_0000;
    assert Halved32(24) == 0x100;
  }

  lemma {:induction false} SmoothsAdd(v: Vector, j: nat, k: nat)
    ensures Smooths(Smooths(v, j), k) == Smooths(v, j + k)
  {
    hide Smooth;
    if k > 0 { SmoothsAdd(v, j, k - 1); }
  }

  lemma UniformFixed(v: Vector)
    requires Uniform(v)
    ensures Smooth(v) == v
  {
    hide Smooth;
    forall i | 0 <= i < VK
      ensures v[i] == v[0]
    {
      assert At(v, i) - At(v, 0) <= 0 && At(v, 0) - At(v, i) <= 0;
    }
    HullKept(v, v[0], v[0]);
  }

  lemma {:induction false} FixedForever(v: Vector, k: nat)
    requires Smooth(v) == v
    ensures Smooths(v, k) == v
  {
    hide Smooth;
    if k > 0 { FixedForever(v, k - 1); }
  }

  /** Every vector reaches a uniform vector within 34 smoothings and stays there, always inside the range it
      started in. */
  lemma Consensus(v: Vector, k: nat, lo: int, hi: int)
    requires k >= 34 && Within(v, lo, hi)
    ensures Smooths(v, k) == Smooths(v, 34) && Uniform(Smooths(v, k)) && Within(Smooths(v, k), lo, hi)
  {
    hide Smooth, Uniform;
    SpreadAfter(v, 32);
    SpreadSmall();
    SpreadOneDies(Smooths(v, 32));
    assert Smooths(v, 34) == Smooth(Smooth(Smooths(v, 32)));
    UniformFixed(Smooths(v, 34));
    FixedForever(Smooths(v, 34), k - 34);
    SmoothsAdd(v, 34, k - 34);
    HullAfter(v, 34, lo, hi);
  }

  lemma {:induction false} HullAfter(v: Vector, k: nat, lo: int, hi: int)
    requires Within(v, lo, hi)
    ensures Within(Smooths(v, k), lo, hi)
  {
    hide Smooth, Within;
    if k > 0 {
      HullAfter(v, k - 1, lo, hi);
      HullKept(Smooths(v, k - 1), lo, hi);
    }
  }

  /** The fixed points of the integer rule are exactly the uniform vectors. */
  lemma FixedIffUniform(v: Vector)
    ensures Smooth(v) == v <==> Uniform(v)
  {
    hide Smooth, Uniform;
    if Smooth(v) == v {
      FixedForever(v, 34);
      Consensus(v, 34, INT32_MIN, INT32_MAX);
    }
    if Uniform(v) { UniformFixed(v); }
  }

  // ---- the component sum and the mean ----

  /** Truncation, unlike rounding down, is odd. */
  lemma OddQuotient(a: int)
    ensures Tdiv(-a, 4) == -Tdiv(a, 4)
  {
  }

  /** What smoothing does to the sum and to the differences of opposite components depends on these alone. */
  datatype Shape = Shape(total: int, gap0: int, gap1: int)

  function ShapeOf(v: Vector): Shape { Shape(Total(v), At(v, 0) - At(v, 2), At(v, 1) - At(v, 3)) }

  /** The sum of two opposite smoothed components. */
  function Pair(t: int, d: int): int { Tdiv(t + d, 4) + Tdiv(t - d, 4) }

  /** Their difference. */
  function Gap(t: int, d: int): int { Tdiv(t + d, 4) - Tdiv(t - d, 4) }

  function Evolve(x: Shape): Shape {
    Shape(Pair(x.total, x.gap0) + Pair(x.total, x.gap1), Gap(x.total, x.gap0), Gap(x.total, x.gap1))
  }

  function Evolves(x: Shape, k: nat): Shape
    decreases k
  {
    if k == 0 then x else Evolves(Evolve(x), k - 1)
  }

  function Opposite(x: Shape): Shape { Shape(-x.total, -x.gap0, -x.gap1) }

  lemma ShapeStep(v: Vector)
    ensures ShapeOf(Smooth(v)) == Evolve(ShapeOf(v))
  {
    hide Smooth, Tdiv, Weight;
    SmoothWhole(v);
    var x := ShapeOf(v);
    assert Weight(v, 0) == x.total + x.gap0 && Weight(v, 2) == x.total - x.gap0;
    assert Weight(v, 1) == x.total + x.gap1 && Weight(v, 3) == x.total - x.gap1;
    assert forall i | 0 <= i < VK :: At(Smooth(v), i) == Tdiv(Weight(v, i), 4);
  }

  lemma {:induction false} ShapeAfter(v: Vector, k: nat)
    ensures ShapeOf(Smooths(v, k)) == Evolves(ShapeOf(v), k)
    decreases k
  {
    hide Smooth, ShapeOf, Evolve;
    if k > 0 {
      ShapeAfter(Smooth(v), k - 1);
      ShapeStep(v);
      SmoothsAdd(v, 1, k - 1);
      assert Smooths(v, 1) == Smooth(Smooths(v, 0));
    }
  }

  lemma OppositeStep(x: Shape)
    ensures Evolve(Opposite(x)) == Opposite(Evolve(x))
  {
    hide Tdiv;
    OddQuotient(x.total + x.gap0);
    OddQuotient(x.total - x.gap0);
    OddQuotient(x.total + x.gap1);
    OddQuotient(x.total - x.gap1);
    assert -x.total + -x.gap0 == -(x.total + x.gap0) && -x.total - -x.gap0 == -(x.total - x.gap0);
    assert -x.total + -x.gap1 == -(x.total + x.gap1) && -x.total - -x.gap1 == -(x.total - x.gap1);
  }

  lemma {:induction false} OppositeAfter(x: Shape, k: nat)
    ensures Evolves(Opposite(x), k) == Opposite(Evolves(x, k))
    decreases k
  {
    hide Evolve, Opposite;
    if k > 0 {
      OppositeStep(x);
      OppositeAfter(Evolve(x), k - 1);
    }
  }

  /** The gap leaves neither weight of the pair below zero. */
  predicate Narrow(t: int, d: int) { -t <= d <= t }

  /** A pair of a nonnegative sum: it rises above its half of the sum only if the sum is odd and the gap wide, and
      falls below an even one only if the gap is narrow. */
  lemma PairStep(t: int, d: int)
    requires t >= 0
    ensures var p := Pair(t, d);
            && 0 <= p && t - 3 <= 2 * p <= t + 1
            && (t % 2 == 0 || Narrow(t, d) ==> 2 * p <= t)
            && (t % 2 == 0 && 2 * p < t ==> Narrow(t, d))
            && ((t + d) % 2 == 0 ==> t - 2 <= 2 * p)
  {
    hide Tdiv;
    TdivQuarter(t + d);
    TdivQuarter(t - d);
    TdivResidue(t + d);
    TdivResidue(t - d);
  }

  lemma GapStep(t: int, d: int)
    requires t >= 0
    ensures Narrow(t, d) ==> Narrow(Pair(t, d), Gap(t, d))
    ensures 2 * Pair(t, d) > t ==> Gap(t, d) != 0
    ensures t > 0 && 2 * Pair(t, d) == t && Gap(t, d) == 0 ==> d == 0
  {
    hide Tdiv;
    TdivQuarter(t + d);
    TdivQuarter(t - d);
  }

  predicate OneNarrow(x: Shape) { Narrow(x.total, x.gap0) || Narrow(x.total, x.gap1) }

  /** One step of a nonnegative sum. With one pair narrow the sum never rises, and the pair stays narrow. */
  lemma EvolveBounds(x: Shape)
    requires x.total >= 0
    ensures var y := Evolve(x);
            && 0 <= y.total <= x.total + x.total % 2
            && (OneNarrow(x) ==> OneNarrow(y) && y.total <= x.total)
            && (x.total % 2 == 0 && y.total < x.total ==> OneNarrow(x))
  {
    hide Pair, Gap;
    PairStep(x.total, x.gap0);
    PairStep(x.total, x.gap1);
    GapStep(x.total, x.gap0);
    GapStep(x.total, x.gap1);
  }

  /** The sum and the gaps of a vector add up to an even number. */
  predicate Even(x: Shape) { (x.total + x.gap0 + x.gap1) % 2 == 0 }

  lemma EvolveLoss(x: Shape)
    requires x.total >= 0 && Even(x)
    ensures x.total - 2 <= Evolve(x).total && Even(Evolve(x))
  {
    hide Pair, Gap, Even;
    PairStep(x.total, x.gap0);
    PairStep(x.total, x.gap1);
    if x.total % 2 == 1 { EvenGaps(x); }
    EvolveEven(x);
  }

  /** With an odd sum one of the gaps makes both weights of its pair even. */
  lemma EvenGaps(x: Shape)
    requires Even(x) && x.total % 2 == 1
    ensures (x.total + x.gap0) % 2 == 0 || (x.total + x.gap1) % 2 == 0
  {
  }

  lemma EvolveEven(x: Shape)
    ensures Even(Evolve(x))
  {
    hide Tdiv;
    var y, a, b := Evolve(x), Tdiv(x.total + x.gap0, 4), Tdiv(x.total + x.gap1, 4);
    assert y.total + y.gap0 + y.gap1 == 2 * (a + b);
  }

  /** Over any number of steps. */
  lemma {:induction false} ShapeDrift(x: Shape, k: nat)
    requires x.total >= 0
    ensures var y := Evolves(x, k);
            && 0 <= y.total <= x.total + x.total % 2
            && (OneNarrow(x) ==> y.total <= x.total)
            && (Even(x) ==> x.total - 2 * k <= y.total)
    decreases k
  {
    hide Evolve, OneNarrow, Even;
    if k > 0 {
      EvolveBounds(x);
      if Even(x) { EvolveLoss(x); }
      ShapeDrift(Evolve(x), k - 1);
    }
  }

  /** An even sum that was kept to a uniform end was kept by every step, and no gap was ever open: the first loss
      leaves a narrow pair, and nothing rises from there. */
  lemma {:induction false} KeptBackwards(x: Shape, k: nat, h: nat)
    requires h > 0 && x.total == 2 * h && Evolves(x, k) == Shape(2 * h, 0, 0)
    ensures x.gap0 == 0 && x.gap1 == 0
    decreases k
  {
    hide Evolve, OneNarrow;
    if k > 0 {
      var y := Evolve(x);
      EvolveBounds(x);
      ShapeDrift(y, k - 1);
      KeptBackwards(y, k - 1, h);
      NoGapBefore(x, h);
    }
  }

  lemma NoGapBefore(x: Shape, h: nat)
    requires h > 0 && x.total == 2 * h && Evolve(x) == Shape(2 * h, 0, 0)
    ensures x.gap0 == 0 && x.gap1 == 0
  {
    hide Pair, Gap;
    PairStep(x.total, x.gap0);
    PairStep(x.total, x.gap1);
    GapStep(x.total, x.gap0);
    GapStep(x.total, x.gap1);
  }

  /** A step that raises the sum leaves a gap open. */
  lemma RiseLeavesGap(x: Shape)
    requires x.total >= 0 && Evolve(x).total > x.total
    ensures Evolve(x).gap0 != 0 || Evolve(x).gap1 != 0
  {
    hide Pair, Gap;
    PairStep(x.total, x.gap0);
    PairStep(x.total, x.gap1);
    GapStep(x.total, x.gap0);
    GapStep(x.total, x.gap1);
  }

  /** So what an odd sum gains on the way it loses again before the end. */
  lemma {:induction false} NeverAbove(x: Shape, k: nat, h: int)
    requires x.total >= 0 && Evolves(x, k) == Shape(2 * h, 0, 0)
    ensures 0 <= 2 * h <= x.total
    decreases k
  {
    hide Evolve, OneNarrow, Even;
    ShapeDrift(x, k);
    if 2 * h > x.total && k > 0 {
      var y := Evolve(x);
      EvolveBounds(x);
      if y.total == 2 * h {
        KeptBackwards(y, k - 1, h);
        RiseLeavesGap(x);
      } else {
        NeverAbove(y, k - 1, h);
      }
    }
  }

  /** The shape turned so that the sum is not negative. */
  function Upright(x: Shape): Shape { if x.total >= 0 then x else Opposite(x) }

  lemma UprightAfter(v: Vector, k: nat)
    ensures var x, y := Upright(ShapeOf(v)), ShapeOf(Smooths(v, k));
            && x.total >= 0 && Even(x)
            && Evolves(x, k) == if Total(v) >= 0 then y else Opposite(y)
  {
    hide Smooths, Evolves, Evolve, At, Total, Even;
    ShapeEven(v);
    ShapeAfter(v, k);
    OppositeAfter(ShapeOf(v), k);
  }

  lemma ShapeEven(v: Vector)
    ensures Even(ShapeOf(v)) && Even(Opposite(ShapeOf(v)))
  {
    hide At;
    assert Total(v) + (At(v, 0) - At(v, 2)) + (At(v, 1) - At(v, 3)) == 2 * (At(v, 0) + At(v, 1));
  }

  /** The header says smoothing preserves the component sum. Truncation makes that true exactly when the signed
      remainders of the four weights cancel. */
  lemma SumKeptIff(v: Vector)
    ensures 4 * (Total(v) - Total(Smooth(v))) == Residues(v)
    ensures Total(Smooth(v)) == Total(v) <==> Residues(v) == 0
  {
    hide Smooth, Tdiv, Weight;
    SmoothWhole(v);
    assert forall i | 0 <= i < VK :: At(Smooth(v), i) == Tdiv(Weight(v, i), 4);
    TdivResidue(Weight(v, 0));
    TdivResidue(Weight(v, 1));
    TdivResidue(Weight(v, 2));
    TdivResidue(Weight(v, 3));
  }

  /** Over k smoothings of any vector the sum loses at most 2k, keeps its sign, and never passes its first value by
      more than one, and only if that was odd. */
  lemma SumDrift(v: Vector, k: nat)
    ensures var t, t' := Total(v), Total(Smooths(v, k));
            && (t >= 0 ==> 0 <= t' && t - 2 * k <= t' <= t + t % 2)
            && (t <= 0 ==> t' <= 0 && t - t % 2 <= t' <= t + 2 * k)
  {
    hide Smooths, Evolves, Evolve, At, Total, Even;
    UprightAfter(v, k);
    ShapeDrift(Upright(ShapeOf(v)), k);
  }

  predicate OneSign(v: Vector) { Within(v, 0, INT32_MAX) || Within(v, INT32_MIN, 0) }

  /** b lies between zero and a. */
  predicate Nearer(b: int, a: int) { 0 <= b <= a || a <= b <= 0 }

  /** Components of one sign lose their sum to zero: it is kept exactly when every weight is a multiple of 4. */
  lemma SumOfOneSign(v: Vector)
    requires OneSign(v)
    ensures OneSign(Smooth(v)) && Nearer(Total(Smooth(v)), Total(v))
    ensures Total(Smooth(v)) == Total(v) <==> forall i | 0 <= i < VK :: Weight(v, i) % 4 == 0
  {
    hide Smooth, Weight, Residue;
    SumKeptIff(v);
    SmoothWhole(v);
    var up := Within(v, 0, INT32_MAX);
    if up { HullKept(v, 0, INT32_MAX); } else { HullKept(v, INT32_MIN, 0); }
    forall i | 0 <= i < VK
      ensures up ==> Residue(Weight(v, i)) >= 0
      ensures !up ==> Residue(Weight(v, i)) <= 0
      ensures Residue(Weight(v, i)) == 0 <==> Weight(v, i) % 4 == 0
    {
      assert i == 0 || i == 1 || i == 2 || i == 3;
      assert if up then Weight(v, i) >= 0 else Weight(v, i) <= 0;
      ResidueSign(Weight(v, i));
    }
  }

  lemma ResidueSign(a: int)
    ensures a >= 0 ==> Residue(a) >= 0
    ensures a <= 0 ==> Residue(a) <= 0
    ensures Residue(a) == 0 <==> a % 4 == 0
  {
  }

  /** The value every component settles on never lies beyond the mean the header names, seen from zero, and is
      within 68 / 4 of it. */
  lemma LimitNearMean(v: Vector, k: nat, i: nat)
    requires k >= 34 && i < VK
    ensures var c4, t := 4 * (Smooths(v, k)[i] as int), Total(v);
            Nearer(c4, t) && -68 <= c4 - t <= 68
  {
    hide Smooths, Evolves, Evolve, At, Total, Even;
    LimitShape(v, k, i);
    LimitUnderMean(v, Smooths(v, 34), Smooths(v, k)[i] as int);
  }

  lemma LimitUnderMean(v: Vector, w: Vector, c: int)
    requires w == Smooths(v, 34) && ShapeOf(w) == Shape(4 * c, 0, 0)
    ensures Nearer(4 * c, Total(v)) && -68 <= 4 * c - Total(v) <= 68
  {
    hide Smooths, Evolves, Evolve, At, Total, Even, OneNarrow;
    UprightAfter(v, 34);
    var x := Upright(ShapeOf(v));
    NeverAbove(x, 34, if Total(v) >= 0 then 2 * c else -2 * c);
    ShapeDrift(x, 34);
  }

  lemma LimitSum(v: Vector, k: nat, i: nat)
    requires k >= 34 && i < VK
    ensures Smooths(v, k) == Smooths(v, 34) && 4 * (Smooths(v, k)[i] as int) == Total(Smooths(v, k))
  {
    hide Smooth, Smooths;
    Consensus(v, k, INT32_MIN, INT32_MAX);
    var w := Smooths(v, k);
    forall j | 0 <= j < VK
      ensures w[j] == w[i]
    {
      assert At(w, i) - At(w, j) <= 0 && At(w, j) - At(w, i) <= 0;
    }
  }

  lemma LimitShape(v: Vector, k: nat, i: nat)
    requires k >= 34 && i < VK
    ensures Smooths(v, k) == Smooths(v, 34)
    ensures ShapeOf(Smooths(v, k)) == Shape(4 * (Smooths(v, k)[i] as int), 0, 0)
  {
    hide Smooth, Smooths;
    LimitSum(v, k, 0);
    LimitSum(v, k, 1);
    LimitSum(v, k, 2);
    LimitSum(v, k, 3);
  }

  /** Every component of w is the mean of v. */
  predicate AllMean(w: Vector, v: Vector) {
    4 * At(w, 0) == Total(v) && 4 * At(w, 1) == Total(v) && 4 * At(w, 2) == Total(v) && 4 * At(w, 3) == Total(v)
  }

  /** Opposite components are equal and the sum of neighbours is even. */
  predicate EvenlyAlternating(v: Vector) { v[0] == v[2] && v[1] == v[3] && (At(v, 0) + At(v, 1)) % 2 == 0 }

  /** The components settle on their mean exactly when their sum is 0 or they alternate between two values of one
      parity. */
  lemma MeanReachedIff(v: Vector, k: nat)
    requires k >= 34
    ensures AllMean(Smooths(v, k), v) <==> Total(v) == 0 || EvenlyAlternating(v)
  {
    hide Smooths, EvenlyAlternating, AllMean;
    if AllMean(Smooths(v, k), v) && Total(v) != 0 { MeanReachedOnly(v, k); }
    if EvenlyAlternating(v) { Alternating(v, k); }
    if Total(v) == 0 { ZeroSumSettles(v, k); }
  }

  lemma MeanReachedOnly(v: Vector, k: nat)
    requires k >= 34 && Total(v) != 0 && AllMean(Smooths(v, k), v)
    ensures EvenlyAlternating(v)
  {
    hide Smooths, At, Total, EvenlyAlternating;
    LimitShape(v, k, 0);
    FirstComponent(Smooths(v, k));
    KeptToTheEnd(v, k, At(Smooths(v, k), 0));
    NoGapAlternates(v, At(Smooths(v, k), 0));
  }

  lemma KeptToTheEnd(v: Vector, k: nat, c: int)
    requires Total(v) == 4 * c != 0 && ShapeOf(Smooths(v, k)) == Shape(4 * c, 0, 0)
    ensures ShapeOf(v) == Shape(4 * c, 0, 0)
  {
    hide Smooths, Evolves, Evolve, At, Total, Even;
    UprightAfter(v, k);
    KeptBackwards(Upright(ShapeOf(v)), k, if c > 0 then 2 * c else -2 * c);
  }

  lemma FirstComponent(v: Vector)
    ensures At(v, 0) == v[0] as int
  {
  }

  lemma NoGapAlternates(v: Vector, c: int)
    requires ShapeOf(v) == Shape(4 * c, 0, 0)
    ensures EvenlyAlternating(v)
  {
    assert Total(v) == 2 * (At(v, 0) + At(v, 1));
  }

  /** Losses and gains of both signs cancel when the sum is 0. */
  lemma ZeroSumSettles(v: Vector, k: nat)
    requires k >= 34 && Total(v) == 0
    ensures Smooths(v, k) == [0, 0, 0, 0] && AllMean(Smooths(v, k), v)
  {
    hide Smooths;
    SumDrift(v, k);
    LimitSum(v, k, 0);
    LimitSum(v, k, 1);
    LimitSum(v, k, 2);
    LimitSum(v, k, 3);
  }

  lemma Alternating(v: Vector, k: nat)
    requires k > 0 && EvenlyAlternating(v)
    ensures AllMean(Smooths(v, k), v)
  {
    hide Smooth;
    var m := (At(v, 0) + At(v, 1)) / 2;
    var w: Vector := [m as int32, m as int32, m as int32, m as int32];
    SmoothIs(v, w);
    UniformFixed(w);
    FixedForever(w, k - 1);
    SmoothsAdd(v, 1, k - 1);
    assert Smooths(v, 1) == w;
  }

  lemma SmoothIs(v: Vector, w: Vector)
    requires Quarter(Weight(v, 0), w[0] as int) && Quarter(Weight(v, 1), w[1] as int)
    requires Quarter(Weight(v, 2), w[2] as int) && Quarter(Weight(v, 3), w[3] as int)
    ensures Smooth(v) == w
  {
    hide Smooth, Tdiv, Weight, Quarter;
    SmoothWhole(v);
    QuarterIs(Weight(v, 0), w[0] as int);
    QuarterIs(Weight(v, 1), w[1] as int);
    QuarterIs(Weight(v, 2), w[2] as int);
    QuarterIs(Weight(v, 3), w[3] as int);
  }

  lemma QuarterIs(a: int, q: int)
    requires Quarter(a, q)
    ensures Tdiv(a, 4) == q
  {
    hide Tdiv;
    TdivQuarter(a);
  }

  /** The vector of the merge gate: 4, -2, 6 and 0 in units of 65536. */
  const GATE_VECTOR: Vector := [4 * 65536, -2 * 65536, 6 * 65536, 0]

  /** It settles one unit short of its mean. */
  lemma GateVector(k: nat)
    requires k >= 34
    ensures Total(GATE_VECTOR) == 4 * 131072 && Smooths(GATE_VECTOR, k) == [131071, 131071, 131071, 131071]
  {
    hide Smooth, Smooths, Evolves;
    GateShape();
    ShapeAfter(GATE_VECTOR, 34);
    LimitSum(GATE_VECTOR, k, 0);
    LimitSum(GATE_VECTOR, k, 1);
    LimitSum(GATE_VECTOR, k, 2);
    LimitSum(GATE_VECTOR, k, 3);
  }

  /** The gaps halve down to 2, and then the sum loses 2 in each of two steps. */
  lemma GateShape()
    ensures Evolves(ShapeOf(GATE_VECTOR), 34) == Shape(4 * 131071, 0, 0)
  {
    hide Evolves, Evolve, Doubled;
    DoubledGate();
    GapsHalve(131072, 16, 34);
    LastGaps(131072);
    EvolvesOnce(Tilted(524288, 2), 18);
    EvolvesOnce(Tilted(524286, 1), 17);
    EvolvesFixed(Tilted(524284, 0), 16);
  }

  /** Both gaps are -d. */
  function Tilted(t: int, d: int): Shape { Shape(t, -d, -d) }

  lemma LastGaps(m: int)
    requires m > 1
    ensures Evolve(Tilted(4 * m, 2)) == Tilted(4 * m - 2, 1)
    ensures Evolve(Tilted(4 * m - 2, 1)) == Tilted(4 * m - 4, 0)
    ensures Evolve(Tilted(4 * m - 4, 0)) == Tilted(4 * m - 4, 0)
  {
    hide Tdiv;
    TdivQuarter(4 * m - 2);
    TdivQuarter(4 * m + 2);
    TdivQuarter(4 * m - 3);
    TdivQuarter(4 * m - 1);
    TdivQuarter(4 * m - 4);
  }

  function Doubled(j: nat): nat { if j == 0 then 2 else 2 * Doubled(j - 1) }

  lemma DoubledGate()
    ensures Doubled(16) == 131072
  {
    assert Doubled(4) == 32;
    assert Doubled(8) == 512;
    assert Doubled(12) == 8192;
  }

  lemma {:induction false} GapsHalve(m: nat, j: nat, k: nat)
    requires j <= k
    ensures Evolves(Tilted(4 * m, Doubled(j)), k) == Evolves(Tilted(4 * m, 2), k - j)
  {
    hide Evolves, Evolve, Tilted;
    if j > 0 {
      var e := DoubledEven(j - 1);
      GapsHalveOnce(m, e);
      EvolvesOnce(Tilted(4 * m, Doubled(j)), k);
      GapsHalve(m, j - 1, k - 1);
    }
  }

  lemma DoubledEven(j: nat) returns (e: nat)
    ensures Doubled(j) == 2 * e
  {
    e := if j == 0 then 1 else Doubled(j - 1);
  }

  lemma GapsHalveOnce(m: nat, e: nat)
    ensures Evolve(Tilted(4 * m, 4 * e)) == Tilted(4 * m, 2 * e)
  {
    hide Tdiv;
    QuarterIs(4 * m - 4 * e, m - e);
    QuarterIs(4 * m + 4 * e, m + e);
  }

  lemma EvolvesOnce(x: Shape, k: nat)
    ensures k > 0 ==> Evolves(x, k) == Evolves(Evolve(x), k - 1)
  {
  }

  lemma {:induction false} EvolvesFixed(x: Shape, k: nat)
    requires Evolve(x) == x
    ensures Evolves(x, k) == x
  {
    if k > 0 { EvolvesFixed(x, k - 1); }
  }

  /** The mean of this vector is 1, and it settles on 0. */
  lemma MeanMissed(k: nat)
    requires k >= 34
    ensures var v: Vector := [4, 0, 0, 0]; Total(v) == 4 * 1 && Smooths(v, k) == [0, 0, 0, 0]
  {
    hide Smooth;
    var v: Vector := [4, 0, 0, 0];
    SmoothIs(v, [2, 1, 0, 1]);
    SmoothIs([2, 1, 0, 1], [1, 1, 0, 1]);
    SmoothIs([1, 1, 0, 1], [1, 0, 0, 0]);
    SmoothIs([1, 0, 0, 0], [0, 0, 0, 0]);
    assert Smooths(v, 1) == [2, 1, 0, 1];
    assert Smooths(v, 2) == [1, 1, 0, 1];
    assert Smooths(v, 3) == [1, 0, 0, 0];
    UniformFixed([0, 0, 0, 0]);
    FixedForever(Smooths(v, 4), k - 4);
    SmoothsAdd(v, 4, k - 4);
  }

  /** A vector whose sum the rule does not keep. */
  lemma SumLost()
    ensures var v := [1, 0, 0, 0]; Total(v) == 1 && Total(Smooth(v)) == 0
  {
    var v: Vector := [1, 0, 0, 0];
    SmoothWhole(v);
    hide Smooth;
    assert Smooth(v) == [0, 0, 0, 0];
  }

  // ---- the delta test ----

  lemma LargestIs(v: Vector, w: Vector, k: nat)
    requires k <= VK
    ensures forall i | 0 <= i < k :: Change(v[i], w[i]) <= Largest(v, w, k)
    ensures Largest(v, w, k) == 0 || exists i | 0 <= i < k :: Change(v[i], w[i]) == Largest(v, w, k)
  {
    hide Change;
  }

  /** The true size of a change, without the wrap of the int32 subtraction. */
  function Moved(v: Vector, i: nat): nat
    requires i < VK
  {
    var d := At(Smooth(v), i) - At(v, i);
    if d < 0 then -d else d
  }

  /** A subtraction that wraps goes with a large change next to it that does not. */
  lemma BigMove(l: int32, c: int32, r: int32, s: int32)
    ensures var d := Tdiv(l as int + 2 * (c as int) + r as int, 4) - c;
            var d' := Tdiv(c as int + 2 * (r as int) + s as int, 4) - r;
            -0x8000_0000 < d <= 0x8000_0000 && (d == 0x8000_0000 ==> -0x8000_0000 < d' <= -EPS)
  {
    hide Tdiv;
    TdivQuarter(l as int + 2 * (c as int) + r as int);
    TdivQuarter(c as int + 2 * (r as int) + s as int);
  }

  /** A change is measured right unless it is exactly 2^31, and then its right neighbour's is, and is large. */
  lemma Measured(v: Vector, i: nat)
    requires i < VK
    ensures Change(v[i], Smooth(v)[i]) == Moved(v, i) || Moved(v, i) >= EPS
    ensures var j := (i + 1) % VK;
            Change(v[i], Smooth(v)[i]) == Moved(v, i) || Change(v[j], Smooth(v)[j]) == Moved(v, j) >= EPS
  {
    hide Smooth, Tdiv, Change;
    var j := (i + 1) % VK;
    SmoothAt(v, i);
    SmoothAt(v, j);
    assert At(v, j + VK - 1) == v[i] && At(v, i + 1) == v[j];
    BigMove(At(v, i + VK - 1), v[i], v[j], At(v, j + 1));
    ChangeIs(v[i], Smooth(v)[i]);
    ChangeIs(v[j], Smooth(v)[j]);
  }

  lemma ChangeIs(x: int32, nx: int32)
    ensures var d := if nx < x then x as int - nx as int else nx as int - x as int;
            Change(x, nx) as int == if d < 0x8000_0000 then d else if d == 0x8000_0000 then -d else 0x1_0000_0000 - d
  {
  }

  /** The test is sound although its subtraction can wrap: it passes exactly when no component really moved
      by EPS or more. */
  lemma TestSound(v: Vector)
    ensures Largest(v, Smooth(v), VK) < 4 <==> forall i | 0 <= i < VK :: Moved(v, i) < 4
  {
    hide Smooth, Tdiv, Largest, Change, Moved;
    var w := Smooth(v);
    LargestIs(v, w, VK);
    if Largest(v, w, VK) < EPS {
      forall i | 0 <= i < VK
        ensures Moved(v, i) < EPS
      {
        Measured(v, i);
        assert Change(v[i], w[i]) < EPS;
        assert Change(v[(i + 1) % VK], w[(i + 1) % VK]) < EPS;
      }
    } else {
      var i :| 0 <= i < VK && Change(v[i], w[i]) == Largest(v, w, VK);
      Measured(v, i);
      assert Moved(v, i) >= EPS;
    }
  }

  /** The convergence test passes within 32 smoothings of any vector. */
  lemma TestPasses(v: Vector, k: nat)
    requires k >= 31
    ensures Largest(Smooths(v, k), Smooths(v, k + 1), VK) < 4
  {
    hide Smooth, Largest, Spread, Tdiv;
    var u := Smooths(v, k);
    SpreadAfter(v, k);
    HalvedLate(k);
    forall i | 0 <= i < VK
      ensures Moved(u, i) < EPS
    {
      MovesLittle(u, Halved32(k), i);
    }
    TestSound(u);
  }

  lemma {:induction false} HalvedLate(k: nat)
    requires k >= 31
    ensures Halved32(k) <= 2
  {
    if k == 31 { SpreadSmall(); } else { HalvedLate(k - 1); }
  }

  lemma MovesLittle(v: Vector, s: nat, i: nat)
    requires Spread(v, s) && i < VK
    ensures Moved(v, i) <= (s + 1) / 2
  {
    hide Smooth, Tdiv;
    SmoothAt(v, i);
    var c := At(v, i);
    assert At(v, i + VK - 1) == At(v, (i + VK - 1) % VK) && At(v, i + 1) == At(v, (i + 1) % VK);
    TdivGap(Weight(v, i), 4 * c, s);
    TdivGap(4 * c, Weight(v, i), s);
    TdivQuarter(4 * c);
  }

  /** The first loop of step_vector: every average from the old components. */
  method Averages(a: array<int32>) returns (nv: array<int32>)
    requires a.Length == VK
    ensures fresh(nv) && nv.Length == VK && nv[..] == Smooth(a[..])
  {
    hide Smooth, Tdiv, Wrap32, Weight;
    ghost var v: Vector := a[..];
    nv := new int32[VK];
    for i := 0 to VK
      invariant forall k | 0 <= k < i :: nv[k] == Smooth(v)[k]
    {
      var l, c, r := a[(i + VK - 1) % VK] as int, a[i] as int, a[(i + 1) % VK] as int;
      SmoothFrom(v, i, l, c, r);
      nv[i] := Wrap32(Tdiv(l + 2 * c + r, 4));
    }
    assert nv[..] == Smooth(v);
  }

  lemma SmoothFrom(v: Vector, i: nat, l: int, c: int, r: int)
    requires i < VK && l == v[(i + VK - 1) % VK] && c == v[i] && r == v[(i + 1) % VK]
    ensures Wrap32(Tdiv(l + 2 * c + r, 4)) == Smooth(v)[i]
  {
    hide Tdiv, Wrap32;
  }

  /** step_vector: one smoothing in place, returning the largest change. */
  method StepVector(a: array<int32>) returns (maxd: int32)
    requires a.Length == VK
    modifies a
    ensures a[..] == Smooth(old(a[..]))
    ensures maxd == Largest(old(a[..]), a[..], VK)
  {
    hide Largest, Change, Smooth;
    ghost var v: Vector := a[..];
    var nv := Averages(a);
    ghost var w: Vector := nv[..];
    maxd := 0;
    LargestZero(v, w);
    for i := 0 to VK
      invariant nv[..] == w
      invariant forall k | 0 <= k < i :: a[k] == w[k]
      invariant forall k | i <= k < VK :: a[k] == v[k]
      invariant maxd == Largest(v, w, i)
    {
      var d := Change(a[i], nv[i]);
      LargestStep(v, w, i);
      if d > maxd {
        maxd := d;
      }
      a[i] := nv[i];
    }
    assert a[..] == w;
  }

  lemma LargestZero(v: Vector, w: Vector)
    ensures Largest(v, w, 0) == 0
  {
  }

  lemma LargestStep(v: Vector, w: Vector, k: nat)
    requires k < VK
    ensures var d := Change(v[k], w[k]);
            Largest(v, w, k + 1) == if d > Largest(v, w, k) then d else Largest(v, w, k)
  {
  }
}
