/** The exact state vector: unbounded Gaussian-integer amplitudes with one implicit
    scale 2^(-h/2), as the host mirror computes them. Every gate is a function on values. */
module QsvExact {
  import opened QsvBits

  type Vec = seq<int>

  /** Amplitudes of an n-qubit register; |re| == |im| == 2^n. */
  datatype State = State(n: nat, re: Vec, im: Vec, h: nat) {
    ghost predicate Valid() { |re| == Pow2(n) && |im| == Pow2(n) }
  }

  datatype Gate =
    | H(q: nat)
    | X(q: nat)
    | Z(q: nat)
    | S(q: nat)
    | Cnot(c: nat, t: nat)
    | Cz(a: nat, b: nat)
    | Mcz

  predicate Fits(g: Gate, n: nat) {
    match g
    case H(q) => q < n
    case X(q) => q < n
    case Z(q) => q < n
    case S(q) => q < n
    case Cnot(c, t) => c < n && t < n && c != t
    case Cz(a, b) => a < n && b < n && a != b
    case Mcz => true
  }

  predicate AllFit(gs: seq<Gate>, n: nat) {
    forall i | 0 <= i < |gs| :: Fits(gs[i], n)
  }

  // ---- one component (real or imaginary) under each gate ----

  /** The butterfly (a, b) -> (a + b, a - b) across qubit q. */
  function HVec(n: nat, q: nat, v: Vec): (r: Vec)
    requires q < n && |v| == Pow2(n)
    ensures |r| == |v|
  {
    seq(|v|, k requires 0 <= k < |v| =>
      FlipBound(k, q, n);
      if Bit(k, q) == 0 then v[k] + v[Flip(k, q)] else v[Flip(k, q)] - v[k])
  }

  function XVec(n: nat, q: nat, v: Vec): (r: Vec)
    requires q < n && |v| == Pow2(n)
    ensures |r| == |v|
  {
    seq(|v|, k requires 0 <= k < |v| => FlipBound(k, q, n); v[Flip(k, q)])
  }

  function CnotVec(n: nat, c: nat, t: nat, v: Vec): (r: Vec)
    requires t < n && |v| == Pow2(n)
    ensures |r| == |v|
  {
    seq(|v|, k requires 0 <= k < |v| => FlipBound(k, t, n); if Bit(k, c) == 1 then v[Flip(k, t)] else v[k])
  }

  /** Which basis states a diagonal gate acts on. */
  predicate Selects(g: Gate, n: nat, k: nat) {
    match g
    case Z(q) => Bit(k, q) == 1
    case S(q) => Bit(k, q) == 1
    case Cz(a, b) => Bit(k, a) == 1 && Bit(k, b) == 1
    case Mcz => k == Pow2(n) - 1
    case _ => false
  }

  function NegVec(g: Gate, n: nat, v: Vec): (r: Vec)
    ensures |r| == |v|
  {
    seq(|v|, k requires 0 <= k < |v| => if Selects(g, n, k) then -v[k] else v[k])
  }

  /** Where g selects, the negation of w (or w itself); elsewhere v. */
  function MixVec(g: Gate, n: nat, v: Vec, w: Vec, negate: bool): (r: Vec)
    requires |v| == |w|
    ensures |r| == |v|
  {
    seq(|v|, k requires 0 <= k < |v| => if Selects(g, n, k) then (if negate then -w[k] else w[k]) else v[k])
  }

  function Step(s: State, g: Gate): (r: State)
    requires s.Valid() && Fits(g, s.n)
    ensures r.Valid() && r.n == s.n
  {
    match g
    case H(q) => State(s.n, HVec(s.n, q, s.re), HVec(s.n, q, s.im), s.h + 1)
    case X(q) => s.(re := XVec(s.n, q, s.re), im := XVec(s.n, q, s.im))
    case Cnot(c, t) => s.(re := CnotVec(s.n, c, t, s.re), im := CnotVec(s.n, c, t, s.im))
    case S(q) => s.(re := MixVec(g, s.n, s.re, s.im, true), im := MixVec(g, s.n, s.im, s.re, false))
    case _ => s.(re := NegVec(g, s.n, s.re), im := NegVec(g, s.n, s.im))
  }

  function Run(s: State, gs: seq<Gate>): (r: State)
    requires s.Valid() && AllFit(gs, s.n)
    ensures r.Valid() && r.n == s.n
  {
    if gs == [] then s else Step(Run(s, gs[..|gs| - 1]), gs[|gs| - 1])
  }

  lemma {:induction false} RunConcat(s: State, a: seq<Gate>, b: seq<Gate>)
    requires s.Valid() && AllFit(a, s.n) && AllFit(b, s.n)
    ensures AllFit(a + b, s.n) && Run(s, a + b) == Run(Run(s, a), b)
  {
    if b == [] {
      assert a + b == a;
    } else {
      RunConcat(s, a, b[..|b| - 1]);
      assert (a + b)[..|a + b| - 1] == a + b[..|b| - 1];
    }
  }

  lemma RunOne(s: State, g: Gate)
    requires s.Valid() && Fits(g, s.n)
    ensures AllFit([g], s.n) && Run(s, [g]) == Step(s, g)
  {
    hide Step;
    assert [g][..0] == [];
  }

  // ---- sums over the basis ----

  function Sum(v: Vec): int {
    if v == [] then 0 else Sum(v[..|v| - 1]) + v[|v| - 1]
  }

  function Mul(v: Vec, w: Vec): Vec
    requires |v| == |w|
  {
    seq(|v|, k requires 0 <= k < |v| => v[k] * w[k])
  }

  function Dot(v: Vec, w: Vec): int
    requires |v| == |w|
  {
    Sum(Mul(v, w))
  }

  function Norm(s: State): int
    requires s.Valid()
  {
    Dot(s.re, s.re) + Dot(s.im, s.im)
  }

  /** |amplitude k|^2, the numerator of the probability |v|^2 / 2^h. */
  function Weight(s: State, k: nat): (w: nat)
    requires s.Valid() && k < Pow2(s.n)
  {
    s.re[k] * s.re[k] + s.im[k] * s.im[k]
  }

  lemma {:induction false} SumConcat(a: Vec, b: Vec)
    ensures Sum(a + b) == Sum(a) + Sum(b)
  {
    if b == [] {
      assert a + b == a;
    } else {
      SumConcat(a, b[..|b| - 1]);
      assert (a + b)[..|a + b| - 1] == a + b[..|b| - 1];
    }
  }

  lemma {:induction false} SumAdd(a: Vec, b: Vec, c: Vec)
    requires |a| == |b| == |c|
    requires forall k | 0 <= k < |a| :: c[k] == a[k] + b[k]
    ensures Sum(c) == Sum(a) + Sum(b)
  {
    if a != [] { SumAdd(a[..|a| - 1], b[..|b| - 1], c[..|c| - 1]); }
  }

  lemma {:induction false} SumScale(a: Vec, f: int, c: Vec)
    requires |a| == |c|
    requires forall k | 0 <= k < |a| :: c[k] == f * a[k]
    ensures Sum(c) == f * Sum(a)
  {
    if a != [] { SumScale(a[..|a| - 1], f, c[..|c| - 1]); }
  }

  lemma {:induction false} SumNonNeg(a: Vec)
    requires forall k | 0 <= k < |a| :: a[k] >= 0
    ensures Sum(a) >= 0
    ensures forall k | 0 <= k < |a| :: a[k] <= Sum(a)
  {
    if a != [] {
      var b := a[..|a| - 1];
      SumNonNeg(b);
      forall k | 0 <= k < |a| ensures a[k] <= Sum(a) {
        if k < |b| { assert b[k] <= Sum(b); }
      }
    }
  }

  lemma {:induction false} SumUpper(a: Vec, bound: int)
    requires forall k | 0 <= k < |a| :: a[k] <= bound
    ensures Sum(a) <= |a| * bound
  {
    if a != [] {
      SumUpper(a[..|a| - 1], bound);
      assert |a| * bound == (|a| - 1) * bound + bound;
    }
  }

  /** Flipping the top bit swaps the two halves. */
  lemma FlipSwapsHalves(n: nat, v: Vec)
    requires n > 0 && |v| == Pow2(n)
    ensures XVec(n, n - 1, v) == v[Pow2(n - 1)..] + v[..Pow2(n - 1)]
  {
    var m := Pow2(n - 1);
    var x := XVec(n, n - 1, v);
    forall k | 0 <= k < |v| ensures x[k] == (v[m..] + v[..m])[k] {
      if k < m { TopHalf(k, n - 1, n - 1); } else { TopHalf(k - m, n - 1, n - 1); }
      FlipStride(k, n - 1);
    }
  }

  /** Flipping a lower bit acts on each half on its own. */
  lemma FlipWithinHalves(n: nat, q: nat, v: Vec)
    requires q < n - 1 && |v| == Pow2(n)
    ensures XVec(n, q, v) == XVec(n - 1, q, v[..Pow2(n - 1)]) + XVec(n - 1, q, v[Pow2(n - 1)..])
  {
    var m := Pow2(n - 1);
    var lo, hi := v[..m], v[m..];
    forall k | 0 <= k < |v|
      ensures XVec(n, q, v)[k] == (XVec(n - 1, q, lo) + XVec(n - 1, q, hi))[k]
    {
      var j := if k < m then k else k - m;
      TopHalf(j, q, n - 1);
      FlipBound(j, q, n - 1);
    }
  }

  /** Re-indexing by a stride flip is a permutation of the basis, so it keeps every sum. */
  lemma {:induction false} SumFlip(n: nat, q: nat, v: Vec)
    requires q < n && |v| == Pow2(n)
    ensures Sum(XVec(n, q, v)) == Sum(v)
    decreases n
  {
    hide XVec, Sum;
    var lo, hi := v[..Pow2(n - 1)], v[Pow2(n - 1)..];
    assert v == lo + hi;
    SumConcat(lo, hi);
    if q == n - 1 {
      FlipSwapsHalves(n, v);
      SumConcat(hi, lo);
    } else {
      FlipWithinHalves(n, q, v);
      SumConcat(XVec(n - 1, q, lo), XVec(n - 1, q, hi));
      SumFlip(n - 1, q, lo);
      SumFlip(n - 1, q, hi);
    }
  }

  // ---- norm conservation ----

  /** The butterfly is symmetric: it moves from one side of an inner product to the other. */
  lemma HSymmetric(n: nat, q: nat, v: Vec, w: Vec)
    requires q < n && |v| == |w| == Pow2(n)
    ensures Dot(HVec(n, q, v), w) == Dot(v, HVec(n, q, w))
  {
    var hv, hw := HVec(n, q, v), HVec(n, q, w);
    var cross := Mul(XVec(n, q, v), w);
    var diag := seq(|v|, k requires 0 <= k < |v| => if Bit(k, q) == 0 then v[k] * w[k] else -(v[k] * w[k]));
    forall k | 0 <= k < |v|
      ensures Mul(hv, w)[k] == cross[k] + diag[k]
      ensures Mul(v, hw)[k] == XVec(n, q, cross)[k] + diag[k]
    {
      FlipFlip(k, q);
      FlipBound(k, q, n);
      var f := Flip(k, q);
      assert cross[f] == v[k] * w[f];
      assert XVec(n, q, cross)[k] == v[k] * w[f];
      if Bit(k, q) == 0 {
        assert (v[k] + v[f]) * w[k] == v[f] * w[k] + v[k] * w[k];
        assert v[k] * (w[k] + w[f]) == v[k] * w[f] + v[k] * w[k];
      } else {
        assert (v[f] - v[k]) * w[k] == v[f] * w[k] - v[k] * w[k];
        assert v[k] * (w[f] - w[k]) == v[k] * w[f] - v[k] * w[k];
      }
    }
    SumAdd(cross, diag, Mul(hv, w));
    SumAdd(XVec(n, q, cross), diag, Mul(v, hw));
    SumFlip(n, q, cross);
  }

  function Scaled(c: int, v: Vec): (r: Vec)
    ensures |r| == |v|
  {
    seq(|v|, k requires 0 <= k < |v| => c * v[k])
  }

  /** Two butterflies on one qubit are multiplication by two. */
  lemma HTwice(n: nat, q: nat, v: Vec)
    requires q < n && |v| == Pow2(n)
    ensures HVec(n, q, HVec(n, q, v)) == Scaled(2, v)
  {
    forall k | 0 <= k < |v| ensures HVec(n, q, HVec(n, q, v))[k] == Scaled(2, v)[k] {
      FlipFlip(k, q);
      FlipBound(k, q, n);
    }
  }

  // ---- each gate by the weights of the bits, and the textbook identities between the gates ----

  /** H, X, Z and S on the pair of basis states that differ in bit q, which weighs 2^q. */
  lemma StepOnPair(s: State, q: nat, k: nat)
    requires s.Valid() && q < s.n && k < Pow2(s.n) && k / Pow2(q) % 2 == 0
    ensures var l := k + Pow2(q);
            && l < Pow2(s.n)
            && (var t := Step(s, H(q));
                && t.h == s.h + 1
                && t.re[k] == s.re[k] + s.re[l] && t.im[k] == s.im[k] + s.im[l]
                && t.re[l] == s.re[k] - s.re[l] && t.im[l] == s.im[k] - s.im[l])
            && (var t := Step(s, X(q));
                && t.h == s.h
                && t.re[k] == s.re[l] && t.im[k] == s.im[l] && t.re[l] == s.re[k] && t.im[l] == s.im[k])
            && (var t := Step(s, Z(q));
                && t.h == s.h
                && t.re[k] == s.re[k] && t.im[k] == s.im[k] && t.re[l] == -s.re[l] && t.im[l] == -s.im[l])
            && (var t := Step(s, S(q));
                && t.h == s.h
                && t.re[k] == s.re[k] && t.im[k] == s.im[k] && t.re[l] == -s.im[l] && t.im[l] == s.re[l])
  {
    BitIs(k, q);
    FlipStride(k, q);
    FlipFlip(k, q);
    FlipBound(k, q, s.n);
  }

  /** CZ negates where both bits are set. */
  lemma StepCz(s: State, a: nat, b: nat, k: nat)
    requires s.Valid() && a < s.n && b < s.n && a != b && k < Pow2(s.n)
    ensures var t := Step(s, Cz(a, b));
            && t.h == s.h
            && (k / Pow2(a) % 2 == 1 && k / Pow2(b) % 2 == 1 ==> t.re[k] == -s.re[k] && t.im[k] == -s.im[k])
            && (k / Pow2(a) % 2 == 0 || k / Pow2(b) % 2 == 0 ==> t.re[k] == s.re[k] && t.im[k] == s.im[k])
  {
    hide Bit, Pow2;
    BitIs(k, a);
    BitIs(k, b);
  }

  /** CNOT exchanges the pairs that differ in bit b where bit a is set. */
  lemma StepCnot(s: State, a: nat, b: nat, k: nat)
    requires s.Valid() && a < s.n && b < s.n && a != b && k < Pow2(s.n)
    ensures var l := if k / Pow2(a) % 2 == 0 then k else if k / Pow2(b) % 2 == 0 then k + Pow2(b) else k - Pow2(b);
            var t := Step(s, Cnot(a, b));
            && 0 <= l < Pow2(s.n) && t.h == s.h
            && t.re[k] == s.re[l] && t.im[k] == s.im[l]
  {
    hide Bit, Pow2, Flip;
    BitIs(k, a);
    BitIs(k, b);
    FlipStride(k, b);
    FlipBound(k, b, s.n);
  }

  /** The multi-controlled Z negates the amplitude of the last basis state. */
  lemma StepMcz(s: State, k: nat)
    requires s.Valid() && k < Pow2(s.n)
    ensures var t := Step(s, Mcz);
            && t.h == s.h
            && (k == Pow2(s.n) - 1 ==> t.re[k] == -s.re[k] && t.im[k] == -s.im[k])
            && (k != Pow2(s.n) - 1 ==> t.re[k] == s.re[k] && t.im[k] == s.im[k])
  {
    hide Pow2;
  }

  /** H Z H is twice X. */
  lemma PhaseBecomesFlip(n: nat, q: nat, v: Vec)
    requires q < n && |v| == Pow2(n)
    ensures HVec(n, q, NegVec(Z(q), n, HVec(n, q, v))) == Scaled(2, XVec(n, q, v))
  {
    forall k | 0 <= k < |v|
      ensures HVec(n, q, NegVec(Z(q), n, HVec(n, q, v)))[k] == Scaled(2, XVec(n, q, v))[k]
    {
      FlipFlip(k, q);
      FlipBound(k, q, n);
    }
  }

  /** H CZ H, with the butterflies on the second qubit, is twice CNOT. */
  lemma CzBecomesCnot(n: nat, c: nat, t: nat, v: Vec)
    requires c < n && t < n && c != t && |v| == Pow2(n)
    ensures HVec(n, t, NegVec(Cz(c, t), n, HVec(n, t, v))) == Scaled(2, CnotVec(n, c, t, v))
  {
    forall k | 0 <= k < |v|
      ensures HVec(n, t, NegVec(Cz(c, t), n, HVec(n, t, v)))[k] == Scaled(2, CnotVec(n, c, t, v))[k]
    {
      FlipFlip(k, t);
      FlipOther(k, t, c);
      FlipBound(k, t, n);
    }
  }

  /** Two S gates are one Z gate. */
  lemma PhaseTwice(s: State, q: nat)
    requires s.Valid() && q < s.n
    ensures Step(Step(s, S(q)), S(q)) == Step(s, Z(q))
  {
  }

  lemma HNorm(n: nat, q: nat, v: Vec)
    requires q < n && |v| == Pow2(n)
    ensures Dot(HVec(n, q, v), HVec(n, q, v)) == 2 * Dot(v, v)
  {
    HSymmetric(n, q, v, HVec(n, q, v));
    HTwice(n, q, v);
    forall k | 0 <= k < |v| ensures Mul(v, Scaled(2, v))[k] == 2 * Mul(v, v)[k] {
      assert v[k] * (2 * v[k]) == 2 * (v[k] * v[k]);
    }
    SumScale(Mul(v, v), 2, Mul(v, Scaled(2, v)));
  }

  lemma XNorm(n: nat, q: nat, v: Vec)
    requires q < n && |v| == Pow2(n)
    ensures Dot(XVec(n, q, v), XVec(n, q, v)) == Dot(v, v)
  {
    SumFlip(n, q, Mul(v, v));
    forall k | 0 <= k < |v| ensures Mul(XVec(n, q, v), XVec(n, q, v))[k] == XVec(n, q, Mul(v, v))[k] {
      FlipBound(k, q, n);
    }
    assert Mul(XVec(n, q, v), XVec(n, q, v)) == XVec(n, q, Mul(v, v));
  }

  /** CNOT permutes the half of the basis in which the control is set. */
  lemma CnotNorm(n: nat, c: nat, t: nat, v: Vec)
    requires t < n && c != t && |v| == Pow2(n)
    ensures Dot(CnotVec(n, c, t, v), CnotVec(n, c, t, v)) == Dot(v, v)
  {
    var m := Mul(v, v);
    var w := Mul(CnotVec(n, c, t, v), CnotVec(n, c, t, v));
    var on := seq(|v|, k requires 0 <= k < |v| => if Bit(k, c) == 1 then m[k] else 0);
    var off := seq(|v|, k requires 0 <= k < |v| => if Bit(k, c) == 1 then 0 else m[k]);
    SumAdd(on, off, m);
    forall k | 0 <= k < |v| ensures w[k] == XVec(n, t, on)[k] + off[k] {
      FlipBound(k, t, n);
      FlipOther(k, t, c);
    }
    SumAdd(XVec(n, t, on), off, w);
    SumFlip(n, t, on);
  }

  lemma NegNorm(g: Gate, n: nat, v: Vec)
    ensures Dot(NegVec(g, n, v), NegVec(g, n, v)) == Dot(v, v)
  {
    assert Mul(NegVec(g, n, v), NegVec(g, n, v)) == Mul(v, v);
  }

  lemma MixNorm(g: Gate, n: nat, v: Vec, w: Vec)
    requires |v| == |w|
    ensures var a := MixVec(g, n, v, w, true);
            var b := MixVec(g, n, w, v, false);
            Dot(a, a) + Dot(b, b) == Dot(v, v) + Dot(w, w)
  {
    var a, b := MixVec(g, n, v, w, true), MixVec(g, n, w, v, false);
    var t := seq(|v|, k requires 0 <= k < |v| => v[k] * v[k] + w[k] * w[k]);
    SumAdd(Mul(v, v), Mul(w, w), t);
    forall k | 0 <= k < |v| ensures t[k] == Mul(a, a)[k] + Mul(b, b)[k] {
      assert (-w[k]) * (-w[k]) == w[k] * w[k];
    }
    SumAdd(Mul(a, a), Mul(b, b), t);
  }

  /** Each gate keeps the ratio of the norm to 2^h. */
  lemma StepNorm(s: State, g: Gate)
    requires s.Valid() && Fits(g, s.n)
    requires Norm(s) == Pow2(s.h)
    ensures Norm(Step(s, g)) == Pow2(Step(s, g).h)
  {
    match g
    case H(q) => HNorm(s.n, q, s.re); HNorm(s.n, q, s.im);
    case X(q) => XNorm(s.n, q, s.re); XNorm(s.n, q, s.im);
    case Cnot(c, t) => CnotNorm(s.n, c, t, s.re); CnotNorm(s.n, c, t, s.im);
    case S(q) => MixNorm(g, s.n, s.re, s.im);
    case _ => NegNorm(g, s.n, s.re); NegNorm(g, s.n, s.im);
  }

  function Basis(len: nat): (v: Vec)
    ensures |v| == len
  {
    seq(len, k => if k == 0 then 1 else 0)
  }

  function Zeros(len: nat): (v: Vec)
    ensures |v| == len
  {
    seq(len, k => 0)
  }

  /** qsv_reset: |0...0> with h = 0. */
  function Reset(n: nat): (s: State)
    ensures s.Valid()
  {
    State(n, Basis(Pow2(n)), Zeros(Pow2(n)), 0)
  }

  lemma {:induction false} DotBasis(v: Vec)
    requires |v| > 0
    ensures Dot(v, Basis(|v|)) == v[0]
  {
    var m := Mul(v, Basis(|v|));
    if |v| == 1 {
      assert m == [v[0]];
      assert Sum(m[..0]) == 0;
    } else {
      var u := v[..|v| - 1];
      DotBasis(u);
      assert m[..|v| - 1] == Mul(u, Basis(|u|));
      assert m[|v| - 1] == 0;
    }
  }

  lemma {:induction false} DotZeros(len: nat)
    ensures Dot(Zeros(len), Zeros(len)) == 0
  {
    SumScale(Zeros(len), 0, Mul(Zeros(len), Zeros(len)));
  }

  /** Unitarity: over every circuit, sum |v|^2 == 2^h exactly. */
  lemma {:induction false} NormConserved(n: nat, gs: seq<Gate>)
    requires AllFit(gs, n)
    ensures Norm(Run(Reset(n), gs)) == Pow2(Run(Reset(n), gs).h)
  {
    if gs == [] {
      DotBasis(Basis(Pow2(n)));
      DotZeros(Pow2(n));
    } else {
      NormConserved(n, gs[..|gs| - 1]);
      StepNorm(Run(Reset(n), gs[..|gs| - 1]), gs[|gs| - 1]);
    }
  }

  /** So every probability |v_k|^2 / 2^h lies between 0 and 1. */
  lemma WeightBounded(s: State, k: nat)
    requires s.Valid() && k < Pow2(s.n)
    ensures 0 <= Weight(s, k) <= Norm(s)
  {
    var m := seq(|s.re|, i requires 0 <= i < |s.re| => s.re[i] * s.re[i] + s.im[i] * s.im[i]);
    SumAdd(Mul(s.re, s.re), Mul(s.im, s.im), m);
    forall i | 0 <= i < |m| ensures m[i] >= 0 { }
    SumNonNeg(m);
    assert m[k] == Weight(s, k);
  }
}
