/** What the composite operations mean: the oracle flips the phase of one basis state, and
    H^n X^n MCZ X^n H^n is exactly the reflection about the mean, for every n and every state. */
module QsvGrover {
  import opened QsvBits
  import opened QsvExact

  function HRow(m: nat): seq<Gate> {
    if m == 0 then [] else HRow(m - 1) + [H(m - 1)]
  }

  function XRow(m: nat): seq<Gate> {
    if m == 0 then [] else XRow(m - 1) + [X(m - 1)]
  }

  /** X on every qubit below m whose bit in target is clear. */
  function XMask(target: nat, m: nat): seq<Gate> {
    if m == 0 then []
    else if Bit(target, m - 1) == 0 then XMask(target, m - 1) + [X(m - 1)]
    else XMask(target, m - 1)
  }

  function OracleGates(n: nat, target: nat): seq<Gate> {
    XMask(target, n) + [Mcz] + XMask(target, n)
  }

  function DiffusionGates(n: nat): seq<Gate> {
    HRow(n) + XRow(n) + [Mcz] + XRow(n) + HRow(n)
  }

  lemma {:induction false} RowsFit(n: nat, m: nat, target: nat)
    requires m <= n
    ensures AllFit(HRow(m), n) && AllFit(XRow(m), n) && AllFit(XMask(target, m), n)
  {
    if m > 0 { RowsFit(n, m - 1, target); }
  }

  lemma CompositesFit(n: nat, target: nat)
    ensures AllFit(OracleGates(n, target), n) && AllFit(DiffusionGates(n), n)
  {
    RowsFit(n, n, target);
  }

  lemma {:induction false} XRowIsMask(m: nat)
    ensures XRow(m) == XMask(0, m)
  {
    if m > 0 { XRowIsMask(m - 1); ZeroBits(m - 1); }
  }

  // ---- the oracle ----

  /** The index that XMask(target, m) reads when it writes index k. */
  function Masked(k: nat, target: nat, m: nat): nat
    decreases m
  {
    if m == 0 then k
    else Masked(if Bit(target, m - 1) == 0 then Flip(k, m - 1) else k, target, m - 1)
  }

  lemma {:induction false} MaskedBits(k: nat, target: nat, m: nat, n: nat)
    requires m <= n && k < Pow2(n)
    ensures Masked(k, target, m) < Pow2(n)
    ensures forall q: nat ::
              Bit(Masked(k, target, m), q) == if q < m && Bit(target, q) == 0 then 1 - Bit(k, q) else Bit(k, q)
    decreases m
  {
    if m > 0 {
      var k' := if Bit(target, m - 1) == 0 then Flip(k, m - 1) else k;
      FlipBound(k, m - 1, n);
      MaskedBits(k', target, m - 1, n);
      FlipFlip(k, m - 1);
      forall q: nat
        ensures Bit(Masked(k, target, m), q) == if q < m && Bit(target, q) == 0 then 1 - Bit(k, q) else Bit(k, q)
      {
        if q != m - 1 { FlipOther(k, m - 1, q); }
      }
    }
  }

  lemma MaskedTwice(k: nat, target: nat, n: nat)
    requires k < Pow2(n)
    ensures Masked(k, target, n) < Pow2(n)
    ensures Masked(Masked(k, target, n), target, n) == k
  {
    MaskedBits(k, target, n, n);
    MaskedBits(Masked(k, target, n), target, n, n);
    BitsDetermine(Masked(Masked(k, target, n), target, n), k, n);
  }

  /** The mask carries exactly the target state to |1...1>. */
  lemma MaskedTarget(k: nat, target: nat, n: nat)
    requires k < Pow2(n) && target < Pow2(n)
    ensures Masked(k, target, n) == Pow2(n) - 1 <==> k == target
  {
    MaskedBits(k, target, n, n);
    var ones := Pow2(n) - 1;
    forall q: nat | q < n ensures Bit(ones, q) == 1 { AllOnes(n, q); }
    if k == target {
      BitsDetermine(Masked(k, target, n), ones, n);
    } else if Masked(k, target, n) == Pow2(n) - 1 {
      BitsDetermine(k, target, n);
    }
  }

  /** What XMask(target, m) does to one component. */
  ghost predicate Permuted(v: Vec, r: Vec, target: nat, m: nat) {
    && |v| == |r|
    && forall k: nat | k < |r| :: Masked(k, target, m) < |v| && r[k] == v[Masked(k, target, m)]
  }

  lemma PermutedStart(v: Vec, target: nat)
    ensures Permuted(v, v, target, 0)
  {
  }

  lemma PermutedStep(n: nat, v: Vec, r: Vec, target: nat, m: nat)
    requires m < n && |v| == Pow2(n)
    requires Permuted(v, r, target, m)
    ensures Permuted(v, if Bit(target, m) == 0 then XVec(n, m, r) else r, target, m + 1)
  {
    var r' := if Bit(target, m) == 0 then XVec(n, m, r) else r;
    forall k: nat | k < |v| ensures Masked(k, target, m + 1) < |v| && r'[k] == v[Masked(k, target, m + 1)] {
      FlipBound(k, m, n);
      var k' := if Bit(target, m) == 0 then Flip(k, m) else k;
      assert r'[k] == r[k'];
      assert Masked(k, target, m + 1) == Masked(k', target, m);
    }
  }

  lemma {:induction false} RunMask(s: State, target: nat, m: nat)
    requires s.Valid() && m <= s.n
    ensures AllFit(XMask(target, m), s.n)
    ensures var r := Run(s, XMask(target, m));
            r.h == s.h && Permuted(s.re, r.re, target, m) && Permuted(s.im, r.im, target, m)
    decreases m
  {
    hide XVec, Permuted, Masked;
    RowsFit(s.n, m, target);
    if m == 0 {
      PermutedStart(s.re, target);
      PermutedStart(s.im, target);
    } else {
      RunMask(s, target, m - 1);
      var r := Run(s, XMask(target, m - 1));
      PermutedStep(s.n, s.re, r.re, target, m - 1);
      PermutedStep(s.n, s.im, r.im, target, m - 1);
    }
  }

  /** The oracle negates the target's amplitude and leaves every other amplitude and the scale alone. */
  lemma OracleFlipsTarget(s: State, target: nat, k: nat)
    requires s.Valid() && target < Pow2(s.n) && k < Pow2(s.n)
    ensures AllFit(OracleGates(s.n, target), s.n)
    ensures var r := Run(s, OracleGates(s.n, target));
            r.h == s.h &&
            r.re[k] == (if k == target then -s.re[k] else s.re[k]) &&
            r.im[k] == (if k == target then -s.im[k] else s.im[k])
  {
    var m := XMask(target, s.n);
    CompositesFit(s.n, target);
    RunMask(s, target, s.n);
    var s1 := Run(s, m);
    var s2 := Step(s1, Mcz);
    RunMask(s2, target, s.n);
    RunConcat(s, m, [Mcz]);
    assert Run(s1, [Mcz]) == s2 by { assert Run(s1, [Mcz][..0]) == s1; }
    RunConcat(s, m + [Mcz], m);
    MaskedTwice(k, target, s.n);
    MaskedTarget(k, target, s.n);
  }

  // ---- the Walsh-Hadamard transform ----

  /** H on qubits 0..m-1 in turn, on one component. */
  function HAll(n: nat, v: Vec, m: nat): (r: Vec)
    requires m <= n && |v| == Pow2(n)
    ensures |r| == |v|
  {
    if m == 0 then v else HVec(n, m - 1, HAll(n, v, m - 1))
  }

  lemma HCommute(n: nat, p: nat, q: nat, v: Vec)
    requires p < n && q < n && p != q && |v| == Pow2(n)
    ensures HVec(n, p, HVec(n, q, v)) == HVec(n, q, HVec(n, p, v))
  {
    forall k | 0 <= k < |v| ensures HVec(n, p, HVec(n, q, v))[k] == HVec(n, q, HVec(n, p, v))[k] {
      FlipOther(k, p, q);
      FlipOther(k, q, p);
      FlipBound(k, p, n);
      FlipBound(k, q, n);
    }
  }

  lemma {:induction false} HAllCommute(n: nat, v: Vec, m: nat, q: nat)
    requires m <= q < n && |v| == Pow2(n)
    ensures HAll(n, HVec(n, q, v), m) == HVec(n, q, HAll(n, v, m))
    decreases m
  {
    hide HVec;
    if m > 0 {
      HAllCommute(n, v, m - 1, q);
      HCommute(n, m - 1, q, HAll(n, v, m - 1));
    }
  }

  /** The transform squares to 2^m. */
  lemma {:induction false} HAllTwice(n: nat, v: Vec, m: nat)
    requires m <= n && |v| == Pow2(n)
    ensures HAll(n, HAll(n, v, m), m) == Scaled(Pow2(m), v)
    decreases m
  {
    hide HVec;
    if m > 0 {
      var u := HAll(n, v, m - 1);
      var w := HAll(n, u, m - 1);
      HAllCommute(n, u, m - 1, m - 1);
      HTwice(n, m - 1, w);
      HAllTwice(n, v, m - 1);
      assert Scaled(2, Scaled(Pow2(m - 1), v)) == Scaled(Pow2(m), v) by {
        forall k | 0 <= k < |v| ensures 2 * (Pow2(m - 1) * v[k]) == Pow2(m) * v[k] { }
      }
    }
  }

  lemma {:induction false} HAllSymmetric(n: nat, v: Vec, w: Vec, m: nat)
    requires m <= n && |v| == |w| == Pow2(n)
    ensures Dot(HAll(n, v, m), w) == Dot(v, HAll(n, w, m))
    decreases m
  {
    hide Dot, HVec, Pow2;
    if m > 0 {
      HSymmetric(n, m - 1, HAll(n, v, m - 1), w);
      HAllSymmetric(n, v, HVec(n, m - 1, w), m - 1);
      HAllCommute(n, w, m - 1, m - 1);
    }
  }

  /** H^n |0> is the uniform superposition. */
  lemma {:induction false} HAllBasis(n: nat, m: nat)
    requires m <= n
    ensures forall k | 0 <= k < Pow2(n) :: HAll(n, Basis(Pow2(n)), m)[k] == if k < Pow2(m) then 1 else 0
    decreases m
  {
    if m > 0 {
      HAllBasis(n, m - 1);
      var u := HAll(n, Basis(Pow2(n)), m - 1);
      var r := HVec(n, m - 1, u);
      forall k: nat | k < Pow2(n) ensures r[k] == if k < Pow2(m) then 1 else 0 {
        FlipBound(k, m - 1, n);
        FlipStride(k, m - 1);
        if k < Pow2(m - 1) {
          TopHalf(k, m - 1, m - 1);
        } else if k < Pow2(m) {
          TopHalf(k - Pow2(m - 1), m - 1, m - 1);
        } else {
          FlipFlip(k, m - 1);
          if Flip(k, m - 1) < Pow2(m) { FlipBound(Flip(k, m - 1), m - 1, m); }
        }
      }
    }
  }

  function Ones(len: nat): (v: Vec)
    ensures |v| == len
  {
    seq(len, k => 1)
  }

  lemma {:induction false} DotOnes(v: Vec)
    ensures Dot(v, Ones(|v|)) == Sum(v)
  {
    assert Mul(v, Ones(|v|)) == v;
  }

  /** The transform gathers the sum of all amplitudes at index 0. */
  lemma HAllAtZero(n: nat, v: Vec)
    requires |v| == Pow2(n)
    ensures HAll(n, v, n)[0] == Sum(v)
  {
    var e := Basis(Pow2(n));
    DotBasis(HAll(n, v, n));
    HAllSymmetric(n, v, e, n);
    HAllBasis(n, n);
    assert HAll(n, e, n) == Ones(Pow2(n));
    DotOnes(v);
  }

  /** a + c * b */
  function Plus(a: Vec, c: int, b: Vec): (r: Vec)
    requires |a| == |b|
    ensures |r| == |a|
  {
    seq(|a|, k requires 0 <= k < |a| => a[k] + c * b[k])
  }

  lemma HLinear(n: nat, q: nat, a: Vec, c: int, b: Vec)
    requires q < n && |a| == |b| == Pow2(n)
    ensures HVec(n, q, Plus(a, c, b)) == Plus(HVec(n, q, a), c, HVec(n, q, b))
  {
    forall k | 0 <= k < |a| ensures HVec(n, q, Plus(a, c, b))[k] == Plus(HVec(n, q, a), c, HVec(n, q, b))[k] {
      FlipBound(k, q, n);
      assert c * (b[k] + b[Flip(k, q)]) == c * b[k] + c * b[Flip(k, q)];
      assert c * (b[Flip(k, q)] - b[k]) == c * b[Flip(k, q)] - c * b[k];
    }
  }

  lemma {:induction false} HAllLinear(n: nat, a: Vec, c: int, b: Vec, m: nat)
    requires m <= n && |a| == |b| == Pow2(n)
    ensures HAll(n, Plus(a, c, b), m) == Plus(HAll(n, a, m), c, HAll(n, b, m))
    decreases m
  {
    if m > 0 {
      HAllLinear(n, a, c, b, m - 1);
      HLinear(n, m - 1, HAll(n, a, m - 1), c, HAll(n, b, m - 1));
    }
  }

  /** H^n, negate index 0, H^n: the reflection about the mean on one component. */
  lemma ReflectVec(n: nat, v: Vec, w: Vec, k: nat)
    requires |v| == |w| == Pow2(n) && k < Pow2(n)
    requires var u := HAll(n, v, n);
             forall j | 0 <= j < Pow2(n) :: w[j] == if j == 0 then -u[j] else u[j]
    ensures HAll(n, w, n)[k] == Pow2(n) * v[k] - 2 * Sum(v)
  {
    var u, e := HAll(n, v, n), Basis(Pow2(n));
    HAllAtZero(n, v);
    assert w == Plus(u, -2 * u[0], e);
    HAllLinear(n, u, -2 * u[0], e, n);
    HAllTwice(n, v, n);
    HAllBasis(n, n);
    assert HAll(n, w, n)[k] == HAll(n, u, n)[k] + (-2 * u[0]) * 1;
  }

  lemma {:induction false} RunHRow(s: State, m: nat)
    requires s.Valid() && m <= s.n
    ensures AllFit(HRow(m), s.n)
    ensures Run(s, HRow(m)) == State(s.n, HAll(s.n, s.re, m), HAll(s.n, s.im, m), s.h + m)
    decreases m
  {
    hide HVec;
    RowsFit(s.n, m, 0);
    if m > 0 { RunHRow(s, m - 1); }
  }

  /** H^n X^n MCZ X^n H^n, as the oracle on |0...0> between two transforms. */
  lemma DiffusionRun(s: State)
    requires s.Valid()
    ensures AllFit(HRow(s.n), s.n) && AllFit(OracleGates(s.n, 0), s.n) && AllFit(DiffusionGates(s.n), s.n)
    ensures Run(s, DiffusionGates(s.n)) == Run(Run(Run(s, HRow(s.n)), OracleGates(s.n, 0)), HRow(s.n))
  {
    hide Run;
    var n := s.n;
    RowsFit(n, n, 0);
    CompositesFit(n, 0);
    XRowIsMask(n);
    var h, o := HRow(n), OracleGates(n, 0);
    assert DiffusionGates(n) == h + o + h;
    RunConcat(s, h, o);
    RunConcat(s, h + o, h);
  }

  /** qsv_diffusion is exactly 2^n v_k - 2 * sum_j v_j at scale h + 2n, on both components. */
  lemma DiffusionReflects(s: State, k: nat)
    requires s.Valid() && k < Pow2(s.n)
    ensures AllFit(DiffusionGates(s.n), s.n)
    ensures var r := Run(s, DiffusionGates(s.n));
            r.h == s.h + 2 * s.n &&
            r.re[k] == Pow2(s.n) * s.re[k] - 2 * Sum(s.re) &&
            r.im[k] == Pow2(s.n) * s.im[k] - 2 * Sum(s.im)
  {
    hide HVec, HAll, Run, Step;
    var n := s.n;
    DiffusionRun(s);
    RunHRow(s, n);
    var s1 := Run(s, HRow(n));
    var s2 := Run(s1, OracleGates(n, 0));
    RunHRow(s2, n);
    OracleFlipsTarget(s1, 0, k);
    forall j: nat | j < Pow2(n)
      ensures s2.re[j] == if j == 0 then -s1.re[j] else s1.re[j]
      ensures s2.im[j] == if j == 0 then -s1.im[j] else s1.im[j]
    {
      OracleFlipsTarget(s1, 0, j);
    }
    ReflectVec(n, s.re, s2.re, k);
    ReflectVec(n, s.im, s2.im, k);
  }

  // ---- Grover search ----

  /** n Hadamards, then iters rounds of oracle and diffusion. */
  function GroverGates(n: nat, target: nat, iters: nat): seq<Gate> {
    if iters == 0 then HRow(n)
    else GroverGates(n, target, iters - 1) + (OracleGates(n, target) + DiffusionGates(n))
  }

  /** The two-dimensional dynamics: (amplitude at the target, amplitude everywhere else). */
  function GroverAmp(n: nat, iters: nat): (int, int) {
    if iters == 0 then (1, 1)
    else
      var (a, b) := GroverAmp(n, iters - 1);
      var sum := (Pow2(n) - 1) * b - a;
      (-(Pow2(n) * a) - 2 * sum, Pow2(n) * b - 2 * sum)
  }

  ghost predicate Spike(v: Vec, target: nat, a: int, b: int) {
    forall k | 0 <= k < |v| :: v[k] == if k == target then a else b
  }

  lemma {:induction false} SumSpike(v: Vec, target: nat, a: int, b: int)
    requires Spike(v, target, a, b)
    ensures Sum(v) == if target < |v| then a + (|v| - 1) * b else |v| * b
  {
    if v != [] {
      SumSpike(v[..|v| - 1], target, a, b);
      assert |v| * b == (|v| - 1) * b + b;
      assert |v| > 1 ==> (|v| - 1) * b == (|v| - 2) * b + b;
    }
  }

  lemma HRowUniform(n: nat)
    ensures AllFit(HRow(n), n)
    ensures var r := Run(Reset(n), HRow(n));
            r.h == n && r.re == Ones(Pow2(n)) && r.im == Zeros(Pow2(n))
  {
    var s := Reset(n);
    RunHRow(s, n);
    HAllBasis(n, n);
    assert HAll(n, s.re, n) == Ones(Pow2(n));
    HAllZeros(n, n);
  }

  lemma {:induction false} HAllZeros(n: nat, m: nat)
    requires m <= n
    ensures HAll(n, Zeros(Pow2(n)), m) == Zeros(Pow2(n))
    decreases m
  {
    if m > 0 {
      HAllZeros(n, m - 1);
      var z := Zeros(Pow2(n));
      forall k: nat | k < Pow2(n) ensures HVec(n, m - 1, z)[k] == z[k] { FlipBound(k, m - 1, n); }
    }
  }

  /** One round of oracle and diffusion on a state that is flat away from the target. */
  lemma GroverRound(s: State, target: nat, a: int, b: int)
    requires s.Valid() && target < Pow2(s.n)
    requires Spike(s.re, target, a, b) && Spike(s.im, target, 0, 0)
    ensures AllFit(OracleGates(s.n, target) + DiffusionGates(s.n), s.n)
    ensures var r := Run(s, OracleGates(s.n, target) + DiffusionGates(s.n));
            var sum := (Pow2(s.n) - 1) * b - a;
            r.h == s.h + 2 * s.n && Spike(r.im, target, 0, 0) &&
            Spike(r.re, target, -(Pow2(s.n) * a) - 2 * sum, Pow2(s.n) * b - 2 * sum)
  {
    hide Run, Step;
    CompositesFit(s.n, target);
    RunConcat(s, OracleGates(s.n, target), DiffusionGates(s.n));
    var s1 := Run(s, OracleGates(s.n, target));
    OracleFlipsTarget(s, target, 0);
    assert Spike(s1.re, target, -a, b) && Spike(s1.im, target, 0, 0) by {
      forall k: nat | k < Pow2(s.n)
        ensures s1.re[k] == (if k == target then -a else b) && s1.im[k] == 0
      {
        OracleFlipsTarget(s, target, k);
      }
    }
    SumSpike(s1.re, target, -a, b);
    SumSpike(s1.im, target, 0, 0);
    var r := Run(s1, DiffusionGates(s.n));
    DiffusionReflects(s1, 0);
    forall k: nat | k < Pow2(s.n)
      ensures r.re[k] == Pow2(s.n) * s1.re[k] - 2 * Sum(s1.re)
      ensures r.im[k] == Pow2(s.n) * s1.im[k] - 2 * Sum(s1.im)
    {
      DiffusionReflects(s1, k);
    }
    assert Pow2(s.n) * -a == -(Pow2(s.n) * a);
  }

  /** Grover's circuit, for every n, target and number of rounds: a two-value recurrence at scale n + 2n*iters. */
  lemma {:induction false} GroverAmplitudes(n: nat, target: nat, iters: nat)
    requires target < Pow2(n)
    ensures AllFit(GroverGates(n, target, iters), n)
    ensures var r := Run(Reset(n), GroverGates(n, target, iters));
            r.h == n + 2 * n * iters && Spike(r.im, target, 0, 0) &&
            Spike(r.re, target, GroverAmp(n, iters).0, GroverAmp(n, iters).1)
  {
    hide Run, OracleGates, DiffusionGates;
    if iters == 0 {
      HRowUniform(n);
    } else {
      GroverAmplitudes(n, target, iters - 1);
      var g := GroverGates(n, target, iters - 1);
      var (a, b) := GroverAmp(n, iters - 1);
      GroverRound(Run(Reset(n), g), target, a, b);
      RunConcat(Reset(n), g, OracleGates(n, target) + DiffusionGates(n));
    }
  }

  /** The published four-qubit figure holds for every target: amplitude -16064 at h = 28. */
  lemma GroverFourQubits(target: nat)
    requires target < 16
    ensures AllFit(GroverGates(4, target, 3), 4)
    ensures var r := Run(Reset(4), GroverGates(4, target, 3));
            |r.re| == 16 && r.h == 28 && r.re[target] == -16064 && r.im[target] == 0
  {
    hide Run;
    assert Pow2(4) == 16;
    GroverAmplitudes(4, target, 3);
    assert GroverAmp(4, 1) == (-44, -12);
    assert GroverAmp(4, 2) == (976, 80);
    assert GroverAmp(4, 3) == (-16064, 832);
  }
}
