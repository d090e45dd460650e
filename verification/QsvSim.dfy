/** The bounded engine against the unbounded mirror, over every circuit. */
module QsvSim {
  import opened QsvBits
  import opened QsvExact
  import opened Int32
  import opened QsvEngine

  /** Equal, except that the engine reads -2^31 where the mirror holds +2^31. */
  predicate Twin(a: int, b: int) {
    a == b || (a == INT32_MIN && b == -INT32_MIN)
  }

  predicate TwinVec(v: Vec, w: Vec) {
    |v| == |w| && forall k | 0 <= k < |v| :: Twin(v[k], w[k])
  }

  ghost predicate Simulates(m: Machine, s: State) {
    && m.Valid() && s.Valid()
    && m.s.n == s.n && m.s.h == s.h
    && TwinVec(m.s.re, s.re) && TwinVec(m.s.im, s.im)
  }

  /** A wrapped part can only meet a zero partner without raising the flag, and then as the minuend. */
  lemma ButterflyTwins(a: int, b: int, x: int, y: int)
    requires InRange(a) && InRange(b) && Twin(a, x) && Twin(b, y)
    requires InRange(a + b) && InRange(a - b)
    ensures Twin(a + b, x + y) && Twin(a - b, x - y)
    ensures a == INT32_MIN ==> b == 0
    ensures b != INT32_MIN
  {
  }

  lemma HTwins(n: nat, q: nat, v: Vec, w: Vec)
    requires q < n && |v| == Pow2(n) && TwinVec(v, w)
    requires VecInRange(v) && VecInRange(HVec(n, q, v))
    ensures TwinVec(Trunc(HVec(n, q, v)), HVec(n, q, w))
  {
    var hv, hw := HVec(n, q, v), HVec(n, q, w);
    forall k: nat | k < |v| ensures Twin(Trunc(hv)[k], hw[k]) {
      FlipBound(k, q, n);
      FlipFlip(k, q);
      var f := Flip(k, q);
      var i := if Bit(k, q) == 0 then k else f;
      var j := Flip(i, q);
      assert InRange(hv[k]) && InRange(hv[f]);
      ButterflyTwins(v[i], v[j], w[i], w[j]);
    }
  }

  lemma XTwins(n: nat, q: nat, v: Vec, w: Vec)
    requires q < n && |v| == Pow2(n) && TwinVec(v, w) && VecInRange(v)
    ensures TwinVec(Trunc(XVec(n, q, v)), XVec(n, q, w))
  {
    forall k: nat | k < |v| ensures Twin(Trunc(XVec(n, q, v))[k], XVec(n, q, w)[k]) { FlipBound(k, q, n); }
  }

  lemma CnotTwins(n: nat, c: nat, t: nat, v: Vec, w: Vec)
    requires t < n && |v| == Pow2(n) && TwinVec(v, w) && VecInRange(v)
    ensures TwinVec(Trunc(CnotVec(n, c, t, v)), CnotVec(n, c, t, w))
  {
    forall k: nat | k < |v| ensures Twin(Trunc(CnotVec(n, c, t, v))[k], CnotVec(n, c, t, w)[k]) { FlipBound(k, t, n); }
  }

  lemma NegTwins(g: Gate, n: nat, v: Vec, w: Vec)
    requires TwinVec(v, w) && VecInRange(v)
    ensures TwinVec(Trunc(NegVec(g, n, v)), NegVec(g, n, w))
  {
  }

  lemma MixTwins(g: Gate, n: nat, v: Vec, w: Vec, x: Vec, y: Vec, negate: bool)
    requires TwinVec(v, w) && TwinVec(x, y) && |v| == |x| && VecInRange(v) && VecInRange(x)
    ensures TwinVec(Trunc(MixVec(g, n, v, x, negate)), MixVec(g, n, w, y, negate))
  {
  }

  lemma StepSimulates(m: Machine, s: State, g: Gate)
    requires Simulates(m, s) && Fits(g, s.n) && !MStep(m, g).overflow
    ensures Simulates(MStep(m, g), Step(s, g))
  {
    hide Trunc, HVec, XVec, CnotVec, NegVec, MixVec, TwinVec, VecInRange;
    var v, x, w, y := m.s.re, m.s.im, s.re, s.im;
    match g
    case H(q) => HTwins(s.n, q, v, w); HTwins(s.n, q, x, y);
    case X(q) => XTwins(s.n, q, v, w); XTwins(s.n, q, x, y);
    case Cnot(c, t) => CnotTwins(s.n, c, t, v, w); CnotTwins(s.n, c, t, x, y);
    case S(q) =>
      TwinLengths(v, w);
      TwinLengths(x, y);
      MixTwins(g, s.n, v, w, x, y, true);
      MixTwins(g, s.n, x, y, v, w, false);
    case _ => NegTwins(g, s.n, v, w); NegTwins(g, s.n, x, y);
  }

  lemma TwinLengths(v: Vec, w: Vec)
    requires TwinVec(v, w)
    ensures |v| == |w|
  {
  }

  /** As long as the overflow flag stays clear the engine tracks the mirror, whatever the circuit. */
  lemma {:induction false} EngineSimulates(n: nat, gs: seq<Gate>)
    requires AllFit(gs, n) && !MRun(MReset(n), gs).overflow
    ensures Simulates(MRun(MReset(n), gs), Run(Reset(n), gs))
  {
    if gs != [] {
      var g := gs[..|gs| - 1];
      EngineSimulates(n, g);
      StepSimulates(MRun(MReset(n), g), Run(Reset(n), g), gs[|gs| - 1]);
    }
  }

  /** Twins square alike, so the two states give every basis state the same probability. */
  lemma TwinWeights(m: Machine, s: State, k: nat)
    requires Simulates(m, s) && k < Pow2(s.n)
    ensures Weight(m.s, k) == Weight(s, k)
  {
    TwinSquare(m.s.re[k], s.re[k]);
    TwinSquare(m.s.im[k], s.im[k]);
  }

  lemma TwinSquare(a: int, b: int)
    requires Twin(a, b)
    ensures a * a == b * b
  {
  }

  lemma TwinNorm(m: Machine, s: State)
    requires Simulates(m, s)
    ensures Norm(m.s) == Norm(s)
  {
    forall k | 0 <= k < |s.re|
      ensures Mul(m.s.re, m.s.re)[k] == Mul(s.re, s.re)[k]
      ensures Mul(m.s.im, m.s.im)[k] == Mul(s.im, s.im)[k]
    {
      TwinSquare(m.s.re[k], s.re[k]);
      TwinSquare(m.s.im[k], s.im[k]);
    }
    assert Mul(m.s.re, m.s.re) == Mul(s.re, s.re);
    assert Mul(m.s.im, m.s.im) == Mul(s.im, s.im);
  }

  lemma NormUpper(m: Machine)
    requires m.Valid()
    ensures Norm(m.s) <= Pow2(m.s.n + 63)
  {
    var b := 0x4000_0000_0000_0000;
    forall k | 0 <= k < |m.s.re|
      ensures Mul(m.s.re, m.s.re)[k] <= b && Mul(m.s.im, m.s.im)[k] <= b
    {
      SquareBound(m.s.re[k]);
      SquareBound(m.s.im[k]);
    }
    SumUpper(Mul(m.s.re, m.s.re), b);
    SumUpper(Mul(m.s.im, m.s.im), b);
    Pow2Add(m.s.n, 63);
    Pow2SixtyThree();
  }

  lemma Pow2SixtyThree()
    ensures Pow2(63) == 0x8000_0000_0000_0000
  {
    assert Pow2(16) == 0x1_0000;
    Pow2Add(16, 16);
    Pow2Add(32, 16);
    assert Pow2(15) == 0x8000;
    Pow2Add(48, 15);
  }

  /** Over every circuit: a clear flag means the norm identity holds on the int32 state itself, the scale
      is bounded, and the norm test after the overflow test cannot fail. */
  lemma ClearFlagIsUnitary(n: nat, gs: seq<Gate>)
    requires AllFit(gs, n) && !MRun(MReset(n), gs).overflow
    ensures var m := MRun(MReset(n), gs);
            Norm(m.s) == Pow2(m.s.h) && m.s.h <= n + 63
  {
    hide Norm, MRun, Run, Pow2;
    var m, s := MRun(MReset(n), gs), Run(Reset(n), gs);
    EngineSimulates(n, gs);
    TwinNorm(m, s);
    NormConserved(n, gs);
    NormUpper(m);
    Pow2Below(m.s.h, n + 63);
  }

  /** Every probability the engine can report is the mirror's. */
  lemma ProbabilitiesAgree(n: nat, gs: seq<Gate>, k: nat)
    requires AllFit(gs, n) && !MRun(MReset(n), gs).overflow && k < Pow2(n)
    ensures var m, s := MRun(MReset(n), gs), Run(Reset(n), gs);
            m.s.h == s.h && Weight(m.s, k) == Weight(s, k) && 0 <= Weight(s, k) <= Pow2(s.h)
  {
    var m, s := MRun(MReset(n), gs), Run(Reset(n), gs);
    EngineSimulates(n, gs);
    TwinWeights(m, s, k);
    NormConserved(n, gs);
    WeightBounded(s, k);
  }

  /** Strictly inside the int32 range, so that negation cannot wrap either. */
  ghost predicate Tame(s: State)
    requires s.Valid()
  {
    forall k | 0 <= k < |s.re| :: INT32_MIN < s.re[k] <= INT32_MAX && INT32_MIN < s.im[k] <= INT32_MAX
  }

  /** Conversely the flag stays clear, and the two states are equal, while the mirror stays in range. */
  lemma {:induction false} FlagClearWhileTame(n: nat, gs: seq<Gate>)
    requires AllFit(gs, n)
    requires forall i | 0 <= i <= |gs| :: Tame(Run(Reset(n), gs[..i]))
    ensures MRun(MReset(n), gs) == Machine(Run(Reset(n), gs), false)
  {
    if gs != [] {
      var g := gs[..|gs| - 1];
      forall i | 0 <= i <= |g| ensures Tame(Run(Reset(n), g[..i])) { assert g[..i] == gs[..i]; }
      FlagClearWhileTame(n, g);
      assert gs[..|gs|] == gs;
      var t := Step(Run(Reset(n), g), gs[|gs| - 1]);
      assert Tame(t);
      TruncId(t.re);
      TruncId(t.im);
    }
  }

  // ---- exactly when the flag stays clear ----

  /** A butterfly on the mirror's parts x and y that the engine can follow. */
  predicate PairSafe(x: int, y: int) {
    (InRange(x) && InRange(y) && InRange(x + y) && InRange(x - y)) || (x == -INT32_MIN && y == 0)
  }

  lemma PairIff(a: int, b: int, x: int, y: int)
    requires InRange(a) && InRange(b) && Twin(a, x) && Twin(b, y)
    ensures InRange(a + b) && InRange(a - b) <==> PairSafe(x, y)
  {
  }

  /** Every pair of one component across qubit q is safe. */
  ghost predicate PairsSafe(v: Vec, q: nat) {
    forall k: nat | k < |v| && Bit(k, q) == 0 && Flip(k, q) < |v| :: PairSafe(v[k], v[Flip(k, q)])
  }

  lemma ComponentIff(n: nat, q: nat, v: Vec, w: Vec)
    requires q < n && |v| == Pow2(n) && TwinVec(v, w) && VecInRange(v)
    ensures VecInRange(HVec(n, q, v)) <==> PairsSafe(w, q)
  {
    hide Pow2, Twin;
    if VecInRange(HVec(n, q, v)) {
      forall k: nat | k < |w| && Bit(k, q) == 0 && Flip(k, q) < |w|
        ensures PairSafe(w[k], w[Flip(k, q)])
      {
        HAt(n, q, v, k);
        var hv := HVec(n, q, v);
        assert InRange(hv[k]) && InRange(hv[Flip(k, q)]);
        PairIff(v[k], v[Flip(k, q)], w[k], w[Flip(k, q)]);
      }
    }
    if PairsSafe(w, q) {
      forall k | 0 <= k < |v|
        ensures InRange(HVec(n, q, v)[k])
      {
        FlipBound(k, q, n);
        FlipFlip(k, q);
        var i := if Bit(k, q) == 0 then k else Flip(k, q);
        FlipFlip(i, q);
        HAt(n, q, v, i);
        PairIff(v[i], v[Flip(i, q)], w[i], w[Flip(i, q)]);
      }
    }
  }

  /** Every Hadamard of the circuit meets only safe pairs on the mirror. */
  ghost predicate SafeRun(n: nat, gs: seq<Gate>)
    requires AllFit(gs, n)
  {
    forall i | 0 <= i < |gs| && gs[i].H? ::
      var s := Run(Reset(n), gs[..i]); PairsSafe(s.re, gs[i].q) && PairsSafe(s.im, gs[i].q)
  }

  lemma SafeSnoc(n: nat, gs: seq<Gate>, g: Gate)
    requires AllFit(gs + [g], n)
    ensures AllFit(gs, n)
    ensures SafeRun(n, gs + [g]) <==>
            SafeRun(n, gs) &&
            (g.H? ==> PairsSafe(Run(Reset(n), gs).re, g.q) && PairsSafe(Run(Reset(n), gs).im, g.q))
  {
    hide Run, PairsSafe;
    var all := gs + [g];
    assert forall i | 0 <= i < |gs| :: gs[i] == all[i] && gs[..i] == all[..i];
    assert all[..|gs|] == gs && all[|gs|] == g;
  }

  lemma StepFlag(m: Machine, s: State, g: Gate)
    requires Simulates(m, s) && Fits(g, s.n)
    ensures MStep(m, g).overflow <==> m.overflow || (g.H? && !(PairsSafe(s.re, g.q) && PairsSafe(s.im, g.q)))
  {
    hide PairsSafe, HVec, Trunc, VecInRange, TwinVec;
    if g.H? {
      ComponentIff(s.n, g.q, m.s.re, s.re);
      ComponentIff(s.n, g.q, m.s.im, s.im);
    }
  }

  /** Over every circuit the flag stays clear if and only if every Hadamard meets only safe pairs on the mirror. */
  lemma {:induction false} FlagClearIff(n: nat, gs: seq<Gate>)
    requires AllFit(gs, n)
    ensures !MRun(MReset(n), gs).overflow <==> SafeRun(n, gs)
  {
    if gs != [] {
      hide SafeRun, PairsSafe, MStep;
      var p, g := gs[..|gs| - 1], gs[|gs| - 1];
      assert p + [g] == gs;
      FlagClearIff(n, p);
      SafeSnoc(n, p, g);
      if MRun(MReset(n), p).overflow {
        StickyFlag(MRun(MReset(n), p), g);
      } else {
        EngineSimulates(n, p);
        StepFlag(MRun(MReset(n), p), Run(Reset(n), p), g);
      }
    }
  }

  lemma StickyFlag(m: Machine, g: Gate)
    requires m.Valid() && Fits(g, m.s.n) && m.overflow
    ensures MStep(m, g).overflow
  {
  }

  /** With the flag clear each part the engine holds is the truncation of the mirror's, and differs from it only
      where the mirror holds +2^31. */
  lemma PartsAgree(n: nat, gs: seq<Gate>, k: nat)
    requires AllFit(gs, n) && !MRun(MReset(n), gs).overflow && k < Pow2(n)
    ensures var m, s := MRun(MReset(n), gs).s, Run(Reset(n), gs);
            && m.re[k] == Wrap32(s.re[k]) && (m.re[k] == s.re[k] <==> s.re[k] != -INT32_MIN)
            && m.im[k] == Wrap32(s.im[k]) && (m.im[k] == s.im[k] <==> s.im[k] != -INT32_MIN)
  {
    hide MRun, Run;
    EngineSimulates(n, gs);
    var m, s := MRun(MReset(n), gs), Run(Reset(n), gs);
    assert InRange(m.s.re[k]) && InRange(m.s.im[k]);
    TwinIsWrap(m.s.re[k], s.re[k]);
    TwinIsWrap(m.s.im[k], s.im[k]);
  }

  lemma TwinIsWrap(a: int, x: int)
    requires InRange(a) && Twin(a, x)
    ensures a == Wrap32(x) && (a == x <==> x != -INT32_MIN)
  {
  }

  // ---- the exception is reachable ----

  /** One real qubit. */
  function Real1(a: int, b: int, h: nat): (s: State)
    ensures s.Valid()
  {
    State(1, [a, b], [0, 0], h)
  }

  lemma OneQubit(a: int, b: int, h: nat)
    ensures Step(Real1(a, b, h), H(0)) == Real1(a + b, a - b, h + 1)
    ensures Step(Real1(a, b, h), X(0)) == Real1(b, a, h)
    ensures Step(Real1(a, b, h), Z(0)) == Real1(a, -b, h)
  {
  }

  lemma OneQubitEngine(a: int, b: int, h: nat)
    requires InRange(a) && InRange(b)
    ensures var m := Machine(Real1(a, b, h), false);
            && m.Valid()
            && (InRange(a + b) && InRange(a - b) ==> MStep(m, H(0)) == Machine(Real1(a + b, a - b, h + 1), false))
            && MStep(m, X(0)) == Machine(Real1(b, a, h), false)
            && MStep(m, Z(0)) == Machine(Real1(a, Wrap32(-b), h), false)
  {
    OneQubit(a, b, h);
    TruncPair(a, b);
    TruncPair(b, a);
    TruncPair(a, -b);
    TruncPair(a + b, a - b);
    TruncPair(0, 0);
  }

  lemma TruncPair(a: int, b: int)
    ensures Trunc([a, b]) == [Wrap32(a), Wrap32(b)]
    ensures VecInRange([a, b]) <==> InRange(a) && InRange(b)
  {
    assert VecInRange([a, b]) ==> InRange([a, b][0]) && InRange([a, b][1]);
  }

  /** j pairs of Hadamards double the amplitude j times. */
  function HPairs(j: nat): seq<Gate> {
    if j == 0 then [] else HPairs(j - 1) + [H(0), H(0)]
  }

  lemma {:induction false} HPairsDouble(j: nat)
    requires j <= 30
    ensures AllFit(HPairs(j), 1) && Pow2(j) <= 0x4000_0000
    ensures Run(Reset(1), HPairs(j)) == Real1(Pow2(j), 0, 2 * j)
    ensures MRun(MReset(1), HPairs(j)) == Machine(Real1(Pow2(j), 0, 2 * j), false)
  {
    Pow2Mono(j, 30);
    PowThirty();
    if j == 0 {
      assert Reset(1) == Real1(1, 0, 0);
    } else {
      HPairsDouble(j - 1);
      var p, hh := Pow2(j - 1), [H(0), H(0)];
      RunConcat(Reset(1), HPairs(j - 1), hh);
      MRunConcat(MReset(1), HPairs(j - 1), hh);
      TwoHadamards(p, 2 * (j - 1));
    }
  }

  lemma PowThirty()
    ensures Pow2(30) == 0x4000_0000
  {
    assert Pow2(15) == 0x8000;
    Pow2Add(15, 15);
  }

  lemma RunTwo(s: State, g: Gate, k: Gate)
    requires s.Valid() && Fits(g, s.n) && Fits(k, s.n)
    ensures AllFit([g, k], s.n) && Run(s, [g, k]) == Step(Step(s, g), k)
  {
    hide Step;
    RunConcat(s, [g], [k]);
    RunOne(s, g);
    RunOne(Step(s, g), k);
  }

  lemma MRunTwo(m: Machine, g: Gate, k: Gate)
    requires m.Valid() && Fits(g, m.s.n) && Fits(k, m.s.n)
    ensures AllFit([g, k], m.s.n) && MRun(m, [g, k]) == MStep(MStep(m, g), k)
  {
    hide MStep, MRun, Fits, VecInRange, State.Valid;
    assert [g, k] == [g] + [k];
    MRunOne(m, g);
    MRunOne(MStep(m, g), k);
    MRunConcat(m, [g], [k]);
  }

  lemma TwoHadamards(p: int, h: nat)
    requires 0 <= p && InRange(2 * p)
    ensures Run(Real1(p, 0, h), [H(0), H(0)]) == Real1(2 * p, 0, h + 2)
    ensures Machine(Real1(p, 0, h), false).Valid()
    ensures MRun(Machine(Real1(p, 0, h), false), [H(0), H(0)]) == Machine(Real1(2 * p, 0, h + 2), false)
  {
    hide Step, MStep;
    OneQubit(p, 0, h);
    OneQubit(p, p, h + 1);
    OneQubitEngine(p, 0, h);
    OneQubitEngine(p, p, h + 1);
    RunTwo(Real1(p, 0, h), H(0), H(0));
    MRunTwo(Machine(Real1(p, 0, h), false), H(0), H(0));
  }

  /** 61 Hadamards, a global sign, one more Hadamard, and a sign flip of |0>. */
  function WrapCircuit(): seq<Gate> {
    HPairs(30) + [H(0), Z(0)] + [X(0), Z(0)] + [H(0), Z(0)] + [X(0), Z(0)]
  }

  /** The one way the two engines part with the flag clear: -2^31 where the mirror holds +2^31. */
  lemma NegationWraps()
    ensures AllFit(WrapCircuit(), 1)
    ensures Run(Reset(1), WrapCircuit()) == Real1(0, -INT32_MIN, 62)
    ensures MRun(MReset(1), WrapCircuit()) == Machine(Real1(0, INT32_MIN, 62), false)
  {
    hide Step, MStep, Run, MRun, HPairs;
    HPairsDouble(30);
    PowThirty();
    var p, g1, g2 := 0x4000_0000, [H(0), Z(0)], [X(0), Z(0)];
    var g0 := HPairs(30);
    RunFour(Real1(p, 0, 60), g0, g1, g2);
    OneQubit(p, 0, 60); OneQubit(p, p, 61); OneQubit(p, -p, 61); OneQubit(-p, p, 61);
    OneQubit(-p, -p, 61); OneQubit(-2 * p, 0, 62); OneQubit(0, -2 * p, 62);
    OneQubitEngine(p, 0, 60); OneQubitEngine(p, p, 61); OneQubitEngine(p, -p, 61); OneQubitEngine(-p, p, 61);
    OneQubitEngine(-p, -p, 61); OneQubitEngine(-2 * p, 0, 62); OneQubitEngine(0, -2 * p, 62);
  }

  lemma RunFour(s: State, g0: seq<Gate>, g1: seq<Gate>, g2: seq<Gate>)
    requires AllFit(g0, 1) && g1 == [H(0), Z(0)] && g2 == [X(0), Z(0)]
    requires Run(Reset(1), g0) == s && MRun(MReset(1), g0) == Machine(s, false)
    ensures AllFit(g0 + g1 + g2 + g1 + g2, 1)
    ensures Run(Reset(1), g0 + g1 + g2 + g1 + g2) ==
            Step(Step(Step(Step(Step(Step(Step(Step(s, H(0)), Z(0)), X(0)), Z(0)), H(0)), Z(0)), X(0)), Z(0))
    ensures MRun(MReset(1), g0 + g1 + g2 + g1 + g2) ==
            MStep(MStep(MStep(MStep(
              MStep(MStep(MStep(MStep(Machine(s, false), H(0)), Z(0)), X(0)), Z(0)), H(0)), Z(0)), X(0)), Z(0))
  {
    hide Step, MStep, Run, MRun;
    var m := Machine(s, false);
    RunConcat(Reset(1), g0, g1); MRunConcat(MReset(1), g0, g1);
    RunConcat(Reset(1), g0 + g1, g2); MRunConcat(MReset(1), g0 + g1, g2);
    RunConcat(Reset(1), g0 + g1 + g2, g1); MRunConcat(MReset(1), g0 + g1 + g2, g1);
    RunConcat(Reset(1), g0 + g1 + g2 + g1, g2); MRunConcat(MReset(1), g0 + g1 + g2 + g1, g2);
    RunTwo(s, H(0), Z(0)); MRunTwo(m, H(0), Z(0));
    var s1, m1 := Run(s, g1), MRun(m, g1);
    RunTwo(s1, X(0), Z(0)); MRunTwo(m1, X(0), Z(0));
    var s2, m2 := Run(s1, g2), MRun(m1, g2);
    RunTwo(s2, H(0), Z(0)); MRunTwo(m2, H(0), Z(0));
    RunTwo(Run(s2, g1), X(0), Z(0)); MRunTwo(MRun(m2, g1), X(0), Z(0));
  }

  // ---- the signed sum of the read-out ----

  /** The sum of two int32 squares leaves the signed 64-bit range for exactly one pair. */
  lemma SignedSumFits(a: int, b: int)
    requires InRange(a) && InRange(b)
    ensures a * a + b * b <= 0x7FFF_FFFF_FFFF_FFFF <==> !(a == INT32_MIN && b == INT32_MIN)
  {
    SquareBound(a);
    SquareBound(b);
    if a != INT32_MIN { SmallerSquare(a); }
    if b != INT32_MIN { SmallerSquare(b); }
  }

  lemma SmallerSquare(a: int)
    requires INT32_MIN < a <= INT32_MAX
    ensures a * a <= 0x3FFF_FFFF_0000_0001
  {
    var y := if a < 0 then -a else a;
    assert a * a == y * y;
    Product(y, 0x7FFF_FFFF);
  }

  /** One qubit with complex amplitudes. */
  function Complex1(a: int, b: int, c: int, d: int, h: nat): (s: State)
    ensures s.Valid()
  {
    State(1, [a, b], [c, d], h)
  }

  lemma ComplexSteps(a: int, b: int, c: int, d: int, h: nat)
    ensures Step(Complex1(a, b, c, d, h), H(0)) == Complex1(a + b, a - b, c + d, c - d, h + 1)
    ensures Step(Complex1(a, b, c, d, h), X(0)) == Complex1(b, a, d, c, h)
    ensures Step(Complex1(a, b, c, d, h), Z(0)) == Complex1(a, -b, c, -d, h)
    ensures Step(Complex1(a, b, c, d, h), S(0)) == Complex1(a, -d, c, b, h)
  {
  }

  lemma ComplexSafe(a: int, b: int, c: int, d: int, h: nat)
    requires PairSafe(a, b) && PairSafe(c, d)
    ensures var s := Complex1(a, b, c, d, h); PairsSafe(s.re, 0) && PairsSafe(s.im, 0)
  {
  }

  /** One more gate of a safe circuit on one qubit. */
  lemma Onward(gs: seq<Gate>, g: Gate, s: State)
    requires AllFit(gs, 1) && SafeRun(1, gs) && Run(Reset(1), gs) == s && Fits(g, 1)
    requires g.H? ==> PairsSafe(s.re, g.q) && PairsSafe(s.im, g.q)
    ensures AllFit(gs + [g], 1) && SafeRun(1, gs + [g]) && Run(Reset(1), gs + [g]) == Step(s, g)
  {
    hide SafeRun, PairsSafe, Step, Reset;
    assert (gs + [g])[..|gs|] == gs;
    SafeSnoc(1, gs, g);
  }

  function SumCircuit(): seq<Gate> {
    HPairs(30) + [H(0)] + [X(0)] + [Z(0)] + [X(0)] + [S(0)] + [Z(0)] + [H(0)] + [S(0)] + [H(0)]
  }

  /** That pair is reachable with the flag clear: 61 Hadamards and seven more gates put -2^31 in both parts, where
      the sum of squares, 2^63, is still the exact probability numerator but no longer a signed 64-bit number. */
  lemma SignedSumOverflows()
    ensures AllFit(SumCircuit(), 1) && !MRun(MReset(1), SumCircuit()).overflow
    ensures var m := MRun(MReset(1), SumCircuit()).s;
            m.h == 63 && m.re[0] == m.im[0] == INT32_MIN && Weight(m, 0) == Pow2(63) > 0x7FFF_FFFF_FFFF_FFFF
  {
    hide Step, Run, MRun, MStep, HPairs, SafeRun, PairsSafe, Reset;
    var p := 0x4000_0000;
    HPairsDouble(30);
    PowThirty();
    var g0 := HPairs(30);
    FlagClearIff(1, g0);
    var g3 := SumTurn(g0, p);
    SumEnd(g0, g3, p);
    FlagClearIff(1, SumCircuit());
    PartsAgree(1, SumCircuit(), 0);
    EngineSimulates(1, SumCircuit());
    Pow2SixtyThree();
    assert Pow2(1) == 2;
  }

  lemma SumTurn(g0: seq<Gate>, p: int) returns (g: seq<Gate>)
    requires p == 0x4000_0000 && AllFit(g0, 1) && SafeRun(1, g0) && Run(Reset(1), g0) == Real1(p, 0, 60)
    ensures g == g0 + [H(0)] + [X(0)] + [Z(0)] + [X(0)] + [S(0)]
    ensures AllFit(g, 1) && SafeRun(1, g) && Run(Reset(1), g) == Complex1(-p, 0, 0, p, 61)
  {
    hide Step, Run, SafeRun, PairsSafe, Reset;
    ComplexSafe(p, 0, 0, 0, 60);
    ComplexSteps(p, 0, 0, 0, 60);
    Onward(g0, H(0), Complex1(p, 0, 0, 0, 60));
    g := g0 + [H(0)];
    ComplexSteps(p, p, 0, 0, 61);
    Onward(g, X(0), Complex1(p, p, 0, 0, 61));
    g := g + [X(0)];
    Onward(g, Z(0), Complex1(p, p, 0, 0, 61));
    g := g + [Z(0)];
    ComplexSteps(p, -p, 0, 0, 61);
    Onward(g, X(0), Complex1(p, -p, 0, 0, 61));
    g := g + [X(0)];
    ComplexSteps(-p, p, 0, 0, 61);
    Onward(g, S(0), Complex1(-p, p, 0, 0, 61));
    g := g + [S(0)];
  }

  lemma SumEnd(g0: seq<Gate>, g3: seq<Gate>, p: int)
    requires p == 0x4000_0000 && AllFit(g3, 1) && SafeRun(1, g3) && Run(Reset(1), g3) == Complex1(-p, 0, 0, p, 61)
    ensures var g := g3 + [Z(0)] + [H(0)] + [S(0)] + [H(0)];
            AllFit(g, 1) && SafeRun(1, g) && Run(Reset(1), g) == Complex1(-2 * p, 0, -2 * p, 0, 63)
  {
    hide Step, Run, SafeRun, PairsSafe, Reset;
    ComplexSteps(-p, 0, 0, p, 61);
    Onward(g3, Z(0), Complex1(-p, 0, 0, p, 61));
    var g := g3 + [Z(0)];
    ComplexSafe(-p, 0, 0, -p, 61);
    ComplexSteps(-p, 0, 0, -p, 61);
    Onward(g, H(0), Complex1(-p, 0, 0, -p, 61));
    g := g + [H(0)];
    ComplexSteps(-p, -p, -p, p, 62);
    Onward(g, S(0), Complex1(-p, -p, -p, p, 62));
    g := g + [S(0)];
    ComplexSafe(-p, -p, -p, -p, 62);
    ComplexSteps(-p, -p, -p, -p, 62);
    Onward(g, H(0), Complex1(-p, -p, -p, -p, 62));
  }
}
