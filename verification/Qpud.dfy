/** The QPU executor: an opaque circuit in, a status and an exact reduced probability out. */
module Qpud {
  import opened Options
  import opened Bytes
  import opened Int32
  import opened QsvBits
  import opened QsvExact
  import opened QsvGrover
  import opened QsvEngine
  import opened QsvSim

  const QC_VERSION: byte := 1
  const QC_HDR := 8
  const QC_RESULT_LEN := 20
  const QC_STATUS_OK: byte := 0
  const QC_STATUS_EINVAL: byte := 1

  datatype Circuit = Circuit(n: nat, probe: nat, gates: seq<Gate>)

  /** One three-byte operation, or None where the executor refuses it. */
  function OpGates(n: nat, opcode: byte, a: nat, b: nat): (r: Option<seq<Gate>>)
    ensures r.Some? ==> AllFit(r.value, n)
  {
    CompositesFit(n, a + 256 * b);
    if opcode == 1 && a < n then Some([H(a)])
    else if opcode == 2 && a < n then Some([X(a)])
    else if opcode == 3 && a < n then Some([Z(a)])
    else if opcode == 4 && a < n then Some([S(a)])
    else if opcode == 5 && a < n && b < n && a != b then Some([Cnot(a, b)])
    else if opcode == 6 && a < n && b < n && a != b then Some([Cz(a, b)])
    else if opcode == 7 && a + 256 * b < Pow2(n) then Some(OracleGates(n, a + 256 * b))
    else if opcode == 8 then Some(DiffusionGates(n))
    else None
  }

  function OpAt(n: nat, c: seq<byte>, i: nat): (r: Option<seq<Gate>>)
    requires QC_HDR + 3 * i + 3 <= |c|
    ensures r.Some? ==> AllFit(r.value, n)
  {
    OpGates(n, c[QC_HDR + 3 * i], c[QC_HDR + 3 * i + 1] as nat, c[QC_HDR + 3 * i + 2] as nat)
  }

  /** The gates of the first i operations. */
  function OpsGates(n: nat, c: seq<byte>, i: nat): (r: Option<seq<Gate>>)
    requires QC_HDR + 3 * i <= |c|
    ensures r.Some? ==> AllFit(r.value, n)
  {
    if i == 0 then Some([])
    else
      var before := OpsGates(n, c, i - 1);
      var op := OpAt(n, c, i - 1);
      if before.Some? && op.Some? then Some(before.value + op.value) else None
  }

  lemma {:induction false} OpsRefusedStays(n: nat, c: seq<byte>, i: nat, j: nat)
    requires i <= j && QC_HDR + 3 * j <= |c| && OpsGates(n, c, i).None?
    ensures OpsGates(n, c, j).None?
  {
    if i < j { OpsRefusedStays(n, c, i, j - 1); }
  }

  predicate HeaderOk(c: seq<byte>) {
    && |c| >= QC_HDR && c[0] == QC_VERSION
    && 1 <= c[1] as nat <= QSV_MAX_QUBITS
    && c[3] as nat + 256 * (c[4] as nat) < Pow2(c[1] as nat)
    && QC_HDR + 3 * (c[2] as nat) <= |c|
  }

  function Parse(c: seq<byte>): (r: Option<Circuit>)
    ensures r.Some? ==> 1 <= r.value.n <= QSV_MAX_QUBITS && AllFit(r.value.gates, r.value.n) &&
                        r.value.probe < Pow2(r.value.n)
  {
    if !HeaderOk(c) then None
    else
      var gs := OpsGates(c[1] as nat, c, c[2] as nat);
      if gs.None? then None else Some(Circuit(c[1] as nat, c[3] as nat + 256 * (c[4] as nat), gs.value))
  }

  // ---- the reported fraction ----

  /** a / 2^f == w / 2^h */
  predicate SameRatio(a: nat, f: nat, w: nat, h: nat) {
    a * Pow2(h) == w * Pow2(f)
  }

  /** Shift common twos out of w / 2^h. */
  function Reduce(w: nat, h: nat): (nat, nat) {
    if w % 2 == 0 && h > 0 then Reduce(w / 2, h - 1) else (w, h)
  }

  /** The reduced pair is the same rational, and no power-of-two representation has a smaller denominator. */
  lemma {:induction false} ReduceExact(w: nat, h: nat)
    requires 0 < w <= Pow2(h)
    ensures var (num, e) := Reduce(w, h);
            e <= h && num * Pow2(h) == w * Pow2(e) && 0 < num <= Pow2(e) && (num % 2 == 1 || e == 0)
  {
    if w % 2 == 0 && h > 0 {
      ReduceExact(w / 2, h - 1);
      var (num, e) := Reduce(w, h);
      Doubled(num, Pow2(h - 1), w / 2, Pow2(e));
    }
  }

  lemma Doubled(a: int, b: int, c: int, d: int)
    requires a * b == c * d
    ensures a * (2 * b) == (2 * c) * d
  {
    assert a * (2 * b) == 2 * (a * b) && (2 * c) * d == 2 * (c * d);
  }

  lemma ReduceMinimal(w: nat, h: nat, a: nat, f: nat)
    requires 0 < w <= Pow2(h) && SameRatio(a, f, w, h)
    ensures Reduce(w, h).1 <= f
  {
    hide Reduce;
    var (num, e) := Reduce(w, h);
    ReduceExact(w, h);
    if f < e {
      Pow2Add(f, e - f);
      EvenNumerator(num, Pow2(h), w, Pow2(f), Pow2(e - f - 1), a);
      assert false;
    }
  }

  lemma EvenNumerator(num: int, ph: int, w: int, pf: int, d: int, a: int)
    requires ph > 0 && num * ph == w * (pf * (2 * d)) && a * ph == w * pf
    ensures num == 2 * (a * d)
  {
    assert w * (pf * (2 * d)) == (w * pf) * (2 * d) == (a * ph) * (2 * d) == (a * (2 * d)) * ph;
    Cancel(num, a * (2 * d), ph);
    assert a * (2 * d) == 2 * (a * d);
  }

  lemma Cancel(x: int, y: int, m: int)
    requires m > 0 && x * m == y * m
    ensures x == y
  {
    assert (x - y) * m == 0;
  }

  // ---- the outcome of a run ----

  datatype Outcome = Rejected | Accepted(n: nat, h: nat, num: nat, den: nat, re: int32, im: int32)

  /** What is reported for basis state k of a final register. */
  function Report(m: Machine, k: nat): Outcome
    requires m.Valid() && k < Pow2(m.s.n)
  {
    var w := Weight(m.s, k);
    if m.overflow then Rejected
    else if w == 0 then Accepted(m.s.n, m.s.h, 0, 1, m.s.re[k], m.s.im[k])
    else if Reduce(w, m.s.h).1 > 31 then Rejected
    else Accepted(m.s.n, m.s.h, Reduce(w, m.s.h).0, Pow2(Reduce(w, m.s.h).1), m.s.re[k], m.s.im[k])
  }

  function Execute(c: seq<byte>): Outcome {
    match Parse(c)
    case None => Rejected
    case Some(p) => Report(MRun(MReset(p.n), p.gates), p.probe)
  }

  /** An accepted answer is the mirror's probability in lowest terms, and every field fits its slot. */
  lemma AcceptedIsExact(c: seq<byte>)
    requires Execute(c).Accepted?
    ensures Parse(c).Some?
    ensures var o, p := Execute(c), Parse(c).value;
            var s := Run(Reset(p.n), p.gates);
            && o.n == p.n && o.h == s.h <= o.n + 63
            && o.num * Pow2(s.h) == Weight(s, p.probe) * o.den
            && o.num <= o.den <= 0x8000_0000
            && (forall a: nat, f: nat | SameRatio(a, f, Weight(s, p.probe), s.h) :: o.den <= Pow2(f))
            && Twin(o.re, s.re[p.probe]) && Twin(o.im, s.im[p.probe])
  {
    var o, p := Execute(c), Parse(c).value;
    var m, s := MRun(MReset(p.n), p.gates), Run(Reset(p.n), p.gates);
    EngineSimulates(p.n, p.gates);
    ClearFlagIsUnitary(p.n, p.gates);
    ProbabilitiesAgree(p.n, p.gates, p.probe);
    LowestTerms(Weight(s, p.probe), s.h, o.num, o.den);
  }

  lemma LowestTerms(w: nat, h: nat, num: nat, den: nat)
    requires w <= Pow2(h)
    requires if w == 0 then num == 0 && den == 1
             else Reduce(w, h).1 <= 31 && num == Reduce(w, h).0 && den == Pow2(Reduce(w, h).1)
    ensures num * Pow2(h) == w * den && num <= den <= 0x8000_0000
    ensures forall a: nat, f: nat | SameRatio(a, f, w, h) :: den <= Pow2(f)
  {
    hide Reduce;
    if w > 0 {
      ReduceExact(w, h);
      Pow2Mono(Reduce(w, h).1, 31);
      PowThirty();
      forall a: nat, f: nat | SameRatio(a, f, w, h) ensures den <= Pow2(f) {
        ReduceMinimal(w, h, a, f);
        Pow2Mono(Reduce(w, h).1, f);
      }
    }
  }

  /** Refusals are exactly: malformed, a Hadamard that meets an unsafe pair on the unbounded mirror, or a nonzero
      probability whose every power-of-two denominator exceeds 2^31. */
  lemma RejectedExactly(c: seq<byte>)
    ensures Execute(c).Rejected? <==>
            || Parse(c).None?
            || !SafeRun(Parse(c).value.n, Parse(c).value.gates)
            || (var p := Parse(c).value;
                var s := Run(Reset(p.n), p.gates);
                Weight(s, p.probe) > 0 &&
                forall a: nat, f: nat | SameRatio(a, f, Weight(s, p.probe), s.h) :: f > 31)
  {
    hide Reduce, MRun, Run, SameRatio, SafeRun;
    if Parse(c).Some? { FlagClearIff(Parse(c).value.n, Parse(c).value.gates); }
    if Parse(c).Some? && !MRun(MReset(Parse(c).value.n), Parse(c).value.gates).overflow {
      var p := Parse(c).value;
      var s := Run(Reset(p.n), p.gates);
      ProbabilitiesAgree(p.n, p.gates, p.probe);
      if Weight(s, p.probe) > 0 { ReduceLarge(Weight(s, p.probe), s.h); }
    }
  }

  lemma ReduceLarge(w: nat, h: nat)
    requires 0 < w <= Pow2(h)
    ensures Reduce(w, h).1 > 31 <==> forall a: nat, f: nat | SameRatio(a, f, w, h) :: f > 31
  {
    ReduceExact(w, h);
    assert SameRatio(Reduce(w, h).0, Reduce(w, h).1, w, h);
    forall a: nat, f: nat | SameRatio(a, f, w, h) ensures Reduce(w, h).1 <= f { ReduceMinimal(w, h, a, f); }
  }

  // ---- the result record ----

  function U32(x: int): nat { x % 0x1_0000_0000 }

  /** The 20-byte little-endian record. */
  function Encode(o: Outcome): (r: seq<byte>)
    ensures |r| == QC_RESULT_LEN
  {
    match o
    case Rejected => [QC_STATUS_EINVAL] + seq(QC_RESULT_LEN - 1, _ => 0)
    case Accepted(n, h, num, den, re, im) =>
      [QC_STATUS_OK, Octet(n)] + Le(h, 2) + Le(num, 4) + Le(den, 4) + Le(U32(re), 4) + Le(U32(im), 4)
  }

  /** The host's parse_result, with its signed fields. */
  function Decode(r: seq<byte>): Outcome
    requires |r| == QC_RESULT_LEN
  {
    if r[0] != QC_STATUS_OK then Rejected
    else Accepted(r[1] as nat, FromLe(r[2..4]), FromLe(r[4..8]), FromLe(r[8..12]),
                  Wrap32(FromLe(r[12..16])), Wrap32(FromLe(r[16..20])))
  }

  lemma SignedField(x: int32)
    ensures Wrap32(FromLe(Le(U32(x), 4))) == x
  {
    hide Le, FromLe;
    FieldSizes();
    LeSmall(U32(x), 4);
  }

  lemma Fields(r: seq<byte>, p: seq<byte>, a: seq<byte>, b: seq<byte>, c: seq<byte>, d: seq<byte>, e: seq<byte>)
    requires |p| == 2 && |a| == 2 && |b| == |c| == |d| == |e| == 4 && r == p + a + b + c + d + e
    ensures r[0] == p[0] && r[1] == p[1] && r[2..4] == a && r[4..8] == b && r[8..12] == c
    ensures r[12..16] == d && r[16..20] == e
  {
  }

  lemma RecordRoundTrip(o: Outcome)
    requires o.Accepted? ==> o.n < 0x100 && o.h < 0x1_0000 && o.num < 0x1_0000_0000 && o.den < 0x1_0000_0000
    ensures Decode(Encode(o)) == o
  {
    hide Le, FromLe, Wrap32, U32, Octet, Pow256;
    if o.Accepted? {
      var r, p := Encode(o), [QC_STATUS_OK, Octet(o.n)];
      Fields(r, p, Le(o.h, 2), Le(o.num, 4), Le(o.den, 4), Le(U32(o.re), 4), Le(U32(o.im), 4));
      FieldSizes();
      LeSmall(o.h, 2);
      LeSmall(o.num, 4);
      LeSmall(o.den, 4);
      SignedField(o.re);
      SignedField(o.im);
      assert r[0] == QC_STATUS_OK && r[1] as nat == o.n;
      hide Encode;
      assert Decode(r) == Accepted(o.n, o.h, o.num, o.den, o.re, o.im);
    }
  }

  /** The host reads back exactly what the executor reported: no field is truncated. */
  lemma ResultRoundTrip(c: seq<byte>)
    ensures Decode(Encode(Execute(c))) == Execute(c)
  {
    hide Execute, Encode, Decode;
    if Execute(c).Accepted? {
      AcceptedIsExact(c);
    }
    RecordRoundTrip(Execute(c));
  }

  // ---- run_circuit ----

  method Refuse(out: array<byte>)
    requires out.Length == QC_RESULT_LEN
    modifies out
    ensures out[..] == Encode(Rejected)
  {
    for i := 0 to QC_RESULT_LEN
      invariant forall j | 0 <= j < i :: out[j] == 0
    {
      out[i] := 0;
    }
    out[0] := QC_STATUS_EINVAL;
  }

  method Answer(out: array<byte>, n: nat, h: nat, num: nat, den: nat, re: int32, im: int32)
    requires out.Length == QC_RESULT_LEN
    modifies out
    ensures out[..] == Encode(Accepted(n, h, num, den, re, im))
  {
    out[0] := QC_STATUS_OK;
    out[1] := Octet(n);
    assert out[..2] == [QC_STATUS_OK, Octet(n)];
    PutLe(out, 2, h, 2);
    PutLe(out, 4, num, 4);
    PutLe(out, 8, den, 4);
    PutLe(out, 12, U32(re), 4);
    PutLe(out, 16, U32(im), 4);
    assert out[..] == out[..20];
  }

  /** The dispatch of one operation; false where the executor gives up. */
  method Dispatch(e: Engine, n: nat, opcode: byte, a: nat, b: nat) returns (ok: bool)
    requires e.Valid() && n <= QSV_MAX_QUBITS
    modifies e`h, e`overflow, e.re, e.im
    ensures ok == OpGates(n, opcode, a, b).Some?
    ensures ok ==> e.View(n) == MRun(old(e.View(n)), OpGates(n, opcode, a, b).value)
  {
    hide MRun, MStep, Pow2;
    ghost var m := e.View(n);
    if opcode == 1 {
      if a >= n { return false; }
      MRunOne(m, H(a));
      e.GateH(n, a);
    } else if opcode == 2 {
      if a >= n { return false; }
      MRunOne(m, X(a));
      e.GateX(n, a);
    } else if opcode == 3 {
      if a >= n { return false; }
      MRunOne(m, Z(a));
      e.GateZ(n, a);
    } else if opcode == 4 {
      if a >= n { return false; }
      MRunOne(m, S(a));
      e.GateS(n, a);
    } else if opcode == 5 {
      if a >= n || b >= n || a == b { return false; }
      MRunOne(m, Cnot(a, b));
      e.GateCnot(n, a, b);
    } else if opcode == 6 {
      if a >= n || b >= n || a == b { return false; }
      MRunOne(m, Cz(a, b));
      e.GateCz(n, a, b);
    } else if opcode == 7 {
      if a + 256 * b >= Pow2(n) { return false; }
      e.Oracle(n, a + 256 * b);
    } else if opcode == 8 {
      e.Diffusion(n);
    } else {
      return false;
    }
    return true;
  }

  /** The loop over the operations; false as soon as one is refused. */
  method RunOps(e: Engine, n: nat, c: seq<byte>, nOps: nat) returns (ok: bool)
    requires e.Valid() && n <= QSV_MAX_QUBITS && QC_HDR + 3 * nOps <= |c|
    requires e.View(n) == MReset(n)
    modifies e`h, e`overflow, e.re, e.im
    ensures ok == OpsGates(n, c, nOps).Some?
    ensures ok ==> e.View(n) == MRun(MReset(n), OpsGates(n, c, nOps).value)
  {
    hide MRun, MStep, Pow2, OpGates;
    ghost var gs: seq<Gate> := [];
    MRunNone(MReset(n));
    for i := 0 to nOps
      invariant OpsGates(n, c, i) == Some(gs) && e.View(n) == MRun(MReset(n), gs)
    {
      var p := QC_HDR + 3 * i;
      ok := Dispatch(e, n, c[p], c[p + 1] as nat, c[p + 2] as nat);
      if !ok {
        OpsRefusedStays(n, c, i + 1, nOps);
        return;
      }
      MRunConcat(MReset(n), gs, OpAt(n, c, i).value);
      gs := gs + OpAt(n, c, i).value;
    }
    return true;
  }

  /** run_circuit: malformed, overflowed or unrepresentable circuits are refused, everything else is answered
      exactly. */
  method RunCircuit(e: Engine, c: seq<byte>, out: array<byte>)
    requires e.Valid() && out.Length == QC_RESULT_LEN && out as object != e.re && out as object != e.im
    modifies e`h, e`overflow, e.re, e.im, out
    ensures out[..] == Encode(Execute(c))
  {
    hide MRun, Pow2, Encode, OpsGates, Report;
    if |c| < QC_HDR || c[0] != QC_VERSION {
      Refuse(out);
      return;
    }
    var n, nOps, probe := c[1] as nat, c[2] as nat, c[3] as nat + 256 * (c[4] as nat);
    if n < 1 || n > QSV_MAX_QUBITS || probe >= Pow2(n) || QC_HDR + 3 * nOps > |c| {
      Refuse(out);
      return;
    }
    RunAccepted(e, c, n, nOps, probe, out);
  }

  /** The rest of run_circuit, once the header is accepted. */
  method RunAccepted(e: Engine, c: seq<byte>, n: nat, nOps: nat, probe: nat, out: array<byte>)
    requires e.Valid() && out.Length == QC_RESULT_LEN && out as object != e.re && out as object != e.im
    requires n <= QSV_MAX_QUBITS && QC_HDR + 3 * nOps <= |c| && probe < Pow2(n)
    modifies e`h, e`overflow, e.re, e.im, out
    ensures out[..] == Encode(match OpsGates(n, c, nOps)
                              case None => Rejected
                              case Some(gs) => Report(MRun(MReset(n), gs), probe))
  {
    hide MRun, MStep, Pow2, Encode, OpsGates, Reduce, Run, Weight;
    e.Reset(n);
    var ok := RunOps(e, n, c, nOps);
    if !ok || e.overflow {
      Refuse(out);
      return;
    }
    ClearFlagIsUnitary(n, OpsGates(n, c, nOps).value);
    var unitary := e.NormOk(n);
    assert unitary; // the refusal that follows the norm test is unreachable
    Conclude(e, n, probe, out);
  }

  lemma MRunNone(m: Machine)
    requires m.Valid()
    ensures MRun(m, []) == m
  {
  }

  /** The read-out after the two checks: |amp|^2 in 64 bits, shifted down with the scale. The signed sum of squares
      is read as wrapping before its cast to unsigned. */
  method Conclude(e: Engine, n: nat, probe: nat, out: array<byte>)
    requires e.Valid() && n <= QSV_MAX_QUBITS && probe < Pow2(n)
    requires out.Length == QC_RESULT_LEN && !e.overflow
    modifies out
    ensures out[..] == Encode(Report(old(e.View(n)), probe))
  {
    hide Encode, Reduce, Pow2;
    Pow2Mono(n, QSV_MAX_QUBITS);
    ghost var m := e.View(n);
    var re: int32, im: int32 := e.re[probe], e.im[probe];
    SquareBound(re);
    SquareBound(im);
    var mag2: nat := (re * re + im * im) % 0x1_0000_0000_0000_0000;
    assert mag2 == Weight(m.s, probe);
    if mag2 == 0 {
      Answer(out, n, e.h, 0, 1, re, im);
      return;
    }
    var hh := e.h;
    while mag2 % 2 == 0 && hh > 0
      invariant Reduce(mag2, hh) == Reduce(Weight(m.s, probe), m.s.h)
    {
      ReduceShift(mag2, hh);
      mag2, hh := mag2 / 2, hh - 1;
    }
    ReduceShift(mag2, hh);
    if hh > 31 {
      Refuse(out);
      return;
    }
    Answer(out, n, e.h, mag2, Pow2(hh), re, im);
  }

  lemma ReduceShift(w: nat, h: nat)
    ensures w % 2 == 0 && h > 0 ==> Reduce(w, h) == Reduce(w / 2, h - 1)
    ensures !(w % 2 == 0 && h > 0) ==> Reduce(w, h) == (w, h)
  {
  }
}
