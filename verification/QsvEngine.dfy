/** The bounded engine: int32 amplitudes updated in place by strided loops, a truncating
    cast after every operation and a sticky overflow flag raised by the butterfly. */
module QsvEngine {
  import opened QsvBits
  import opened QsvExact
  import opened QsvGrover
  import opened Int32

  const QSV_MAX_QUBITS: nat := 12

  predicate InRange(x: int) { INT32_MIN <= x <= INT32_MAX }

  predicate VecInRange(v: Vec) { forall k | 0 <= k < |v| :: InRange(v[k]) }

  function Trunc(v: Vec): (r: seq<int32>)
    ensures |r| == |v|
  {
    seq(|v|, k requires 0 <= k < |v| => Wrap32(v[k]))
  }

  /** The engine's registers; the overflow flag is sticky. */
  datatype Machine = Machine(s: State, overflow: bool) {
    ghost predicate Valid() { s.Valid() && VecInRange(s.re) && VecInRange(s.im) }
  }

  function MStep(m: Machine, g: Gate): (r: Machine)
    requires m.Valid() && Fits(g, m.s.n)
    ensures r.Valid() && r.s.n == m.s.n
  {
    var t := Step(m.s, g);
    Machine(t.(re := Trunc(t.re), im := Trunc(t.im)),
            m.overflow || (g.H? && !(VecInRange(t.re) && VecInRange(t.im))))
  }

  function MRun(m: Machine, gs: seq<Gate>): (r: Machine)
    requires m.Valid() && AllFit(gs, m.s.n)
    ensures r.Valid() && r.s.n == m.s.n
  {
    if gs == [] then m else MStep(MRun(m, gs[..|gs| - 1]), gs[|gs| - 1])
  }

  lemma {:induction false} MRunConcat(m: Machine, a: seq<Gate>, b: seq<Gate>)
    requires m.Valid() && AllFit(a, m.s.n) && AllFit(b, m.s.n)
    ensures AllFit(a + b, m.s.n) && MRun(m, a + b) == MRun(MRun(m, a), b)
  {
    if b == [] {
      assert a + b == a;
    } else {
      MRunConcat(m, a, b[..|b| - 1]);
      assert (a + b)[..|a + b| - 1] == a + b[..|b| - 1];
    }
  }

  lemma MRunOne(m: Machine, g: Gate)
    requires m.Valid() && Fits(g, m.s.n)
    ensures AllFit([g], m.s.n) && MRun(m, [g]) == MStep(m, g)
  {
    assert [g][..0] == [];
  }

  function MReset(n: nat): (m: Machine)
    ensures m.Valid() && m.s.n == n
  {
    Machine(Reset(n), false)
  }

  // ---- the order in which a strided loop visits the basis ----

  /** The lower index of the pair that i belongs to. */
  function Low(i: nat, q: nat): nat {
    if Bit(i, q) == 0 then i else Flip(i, q)
  }

  /** On its first |a| entries v is b on the pairs visited before k, and still a elsewhere. */
  ghost predicate Staged(v: Vec, a: Vec, b: Vec, q: nat, k: nat) {
    && |a| == |b| <= |v|
    && forall i: nat | i < |a| :: v[i] == if Low(i, q) < k then b[i] else a[i]
  }

  lemma StagedInit(v: Vec, a: Vec, b: Vec, q: nat)
    requires |a| == |b| <= |v| && v[..|a|] == a
    ensures Staged(v, a, b, q, 0)
  {
  }

  lemma LowOf(i: nat, k: nat, q: nat)
    requires Bit(k, q) == 0
    ensures Low(k, q) == k && Low(Flip(k, q), q) == k
    ensures Low(i, q) == k ==> i == k || i == Flip(k, q)
  {
    FlipFlip(k, q);
    FlipFlip(i, q);
  }

  lemma LowIsLow(i: nat, q: nat)
    ensures Bit(Low(i, q), q) == 0
  {
    FlipFlip(i, q);
  }

  /** Visiting the pair at k. */
  lemma StagedVisit(v: Vec, a: Vec, b: Vec, q: nat, k: nat, v': Vec)
    requires Staged(v, a, b, q, k) && Bit(k, q) == 0 && Flip(k, q) < |a| && k < |a|
    requires v' == v[k := b[k]][Flip(k, q) := b[Flip(k, q)]]
    ensures Staged(v', a, b, q, k + 1)
  {
    forall i: nat | i < |a| ensures v'[i] == if Low(i, q) < k + 1 then b[i] else a[i] { LowOf(i, k, q); }
  }

  /** A pair not yet visited still holds its old amplitudes. */
  lemma StagedFresh(v: Vec, a: Vec, b: Vec, q: nat, k: nat)
    requires Staged(v, a, b, q, k) && Bit(k, q) == 0 && Flip(k, q) < |a| && k < |a|
    ensures v[k] == a[k] && v[Flip(k, q)] == a[Flip(k, q)]
  {
    LowOf(k, k, q);
  }

  lemma StagedSkip(v: Vec, a: Vec, b: Vec, q: nat, k: nat)
    requires Staged(v, a, b, q, k) && Bit(k, q) == 1
    ensures Staged(v, a, b, q, k + 1)
  {
    forall i: nat | i < |a| ensures v[i] == if Low(i, q) < k + 1 then b[i] else a[i] { LowIsLow(i, q); }
  }

  /** No pair starts in the upper half of a block. */
  lemma StagedSkipBlock(v: Vec, a: Vec, b: Vec, q: nat, blk: nat)
    requires Staged(v, a, b, q, BlockBase(blk, q) + Pow2(q))
    ensures Staged(v, a, b, q, BlockBase(blk + 1, q))
  {
    var base := BlockBase(blk, q);
    forall i: nat | i < |a| ensures v[i] == if Low(i, q) < base + 2 * Pow2(q) then b[i] else a[i] {
      LowIsLow(i, q);
      var l := Low(i, q);
      if base + Pow2(q) <= l < base + 2 * Pow2(q) { BlockBits(blk, l - base, q); }
    }
  }

  lemma StagedDone(v: Vec, a: Vec, b: Vec, q: nat, n: nat)
    requires q < n && |a| == Pow2(n) && Staged(v, a, b, q, Pow2(n))
    ensures v[..Pow2(n)] == b
  {
    forall i: nat | i < |a| ensures v[i] == b[i] { FlipBound(i, q, n); }
  }

  lemma TruncId(v: Vec)
    requires VecInRange(v)
    ensures Trunc(v) == v
  {
  }

  /** A permutation of int32 amplitudes needs no truncation. */
  lemma XExact(m: Machine, q: nat)
    requires m.Valid() && q < m.s.n
    ensures MStep(m, X(q)) == Machine(Step(m.s, X(q)), m.overflow)
  {
    forall k: nat | k < Pow2(m.s.n) ensures Flip(k, q) < Pow2(m.s.n) { FlipBound(k, q, m.s.n); }
    TruncId(XVec(m.s.n, q, m.s.re));
    TruncId(XVec(m.s.n, q, m.s.im));
  }

  lemma XAt(n: nat, q: nat, v: Vec, k: nat)
    requires q < n && |v| == Pow2(n) && k < Pow2(n)
    ensures Flip(k, q) < Pow2(n)
    ensures XVec(n, q, v)[k] == v[Flip(k, q)] && XVec(n, q, v)[Flip(k, q)] == v[k]
  {
    FlipBound(k, q, n);
    FlipFlip(k, q);
  }

  /** No butterfly output visited before k left the int32 range. */
  ghost predicate CleanBelow(b: Vec, d: Vec, q: nat, k: nat)
    requires |b| == |d|
  {
    forall i: nat | i < |b| && Low(i, q) < k :: InRange(b[i]) && InRange(d[i])
  }

  lemma CleanVisit(b: Vec, d: Vec, q: nat, k: nat)
    requires |b| == |d| && k < |b| && Flip(k, q) < |b| && Bit(k, q) == 0
    ensures CleanBelow(b, d, q, k + 1) <==>
            CleanBelow(b, d, q, k) && InRange(b[k]) && InRange(d[k]) &&
            InRange(b[Flip(k, q)]) && InRange(d[Flip(k, q)])
  {
    LowOf(k, k, q);
    forall i: nat | i < |b| ensures Low(i, q) == k ==> i == k || i == Flip(k, q) { LowOf(i, k, q); }
  }

  lemma CleanSkipBlock(b: Vec, d: Vec, q: nat, blk: nat)
    requires |b| == |d|
    ensures CleanBelow(b, d, q, BlockBase(blk, q) + Pow2(q)) <==> CleanBelow(b, d, q, BlockBase(blk + 1, q))
  {
    var base := BlockBase(blk, q);
    forall i: nat | i < |b| && base + Pow2(q) <= Low(i, q) < base + 2 * Pow2(q) ensures false {
      LowIsLow(i, q);
      BlockBits(blk, Low(i, q) - base, q);
    }
  }

  lemma CleanEnds(n: nat, b: Vec, d: Vec, q: nat)
    requires q < n && |b| == |d| == Pow2(n)
    ensures CleanBelow(b, d, q, 0)
    ensures CleanBelow(b, d, q, Pow2(n)) <==> VecInRange(b) && VecInRange(d)
  {
    forall i: nat | i < |b| ensures Low(i, q) < Pow2(n) { FlipBound(i, q, n); }
  }

  lemma HAt(n: nat, q: nat, v: Vec, k: nat)
    requires q < n && |v| == Pow2(n) && k < Pow2(n) && Bit(k, q) == 0
    ensures Flip(k, q) < Pow2(n)
    ensures HVec(n, q, v)[k] == v[k] + v[Flip(k, q)]
    ensures HVec(n, q, v)[Flip(k, q)] == v[k] - v[Flip(k, q)]
  {
    FlipBound(k, q, n);
    FlipFlip(k, q);
  }

  lemma CnotAt(n: nat, c: nat, t: nat, v: Vec, k: nat)
    requires t < n && c != t && |v| == Pow2(n) && k < Pow2(n)
    ensures Flip(k, t) < Pow2(n)
    ensures CnotVec(n, c, t, v)[k] == if Bit(k, c) == 1 then v[Flip(k, t)] else v[k]
    ensures CnotVec(n, c, t, v)[Flip(k, t)] == if Bit(k, c) == 1 then v[k] else v[Flip(k, t)]
  {
    FlipBound(k, t, n);
    FlipFlip(k, t);
    FlipOther(k, t, c);
  }

  lemma CnotExact(m: Machine, c: nat, t: nat)
    requires m.Valid() && Fits(Cnot(c, t), m.s.n)
    ensures MStep(m, Cnot(c, t)) == Machine(Step(m.s, Cnot(c, t)), m.overflow)
  {
    forall k: nat | k < Pow2(m.s.n) ensures Flip(k, t) < Pow2(m.s.n) { FlipBound(k, t, m.s.n); }
    TruncId(CnotVec(m.s.n, c, t, m.s.re));
    TruncId(CnotVec(m.s.n, c, t, m.s.im));
  }

  /** A pair left as it is, because the exchange does not apply to it. */
  lemma StagedKeep(v: Vec, a: Vec, b: Vec, q: nat, k: nat)
    requires Staged(v, a, b, q, k) && Bit(k, q) == 0 && Flip(k, q) < |a| && k < |a|
    requires b[k] == a[k] && b[Flip(k, q)] == a[Flip(k, q)]
    ensures Staged(v, a, b, q, k + 1)
  {
    forall i: nat | i < |a| ensures v[i] == if Low(i, q) < k + 1 then b[i] else a[i] { LowOf(i, k, q); }
  }

  lemma HMachine(m: Machine, q: nat)
    requires m.Valid() && q < m.s.n
    ensures var b, d := HVec(m.s.n, q, m.s.re), HVec(m.s.n, q, m.s.im);
            MStep(m, H(q)) == Machine(State(m.s.n, Trunc(b), Trunc(d), m.s.h + 1),
                                      m.overflow || !CleanBelow(b, d, q, Pow2(m.s.n)))
  {
    CleanEnds(m.s.n, HVec(m.s.n, q, m.s.re), HVec(m.s.n, q, m.s.im), q);
  }

  /** On its first |a| entries v is b below k and still a from k on: the shape of the diagonal loops. */
  ghost predicate Swept(v: Vec, a: Vec, b: Vec, k: nat) {
    && |a| == |b| <= |v|
    && forall i | 0 <= i < |a| :: v[i] == if i < k then b[i] else a[i]
  }

  lemma SweptInit(v: Vec, a: Vec, b: Vec)
    requires |a| == |b| <= |v| && v[..|a|] == a
    ensures Swept(v, a, b, 0)
  {
  }

  lemma SweptVisit(v: Vec, a: Vec, b: Vec, k: nat, v': Vec)
    requires Swept(v, a, b, k) && k < |a| && (v' == v[k := b[k]] || (v' == v && b[k] == a[k]))
    ensures Swept(v', a, b, k + 1)
  {
  }

  lemma SweptDone(v: Vec, a: Vec, b: Vec)
    requires Swept(v, a, b, |a|)
    ensures v[..|a|] == b
  {
  }

  /** One component of a truncated diagonal gate. */
  lemma NegAt(g: Gate, n: nat, v: Vec, k: nat)
    requires VecInRange(v) && k < |v|
    ensures Trunc(NegVec(g, n, v))[k] == if Selects(g, n, k) then Wrap32(-v[k]) else v[k]
  {
  }

  /** One component of a truncated S gate. */
  lemma PhaseAt(n: nat, q: nat, v: Vec, w: Vec, k: nat)
    requires VecInRange(v) && VecInRange(w) && |v| == |w| && k < |v|
    ensures Trunc(MixVec(S(q), n, v, w, true))[k] == if Bit(k, q) == 1 then Wrap32(-w[k]) else v[k]
    ensures Trunc(MixVec(S(q), n, w, v, false))[k] == if Bit(k, q) == 1 then v[k] else w[k]
  {
  }

  class Engine {
    const re: array<int32>
    const im: array<int32>
    var h: nat
    var overflow: bool

    ghost predicate Valid() reads this {
      re.Length == Pow2(QSV_MAX_QUBITS) && im.Length == Pow2(QSV_MAX_QUBITS) && re != im
    }

    /** The n-qubit register held in the first 2^n entries. */
    ghost function View(n: nat): (m: Machine)
      requires Valid() && n <= QSV_MAX_QUBITS
      reads this, re, im
      ensures m.Valid() && m.s.n == n
    {
      Pow2Mono(n, QSV_MAX_QUBITS);
      Machine(State(n, re[..Pow2(n)], im[..Pow2(n)], h), overflow)
    }

    constructor ()
      ensures Valid() && fresh(re) && fresh(im)
    {
      re := new int32[Pow2(QSV_MAX_QUBITS)];
      im := new int32[Pow2(QSV_MAX_QUBITS)];
      h, overflow := 0, false;
    }

    method Reset(n: nat)
      requires Valid() && n <= QSV_MAX_QUBITS
      modifies this`h, this`overflow, re, im
      ensures View(n) == MReset(n)
    {
      Pow2Mono(n, QSV_MAX_QUBITS);
      var k := 0;
      while k < Pow2(n)
        invariant k <= Pow2(n)
        invariant forall i | 0 <= i < k :: re[i] == 0 && im[i] == 0
      {
        re[k], im[k] := 0, 0;
        k := k + 1;
      }
      re[0] := 1;
      h, overflow := 0, false;
      assert re[..Pow2(n)] == Basis(Pow2(n));
      assert im[..Pow2(n)] == Zeros(Pow2(n));
    }

    /** One visit of an exchange loop: swap the amplitudes of k and its partner on qubit q. */
    method ExchangePair(n: nat, q: nat, k: nat, ghost a: Vec, ghost b: Vec, ghost c: Vec, ghost d: Vec)
      requires Valid() && q < n <= QSV_MAX_QUBITS && |a| == |c| == |b| == |d| == Pow2(n)
      requires k < Pow2(n) && Flip(k, q) < Pow2(n) && Bit(k, q) == 0
      requires b[k] == a[Flip(k, q)] && b[Flip(k, q)] == a[k]
      requires d[k] == c[Flip(k, q)] && d[Flip(k, q)] == c[k]
      requires Staged(re[..], a, b, q, k) && Staged(im[..], c, d, q, k)
      modifies re, im
      ensures Staged(re[..], a, b, q, k + 1) && Staged(im[..], c, d, q, k + 1)
    {
      hide Staged;
      FlipStride(k, q);
      Pow2Mono(n, QSV_MAX_QUBITS);
      ghost var v, w := re[..], im[..];
      StagedFresh(v, a, b, q, k);
      StagedFresh(w, c, d, q, k);
      var j := k + Pow2(q);
      var t := re[k];
      re[k] := re[j];
      re[j] := t;
      t := im[k];
      im[k] := im[j];
      im[j] := t;
      StagedVisit(v, a, b, q, k, re[..]);
      StagedVisit(w, c, d, q, k, im[..]);
    }

    /** The inner exchange loop: the pairs of one block of stride 2^q. */
    method ExchangeBlock(n: nat, q: nat, base: nat, ghost blk: nat, ghost a: Vec, ghost c: Vec)
      requires Valid() && q < n <= QSV_MAX_QUBITS && |a| == |c| == Pow2(n)
      requires base == BlockBase(blk, q) && base + 2 * Pow2(q) <= Pow2(n)
      requires Staged(re[..], a, XVec(n, q, a), q, base) && Staged(im[..], c, XVec(n, q, c), q, base)
      modifies re, im
      ensures Staged(re[..], a, XVec(n, q, a), q, BlockBase(blk + 1, q))
      ensures Staged(im[..], c, XVec(n, q, c), q, BlockBase(blk + 1, q))
    {
      hide XVec, Staged, Pow2, Bit, Flip, BlockBase;
      ghost var b, d := XVec(n, q, a), XVec(n, q, c);
      var step := Pow2(q);
      var k := base;
      while k < base + step
        invariant base <= k <= base + step
        invariant Staged(re[..], a, b, q, k) && Staged(im[..], c, d, q, k)
      {
        BlockBits(blk, k - base, q);
        XAt(n, q, a, k);
        XAt(n, q, c, k);
        ExchangePair(n, q, k, a, b, c, d);
        k := k + 1;
      }
      StagedSkipBlock(re[..], a, b, q, blk);
      StagedSkipBlock(im[..], c, d, q, blk);
    }

    method GateX(n: nat, q: nat)
      requires Valid() && q < n <= QSV_MAX_QUBITS
      modifies re, im
      ensures View(n) == MStep(old(View(n)), X(q))
    {
      hide MStep, XVec, Trunc, Staged, VecInRange, Pow2, Bit, Flip, Low;
      Pow2Mono(n, QSV_MAX_QUBITS);
      XExact(View(n), q);
      var step, size := Pow2(q), Pow2(n);
      ghost var a, c := re[..size], im[..size];
      ghost var blk, blocks := 0, Pow2(n - 1 - q);
      Blocks(n, q);
      StagedInit(re[..], a, XVec(n, q, a), q);
      StagedInit(im[..], c, XVec(n, q, c), q);
      var base := 0;
      while base < size
        invariant base == BlockBase(blk, q) && blk <= blocks
        invariant Staged(re[..], a, XVec(n, q, a), q, base) && Staged(im[..], c, XVec(n, q, c), q, base)
      {
        BlockInside(blk, blocks, q);
        ExchangeBlock(n, q, base, blk, a, c);
        blk := blk + 1;
        base := base + 2 * step;
      }
      BlockInside(blk, blocks, q);
      StagedDone(re[..], a, XVec(n, q, a), q, n);
      StagedDone(im[..], c, XVec(n, q, c), q, n);
    }

    /** One butterfly, in wide arithmetic, with the truncating casts and the overflow test. */
    method ButterflyPair(n: nat, q: nat, k: nat, ghost a: Vec, ghost b: Vec, ghost c: Vec, ghost d: Vec)
      requires Valid() && q < n <= QSV_MAX_QUBITS && |a| == |c| == |b| == |d| == Pow2(n)
      requires k < Pow2(n) && Flip(k, q) < Pow2(n) && Bit(k, q) == 0
      requires b[k] == a[k] + a[Flip(k, q)] && b[Flip(k, q)] == a[k] - a[Flip(k, q)]
      requires d[k] == c[k] + c[Flip(k, q)] && d[Flip(k, q)] == c[k] - c[Flip(k, q)]
      requires Staged(re[..], a, Trunc(b), q, k) && Staged(im[..], c, Trunc(d), q, k)
      modifies this`overflow, re, im
      ensures Staged(re[..], a, Trunc(b), q, k + 1) && Staged(im[..], c, Trunc(d), q, k + 1)
      ensures overflow == (old(overflow) || !(InRange(b[k]) && InRange(d[k]) &&
                                              InRange(b[Flip(k, q)]) && InRange(d[Flip(k, q)])))
    {
      hide Staged, Bit, Flip, Pow2, Low;
      FlipStride(k, q);
      Pow2Mono(n, QSV_MAX_QUBITS);
      ghost var v, w := re[..], im[..];
      StagedFresh(v, a, Trunc(b), q, k);
      StagedFresh(w, c, Trunc(d), q, k);
      var j := k + Pow2(q);
      var ar: int, ai: int, br: int, bi: int := re[k], im[k], re[j], im[j];
      var sr, si, dr, di := ar + br, ai + bi, ar - br, ai - bi;
      if Wrap32(sr) != sr || Wrap32(si) != si || Wrap32(dr) != dr || Wrap32(di) != di {
        overflow := true;
      }
      re[k] := Wrap32(sr);
      im[k] := Wrap32(si);
      re[j] := Wrap32(dr);
      im[j] := Wrap32(di);
      StagedVisit(v, a, Trunc(b), q, k, re[..]);
      StagedVisit(w, c, Trunc(d), q, k, im[..]);
    }

    /** The inner butterfly loop over one block. */
    method ButterflyBlock(n: nat, q: nat, base: nat, ghost blk: nat, ghost a: Vec, ghost c: Vec, ghost flag: bool)
      requires Valid() && q < n <= QSV_MAX_QUBITS && |a| == |c| == Pow2(n)
      requires base == BlockBase(blk, q) && base + 2 * Pow2(q) <= Pow2(n)
      requires Staged(re[..], a, Trunc(HVec(n, q, a)), q, base) && Staged(im[..], c, Trunc(HVec(n, q, c)), q, base)
      requires overflow == (flag || !CleanBelow(HVec(n, q, a), HVec(n, q, c), q, base))
      modifies this`overflow, re, im
      ensures Staged(re[..], a, Trunc(HVec(n, q, a)), q, BlockBase(blk + 1, q))
      ensures Staged(im[..], c, Trunc(HVec(n, q, c)), q, BlockBase(blk + 1, q))
      ensures overflow == (flag || !CleanBelow(HVec(n, q, a), HVec(n, q, c), q, BlockBase(blk + 1, q)))
    {
      hide HVec, Trunc, Staged, CleanBelow, Pow2, Bit, Flip, BlockBase;
      ghost var b, d := HVec(n, q, a), HVec(n, q, c);
      var step := Pow2(q);
      var k := base;
      while k < base + step
        invariant base <= k <= base + step
        invariant Staged(re[..], a, Trunc(b), q, k) && Staged(im[..], c, Trunc(d), q, k)
        invariant overflow == (flag || !CleanBelow(b, d, q, k))
      {
        BlockBits(blk, k - base, q);
        HAt(n, q, a, k);
        HAt(n, q, c, k);
        CleanVisit(b, d, q, k);
        ButterflyPair(n, q, k, a, b, c, d);
        k := k + 1;
      }
      StagedSkipBlock(re[..], a, Trunc(b), q, blk);
      StagedSkipBlock(im[..], c, Trunc(d), q, blk);
      CleanSkipBlock(b, d, q, blk);
    }

    method GateH(n: nat, q: nat)
      requires Valid() && q < n <= QSV_MAX_QUBITS
      modifies this`h, this`overflow, re, im
      ensures View(n) == MStep(old(View(n)), H(q))
    {
      hide MStep, HVec, Trunc, Staged, CleanBelow, VecInRange, Pow2, Bit, Flip, Low;
      Pow2Mono(n, QSV_MAX_QUBITS);
      HMachine(View(n), q);
      var step, size := Pow2(q), Pow2(n);
      ghost var a, c := re[..size], im[..size];
      ghost var blk, blocks, flag := 0, Pow2(n - 1 - q), overflow;
      Blocks(n, q);
      StagedInit(re[..], a, Trunc(HVec(n, q, a)), q);
      StagedInit(im[..], c, Trunc(HVec(n, q, c)), q);
      CleanEnds(n, HVec(n, q, a), HVec(n, q, c), q);
      var base := 0;
      while base < size
        invariant base == BlockBase(blk, q) && blk <= blocks
        invariant Staged(re[..], a, Trunc(HVec(n, q, a)), q, base)
        invariant Staged(im[..], c, Trunc(HVec(n, q, c)), q, base)
        invariant overflow == (flag || !CleanBelow(HVec(n, q, a), HVec(n, q, c), q, base)) && h == old(h)
      {
        BlockInside(blk, blocks, q);
        ButterflyBlock(n, q, base, blk, a, c, flag);
        blk := blk + 1;
        base := base + 2 * step;
      }
      BlockInside(blk, blocks, q);
      StagedDone(re[..], a, Trunc(HVec(n, q, a)), q, n);
      StagedDone(im[..], c, Trunc(HVec(n, q, c)), q, n);
      h := h + 1;
    }

    method GateCnot(n: nat, c: nat, t: nat)
      requires Valid() && Fits(Cnot(c, t), n) && n <= QSV_MAX_QUBITS
      modifies re, im
      ensures View(n) == MStep(old(View(n)), Cnot(c, t))
    {
      hide MStep, CnotVec, Trunc, Staged, VecInRange, Pow2, Bit, Flip, Low;
      Pow2Mono(n, QSV_MAX_QUBITS);
      CnotExact(View(n), c, t);
      ghost var x, y := re[..Pow2(n)], im[..Pow2(n)];
      ghost var x', y' := CnotVec(n, c, t, x), CnotVec(n, c, t, y);
      StagedInit(re[..], x, x', t);
      StagedInit(im[..], y, y', t);
      var k := 0;
      while k < Pow2(n)
        invariant k <= Pow2(n)
        invariant Staged(re[..], x, x', t, k) && Staged(im[..], y, y', t, k)
      {
        CnotAt(n, c, t, x, k);
        CnotAt(n, c, t, y, k);
        if Bit(k, c) == 1 && Bit(k, t) == 0 {
          ExchangePair(n, t, k, x, x', y, y');
        } else if Bit(k, t) == 0 {
          StagedKeep(re[..], x, x', t, k);
          StagedKeep(im[..], y, y', t, k);
        } else {
          StagedSkip(re[..], x, x', t, k);
          StagedSkip(im[..], y, y', t, k);
        }
        k := k + 1;
      }
      StagedDone(re[..], x, x', t, n);
      StagedDone(im[..], y, y', t, n);
    }

    /** Negate one amplitude; the negation of -2^31 wraps. */
    method NegateAmplitude(k: nat)
      requires Valid() && k < re.Length
      modifies re, im
      ensures re[..] == old(re[..])[k := Wrap32(-(old(re[k]) as int))]
      ensures im[..] == old(im[..])[k := Wrap32(-(old(im[k]) as int))]
    {
      re[k] := Wrap32(-(re[k] as int));
      im[k] := Wrap32(-(im[k] as int));
    }

    /** One visit of a diagonal gate's sweep: the selected amplitudes change sign. */
    method SignVisit(ghost g: Gate, ghost n: nat, ghost s: State, k: nat, selected: bool)
      requires Valid() && k < re.Length && VecInRange(s.re) && VecInRange(s.im) && |s.re| == |s.im| && k < |s.re|
      requires selected == Selects(g, n, k)
      requires Swept(re[..], s.re, Trunc(NegVec(g, n, s.re)), k) && Swept(im[..], s.im, Trunc(NegVec(g, n, s.im)), k)
      modifies re, im
      ensures Swept(re[..], s.re, Trunc(NegVec(g, n, s.re)), k + 1)
      ensures Swept(im[..], s.im, Trunc(NegVec(g, n, s.im)), k + 1)
    {
      hide Trunc, NegVec, Pow2;
      NegAt(g, n, s.re, k);
      NegAt(g, n, s.im, k);
      ghost var v, w := re[..], im[..];
      if selected {
        NegateAmplitude(k);
      }
      SweptVisit(v, s.re, Trunc(NegVec(g, n, s.re)), k, re[..]);
      SweptVisit(w, s.im, Trunc(NegVec(g, n, s.im)), k, im[..]);
    }

    method GateZ(n: nat, q: nat)
      requires Valid() && q < n <= QSV_MAX_QUBITS
      modifies re, im
      ensures View(n) == MStep(old(View(n)), Z(q))
    {
      Pow2Mono(n, QSV_MAX_QUBITS);
      ghost var m := View(n).s;
      ghost var b, d := Trunc(NegVec(Z(q), n, m.re)), Trunc(NegVec(Z(q), n, m.im));
      SweptInit(re[..], m.re, b);
      SweptInit(im[..], m.im, d);
      var k := 0;
      while k < Pow2(n)
        invariant k <= Pow2(n)
        invariant Swept(re[..], m.re, b, k) && Swept(im[..], m.im, d, k)
      {
        SignVisit(Z(q), n, m, k, Bit(k, q) == 1);
        k := k + 1;
      }
      SweptDone(re[..], m.re, b);
      SweptDone(im[..], m.im, d);
    }

    method GateCz(n: nat, a: nat, b: nat)
      requires Valid() && Fits(Cz(a, b), n) && n <= QSV_MAX_QUBITS
      modifies re, im
      ensures View(n) == MStep(old(View(n)), Cz(a, b))
    {
      Pow2Mono(n, QSV_MAX_QUBITS);
      ghost var m := View(n).s;
      ghost var x, y := Trunc(NegVec(Cz(a, b), n, m.re)), Trunc(NegVec(Cz(a, b), n, m.im));
      SweptInit(re[..], m.re, x);
      SweptInit(im[..], m.im, y);
      var k := 0;
      while k < Pow2(n)
        invariant k <= Pow2(n)
        invariant Swept(re[..], m.re, x, k) && Swept(im[..], m.im, y, k)
      {
        SignVisit(Cz(a, b), n, m, k, Bit(k, a) == 1 && Bit(k, b) == 1);
        k := k + 1;
      }
      SweptDone(re[..], m.re, x);
      SweptDone(im[..], m.im, y);
    }

    method MczAll(n: nat)
      requires Valid() && n <= QSV_MAX_QUBITS
      modifies re, im
      ensures View(n) == MStep(old(View(n)), Mcz)
    {
      Pow2Mono(n, QSV_MAX_QUBITS);
      ghost var m := View(n).s;
      NegateAmplitude(Pow2(n) - 1);
      assert re[..Pow2(n)] == Trunc(NegVec(Mcz, n, m.re));
      assert im[..Pow2(n)] == Trunc(NegVec(Mcz, n, m.im));
    }

    /** One visit of the S gate's sweep. */
    method PhaseVisit(ghost n: nat, q: nat, ghost s: State, k: nat)
      requires Valid() && k < re.Length && VecInRange(s.re) && VecInRange(s.im) && |s.re| == |s.im| && k < |s.re|
      requires Swept(re[..], s.re, Trunc(MixVec(S(q), n, s.re, s.im, true)), k)
      requires Swept(im[..], s.im, Trunc(MixVec(S(q), n, s.im, s.re, false)), k)
      modifies re, im
      ensures Swept(re[..], s.re, Trunc(MixVec(S(q), n, s.re, s.im, true)), k + 1)
      ensures Swept(im[..], s.im, Trunc(MixVec(S(q), n, s.im, s.re, false)), k + 1)
    {
      PhaseAt(n, q, s.re, s.im, k);
      hide Trunc, MixVec, Pow2;
      ghost var v, w := re[..], im[..];
      assert v[k] == s.re[k] && w[k] == s.im[k];
      if Bit(k, q) == 1 {
        var t := re[k];
        re[k] := Wrap32(-(im[k] as int));
        im[k] := t;
      }
      SweptVisit(v, s.re, Trunc(MixVec(S(q), n, s.re, s.im, true)), k, re[..]);
      SweptVisit(w, s.im, Trunc(MixVec(S(q), n, s.im, s.re, false)), k, im[..]);
    }

    /** (re, im) -> (-im, re) on the half with bit q set. */
    method GateS(n: nat, q: nat)
      requires Valid() && q < n <= QSV_MAX_QUBITS
      modifies re, im
      ensures View(n) == MStep(old(View(n)), S(q))
    {
      Pow2Mono(n, QSV_MAX_QUBITS);
      ghost var m := View(n).s;
      ghost var b := Trunc(MixVec(S(q), n, m.re, m.im, true));
      ghost var d := Trunc(MixVec(S(q), n, m.im, m.re, false));
      SweptInit(re[..], m.re, b);
      SweptInit(im[..], m.im, d);
      var k := 0;
      while k < Pow2(n)
        invariant k <= Pow2(n)
        invariant Swept(re[..], m.re, b, k) && Swept(im[..], m.im, d, k)
      {
        PhaseVisit(n, q, m, k);
        k := k + 1;
      }
      SweptDone(re[..], m.re, b);
      SweptDone(im[..], m.im, d);
    }

    /** X on every qubit whose bit in target is clear. */
    method MaskX(n: nat, target: nat)
      requires Valid() && n <= QSV_MAX_QUBITS
      modifies re, im
      ensures AllFit(XMask(target, n), n)
      ensures View(n) == MRun(old(View(n)), XMask(target, n))
    {
      hide MStep, Pow2, Bit;
      ghost var m := View(n);
      for q := 0 to n
        invariant AllFit(XMask(target, q), n) && View(n) == MRun(m, XMask(target, q))
      {
        RowsFit(n, q + 1, target);
        if Bit(target, q) == 0 {
          GateX(n, q);
          assert XMask(target, q + 1)[..|XMask(target, q)|] == XMask(target, q);
        }
      }
    }

    method Oracle(n: nat, target: nat)
      requires Valid() && n <= QSV_MAX_QUBITS
      modifies re, im
      ensures AllFit(OracleGates(n, target), n)
      ensures View(n) == MRun(old(View(n)), OracleGates(n, target))
    {
      hide MStep, MRun, Pow2;
      ghost var m := View(n);
      RowsFit(n, n, target);
      CompositesFit(n, target);
      MaskX(n, target);
      MRunOne(View(n), Mcz);
      MczAll(n);
      MRunConcat(m, XMask(target, n), [Mcz]);
      MaskX(n, target);
      MRunConcat(m, XMask(target, n) + [Mcz], XMask(target, n));
    }

    method RowH(n: nat)
      requires Valid() && n <= QSV_MAX_QUBITS
      modifies this`h, this`overflow, re, im
      ensures AllFit(HRow(n), n)
      ensures View(n) == MRun(old(View(n)), HRow(n))
    {
      hide MStep, Pow2;
      ghost var m := View(n);
      for q := 0 to n
        invariant AllFit(HRow(q), n) && View(n) == MRun(m, HRow(q))
      {
        RowsFit(n, q + 1, 0);
        GateH(n, q);
        assert HRow(q + 1)[..|HRow(q)|] == HRow(q);
      }
    }

    method RowX(n: nat)
      requires Valid() && n <= QSV_MAX_QUBITS
      modifies re, im
      ensures AllFit(XRow(n), n)
      ensures View(n) == MRun(old(View(n)), XRow(n))
    {
      hide MStep, Pow2;
      ghost var m := View(n);
      for q := 0 to n
        invariant AllFit(XRow(q), n) && View(n) == MRun(m, XRow(q))
      {
        RowsFit(n, q + 1, 0);
        GateX(n, q);
        assert XRow(q + 1)[..|XRow(q)|] == XRow(q);
      }
    }

    /** H^n X^n MCZ X^n H^n. */
    method Diffusion(n: nat)
      requires Valid() && n <= QSV_MAX_QUBITS
      modifies this`h, this`overflow, re, im
      ensures AllFit(DiffusionGates(n), n)
      ensures View(n) == MRun(old(View(n)), DiffusionGates(n))
    {
      hide MStep, MRun, Pow2, HRow, XRow;
      ghost var m := View(n);
      RowsFit(n, n, 0);
      CompositesFit(n, 0);
      RowH(n);
      RowX(n);
      MRunConcat(m, HRow(n), XRow(n));
      MRunOne(View(n), Mcz);
      MczAll(n);
      MRunConcat(m, HRow(n) + XRow(n), [Mcz]);
      RowX(n);
      MRunConcat(m, HRow(n) + XRow(n) + [Mcz], XRow(n));
      RowH(n);
      MRunConcat(m, HRow(n) + XRow(n) + [Mcz] + XRow(n), HRow(n));
    }

    /** qsv_norm_ok: the sum of |v|^2 in an unsigned 128-bit accumulator against 1 << h, defined only below 128. */
    method NormOk(n: nat) returns (ok: bool)
      requires Valid() && n <= QSV_MAX_QUBITS && h < 128
      ensures ok == (Norm(View(n).s) == Pow2(h))
    {
      Pow2Mono(n, QSV_MAX_QUBITS);
      assert Pow2(QSV_MAX_QUBITS) == 4096;
      ghost var s := View(n).s;
      var sum: nat := 0;
      var k := 0;
      while k < Pow2(n)
        invariant k <= Pow2(n)
        invariant sum == PartialNorm(s, k) && sum <= k * 0x8000_0000_0000_0000
      {
        hide Pow2;
        var r: int, i: int := re[k], im[k];
        SquareBound(r);
        SquareBound(i);
        sum := (sum + r * r + i * i) % TWO_128;
        k := k + 1;
      }
      PartialNormAll(s, k);
      return sum == Pow2(h);
    }
  }

  const TWO_128: int := 0x1_0000_0000_0000_0000_0000_0000_0000_0000

  lemma SquareBound(x: int)
    requires InRange(x)
    ensures 0 <= x * x <= 0x4000_0000_0000_0000
  {
    var y := if x < 0 then -x else x;
    assert x * x == y * y;
    Product(y, 0x8000_0000);
  }

  lemma Product(y: nat, b: nat)
    requires y <= b
    ensures y * y <= b * b
  {
    assert y * y <= y * b;
    assert y * b <= b * b;
  }

  ghost function PartialNorm(s: State, k: nat): int
    requires s.Valid() && k <= Pow2(s.n)
  {
    if k == 0 then 0 else PartialNorm(s, k - 1) + Weight(s, k - 1)
  }

  lemma {:induction false} PartialNormAll(s: State, k: nat)
    requires s.Valid() && k <= Pow2(s.n)
    ensures PartialNorm(s, k) == Sum(Mul(s.re, s.re)[..k]) + Sum(Mul(s.im, s.im)[..k])
    ensures k == Pow2(s.n) ==> PartialNorm(s, k) == Norm(s)
  {
    var x, y := Mul(s.re, s.re), Mul(s.im, s.im);
    if k > 0 {
      PartialNormAll(s, k - 1);
      assert x[..k][..k - 1] == x[..k - 1] && y[..k][..k - 1] == y[..k - 1];
    }
    assert k == Pow2(s.n) ==> x[..k] == x && y[..k] == y;
  }
}
