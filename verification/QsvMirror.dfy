/** The host's unbounded-integer engine: the independent mirror the reported figures are checked against. */
module QsvMirror {
  import opened Options
  import opened Bytes
  import opened QsvBits
  import opened QsvExact
  import opened QsvGrover
  import opened QsvEngine
  import opened Qpud

  /** One component of an untruncated diagonal gate, and of the S gate. */
  lemma SignAt(g: Gate, n: nat, v: Vec, k: nat)
    requires k < |v|
    ensures NegVec(g, n, v)[k] == if Selects(g, n, k) then -v[k] else v[k]
  {
  }

  lemma TurnAt(n: nat, q: nat, v: Vec, w: Vec, k: nat)
    requires |v| == |w| && k < |v|
    ensures MixVec(S(q), n, v, w, true)[k] == if Bit(k, q) == 1 then -w[k] else v[k]
    ensures MixVec(S(q), n, w, v, false)[k] == if Bit(k, q) == 1 then v[k] else w[k]
  {
  }

  /** No basis state of n qubits has a bit at n or above. */
  lemma AbsentBit(k: nat, q: nat, n: nat)
    requires k < Pow2(n) && q >= n
    ensures Bit(k, q) == 0
  {
    Pow2Mono(n, q);
    TopHalf(k, q, q);
  }

  lemma IdleCnot(n: nat, c: nat, t: nat, k: nat)
    requires k < Pow2(n) && (t < n || c >= n || c == t)
    ensures !Fits(Cnot(c, t), n) ==> !(Bit(k, c) == 1 && Bit(k, t) == 0)
  {
    if c >= n { AbsentBit(k, c, n); }
  }

  lemma IdleSign(g: Gate, n: nat, v: Vec)
    requires |v| == Pow2(n)
    requires (g.Z? && g.q >= n) || (g.Cz? && (g.a >= n || g.b >= n))
    ensures NegVec(g, n, v) == v
  {
    hide Bit, Pow2;
    forall k | 0 <= k < |v|
      ensures !Selects(g, n, k)
    {
      if g.Z? { AbsentBit(k, g.q, n); }
      else if g.a >= n { AbsentBit(k, g.a, n); }
      else { AbsentBit(k, g.b, n); }
    }
  }

  lemma SameSign(n: nat, q: nat, v: Vec)
    ensures NegVec(Cz(q, q), n, v) == NegVec(Z(q), n, v)
  {
    hide Bit;
  }

  lemma IdleTurn(n: nat, q: nat, v: Vec, w: Vec)
    requires |v| == |w| == Pow2(n) && q >= n
    ensures MixVec(S(q), n, v, w, true) == v && MixVec(S(q), n, w, v, false) == w
  {
    hide Bit, Pow2;
    forall k | 0 <= k < |v| ensures !Selects(S(q), n, k) { AbsentBit(k, q, n); }
  }

  /** What run_bytes does with one operation: the gates it amounts to, or None where the Python code raises, on an
      unknown opcode or an index out of range. */
  function MirrorOp(n: nat, opcode: byte, a: nat, b: nat): (r: Option<seq<Gate>>)
    ensures r.Some? ==> AllFit(r.value, n)
  {
    CompositesFit(n, a + 256 * b);
    if opcode == 1 && a < n then Some([H(a)])
    else if opcode == 2 && a < n then Some([X(a)])
    else if opcode == 3 then Some(if a < n then [Z(a)] else [])
    else if opcode == 4 then Some(if a < n then [S(a)] else [])
    else if opcode == 5 then
      if a >= n || a == b then Some([]) else if b < n then Some([Cnot(a, b)]) else None
    else if opcode == 6 then
      Some(if a >= n || b >= n then [] else if a == b then [Z(a)] else [Cz(a, b)])
    else if opcode == 7 then Some(OracleGates(n, a + 256 * b))
    else if opcode == 8 then Some(DiffusionGates(n))
    else None
  }

  function MirrorOpAt(n: nat, c: seq<byte>, i: nat): (r: Option<seq<Gate>>)
    requires QC_HDR + 3 * i + 3 <= |c|
    ensures r.Some? ==> AllFit(r.value, n)
  {
    MirrorOp(n, c[QC_HDR + 3 * i], c[QC_HDR + 3 * i + 1] as nat, c[QC_HDR + 3 * i + 2] as nat)
  }

  function MirrorOps(n: nat, c: seq<byte>, i: nat): (r: Option<seq<Gate>>)
    requires QC_HDR + 3 * i <= |c|
    ensures r.Some? ==> AllFit(r.value, n)
  {
    if i == 0 then Some([])
    else
      var before := MirrorOps(n, c, i - 1);
      var op := MirrorOpAt(n, c, i - 1);
      if before.Some? && op.Some? then Some(before.value + op.value) else None
  }

  /** What run_bytes asserts of the header. */
  predicate MirrorHeaderOk(c: seq<byte>) {
    |c| >= QC_HDR && c[0] == QC_VERSION && QC_HDR + 3 * Value(c[2]) <= |c|
  }

  function Value(b: byte): nat { b as nat }

  /** The circuits run_bytes completes: any register size, any probe. */
  function MirrorParse(c: seq<byte>): (r: Option<Circuit>)
    ensures r.Some? ==> AllFit(r.value.gates, r.value.n)
  {
    hide AllFit, MirrorOps, Value;
    if !MirrorHeaderOk(c) then None
    else match MirrorOps(Value(c[1]), c, Value(c[2]))
         case None => None
         case Some(gs) => Some(Circuit(Value(c[1]), Value(c[3]) + 256 * Value(c[4]), gs))
  }

  /** Where the two differ on an operation: the executor refuses and the mirror runs exactly a Z or S on an absent
      qubit, a CZ on absent or equal operands, a CNOT whose control is absent or is its target, and an oracle target
      out of range. Whatever both admit they read alike. */
  lemma MirrorAdmitsMore(n: nat, opcode: byte, a: nat, b: nat)
    ensures OpGates(n, opcode, a, b).Some? ==> MirrorOp(n, opcode, a, b) == OpGates(n, opcode, a, b)
    ensures OpGates(n, opcode, a, b).None? && MirrorOp(n, opcode, a, b).Some? <==>
            || ((opcode == 3 || opcode == 4) && a >= n)
            || (opcode == 5 && (a >= n || a == b))
            || (opcode == 6 && (a >= n || b >= n || a == b))
            || (opcode == 7 && a + 256 * b >= Pow2(n))
  {
    hide Pow2, OracleGates, DiffusionGates;
  }

  lemma {:induction false} OpsAgree(n: nat, c: seq<byte>, i: nat)
    requires QC_HDR + 3 * i <= |c| && OpsGates(n, c, i).Some?
    ensures MirrorOps(n, c, i) == OpsGates(n, c, i)
  {
    hide OpGates, MirrorOp;
    if i > 0 {
      OpsAgree(n, c, i - 1);
      MirrorAdmitsMore(n, c[QC_HDR + 3 * (i - 1)], c[QC_HDR + 3 * (i - 1) + 1] as nat,
        c[QC_HDR + 3 * (i - 1) + 2] as nat);
    }
  }

  /** Every circuit the executor admits is read alike by the mirror. */
  lemma MirrorReadsAlike(c: seq<byte>)
    requires Parse(c).Some?
    ensures MirrorParse(c) == Parse(c)
  {
    hide OpsGates, MirrorOps, Pow2;
    OpsAgree(c[1] as nat, c, c[2] as nat);
  }

  class QSV {
    const n: nat
    var re: Vec
    var im: Vec
    var h: nat

    ghost predicate Valid()
      reads this
    {
      |re| == |im| == Pow2(n)
    }

    ghost function View(): (s: State)
      requires Valid()
      reads this
      ensures s.Valid() && s.n == n
    {
      State(n, re, im, h)
    }

    constructor (n: nat)
      ensures Valid() && this.n == n && View() == Reset(n)
    {
      this.n := n;
      re := Basis(Pow2(n));
      im := Zeros(Pow2(n));
      h := 0;
    }

    /** The inner butterfly loop over one block of stride 2^q. */
    method ButterflyBlock(q: nat, base: nat, ghost blk: nat, ghost a: Vec, ghost c: Vec)
      requires q < n && |a| == |c| == |re| == |im| == Pow2(n)
      requires base == BlockBase(blk, q) && base + 2 * Pow2(q) <= Pow2(n)
      requires Staged(re, a, HVec(n, q, a), q, base) && Staged(im, c, HVec(n, q, c), q, base)
      modifies this`re, this`im
      ensures |re| == |im| == Pow2(n)
      ensures Staged(re, a, HVec(n, q, a), q, BlockBase(blk + 1, q))
      ensures Staged(im, c, HVec(n, q, c), q, BlockBase(blk + 1, q))
    {
      hide HVec, Staged, Pow2, Bit, Flip, BlockBase;
      ghost var b, d := HVec(n, q, a), HVec(n, q, c);
      var step := Pow2(q);
      var k := base;
      while k < base + step
        invariant base <= k <= base + step && |re| == |im| == Pow2(n)
        invariant Staged(re, a, b, q, k) && Staged(im, c, d, q, k)
      {
        BlockBits(blk, k - base, q);
        FlipStride(k, q);
        HAt(n, q, a, k);
        HAt(n, q, c, k);
        StagedFresh(re, a, b, q, k);
        StagedFresh(im, c, d, q, k);
        ghost var v, w := re, im;
        var ar, ai, br, bi := re[k], im[k], re[k + step], im[k + step];
        re, im := re[k := ar + br], im[k := ai + bi];
        re, im := re[k + step := ar - br], im[k + step := ai - bi];
        StagedVisit(v, a, b, q, k, re);
        StagedVisit(w, c, d, q, k, im);
        k := k + 1;
      }
      StagedSkipBlock(re, a, b, q, blk);
      StagedSkipBlock(im, c, d, q, blk);
    }

    method GateH(q: nat)
      requires Valid() && q < n
      modifies this
      ensures Valid() && View() == Step(old(View()), H(q))
    {
      hide HVec, Staged, Pow2, Bit, Flip, Low, BlockBase;
      var step, size := Pow2(q), Pow2(n);
      ghost var a, c := re, im;
      ghost var blk, blocks := 0, Pow2(n - 1 - q);
      Blocks(n, q);
      BlockZero(q);
      assert re[..size] == re && im[..size] == im;
      StagedInit(re, a, HVec(n, q, a), q);
      StagedInit(im, c, HVec(n, q, c), q);
      var base := 0;
      while base < size
        invariant base == BlockBase(blk, q) && blk <= blocks && Valid() && h == old(h)
        invariant Staged(re, a, HVec(n, q, a), q, base) && Staged(im, c, HVec(n, q, c), q, base)
      {
        BlockInside(blk, blocks, q);
        BlockStep(blk, q);
        ButterflyBlock(q, base, blk, a, c);
        blk := blk + 1;
        base := base + 2 * step;
      }
      BlockInside(blk, blocks, q);
      StagedDone(re, a, HVec(n, q, a), q, n);
      StagedDone(im, c, HVec(n, q, c), q, n);
      assert re[..size] == re && im[..size] == im;
      h := h + 1;
    }

    /** Exchange the amplitudes of k and k + 2^q. */
    method Exchange(q: nat, k: nat)
      requires k + Pow2(q) < |re| == |im|
      modifies this`re, this`im
      ensures re == old(re)[k := old(re[k + Pow2(q)])][k + Pow2(q) := old(re[k])]
      ensures im == old(im)[k := old(im[k + Pow2(q)])][k + Pow2(q) := old(im[k])]
    {
      var j := k + Pow2(q);
      re := re[k := re[j]][j := re[k]];
      im := im[k := im[j]][j := im[k]];
    }

    method ExchangeBlock(q: nat, base: nat, ghost blk: nat, ghost a: Vec, ghost c: Vec)
      requires q < n && |a| == |c| == |re| == |im| == Pow2(n)
      requires base == BlockBase(blk, q) && base + 2 * Pow2(q) <= Pow2(n)
      requires Staged(re, a, XVec(n, q, a), q, base) && Staged(im, c, XVec(n, q, c), q, base)
      modifies this`re, this`im
      ensures |re| == |im| == Pow2(n)
      ensures Staged(re, a, XVec(n, q, a), q, BlockBase(blk + 1, q))
      ensures Staged(im, c, XVec(n, q, c), q, BlockBase(blk + 1, q))
    {
      hide XVec, Staged, Pow2, Bit, Flip, BlockBase;
      ghost var b, d := XVec(n, q, a), XVec(n, q, c);
      var step := Pow2(q);
      var k := base;
      while k < base + step
        invariant base <= k <= base + step && |re| == |im| == Pow2(n)
        invariant Staged(re, a, b, q, k) && Staged(im, c, d, q, k)
      {
        BlockBits(blk, k - base, q);
        FlipStride(k, q);
        XAt(n, q, a, k);
        XAt(n, q, c, k);
        StagedFresh(re, a, b, q, k);
        StagedFresh(im, c, d, q, k);
        ghost var v, w := re, im;
        Exchange(q, k);
        StagedVisit(v, a, b, q, k, re);
        StagedVisit(w, c, d, q, k, im);
        k := k + 1;
      }
      StagedSkipBlock(re, a, b, q, blk);
      StagedSkipBlock(im, c, d, q, blk);
    }

    method GateX(q: nat)
      requires Valid() && q < n
      modifies this`re, this`im
      ensures Valid() && View() == Step(old(View()), X(q))
    {
      hide XVec, Staged, Pow2, Bit, Flip, Low, BlockBase;
      var step, size := Pow2(q), Pow2(n);
      ghost var a, c := re, im;
      ghost var blk, blocks := 0, Pow2(n - 1 - q);
      Blocks(n, q);
      BlockZero(q);
      assert re[..size] == re && im[..size] == im;
      StagedInit(re, a, XVec(n, q, a), q);
      StagedInit(im, c, XVec(n, q, c), q);
      var base := 0;
      while base < size
        invariant base == BlockBase(blk, q) && blk <= blocks && Valid()
        invariant Staged(re, a, XVec(n, q, a), q, base) && Staged(im, c, XVec(n, q, c), q, base)
      {
        BlockInside(blk, blocks, q);
        BlockStep(blk, q);
        ExchangeBlock(q, base, blk, a, c);
        blk := blk + 1;
        base := base + 2 * step;
      }
      BlockInside(blk, blocks, q);
      StagedDone(re, a, XVec(n, q, a), q, n);
      StagedDone(im, c, XVec(n, q, c), q, n);
      assert re[..size] == re && im[..size] == im;
    }

    /** Equal operands, or an absent control, select nothing; only an absent target with a present control is out
        of range. */
    method GateCnot(c: nat, t: nat)
      requires Valid() && (t < n || c >= n || c == t)
      modifies this`re, this`im
      ensures Valid()
      ensures View() == if Fits(Cnot(c, t), n) then Step(old(View()), Cnot(c, t)) else old(View())
    {
      hide CnotVec, Staged, Pow2, Bit, Flip, Low;
      ghost var x, y, fits := re, im, Fits(Cnot(c, t), n);
      ghost var x', y' := if fits then CnotVec(n, c, t, x) else x, if fits then CnotVec(n, c, t, y) else y;
      assert re[..Pow2(n)] == re && im[..Pow2(n)] == im;
      StagedInit(re, x, x', t);
      StagedInit(im, y, y', t);
      var k := 0;
      while k < Pow2(n)
        invariant k <= Pow2(n) && Valid()
        invariant if fits then Staged(re, x, x', t, k) && Staged(im, y, y', t, k) else re == x && im == y
      {
        IdleCnot(n, c, t, k);
        if fits {
          CnotAt(n, c, t, x, k);
          CnotAt(n, c, t, y, k);
        }
        FlipStride(k, t);
        ghost var v, w := re, im;
        if Bit(k, c) == 1 && Bit(k, t) == 0 {
          StagedFresh(re, x, x', t, k);
          StagedFresh(im, y, y', t, k);
          Exchange(t, k);
          StagedVisit(v, x, x', t, k, re);
          StagedVisit(w, y, y', t, k, im);
        } else if fits {
          if Bit(k, t) == 0 {
            StagedKeep(re, x, x', t, k);
            StagedKeep(im, y, y', t, k);
          } else {
            StagedSkip(re, x, x', t, k);
            StagedSkip(im, y, y', t, k);
          }
        }
        k := k + 1;
      }
      if fits {
        StagedDone(re, x, x', t, n);
        StagedDone(im, y, y', t, n);
        assert re[..Pow2(n)] == re && im[..Pow2(n)] == im;
      }
    }

    /** One visit of a diagonal gate's sweep. */
    method SignVisit(ghost g: Gate, k: nat, selected: bool, ghost a: Vec, ghost c: Vec)
      requires k < |re| == |im| == |a| == |c| && selected == Selects(g, n, k)
      requires Swept(re, a, NegVec(g, n, a), k) && Swept(im, c, NegVec(g, n, c), k)
      modifies this`re, this`im
      ensures |re| == |im| == |a|
      ensures Swept(re, a, NegVec(g, n, a), k + 1) && Swept(im, c, NegVec(g, n, c), k + 1)
    {
      SignAt(g, n, a, k);
      SignAt(g, n, c, k);
      hide NegVec, Selects;
      ghost var v, w := re, im;
      if selected {
        re, im := re[k := -re[k]], im[k := -im[k]];
      }
      SweptVisit(v, a, NegVec(g, n, a), k, re);
      SweptVisit(w, c, NegVec(g, n, c), k, im);
    }

    /** On an absent qubit the loop selects nothing. */
    method GateZ(q: nat)
      requires Valid()
      modifies this`re, this`im
      ensures Valid() && View() == if q < n then Step(old(View()), Z(q)) else old(View())
    {
      ghost var a, c := re, im;
      SweptInit(re, a, NegVec(Z(q), n, a));
      SweptInit(im, c, NegVec(Z(q), n, c));
      hide NegVec, Pow2, Swept;
      var k := 0;
      while k < Pow2(n)
        invariant k <= Pow2(n) && Valid()
        invariant Swept(re, a, NegVec(Z(q), n, a), k) && Swept(im, c, NegVec(Z(q), n, c), k)
      {
        SignVisit(Z(q), k, Bit(k, q) == 1, a, c);
        k := k + 1;
      }
      SweptDone(re, a, NegVec(Z(q), n, a));
      SweptDone(im, c, NegVec(Z(q), n, c));
      if q >= n {
        IdleSign(Z(q), n, a);
        IdleSign(Z(q), n, c);
      }
      assert re[..|re|] == re && im[..|im|] == im;
    }

    /** On equal operands this is the Z gate; an absent operand selects nothing. */
    method GateCz(x: nat, y: nat)
      requires Valid()
      modifies this`re, this`im
      ensures Valid()
      ensures View() == if x >= n || y >= n then old(View())
                        else if x == y then Step(old(View()), Z(x))
                        else Step(old(View()), Cz(x, y))
    {
      ghost var a, c := re, im;
      SweptInit(re, a, NegVec(Cz(x, y), n, a));
      SweptInit(im, c, NegVec(Cz(x, y), n, c));
      hide NegVec, Pow2, Swept;
      var k := 0;
      while k < Pow2(n)
        invariant k <= Pow2(n) && Valid()
        invariant Swept(re, a, NegVec(Cz(x, y), n, a), k) && Swept(im, c, NegVec(Cz(x, y), n, c), k)
      {
        SignVisit(Cz(x, y), k, Bit(k, x) == 1 && Bit(k, y) == 1, a, c);
        k := k + 1;
      }
      SweptDone(re, a, NegVec(Cz(x, y), n, a));
      SweptDone(im, c, NegVec(Cz(x, y), n, c));
      if x >= n || y >= n {
        IdleSign(Cz(x, y), n, a);
        IdleSign(Cz(x, y), n, c);
      } else if x == y {
        SameSign(n, x, a);
        SameSign(n, x, c);
      }
      assert re[..|re|] == re && im[..|im|] == im;
    }

    method MczAll()
      requires Valid()
      modifies this`re, this`im
      ensures Valid() && View() == Step(old(View()), Mcz)
    {
      var k := Pow2(n) - 1;
      ghost var a, c := re, im;
      re, im := re[k := -re[k]], im[k := -im[k]];
      hide Pow2;
      assert re == NegVec(Mcz, n, a);
      assert im == NegVec(Mcz, n, c);
    }

    /** (re, im) -> (-im, re) on the half with bit q set. */
    method GateS(q: nat)
      requires Valid()
      modifies this`re, this`im
      ensures Valid() && View() == if q < n then Step(old(View()), S(q)) else old(View())
    {
      ghost var a, c := re, im;
      ghost var b, d := MixVec(S(q), n, a, c, true), MixVec(S(q), n, c, a, false);
      SweptInit(re, a, b);
      SweptInit(im, c, d);
      hide MixVec, Pow2;
      var k := 0;
      while k < Pow2(n)
        invariant k <= Pow2(n) && Valid()
        invariant Swept(re, a, b, k) && Swept(im, c, d, k)
      {
        TurnAt(n, q, a, c, k);
        ghost var v, w := re, im;
        if Bit(k, q) == 1 {
          re, im := re[k := -im[k]], im[k := re[k]];
        }
        SweptVisit(v, a, b, k, re);
        SweptVisit(w, c, d, k, im);
        k := k + 1;
      }
      SweptDone(re, a, b);
      SweptDone(im, c, d);
      if q >= n { IdleTurn(n, q, a, c); }
      assert re[..|re|] == re && im[..|im|] == im;
    }

    method MaskX(target: nat)
      requires Valid()
      modifies this`re, this`im
      ensures Valid() && AllFit(XMask(target, n), n) && View() == Run(old(View()), XMask(target, n))
    {
      hide Step, Pow2, Bit, Valid;
      ghost var s := View();
      for q := 0 to n
        invariant Valid() && AllFit(XMask(target, q), n) && View() == Run(s, XMask(target, q))
      {
        RowsFit(n, q + 1, target);
        if Bit(target, q) == 0 {
          GateX(q);
          assert XMask(target, q + 1)[..|XMask(target, q)|] == XMask(target, q);
        }
      }
    }

    method Oracle(target: nat)
      requires Valid()
      modifies this`re, this`im
      ensures Valid() && AllFit(OracleGates(n, target), n) && View() == Run(old(View()), OracleGates(n, target))
    {
      hide Step, Run, Pow2, Valid;
      ghost var s := View();
      RowsFit(n, n, target);
      CompositesFit(n, target);
      MaskX(target);
      RunOne(View(), Mcz);
      MczAll();
      RunConcat(s, XMask(target, n), [Mcz]);
      MaskX(target);
      RunConcat(s, XMask(target, n) + [Mcz], XMask(target, n));
    }

    method RowH()
      requires Valid()
      modifies this
      ensures Valid() && AllFit(HRow(n), n) && View() == Run(old(View()), HRow(n))
    {
      hide Step, Pow2, Valid;
      ghost var s := View();
      for q := 0 to n
        invariant Valid() && AllFit(HRow(q), n) && View() == Run(s, HRow(q))
      {
        RowsFit(n, q + 1, 0);
        GateH(q);
        assert HRow(q + 1)[..|HRow(q)|] == HRow(q);
      }
    }

    method RowX()
      requires Valid()
      modifies this`re, this`im
      ensures Valid() && AllFit(XRow(n), n) && View() == Run(old(View()), XRow(n))
    {
      hide Step, Pow2, Valid;
      ghost var s := View();
      for q := 0 to n
        invariant Valid() && AllFit(XRow(q), n) && View() == Run(s, XRow(q))
      {
        RowsFit(n, q + 1, 0);
        GateX(q);
        assert XRow(q + 1)[..|XRow(q)|] == XRow(q);
      }
    }

    method Diffusion()
      requires Valid()
      modifies this
      ensures Valid() && AllFit(DiffusionGates(n), n) && View() == Run(old(View()), DiffusionGates(n))
    {
      hide Step, Run, Pow2, HRow, XRow, Valid;
      ghost var s := View();
      RowsFit(n, n, 0);
      CompositesFit(n, 0);
      RowH();
      RowX();
      RunConcat(s, HRow(n), XRow(n));
      RunOne(View(), Mcz);
      MczAll();
      RunConcat(s, HRow(n) + XRow(n), [Mcz]);
      RowX();
      RunConcat(s, HRow(n) + XRow(n) + [Mcz], XRow(n));
      RowH();
      RunConcat(s, HRow(n) + XRow(n) + [Mcz] + XRow(n), HRow(n));
    }

    method Norm2() returns (sum: int)
      requires Valid()
      ensures sum == Norm(View())
    {
      sum := 0;
      for k := 0 to Pow2(n)
        invariant sum == PartialNorm(View(), k)
      {
        sum := sum + (re[k] * re[k] + im[k] * im[k]);
      }
      PartialNormAll(View(), Pow2(n));
    }

    /** Every basis state's probability as numerator and denominator. */
    method Probs() returns (p: seq<(int, int)>)
      requires Valid()
      ensures |p| == Pow2(n) && forall k | 0 <= k < |p| :: p[k] == (Weight(View(), k), Pow2(h))
    {
      p := [];
      for k := 0 to Pow2(n)
        invariant |p| == k && forall j | 0 <= j < k :: p[j] == (Weight(View(), j), Pow2(h))
      {
        p := p + [(re[k] * re[k] + im[k] * im[k], Pow2(h))];
      }
    }

    /** One operation of run_bytes; false where the Python code raises. */
    method Apply(opcode: byte, a: nat, b: nat) returns (ok: bool)
      requires Valid()
      modifies this
      ensures Valid() && ok == MirrorOp(n, opcode, a, b).Some?
      ensures ok ==> View() == Run(old(View()), MirrorOp(n, opcode, a, b).value)
    {
      hide Run, Step, Pow2, Valid;
      ghost var s := View();
      RunNone(s);
      if opcode == 1 {
        if a >= n { return false; }
        RunOne(s, H(a));
        GateH(a);
      } else if opcode == 2 {
        if a >= n { return false; }
        RunOne(s, X(a));
        GateX(a);
      } else if opcode == 3 {
        if a < n { RunOne(s, Z(a)); }
        GateZ(a);
      } else if opcode == 4 {
        if a < n { RunOne(s, S(a)); }
        GateS(a);
      } else if opcode == 5 {
        if a < n && a != b && b >= n { return false; }
        if Fits(Cnot(a, b), n) { RunOne(s, Cnot(a, b)); }
        GateCnot(a, b);
      } else if opcode == 6 {
        if Fits(Cz(a, b), n) { RunOne(s, Cz(a, b)); } else if a == b < n { RunOne(s, Z(a)); }
        GateCz(a, b);
      } else if opcode == 7 {
        Oracle(a + 256 * b);
      } else if opcode == 8 {
        Diffusion();
      } else {
        return false;
      }
      return true;
    }
  }

  lemma RunNone(s: State)
    requires s.Valid()
    ensures Run(s, []) == s
  {
  }

  lemma BlockZero(q: nat)
    ensures BlockBase(0, q) == 0
  {
  }

  lemma BlockStep(m: nat, q: nat)
    ensures BlockBase(m + 1, q) == BlockBase(m, q) + 2 * Pow2(q)
  {
  }

  lemma MirrorStops(n: nat, c: seq<byte>, i: nat, j: nat)
    requires i < j && QC_HDR + 3 * j <= |c| && MirrorOps(n, c, i).Some?
    ensures MirrorOpAt(n, c, i).Some? ==>
              MirrorOps(n, c, i + 1) == Some(MirrorOps(n, c, i).value + MirrorOpAt(n, c, i).value)
    ensures MirrorOpAt(n, c, i).None? ==> MirrorOps(n, c, j).None?
  {
    if MirrorOpAt(n, c, i).None? { RaisedStays(n, c, i + 1, j); }
  }

  lemma {:induction false} RaisedStays(n: nat, c: seq<byte>, i: nat, j: nat)
    requires i <= j && QC_HDR + 3 * j <= |c| && MirrorOps(n, c, i).None?
    ensures MirrorOps(n, c, j).None?
  {
    if i < j { RaisedStays(n, c, i, j - 1); }
  }

  /** run_bytes: it completes exactly on the circuits of MirrorParse, with the exact probability of every basis state
      and its unitarity check passing. */
  method RunBytes(c: seq<byte>) returns (r: Option<(nat, nat, seq<(int, int)>)>)
    ensures match MirrorParse(c)
            case None => r == None
            case Some(p) =>
              var s := Run(Reset(p.n), p.gates);
              && r.Some? && r.value.0 == p.n && r.value.1 == p.probe && |r.value.2| == Pow2(p.n)
              && forall k | 0 <= k < Pow2(p.n) :: r.value.2[k] == (Weight(s, k), Pow2(s.h))
  {
    hide Run, Norm, MirrorOps, MirrorOp, Pow2;
    if |c| < QC_HDR || c[0] != QC_VERSION {
      return None;
    }
    var n, nOps, probe := c[1] as nat, c[2] as nat, c[3] as nat + 256 * (c[4] as nat);
    if QC_HDR + nOps * 3 > |c| {
      return None;
    }
    var s := new QSV(n);
    NoOps(n, c);
    for i := 0 to nOps
      invariant s.Valid() && s.n == n && MirrorOps(n, c, i).Some?
      invariant s.View() == Run(Reset(n), MirrorOps(n, c, i).value)
    {
      MirrorStops(n, c, i, nOps);
      ghost var before := MirrorOps(n, c, i).value;
      var ok := s.Apply(c[QC_HDR + 3 * i], c[QC_HDR + 3 * i + 1] as nat, c[QC_HDR + 3 * i + 2] as nat);
      if !ok {
        return None;
      }
      RunConcat(Reset(n), before, MirrorOpAt(n, c, i).value);
    }
    var norm := s.Norm2();
    NormConserved(n, MirrorOps(n, c, nOps).value);
    assert norm == Pow2(s.h);
    var probs := s.Probs();
    return Some((n, probe, probs));
  }

  lemma NoOps(n: nat, c: seq<byte>)
    requires QC_HDR <= |c|
    ensures MirrorOps(n, c, 0) == Some([]) && Run(Reset(n), []) == Reset(n)
  {
  }
}
