/** The host's builder of circuits, octet by octet, and what both engines read from its bytes. */
module QpuCircuit {
  import opened Options
  import opened Int32
  import opened Bytes
  import opened QsvBits
  import opened QsvExact
  import opened QsvGrover
  import opened Qpud
  import opened QsvMirror

  /** One operation as a caller of the builder means it; Other is any opcode without a meaning. */
  datatype Op =
    | HadamardOp(q: byte)
    | NotOp(q: byte)
    | SignOp(q: byte)
    | PhaseOp(q: byte)
    | CnotOp(control: byte, target: byte)
    | CzOp(a: byte, b: byte)
    | OracleOp(index: u16)
    | DiffusionOp
    | Other(opcode: byte, a: byte, b: byte)

  /** The three octets of an operation. */
  function Triple(op: Op): (r: seq<byte>)
    ensures |r| == 3
  {
    match op
    case HadamardOp(q) => [1, q, 0]
    case NotOp(q) => [2, q, 0]
    case SignOp(q) => [3, q, 0]
    case PhaseOp(q) => [4, q, 0]
    case CnotOp(control, target) => [5, control, target]
    case CzOp(a, b) => [6, a, b]
    case OracleOp(target) => [7, Octet(target), Octet(target / 256)]
    case DiffusionOp => [8, 0, 0]
    case Other(opcode, a, b) => [opcode, a, b]
  }

  /** Other stands for the opcodes without a meaning only. */
  predicate Proper(op: Op) { op.Other? ==> op.opcode == 0 || op.opcode > 8 }

  function Triples(ops: seq<Op>): (r: seq<byte>)
    ensures |r| == 3 * |ops|
  {
    if ops == [] then [] else Triples(ops[..|ops| - 1]) + Triple(ops[|ops| - 1])
  }

  /** build: version, qubits, operations, probe, three reserved octets, then the operations. */
  function Build(n: byte, probe: u16, ops: seq<Op>): (r: seq<byte>)
    requires |ops| <= 255
    ensures |r| == 8 + 3 * |ops|
  {
    [1, n, Octet(|ops|), Octet(probe), Octet(probe / 256), 0, 0, 0] + Triples(ops)
  }

  /** What an operation does on n qubits; None where it has no meaning there. */
  function Meaning(n: nat, op: Op): Option<seq<Gate>> {
    match op
    case HadamardOp(q) => if q as nat < n then Some([H(q as nat)]) else None
    case NotOp(q) => if q as nat < n then Some([X(q as nat)]) else None
    case SignOp(q) => if q as nat < n then Some([Z(q as nat)]) else None
    case PhaseOp(q) => if q as nat < n then Some([S(q as nat)]) else None
    case CnotOp(c, t) => if c as nat < n && t as nat < n && c != t then Some([Cnot(c as nat, t as nat)]) else None
    case CzOp(a, b) => if a as nat < n && b as nat < n && a != b then Some([Cz(a as nat, b as nat)]) else None
    case OracleOp(target) => if target < Pow2(n) then Some(OracleGates(n, target)) else None
    case DiffusionOp => Some(DiffusionGates(n))
    case Other(_, _, _) => None
  }

  function Meanings(n: nat, ops: seq<Op>): Option<seq<Gate>> {
    if ops == [] then Some([])
    else
      var before, last := Meanings(n, ops[..|ops| - 1]), Meaning(n, ops[|ops| - 1]);
      if before.Some? && last.Some? then Some(before.value + last.value) else None
  }

  lemma OpMeans(n: nat, op: Op)
    requires Proper(op)
    ensures var t := Triple(op); OpGates(n, t[0], t[1] as nat, t[2] as nat) == Meaning(n, op)
  {
    hide OpGates, Triple, Meaning;
    match op
    case OracleOp(index) => OracleMeans(n, index);
    case CnotOp(c, t) => PairMeans(n, c, t);
    case CzOp(a, b) => PairMeans(n, a, b);
    case Other(opcode, a, b) => OtherMeans(n, opcode, a, b);
    case _ => SingleMeans(n, op);
  }

  lemma SingleMeans(n: nat, op: Op)
    requires !op.OracleOp? && !op.CnotOp? && !op.CzOp? && !op.Other?
    ensures var t := Triple(op); OpGates(n, t[0], t[1] as nat, t[2] as nat) == Meaning(n, op)
  {
    hide Pow2, OracleGates, DiffusionGates, Octet;
  }

  lemma PairMeans(n: nat, a: byte, b: byte)
    ensures OpGates(n, 5, a as nat, b as nat) == Meaning(n, CnotOp(a, b)) && Triple(CnotOp(a, b)) == [5, a, b]
    ensures OpGates(n, 6, a as nat, b as nat) == Meaning(n, CzOp(a, b)) && Triple(CzOp(a, b)) == [6, a, b]
  {
    hide Pow2, OracleGates, DiffusionGates, Octet;
    CastInjective(a, b);
  }

  lemma OracleMeans(n: nat, index: u16)
    ensures var t := Triple(OracleOp(index));
            OpGates(n, t[0], t[1] as nat, t[2] as nat) == Meaning(n, OracleOp(index))
  {
    hide Pow2, OracleGates, DiffusionGates, Octet;
    OctetPair(index);
  }

  lemma OtherMeans(n: nat, opcode: byte, a: byte, b: byte)
    requires opcode == 0 || opcode > 8
    ensures OpGates(n, opcode, a as nat, b as nat) == None == Meaning(n, Other(opcode, a, b))
    ensures Triple(Other(opcode, a, b)) == [opcode, a, b]
  {
    hide Pow2, OracleGates, DiffusionGates, Octet;
  }

  lemma OctetPair(v: u16)
    ensures Octet(v) as nat + 256 * (Octet(v / 256) as nat) == v
  {
    hide Octet;
  }

  lemma CastInjective(a: byte, b: byte)
    ensures a as nat == b as nat <==> a == b
  {
  }

  lemma {:induction false} TripleAt(ops: seq<Op>, i: nat)
    requires i < |ops|
    ensures Triples(ops)[3 * i..3 * i + 3] == Triple(ops[i])
  {
    hide Triple;
    if i < |ops| - 1 {
      var s, t := Triples(ops[..|ops| - 1]), Triple(ops[|ops| - 1]);
      TripleAt(ops[..|ops| - 1], i);
      assert Triples(ops) == s + t;
      assert (s + t)[3 * i..3 * i + 3] == s[3 * i..3 * i + 3];
    }
  }

  lemma BuiltAt(n: byte, probe: u16, ops: seq<Op>, more: seq<byte>, i: nat)
    requires |ops| <= 255 && i < |ops|
    ensures var c, t := Build(n, probe, ops) + more, Triple(ops[i]);
            c[8 + 3 * i] == t[0] && c[8 + 3 * i + 1] == t[1] && c[8 + 3 * i + 2] == t[2]
  {
    hide Triple, Triples;
    var s := Triples(ops);
    TripleAt(ops, i);
    forall k | 0 <= k < 3
      ensures (Build(n, probe, ops) + more)[8 + 3 * i + k] == Triple(ops[i])[k]
    {
      assert s[3 * i..3 * i + 3][k] == s[3 * i + k];
    }
  }

  lemma {:induction false} OpsMean(n: byte, probe: u16, ops: seq<Op>, more: seq<byte>, i: nat)
    requires |ops| <= 255 && i <= |ops| && forall op | op in ops :: Proper(op)
    ensures OpsGates(n as nat, Build(n, probe, ops) + more, i) == Meanings(n as nat, ops[..i])
  {
    hide Triple, Build, OpGates, Meaning, Proper;
    if i > 0 {
      OpsMean(n, probe, ops, more, i - 1);
      BuiltAt(n, probe, ops, more, i - 1);
      assert ops[i - 1] in ops;
      OpMeans(n as nat, ops[i - 1]);
      assert ops[..i][..i - 1] == ops[..i - 1];
    }
  }

  lemma BuiltHeader(n: byte, probe: u16, ops: seq<Op>, more: seq<byte>)
    requires |ops| <= 255
    ensures var c := Build(n, probe, ops) + more;
            && c[0] == 1 && c[1] == n && c[2] as nat == |ops| && c[3] as nat + 256 * (c[4] as nat) == probe
  {
    hide Triples, Octet;
    var c := Build(n, probe, ops) + more;
    assert c[2] == Octet(|ops|) && c[3] == Octet(probe) && c[4] == Octet(probe / 256);
    OctetPair(probe);
  }

  /** What the executor reads from the builder's bytes, whatever follows them: the circuit the operations mean, on 1 to
      12 qubits with a probe among their basis states, and nothing if any operation has no meaning there. */
  lemma BuiltIsRead(n: byte, probe: u16, ops: seq<Op>, more: seq<byte>)
    requires |ops| <= 255 && forall op | op in ops :: Proper(op)
    ensures Parse(Build(n, probe, ops) + more)
            == if 1 <= n as nat <= 12 && probe < Pow2(n as nat) && Meanings(n as nat, ops).Some?
               then Some(Circuit(n as nat, probe, Meanings(n as nat, ops).value)) else None
  {
    hide Build, OpsGates, Meanings, Pow2;
    BuiltHeader(n, probe, ops, more);
    OpsMean(n, probe, ops, more, |ops|);
    assert ops[..|ops|] == ops;
  }

  /** What an operation does on the mirror, which runs some that the executor refuses; None where it raises. */
  function MirrorMeaning(n: nat, op: Op): Option<seq<Gate>> {
    match op
    case HadamardOp(q) => if q as nat < n then Some([H(q as nat)]) else None
    case NotOp(q) => if q as nat < n then Some([X(q as nat)]) else None
    case SignOp(q) => Some(if q as nat < n then [Z(q as nat)] else [])
    case PhaseOp(q) => Some(if q as nat < n then [S(q as nat)] else [])
    case CnotOp(c, t) =>
      if c as nat >= n || c == t then Some([]) else if t as nat < n then Some([Cnot(c as nat, t as nat)]) else None
    case CzOp(a, b) =>
      Some(if a as nat >= n || b as nat >= n then []
           else if a == b then [Z(a as nat)] else [Cz(a as nat, b as nat)])
    case OracleOp(index) => Some(OracleGates(n, index))
    case DiffusionOp => Some(DiffusionGates(n))
    case Other(_, _, _) => None
  }

  function MirrorMeanings(n: nat, ops: seq<Op>): Option<seq<Gate>> {
    if ops == [] then Some([])
    else
      var before, last := MirrorMeanings(n, ops[..|ops| - 1]), MirrorMeaning(n, ops[|ops| - 1]);
      if before.Some? && last.Some? then Some(before.value + last.value) else None
  }

  lemma MirrorMeans(n: nat, op: Op)
    requires Proper(op)
    ensures var t := Triple(op); MirrorOp(n, t[0], t[1] as nat, t[2] as nat) == MirrorMeaning(n, op)
  {
    hide MirrorOp, Triple, MirrorMeaning;
    match op
    case OracleOp(index) => OracleMirrored(n, index);
    case CnotOp(c, t) => PairMirrored(n, c, t);
    case CzOp(a, b) => PairMirrored(n, a, b);
    case Other(opcode, a, b) => OtherMirrored(n, opcode, a, b);
    case _ => SingleMirrored(n, op);
  }

  lemma SingleMirrored(n: nat, op: Op)
    requires !op.OracleOp? && !op.CnotOp? && !op.CzOp? && !op.Other?
    ensures var t := Triple(op); MirrorOp(n, t[0], t[1] as nat, t[2] as nat) == MirrorMeaning(n, op)
  {
    hide Pow2, OracleGates, DiffusionGates, Octet;
  }

  lemma PairMirrored(n: nat, a: byte, b: byte)
    ensures MirrorOp(n, 5, a as nat, b as nat) == MirrorMeaning(n, CnotOp(a, b)) && Triple(CnotOp(a, b)) == [5, a, b]
    ensures MirrorOp(n, 6, a as nat, b as nat) == MirrorMeaning(n, CzOp(a, b)) && Triple(CzOp(a, b)) == [6, a, b]
  {
    hide Pow2, OracleGates, DiffusionGates, Octet;
    CastInjective(a, b);
  }

  lemma OracleMirrored(n: nat, index: u16)
    ensures var t := Triple(OracleOp(index));
            MirrorOp(n, t[0], t[1] as nat, t[2] as nat) == MirrorMeaning(n, OracleOp(index))
  {
    hide Pow2, OracleGates, DiffusionGates, Octet;
    OctetPair(index);
  }

  lemma OtherMirrored(n: nat, opcode: byte, a: byte, b: byte)
    requires opcode == 0 || opcode > 8
    ensures MirrorOp(n, opcode, a as nat, b as nat) == None == MirrorMeaning(n, Other(opcode, a, b))
    ensures Triple(Other(opcode, a, b)) == [opcode, a, b]
  {
    hide Pow2, OracleGates, DiffusionGates, Octet;
  }

  lemma {:induction false} OpsMirrored(n: byte, probe: u16, ops: seq<Op>, more: seq<byte>, i: nat)
    requires |ops| <= 255 && i <= |ops| && forall op | op in ops :: Proper(op)
    ensures MirrorOps(n as nat, Build(n, probe, ops) + more, i) == MirrorMeanings(n as nat, ops[..i])
  {
    hide Triple, Build, MirrorOp, MirrorMeaning, Proper;
    if i > 0 {
      OpsMirrored(n, probe, ops, more, i - 1);
      BuiltAt(n, probe, ops, more, i - 1);
      assert ops[i - 1] in ops;
      MirrorMeans(n as nat, ops[i - 1]);
      assert ops[..i][..i - 1] == ops[..i - 1];
    }
  }

  /** What the mirror reads from the builder's bytes, on any number of qubits and with any probe. */
  lemma BuiltIsMirrored(n: byte, probe: u16, ops: seq<Op>, more: seq<byte>)
    requires |ops| <= 255 && forall op | op in ops :: Proper(op)
    ensures MirrorParse(Build(n, probe, ops) + more)
            == match MirrorMeanings(n as nat, ops)
               case None => None
               case Some(gs) => Some(Circuit(n as nat, probe, gs))
  {
    hide Build, MirrorOps, MirrorParse, MirrorMeanings, Pow2;
    BuiltHeader(n, probe, ops, more);
    OpsMirrored(n, probe, ops, more, |ops|);
    assert ops[..|ops|] == ops;
    MirrorParses(Build(n, probe, ops) + more, n as nat, |ops|, probe);
  }

  lemma MirrorParses(c: seq<byte>, n: nat, count: nat, probe: nat)
    requires |c| >= 8 + 3 * count && c[0] == 1 && c[1] as nat == n && c[2] as nat == count
    requires c[3] as nat + 256 * (c[4] as nat) == probe
    ensures MirrorParse(c)
            == match MirrorOps(n, c, count) case None => None case Some(gs) => Some(Circuit(n, probe, gs))
  {
    hide MirrorOps;
  }

  /** Too short for its header or its operations, or of another version: neither reads it. */
  lemma MalformedIsRefused(c: seq<byte>)
    requires |c| < 8 || c[0] != 1 || |c| < 8 + 3 * (c[2] as nat)
    ensures Parse(c) == None && MirrorParse(c) == None
  {
    hide OpsGates, MirrorOps, Pow2;
  }

  // ---- the record that comes back ----

  /** A 32-bit field, least significant octet first. */
  function Field(v: nat): seq<byte> { [Octet(v), Octet(v / 0x100), Octet(v / 0x1_0000), Octet(v / 0x100_0000)] }

  /** The record of an answer and of a refusal, octet by octet; negative parts in two's complement. */
  lemma RecordLayout(n: nat, h: nat, num: nat, den: nat, re: int32, im: int32)
    ensures Encode(Accepted(n, h, num, den, re, im))
            == [0, Octet(n), Octet(h), Octet(h / 256)] + Field(num) + Field(den) +
               Field(if re < 0 then re as int + 0x1_0000_0000 else re as int) +
               Field(if im < 0 then im as int + 0x1_0000_0000 else im as int)
    ensures Encode(Rejected) == [1] + seq(19, _ => 0)
  {
    hide Le, Octet, Field;
    Le2And4(h);
    assert [0, Octet(n)] + Le(h, 2) == [0, Octet(n), Octet(h), Octet(h / 256)];
    FieldIs(num);
    FieldIs(den);
    FieldIs(U32(re));
    FieldIs(U32(im));
    TwosComplement(re);
    TwosComplement(im);
  }

  lemma FieldIs(v: nat)
    ensures Le(v, 4) == Field(v)
  {
    hide Le, Octet;
    Le2And4(v);
  }

  lemma TwosComplement(x: int32)
    ensures U32(x) == if x < 0 then x as int + 0x1_0000_0000 else x as int
  {
  }
}
