/** The UDP field coupling between nodes: the tick-seeded transmit sequence, the tagged frame, and the
    receiver's per-peer replay watermark. */
module FieldSync {
  import opened Options
  import opened Bytes
  import opened Sha256
  import opened Hmac

  const FSYN_MAGIC: u32 := 0x4E59_5346
  const GHOST_N := 256
  const MAC_COVERED := 264
  const FRAME_LEN := 296
  const KEY_LEN := 32
  const MAX_PEERS: nat := 4
  const PERIOD := 100
  const TAG_K: byte := 75 // 'K'

  // ---- the frame ----

  /** magic, sequence number, phases: what the tag covers. */
  function Covered(seqno: u32, phase: seq<byte>): (r: seq<byte>)
    ensures |r| == 8 + |phase|
  {
    Le(FSYN_MAGIC, 4) + Le(seqno, 4) + phase
  }

  /** A keyed node numbers and tags its frame; an unkeyed node sends number 0 and a zero tag. */
  function Frame(f: Compression, key: Option<seq<byte>>, seqno: u32, phase: seq<byte>): (r: seq<byte>)
    ensures |r| == 40 + |phase|
  {
    match key
    case None => Covered(0, phase) + Zeros(32)
    case Some(k) => Covered(seqno, phase) + Mac(f, k, Covered(seqno, phase))
  }

  function SeqOf(data: seq<byte>): u32
    requires |data| >= FRAME_LEN
  {
    FromLeBound(data[4..8]);
    FieldSizes();
    FromLe(data[4..8])
  }

  predicate IsFsyn(data: seq<byte>) {
    |data| >= FRAME_LEN && FromLe(data[..4]) == FSYN_MAGIC
  }

  predicate Verifies(f: Compression, key: seq<byte>, data: seq<byte>)
    requires |data| >= FRAME_LEN
  {
    Mac(f, key, data[..MAC_COVERED]) == data[MAC_COVERED..FRAME_LEN]
  }

  /** A received frame reads back as it was built, whatever padding follows it. */
  lemma FrameReadsBack(f: Compression, key: Option<seq<byte>>, seqno: u32, phase: seq<byte>, data: seq<byte>)
    requires |phase| == GHOST_N && Frame(f, key, seqno, phase) <= data
    ensures IsFsyn(data) && SeqOf(data) == (if key.Some? then seqno else 0)
    ensures data[8..MAC_COVERED] == phase
    ensures key.Some? ==> Verifies(f, key.value, data)
  {
    hide Le, FromLe, Mac, Zeros;
    var s := if key.Some? then seqno else 0;
    var c := Covered(s, phase);
    assert data[..MAC_COVERED] == Frame(f, key, seqno, phase)[..MAC_COVERED] == c;
    assert data[..4] == c[..4] == Le(FSYN_MAGIC, 4);
    assert data[4..8] == c[4..8] == Le(s, 4);
    assert data[8..MAC_COVERED] == c[8..] == phase;
    FieldSizes();
    LeSmall(FSYN_MAGIC, 4);
    LeSmall(s, 4);
    assert data[MAC_COVERED..FRAME_LEN] == Frame(f, key, seqno, phase)[MAC_COVERED..];
  }

  // ---- one node ----

  datatype Node = Node(key: Option<seq<byte>>, txSeq: u32, lastSend: int, last: seq<u32>, rejects: u32)

  datatype Verdict = Ignored | Forged | Stale | Coupled(phase: seq<byte>)

  function NoWatermarks(n: nat): (w: seq<u32>)
    ensures |w| == n
  {
    seq(n, _ => 0)
  }

  /** (Re)birth: memory cleared, the sequence seeded from the tick counter, which outlives the process. */
  function OnBirth(t0: nat, t1: nat): Node {
    Node(None, t1 % 0x1_0000_0000, t0 - 200, NoWatermarks(MAX_PEERS), 0)
  }

  /** note_key on a message: "K" and 32 bytes installs the key and restarts every watermark. */
  function OnKey(n: Node, got: bool, buf: seq<byte>): Node
    requires |buf| >= 1 + KEY_LEN
  {
    if got && buf[0] == TAG_K then n.(key := Some(buf[1..1 + KEY_LEN]), last := NoWatermarks(|n.last|)) else n
  }

  /** in_peer_set: the first configured peer with this address. */
  function PeerIndex(ips: seq<u32>, ip: u32): (r: Option<nat>)
    ensures r.Some? ==> r.value < |ips| && ips[r.value] == ip && forall i | 0 <= i < r.value :: ips[i] != ip
    ensures r.None? ==> ip !in ips
  {
    if ips == [] then None
    else if ips[0] == ip then Some(0)
    else match PeerIndex(ips[1..], ip) case None => None case Some(i) => Some(i + 1)
  }

  function Bump(rejects: u32): u32 { if rejects == 0xFFFF_FFFF then rejects else rejects + 1 }

  /** One datagram from the socket. */
  function OnFrame(f: Compression, ips: seq<u32>, n: Node, data: seq<byte>, src: u32): (r: (Node, Verdict))
    requires |ips| <= |n.last|
    ensures |r.0.last| == |n.last|
  {
    var p := PeerIndex(ips, src);
    if p.None? || !IsFsyn(data) then (n, Ignored)
    else if n.key.None? then (n, Coupled(data[8..MAC_COVERED]))
    else if !Verifies(f, n.key.value, data) then (n.(rejects := Bump(n.rejects)), Forged)
    else if SeqOf(data) <= n.last[p.value] then (n.(rejects := Bump(n.rejects)), Stale)
    else (n.(last := n.last[p.value := SeqOf(data)]), Coupled(data[8..MAC_COVERED]))
  }

  /** The periodic send: due against the clock read first, stamped with the clock read second. */
  function OnTick(f: Compression, n: Node, t2: nat, t3: nat, snap: Option<seq<byte>>): (Node, Option<seq<byte>>) {
    if t2 - n.lastSend < PERIOD then (n, None)
    else if snap.None? then (n.(lastSend := t3), None)
    else if n.key.None? then (n.(lastSend := t3), Some(Frame(f, None, 0, snap.value)))
    else
      var s := (n.txSeq + 1) % 0x1_0000_0000;
      (n.(lastSend := t3, txSeq := s), Some(Frame(f, n.key, s, snap.value)))
  }

  /** A keyed node never couples a frame of an unkeyed one, even if its zero tag happened to verify. */
  lemma UnkeyedRefused(f: Compression, ips: seq<u32>, n: Node, seqno: u32, phase: seq<byte>, data: seq<byte>, src: u32)
    requires |ips| <= |n.last| && n.key.Some? && |phase| == GHOST_N && Frame(f, None, seqno, phase) <= data
    ensures var (n', v) := OnFrame(f, ips, n, data, src); !v.Coupled? && n'.last == n.last
  {
    hide Frame, Verifies;
    FrameReadsBack(f, None, seqno, phase, data);
  }

  // ---- the process ----

  class Fieldsyncd {
    const f: Compression
    const sessionKey: array<byte>
    const peerLastSeq: array<u32>
    const peerIp: array<u32>
    const peerCount: nat
    var haveKey: bool
    var txSeq: u32
    var lastSend: int
    var rejects: u32

    ghost predicate Valid()
      reads this
    {
      && sessionKey.Length == KEY_LEN && peerLastSeq.Length == peerIp.Length == MAX_PEERS && peerCount <= MAX_PEERS
      && sessionKey as object != peerLastSeq && sessionKey as object != peerIp && peerLastSeq != peerIp
    }

    ghost function View(): Node
      reads this, sessionKey, peerLastSeq
      requires Valid()
    {
      Node(if haveKey then Some(sessionKey[..]) else None, txSeq, lastSend, peerLastSeq[..], rejects)
    }

    /** The start of the process, for at most MAX_PEERS configured addresses. */
    constructor (f: Compression, ips: seq<u32>, t0: nat, t1: nat)
      requires |ips| <= MAX_PEERS
      ensures Valid() && fresh(sessionKey) && fresh(peerLastSeq) && fresh(peerIp)
      ensures this.f == f && View() == OnBirth(t0, t1) && peerIp[..peerCount] == ips
    {
      this.f := f;
      sessionKey := new byte[KEY_LEN](_ => 0);
      peerLastSeq := new u32[MAX_PEERS](_ => 0);
      peerIp := new u32[MAX_PEERS](i => if 0 <= i < |ips| then ips[i] else 0);
      peerCount := |ips|;
      haveKey, rejects := false, 0;
      lastSend := t0 - 200;
      txSeq := t1 % 0x1_0000_0000;
    }

    /** note_key */
    method NoteKey(got: bool, buf: seq<byte>)
      requires Valid() && |buf| >= 1 + KEY_LEN
      modifies this, sessionKey, peerLastSeq
      ensures Valid() && View() == OnKey(old(View()), got, buf)
    {
      if got && buf[0] == TAG_K {
        for i := 0 to KEY_LEN
          modifies sessionKey
          invariant forall j | 0 <= j < i :: sessionKey[j] == buf[1 + j]
        {
          sessionKey[i] := buf[i + 1];
        }
        for i := 0 to MAX_PEERS
          modifies peerLastSeq
          invariant forall j | 0 <= j < i :: peerLastSeq[j] == 0
        {
          peerLastSeq[i] := 0;
        }
        assert sessionKey[..] == buf[1..1 + KEY_LEN];
        haveKey := true;
      }
    }

    /** in_peer_set */
    method InPeerSet(ip: u32) returns (r: Option<nat>)
      requires Valid()
      ensures r == PeerIndex(peerIp[..peerCount], ip)
    {
      for i := 0 to peerCount
        invariant ip !in peerIp[..i]
      {
        if peerIp[i] == ip {
          FirstIs(peerIp[..peerCount], ip, i);
          return Some(i);
        }
      }
      return None;
    }

    /** The body of the drain loop, for one datagram. */
    method ReceiveFrom(data: seq<byte>, src: u32) returns (v: Verdict)
      requires Valid()
      modifies this`rejects, peerLastSeq
      ensures Valid()
      ensures (View(), v) == OnFrame(f, peerIp[..peerCount], old(View()), data, src)
      ensures peerIp[..] == old(peerIp[..])
    {
      hide Mac, FromLe, PeerIndex, SeqOf;
      if |data| < 4 {
        return Ignored;
      }
      var p := InPeerSet(src);
      if p.None? {
        return Ignored;
      }
      if FromLe(data[..4]) != FSYN_MAGIC || |data| < FRAME_LEN {
        return Ignored;
      }
      if haveKey {
        var want := HmacSha256(f, sessionKey[..], data[..MAC_COVERED]);
        var eq := Equal(want, data[MAC_COVERED..FRAME_LEN]);
        if !eq {
          rejects := Bump(rejects);
          return Forged;
        }
        if SeqOf(data) <= peerLastSeq[p.value] {
          rejects := Bump(rejects);
          return Stale;
        }
        peerLastSeq[p.value] := SeqOf(data);
      }
      return Coupled(data[8..MAC_COVERED]);
    }

    /** The periodic send. */
    method Send(t2: nat, t3: nat, snap: Option<seq<byte>>) returns (out: Option<seq<byte>>)
      requires Valid()
      modifies this`txSeq, this`lastSend
      ensures Valid() && (View(), out) == OnTick(f, old(View()), t2, t3, snap)
    {
      hide Mac, Le, Zeros;
      if t2 - lastSend < PERIOD {
        return None;
      }
      lastSend := t3;
      if snap.None? {
        return None;
      }
      if haveKey {
        txSeq := (txSeq + 1) % 0x1_0000_0000;
        var body := Le(FSYN_MAGIC, 4) + Le(txSeq, 4) + snap.value;
        var tag := HmacSha256(f, sessionKey[..], body);
        return Some(body + tag);
      }
      return Some(Le(FSYN_MAGIC, 4) + Le(0, 4) + snap.value + Zeros(32));
    }
  }

  // ---- the octets and the clock ----

  /** A frame octet by octet: "FSYN", the number with its least significant octet first, the phases, and the tag over
      all of these; without a key the number is 0 and the tag is 32 zeros. */
  lemma FrameLayout(f: Compression, k: seq<byte>, seqno: u32, phase: seq<byte>)
    ensures var c := Ascii("FSYN") +
                     [Octet(seqno), Octet(seqno / 0x100), Octet(seqno / 0x1_0000), Octet(seqno / 0x100_0000)] + phase;
            Frame(f, Some(k), seqno, phase) == c + Mac(f, k, c)
    ensures Frame(f, None, seqno, phase) == Ascii("FSYN") + [0, 0, 0, 0] + phase + seq(32, _ => 0)
  {
    hide Le, Octet, Mac, Ascii;
    MagicIs();
    Le2And4(seqno);
    Le2And4(0);
    assert Octet(0) == 0 by { OctetIs(0, 0); }
  }

  lemma MagicIs()
    ensures Le(FSYN_MAGIC, 4) == Ascii("FSYN")
  {
    hide Le, Octet, Ascii;
    Le2And4(FSYN_MAGIC);
    CharIs('F', 0x46);
    CharIs('S', 0x53);
    CharIs('Y', 0x59);
    CharIs('N', 0x4E);
    OctetIs(FSYN_MAGIC, 0x46);
    OctetIs(FSYN_MAGIC / 0x100, 0x53);
    OctetIs(FSYN_MAGIC / 0x1_0000, 0x59);
    OctetIs(FSYN_MAGIC / 0x100_0000, 0x4E);
    AsciiIs("FSYN", [0x46, 0x53, 0x59, 0x4E]);
  }

  /** What becomes of a datagram, on its octets: who may send, which frames are forged, which stale, and that only these
      are counted and only a coupled keyed frame moves a watermark. */
  lemma VerdictsAre(f: Compression, ips: seq<u32>, n: Node, data: seq<byte>, src: u32)
    requires |ips| <= |n.last|
    ensures var (n', v) := OnFrame(f, ips, n, data, src);
            var formed := src in ips && |data| >= 296 && data[..4] == Ascii("FSYN");
            var tagged := formed && n.key.Some? && Mac(f, n.key.value, data[..264]) == data[264..296];
            && (v.Ignored? <==> !formed)
            && (v.Forged? <==> formed && n.key.Some? && !tagged)
            && (v.Stale? ==> tagged && n' == n.(rejects := n'.rejects))
            && (v.Coupled? ==> v.phase == data[8..264] && n' == n.(last := n'.last))
            && (v.Ignored? || n.key.None? ==> n' == n)
            && (v.Forged? || v.Stale? ==> n'.rejects == if n.rejects < 0xFFFF_FFFF then n.rejects + 1 else n.rejects)
            && (tagged ==>
                  var p, number := PeerIndex(ips, src).value, FromLe(data[4..8]);
                  && (v.Stale? <==> number <= n.last[p])
                  && (v.Coupled? ==> n'.last == n.last[p := number]))
  {
    hide Mac, FromLe, Ascii, Le;
    MagicIs();
    if |data| >= 296 { MagicRead(data); }
  }

  lemma MagicRead(data: seq<byte>)
    requires |data| >= 4
    ensures FromLe(data[..4]) == FSYN_MAGIC <==> data[..4] == Le(FSYN_MAGIC, 4)
  {
    hide FromLe, Le;
    LeOfFromLe(data[..4]);
    FieldSizes();
    LeSmall(FSYN_MAGIC, 4);
  }

  /** A node without a key couples every well-formed frame of a configured peer, keyed or not, and keeps its state. */
  lemma UnkeyedCouples(f: Compression, ips: seq<u32>, n: Node, key: Option<seq<byte>>, seqno: u32, phase: seq<byte>,
                       data: seq<byte>, src: u32)
    requires |ips| <= |n.last| && n.key.None? && src in ips
    requires |phase| == 256 && Frame(f, key, seqno, phase) <= data
    ensures OnFrame(f, ips, n, data, src) == (n, Coupled(phase))
  {
    hide Frame, Verifies, SeqOf, IsFsyn;
    FrameReadsBack(f, key, seqno, phase, data);
  }

  /** A newborn node: no key, the number taken from the tick counter, four clear watermarks, nothing rejected. */
  lemma NewbornIs(t0: nat, t1: nat)
    ensures var n := OnBirth(t0, t1);
            n.key == None && n.txSeq == t1 % 0x1_0000_0000 && n.last == [0, 0, 0, 0] && n.rejects == 0
  {
  }

  /** A key message is a "K" and 32 octets. */
  lemma KeyInstalled(n: Node, got: bool, buf: seq<byte>)
    requires |buf| >= 33
    ensures var n', k := OnKey(n, got, buf), 'K' as nat;
            if got && buf[0] as nat == k
            then n'.key == Some(buf[1..33]) && n'.txSeq == n.txSeq && n'.lastSend == n.lastSend &&
                 |n'.last| == |n.last| && forall q | 0 <= q < |n.last| :: n'.last[q] == 0
            else n' == n
  {
  }

  /** The cadence: a node sends on its first tick after birth, and from then on at most once in 100 ticks. */
  lemma Cadence(f: Compression, n: Node, t0: nat, t1: nat, t2: nat, t3: nat, t4: nat, t5: nat, phase: seq<byte>)
    requires t0 <= t1 <= t2 <= t3 <= t4 <= t5
    ensures OnTick(f, OnBirth(t0, t1), t2, t3, Some(phase)).1.Some?
    ensures var (n', out) := OnTick(f, n, t2, t3, Some(phase));
            && (out.Some? <==> t2 >= n.lastSend + 100)
            && (out.Some? ==> (OnTick(f, n', t4, t5, Some(phase)).1.Some? <==> t4 >= t3 + 100))
            && (out.None? ==> n' == n)
  {
    hide Frame;
  }

  lemma {:induction false} FirstIs(ips: seq<u32>, ip: u32, i: nat)
    requires i < |ips| && ips[i] == ip && ip !in ips[..i]
    ensures PeerIndex(ips, ip) == Some(i)
  {
    if i > 0 {
      assert ips[0] == ips[..i][0];
      assert forall j | 0 <= j < i - 1 :: ips[1..][j] == ips[..i][j + 1];
      FirstIs(ips[1..], ip, i - 1);
    }
  }

  // ---- runs ----

  datatype Event =
    | Birth(t0: nat, t1: nat)
    | Key(got: bool, buf: seq<byte>)
    | Arrive(data: seq<byte>, src: u32)
    | Tick(t2: nat, t3: nat, snap: Option<seq<byte>>)

  datatype Sent = Sent(key: seq<byte>, seqno: u32, phase: seq<byte>)

  /** An accepted frame: from which peer, and in which keying of this node. */
  datatype Taken = Taken(epoch: nat, peer: nat, data: seq<byte>)

  /** A node with its history: the latest clock reading, the keyed frames sent, the frames taken under a key. */
  datatype Log = Log(n: Node, now: nat, sent: seq<Sent>, epoch: nat, taken: seq<Taken>)

  predicate WellFormed(e: Event) {
    (e.Key? ==> |e.buf| >= 1 + KEY_LEN) && (e.Tick? && e.snap.Some? ==> |e.snap.value| == GHOST_N)
  }

  function Step(f: Compression, ips: seq<u32>, w: Log, e: Event): (w': Log)
    requires |ips| <= MAX_PEERS == |w.n.last| && WellFormed(e)
    ensures |w'.n.last| == MAX_PEERS
  {
    match e
    case Birth(t0, t1) => w.(n := OnBirth(t0, t1), now := t1, epoch := w.epoch + 1)
    case Key(got, buf) =>
      var n := OnKey(w.n, got, buf);
      w.(n := n, epoch := if got && buf[0] == TAG_K then w.epoch + 1 else w.epoch)
    case Arrive(data, src) =>
      var (n, v) := OnFrame(f, ips, w.n, data, src);
      w.(n := n,
         taken := if v.Coupled? && w.n.key.Some? then w.taken + [Taken(w.epoch, PeerIndex(ips, src).value, data)]
                  else w.taken)
    case Tick(t2, t3, snap) =>
      var (n, out) := OnTick(f, w.n, t2, t3, snap);
      w.(n := n, now := t3,
         sent := if out.Some? && w.n.key.Some? then w.sent + [Sent(w.n.key.value, n.txSeq, snap.value)] else w.sent)
  }

  /** A node born at t0 and run through the events. */
  function Run(f: Compression, ips: seq<u32>, t0: nat, t1: nat, es: seq<Event>): (w: Log)
    requires |ips| <= MAX_PEERS && forall e | e in es :: WellFormed(e)
    ensures |w.n.last| == MAX_PEERS
  {
    if es == [] then Log(OnBirth(t0, t1), t1, [], 0, [])
    else Step(f, ips, Run(f, ips, t0, t1, es[..|es| - 1]), es[|es| - 1])
  }

  // ---- the sender ----

  /** The clock runs forward, never past 2^32 - 2, and a rebirth reads it at least one tick after every earlier
      reading. */
  ghost predicate ClockAt(now: nat, e: Event) {
    match e
    case Birth(t0, t1) => now < t0 <= t1 < 0xFFFF_FFFE
    case Tick(t2, t3, _) => now <= t2 <= t3 < 0xFFFF_FFFE
    case _ => true
  }

  ghost predicate Clocked(f: Compression, ips: seq<u32>, t0: nat, t1: nat, es: seq<Event>)
    requires |ips| <= MAX_PEERS && forall e | e in es :: WellFormed(e)
  {
    if es == [] then t0 <= t1 < 0xFFFF_FFFE
    else
      var es' := es[..|es| - 1];
      Clocked(f, ips, t0, t1, es') && ClockAt(Run(f, ips, t0, t1, es').now, es[|es| - 1])
  }

  ghost predicate Increasing(s: seq<Sent>) {
    (forall i | 0 <= i < |s| :: 1 <= s[i].seqno) && (forall i, j | 0 <= i < j < |s| :: s[i].seqno < s[j].seqno)
  }

  /** The counter is outrun by the clock: it is at most one above the last send, or still at or below the seed. */
  ghost predicate Outrun(w: Log) {
    && w.now < 0xFFFF_FFFE && w.n.lastSend <= w.now
    && (w.n.txSeq <= w.n.lastSend + 1 || w.n.txSeq <= w.now)
    && Increasing(w.sent)
    && (w.sent != [] ==> w.sent[|w.sent| - 1].seqno <= w.n.txSeq)
  }

  lemma StepKeepsOutrun(f: Compression, ips: seq<u32>, w: Log, e: Event)
    requires |ips| <= MAX_PEERS == |w.n.last| && WellFormed(e) && Outrun(w) && ClockAt(w.now, e)
    ensures Outrun(Step(f, ips, w, e))
  {
    hide Frame, Verifies, SeqOf, IsFsyn, PeerIndex;
    if e.Tick? { assert w.n.txSeq + 1 < 0x1_0000_0000; }
  }

  /** Over every run of a node, through any rebirths and rekeyings, the keyed frames it sends carry strictly
      increasing sequence numbers, the first at least 1. */
  lemma {:induction false} TransmitIncreases(f: Compression, ips: seq<u32>, t0: nat, t1: nat, es: seq<Event>)
    requires |ips| <= MAX_PEERS && forall e | e in es :: WellFormed(e)
    requires Clocked(f, ips, t0, t1, es)
    ensures Outrun(Run(f, ips, t0, t1, es))
  {
    if es != [] {
      var es', e := es[..|es| - 1], es[|es| - 1];
      TransmitIncreases(f, ips, t0, t1, es');
      hide Outrun, Increasing, Step;
      StepKeepsOutrun(f, ips, Run(f, ips, t0, t1, es'), e);
    }
  }

  /** Exactly how late a rebirth has to read the clock for its first keyed frame to be numbered above the last. */
  lemma RebirthExact(f: Compression, ips: seq<u32>, w: Log, t0: nat, t1: nat, buf: seq<byte>, t2: nat, t3: nat,
                     phase: seq<byte>)
    requires |ips| <= MAX_PEERS == |w.n.last| && w.sent != [] && |buf| >= 1 + KEY_LEN && buf[0] == TAG_K
    requires t0 <= t1 <= t2 <= t3 < 0xFFFF_FFFE && |phase| == GHOST_N
    ensures var w' := Step(f, ips, Step(f, ips, Step(f, ips, w, Birth(t0, t1)), Key(true, buf)),
              Tick(t2, t3, Some(phase)));
            && |w'.sent| == |w.sent| + 1
            && (w'.sent[|w.sent|].seqno > w.sent[|w.sent| - 1].seqno <==> t1 >= w.sent[|w.sent| - 1].seqno)
  {
    hide Frame;
  }

  // ---- the receiver ----

  /** What the watermarks know: every frame taken in this keying is at or below its peer's watermark, and the
      frames taken from one peer in one keying are numbered strictly upwards. */
  ghost predicate NoRepeat(w: Log) {
    && |w.n.last| == MAX_PEERS
    && (forall i | 0 <= i < |w.taken| ::
          w.taken[i].epoch <= w.epoch && w.taken[i].peer < MAX_PEERS && |w.taken[i].data| >= FRAME_LEN)
    && (forall i | 0 <= i < |w.taken| && w.taken[i].epoch == w.epoch ::
          SeqOf(w.taken[i].data) <= w.n.last[w.taken[i].peer])
    && (forall i, j | 0 <= i < j < |w.taken|
          && w.taken[i].epoch == w.taken[j].epoch && w.taken[i].peer == w.taken[j].peer ::
          SeqOf(w.taken[i].data) < SeqOf(w.taken[j].data))
  }

  lemma StepKeepsNoRepeat(f: Compression, ips: seq<u32>, w: Log, e: Event)
    requires |ips| <= MAX_PEERS == |w.n.last| && WellFormed(e) && NoRepeat(w)
    ensures NoRepeat(Step(f, ips, w, e))
  {
    hide Verifies, SeqOf, Frame;
  }

  lemma {:induction false} NoRepeatAlways(f: Compression, ips: seq<u32>, t0: nat, t1: nat, es: seq<Event>)
    requires |ips| <= MAX_PEERS && forall e | e in es :: WellFormed(e)
    ensures NoRepeat(Run(f, ips, t0, t1, es))
  {
    if es != [] {
      hide Step, NoRepeat;
      NoRepeatAlways(f, ips, t0, t1, es[..|es| - 1]);
      StepKeepsNoRepeat(f, ips, Run(f, ips, t0, t1, es[..|es| - 1]), es[|es| - 1]);
    }
  }

  /** Whatever arrives, between two keyings of a node no frame is taken twice from a peer. */
  lemma NeverTwice(f: Compression, ips: seq<u32>, t0: nat, t1: nat, es: seq<Event>, i: nat, j: nat)
    requires |ips| <= MAX_PEERS && forall e | e in es :: WellFormed(e)
    ensures var taken := Run(f, ips, t0, t1, es).taken;
            i < j < |taken| && taken[i].epoch == taken[j].epoch && taken[i].peer == taken[j].peer ==>
              |taken[i].data| >= FRAME_LEN && |taken[j].data| >= FRAME_LEN
              && SeqOf(taken[i].data) < SeqOf(taken[j].data)
              && taken[i].data[..MAC_COVERED] != taken[j].data[..MAC_COVERED]
  {
    hide SeqOf, Run;
    NoRepeatAlways(f, ips, t0, t1, es);
    var taken := Run(f, ips, t0, t1, es).taken;
    if i < j < |taken| && taken[i].data[..MAC_COVERED] == taken[j].data[..MAC_COVERED] {
      SamePrefixSameSeq(taken[i].data, taken[j].data);
    }
  }

  /** Every frame taken in this keying verified under the key still held and carries a number above 0. */
  ghost predicate TakenUnderKey(f: Compression, w: Log) {
    forall i | 0 <= i < |w.taken| && w.taken[i].epoch == w.epoch ::
      var data := w.taken[i].data;
      w.n.key.Some? && IsFsyn(data) && Verifies(f, w.n.key.value, data) && SeqOf(data) > 0
  }

  lemma {:induction false} TakenUnderKeyAlways(f: Compression, ips: seq<u32>, t0: nat, t1: nat, es: seq<Event>)
    requires |ips| <= MAX_PEERS && forall e | e in es :: WellFormed(e)
    ensures TakenUnderKey(f, Run(f, ips, t0, t1, es))
  {
    if es != [] {
      var es' := es[..|es| - 1];
      TakenUnderKeyAlways(f, ips, t0, t1, es');
      NoRepeatAlways(f, ips, t0, t1, es');
      StepKeepsTakenUnderKey(f, ips, Run(f, ips, t0, t1, es'), es[|es| - 1]);
    }
  }

  lemma StepKeepsTakenUnderKey(f: Compression, ips: seq<u32>, w: Log, e: Event)
    requires |ips| <= MAX_PEERS == |w.n.last| && WellFormed(e) && NoRepeat(w) && TakenUnderKey(f, w)
    ensures TakenUnderKey(f, Step(f, ips, w, e))
  {
    hide Verifies, SeqOf, Frame;
  }

  /** The bound is exact: a frame taken in this keying is stale when it comes again, and is taken a second time
      once the same key has been installed again. */
  lemma TakenAgain(f: Compression, ips: seq<u32>, t0: nat, t1: nat, es: seq<Event>, i: nat, src: u32, buf: seq<byte>)
    requires |ips| <= MAX_PEERS && forall e | e in es :: WellFormed(e)
    requires |buf| >= 1 + KEY_LEN && buf[0] == TAG_K
    ensures var w := Run(f, ips, t0, t1, es);
            i < |w.taken| && w.taken[i].epoch == w.epoch && PeerIndex(ips, src) == Some(w.taken[i].peer)
            && w.n.key == Some(buf[1..1 + KEY_LEN]) ==>
              var data := w.taken[i].data;
              var again := Step(f, ips, w, Arrive(data, src));
              var rekeyed := Step(f, ips, Step(f, ips, w, Key(true, buf)), Arrive(data, src));
              && again.taken == w.taken && again.n.rejects == Bump(w.n.rejects)
              && rekeyed.taken == w.taken + [Taken(w.epoch + 1, w.taken[i].peer, data)]
  {
    hide Verifies, SeqOf, Run;
    NoRepeatAlways(f, ips, t0, t1, es);
    TakenUnderKeyAlways(f, ips, t0, t1, es);
  }

  lemma SamePrefixSameSeq(a: seq<byte>, b: seq<byte>)
    requires |a| >= FRAME_LEN && |b| >= FRAME_LEN && a[..MAC_COVERED] == b[..MAC_COVERED]
    ensures SeqOf(a) == SeqOf(b)
  {
    hide FromLe;
    assert a[4..8] == a[..MAC_COVERED][4..8] == b[4..8];
  }

  datatype Arrival = Arrival(data: seq<byte>, src: u32)

  /** The node after each of a series of arrivals, and what it decided. */
  function Receive(f: Compression, ips: seq<u32>, n: Node, ar: seq<Arrival>): (r: (Node, seq<Verdict>))
    requires |ips| <= |n.last|
    ensures |r.1| == |ar|
    decreases |ar|
  {
    if ar == [] then (n, [])
    else
      var first := OnFrame(f, ips, n, ar[0].data, ar[0].src);
      var rest := Receive(f, ips, first.0, ar[1..]);
      (rest.0, [first.1] + rest.1)
  }

  /** The frame of one keyed send. */
  function Wire(f: Compression, s: Sent): (r: seq<byte>) { Frame(f, Some(s.key), s.seqno, s.phase) }

  /** An honest address and an unforgeable tag: whatever arrives from this peer with a good tag is one of its
      keyed sends, and the pick names which. The wire may drop, repeat, delay, reorder and inject at will. */
  ghost predicate Honest(f: Compression, ips: seq<u32>, peer: nat, key: seq<byte>, sent: seq<Sent>, a: Arrival,
                         pick: Option<nat>) {
    match pick
    case None => PeerIndex(ips, a.src) == Some(peer) ==> !IsFsyn(a.data) || !Verifies(f, key, a.data)
    case Some(m) => PeerIndex(ips, a.src) == Some(peer) && m < |sent| && sent[m].key == key
                    && |sent[m].phase| == GHOST_N && Wire(f, sent[m]) <= a.data
  }

  /** Arrival i is a genuine frame sent after every genuine frame that arrived before it, those below `low` included. */
  ghost predicate Newest(picks: seq<Option<nat>>, i: nat, low: nat)
    requires i < |picks| && picks[i].Some?
  {
    picks[i].value >= low && forall j | 0 <= j < i && picks[j].Some? :: picks[j].value < picks[i].value
  }

  /** The watermark separates the sends below `low` from the later ones. */
  ghost predicate Separates(sent: seq<Sent>, last: u32, low: nat) {
    forall m | 0 <= m < |sent| :: sent[m].seqno <= last <==> m < low
  }

  function Raise(low: nat, pick: Option<nat>): nat {
    if pick.Some? && pick.value >= low then pick.value + 1 else low
  }

  lemma OneArrival(f: Compression, ips: seq<u32>, peer: nat, key: seq<byte>, sent: seq<Sent>, n: Node, a: Arrival,
                   pick: Option<nat>, low: nat)
    requires |ips| <= |n.last| && n.key == Some(key) && peer < |n.last| && Increasing(sent)
    requires Honest(f, ips, peer, key, sent, a, pick) && Separates(sent, n.last[peer], low)
    ensures var (n', v) := OnFrame(f, ips, n, a.data, a.src);
            && n'.key == n.key && |n'.last| == |n.last|
            && (pick.Some? ==>
                  pick.value < |sent| && v == if pick.value >= low then Coupled(sent[pick.value].phase) else Stale)
            && Separates(sent, n'.last[peer], Raise(low, pick))
  {
    hide Verifies, SeqOf, Frame, IsFsyn;
    if pick.Some? {
      var s := sent[pick.value];
      FrameReadsBack(f, Some(s.key), s.seqno, s.phase, a.data);
    }
  }

  lemma NewestTail(picks: seq<Option<nat>>, i: nat, low: nat)
    requires 0 < i < |picks| && picks[i].Some?
    ensures Newest(picks, i, low) <==> Newest(picks[1..], i - 1, Raise(low, picks[0]))
  {
    var p := picks[1..];
    assert p[i - 1] == picks[i];
    assert forall j | 0 <= j < i - 1 :: p[j] == picks[j + 1];
    if Newest(p, i - 1, Raise(low, picks[0])) {
      forall j | 0 <= j < i && picks[j].Some?
        ensures picks[j].value < picks[i].value
      {
        if j > 0 { assert p[j - 1] == picks[j]; }
      }
    }
  }

  /** Each genuine frame is coupled if it was the newest so far, and rejected as stale otherwise. */
  ghost predicate Decided(vs: seq<Verdict>, picks: seq<Option<nat>>, sent: seq<Sent>, low: nat) {
    |vs| == |picks| &&
    forall i | 0 <= i < |vs| && picks[i].Some? ::
      picks[i].value < |sent| && vs[i] == if Newest(picks, i, low) then Coupled(sent[picks[i].value].phase) else Stale
  }

  /** What becomes of an honest peer's keyed frames on any wire: a frame is coupled if it was sent after every one
      that has arrived so far, and rejected as stale otherwise; never as forged. */
  lemma {:induction false} CoupledIffNewest(f: Compression, ips: seq<u32>, peer: nat, key: seq<byte>, sent: seq<Sent>,
                                            n: Node, ar: seq<Arrival>, picks: seq<Option<nat>>, low: nat)
    requires |ips| <= |n.last| && n.key == Some(key) && peer < |n.last| && Increasing(sent)
    requires |picks| == |ar| && Separates(sent, n.last[peer], low)
    requires forall i | 0 <= i < |ar| :: Honest(f, ips, peer, key, sent, ar[i], picks[i])
    ensures Decided(Receive(f, ips, n, ar).1, picks, sent, low)
    decreases |ar|
  {
    hide OnFrame, Honest, Newest, Increasing, Separates, Raise, Decided;
    if ar == [] {
      NothingDecided(picks, sent, low);
    } else {
      assert Honest(f, ips, peer, key, sent, ar[0], picks[0]);
      OneArrival(f, ips, peer, key, sent, n, ar[0], picks[0], low);
      var n' := OnFrame(f, ips, n, ar[0].data, ar[0].src).0;
      CoupledIffNewest(f, ips, peer, key, sent, n', ar[1..], picks[1..], Raise(low, picks[0]));
      FirstDecided(OnFrame(f, ips, n, ar[0].data, ar[0].src).1, Receive(f, ips, n', ar[1..]).1, picks, sent, low);
    }
  }

  lemma NothingDecided(picks: seq<Option<nat>>, sent: seq<Sent>, low: nat)
    requires picks == []
    ensures Decided([], picks, sent, low)
  {
  }

  lemma FirstDecided(first: Verdict, rest: seq<Verdict>, picks: seq<Option<nat>>, sent: seq<Sent>, low: nat)
    requires picks != [] && |rest| == |picks| - 1 && Decided(rest, picks[1..], sent, Raise(low, picks[0]))
    requires picks[0].Some? ==>
               && picks[0].value < |sent|
               && first == if picks[0].value >= low then Coupled(sent[picks[0].value].phase) else Stale
    ensures Decided([first] + rest, picks, sent, low)
  {
    hide Newest, Raise;
    var vs := [first] + rest;
    forall i | 0 <= i < |vs| && picks[i].Some?
      ensures picks[i].value < |sent|
      ensures vs[i] == if Newest(picks, i, low) then Coupled(sent[picks[i].value].phase) else Stale
    {
      if i > 0 {
        assert vs[i] == rest[i - 1] && picks[1..][i - 1] == picks[i];
        NewestTail(picks, i, low);
      } else {
        FirstIsNewest(picks, low);
      }
    }
  }

  lemma FirstIsNewest(picks: seq<Option<nat>>, low: nat)
    requires picks != [] && picks[0].Some?
    ensures Newest(picks, 0, low) <==> picks[0].value >= low
  {
  }

  /** The two halves together: any run of a sender, any freshly keyed receiver, any wire. A genuine frame is coupled
      exactly when it was sent after all genuine frames that arrived before it, so frames that keep their order are
      never rejected, and repeats and latecomers always are. */
  lemma GenuineNeverStale(f: Compression, ips: seq<u32>, t0: nat, t1: nat, es: seq<Event>,
                          ips': seq<u32>, n: Node, buf: seq<byte>, peer: nat, ar: seq<Arrival>, picks: seq<Option<nat>>)
    requires |ips| <= MAX_PEERS && (forall e | e in es :: WellFormed(e)) && Clocked(f, ips, t0, t1, es)
    requires |ips'| <= |n.last| && peer < |n.last| && |buf| >= 1 + KEY_LEN && buf[0] == TAG_K && |picks| == |ar|
    requires forall i | 0 <= i < |ar| ::
               Honest(f, ips', peer, buf[1..1 + KEY_LEN], Run(f, ips, t0, t1, es).sent, ar[i], picks[i])
    ensures var sent := Run(f, ips, t0, t1, es).sent;
            var vs := Receive(f, ips', OnKey(n, true, buf), ar).1;
            Decided(vs, picks, sent, 0)
  {
    hide Run, Receive, Clocked, Honest, Newest;
    TransmitIncreases(f, ips, t0, t1, es);
    CoupledIffNewest(f, ips', peer, buf[1..1 + KEY_LEN], Run(f, ips, t0, t1, es).sent, OnKey(n, true, buf), ar,
      picks, 0);
  }

  /** In particular, whatever replays are mixed in: a frame that overtakes nothing is coupled, and the second copy
      of a frame is stale. */
  lemma InOrderTaken(f: Compression, ips: seq<u32>, peer: nat, key: seq<byte>, sent: seq<Sent>, n: Node,
                     ar: seq<Arrival>, picks: seq<Option<nat>>, i: nat)
    requires |ips| <= |n.last| && n.key == Some(key) && peer < |n.last| && Increasing(sent)
    requires |picks| == |ar| && Separates(sent, n.last[peer], 0) && i < |ar| && picks[i].Some?
    requires forall k | 0 <= k < |ar| :: Honest(f, ips, peer, key, sent, ar[k], picks[k])
    ensures var v := Receive(f, ips, n, ar).1[i];
            && ((forall j | 0 <= j < i && picks[j].Some? :: picks[j].value < picks[i].value) ==> v.Coupled?)
            && ((exists j :: 0 <= j < i && picks[j] == picks[i]) ==> v == Stale)
  {
    hide Receive, Honest;
    CoupledIffNewest(f, ips, peer, key, sent, n, ar, picks, 0);
  }

  /** Within one tick the promise fails: born, keyed and sending, reborn, keyed and sending in the same tick
      repeats a number, and the receiver rejects the second genuine frame as stale. */
  lemma SameTickRebirth(f: Compression, t: nat, buf: seq<byte>, phase: seq<byte>, phase': seq<byte>)
    requires t < 0xFFFF_FFFE && |buf| == 1 + KEY_LEN && buf[0] == TAG_K && |phase| == |phase'| == GHOST_N
    ensures var es := [Key(true, buf), Tick(t, t, Some(phase)), Birth(t, t), Key(true, buf), Tick(t, t, Some(phase'))];
            var sent := Run(f, [7], t, t, es).sent;
            && |sent| == 2 && sent[0].seqno == sent[1].seqno == t + 1
            && var n := OnKey(OnBirth(t, t), true, buf);
               Receive(f, [7], n, [Arrival(Wire(f, sent[0]), 7), Arrival(Wire(f, sent[1]), 7)]).1
                 == [Coupled(phase), Stale]
  {
    hide Frame, Verifies, SeqOf, IsFsyn, Step, Run, Receive;
    var k := buf[1..1 + KEY_LEN];
    SameTickRun(f, t, buf, phase, phase');
    FrameReadsBack(f, Some(k), t + 1, phase, Wire(f, Sent(k, t + 1, phase)));
    FrameReadsBack(f, Some(k), t + 1, phase', Wire(f, Sent(k, t + 1, phase')));
    SecondIsStale(f, OnKey(OnBirth(t, t), true, buf), k, t + 1,
      Wire(f, Sent(k, t + 1, phase)), Wire(f, Sent(k, t + 1, phase')));
  }

  lemma SameTickRun(f: Compression, t: nat, buf: seq<byte>, phase: seq<byte>, phase': seq<byte>)
    requires t < 0xFFFF_FFFE && |buf| == 1 + KEY_LEN && buf[0] == TAG_K && |phase| == |phase'| == GHOST_N
    ensures var es := [Key(true, buf), Tick(t, t, Some(phase)), Birth(t, t), Key(true, buf), Tick(t, t, Some(phase'))];
            Run(f, [7], t, t, es).sent ==
            [Sent(buf[1..1 + KEY_LEN], t + 1, phase), Sent(buf[1..1 + KEY_LEN], t + 1, phase')]
  {
    hide Frame, Verifies, SeqOf, IsFsyn;
    var e := [Key(true, buf), Tick(t, t, Some(phase)), Birth(t, t), Key(true, buf), Tick(t, t, Some(phase'))];
    var w1 := Step(f, [7], Run(f, [7], t, t, []), e[0]);
    var w2 := Step(f, [7], w1, e[1]);
    assert w2.sent == [Sent(buf[1..1 + KEY_LEN], t + 1, phase)];
    var w4 := Step(f, [7], Step(f, [7], w2, e[2]), e[3]);
    assert w4.n.txSeq == t && w4.sent == w2.sent && w4.n.key == Some(buf[1..1 + KEY_LEN]);
    var w5 := Step(f, [7], w4, e[4]);
    assert w5.sent == w2.sent + [Sent(buf[1..1 + KEY_LEN], t + 1, phase')];
    assert w5 == Run(f, [7], t, t, e) by {
      assert e[..5] == e && e[..4][..3] == e[..3] && e[..3][..2] == e[..2] && e[..2][..1] == e[..1]
        && e[..1][..0] == [];
      hide Step;
      assert Run(f, [7], t, t, e[..1]) == w1;
      assert Run(f, [7], t, t, e[..2]) == w2;
      assert Run(f, [7], t, t, e[..4]) == w4;
    }
  }

  lemma SecondIsStale(f: Compression, n: Node, key: seq<byte>, seqno: u32, a: seq<byte>, b: seq<byte>)
    requires n.key == Some(key) && n.last == NoWatermarks(MAX_PEERS) && seqno > 0
    requires IsFsyn(a) && IsFsyn(b) && Verifies(f, key, a) && Verifies(f, key, b) && SeqOf(a) == SeqOf(b) == seqno
    ensures Receive(f, [7], n, [Arrival(a, 7), Arrival(b, 7)]).1 == [Coupled(a[8..MAC_COVERED]), Stale]
  {
    hide Verifies, SeqOf, IsFsyn;
    assert PeerIndex([7], 7) == Some(0);
    var n' := OnFrame(f, [7], n, a, 7).0;
    assert [Arrival(a, 7), Arrival(b, 7)][1..] == [Arrival(b, 7)];
    assert Receive(f, [7], n', [Arrival(b, 7)]).1 == [Stale] by { assert [Arrival(b, 7)][1..] == []; }
  }
}
