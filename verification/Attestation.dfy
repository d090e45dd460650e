/** The signed boot attestation: emitted by the guest as frames, reassembled and judged by the host. */
module Attestation {
  import opened Options
  import opened Bytes
  import opened Sha256
  import opened Hmac
  import opened Framing
  import opened GuestWire
  import opened Numerals
  import opened Lamport

  const FRAME_HANDSHAKE: byte := 0x01
  const FRAME_PKDIGEST: byte := 0x10
  const FRAME_ATTEST: byte := 0x11
  const FRAME_SIG: byte := 0x12

  const BAR: byte := 124                                                  // '|'
  const QOS_BOOT: seq<byte> := [81, 79, 83, 45, 66, 79, 79, 84]           // "QOS-BOOT"
  const QSEED_KEY: seq<byte> := [113, 115, 101, 101, 100, 61]             // "qseed="
  const TICKS_KEY: seq<byte> := [116, 105, 99, 107, 115, 61]              // "ticks="
  const NONE_WORD: seq<byte> := [110, 111, 110, 101]                      // "none"
  const HELLO: seq<byte> := [81, 79, 83, 45, 83, 87, 65, 82, 77, 47, 49]  // "QOS-SWARM/1"

  // ---- the attestation string ----

  function SeedText(qseed: Option<u64>): seq<byte> {
    match qseed
    case None => NONE_WORD
    case Some(v) => Digits(v, 16, true)
  }

  /** "QOS-BOOT|qseed=<hex|none>|ticks=<n>"; the tick count is cast to unsigned. */
  function Message(qseed: Option<u64>, ticks: u64): seq<byte> {
    QOS_BOOT + [BAR] + (QSEED_KEY + SeedText(qseed)) + [BAR] + (TICKS_KEY + Digits(ticks % 0x1_0000_0000, 10, false))
  }

  method BuildAttestation(qseed: Option<u64>, ticks: u64) returns (msg: seq<byte>)
    ensures msg == Message(qseed, ticks)
  {
    hide Digits;
    msg := QOS_BOOT + [BAR] + QSEED_KEY;
    match qseed {
      case Some(v) => msg := Put(msg, v, 16, true);
      case None => msg := msg + NONE_WORD;
    }
    msg := msg + [BAR] + TICKS_KEY;
    msg := Put(msg, ticks % 0x1_0000_0000, 10, false);
    assert msg == (QOS_BOOT + [BAR] + QSEED_KEY) + SeedText(qseed) + [BAR] + TICKS_KEY +
      Digits(ticks % 0x1_0000_0000, 10, false);
    Reassociate(QOS_BOOT + [BAR], QSEED_KEY, SeedText(qseed), [BAR], TICKS_KEY,
      Digits(ticks % 0x1_0000_0000, 10, false));
  }

  lemma Reassociate(a: seq<byte>, b: seq<byte>, c: seq<byte>, d: seq<byte>, e: seq<byte>, g: seq<byte>)
    ensures (a + b) + c + d + e + g == a + (b + c) + d + (e + g)
  {
  }

  /** str.split on the bar. */
  function Split(s: seq<byte>): (r: seq<seq<byte>>)
    ensures r != []
  {
    if s == [] then [[]]
    else
      var r := Split(s[1..]);
      if s[0] == BAR then [[]] + r else [[s[0]] + r[0]] + r[1..]
  }

  lemma {:induction false} SplitNoBar(a: seq<byte>)
    requires BAR !in a
    ensures Split(a) == [a]
  {
    if a != [] {
      SplitNoBar(a[1..]);
      assert [a[0]] + a[1..] == a;
    }
  }

  lemma {:induction false} SplitAtBar(a: seq<byte>, rest: seq<byte>)
    requires BAR !in a
    ensures Split(a + [BAR] + rest) == [a] + Split(rest)
  {
    var s := a + [BAR] + rest;
    if a == [] {
      assert s[1..] == rest;
    } else {
      SplitAtBar(a[1..], rest);
      assert s[1..] == a[1..] + [BAR] + rest;
      assert [a[0]] + a[1..] == a;
      assert ([a[1..]] + Split(rest))[1..] == Split(rest);
    }
  }

  /** parse_attestation; None where it raises. */
  function ParseAttestation(msg: seq<byte>): Option<(Option<nat>, nat)> {
    var p := Split(msg);
    if |p| != 3 || p[0] != QOS_BOOT then None
    else if !(QSEED_KEY <= p[1]) || !(TICKS_KEY <= p[2]) then None
    else
      var q, t := p[1][|QSEED_KEY|..], p[2][|TICKS_KEY|..];
      var ticks := ParseInt(t, 10);
      if ticks.None? then None
      else if q == NONE_WORD then Some((None, ticks.value))
      else
        var seed := ParseInt(q, 16);
        if seed.None? then None else Some((Some(seed.value), ticks.value))
  }

  lemma NoBarInDigits(v: nat, base: nat, upper: bool)
    requires 2 <= base <= 16
    ensures BAR !in Digits(v, base, upper) && Digits(v, base, upper) != NONE_WORD
  {
    DigitsAreDigits(v, base, upper);
    assert DigitVal(BAR).None? && DigitVal(NONE_WORD[0]).None?;
  }

  /** The host reads back the seed, and the ticks modulo 2^32. */
  lemma MessageParses(qseed: Option<u64>, ticks: u64)
    ensures ParseAttestation(Message(qseed, ticks)) ==
            Some((match qseed case None => None case Some(v) => Some(v as nat), ticks % 0x1_0000_0000))
  {
    hide Digits, Split, ParseInt;
    var a, b := QSEED_KEY + SeedText(qseed), TICKS_KEY + Digits(ticks % 0x1_0000_0000, 10, false);
    NoBarInDigits(ticks % 0x1_0000_0000, 10, false);
    if qseed.Some? { NoBarInDigits(qseed.value, 16, true); }
    NoBarInWords();
    SplitAtBar(QOS_BOOT, a + [BAR] + b);
    SplitAtBar(a, b);
    SplitNoBar(b);
    assert Message(qseed, ticks) == QOS_BOOT + [BAR] + (a + [BAR] + b);
    assert Split(Message(qseed, ticks)) == [QOS_BOOT] + ([a] + [b]) == [QOS_BOOT, a, b];
    assert a[|QSEED_KEY|..] == SeedText(qseed) && b[|TICKS_KEY|..] == Digits(ticks % 0x1_0000_0000, 10, false);
    DigitsRoundTrip(ticks % 0x1_0000_0000, 10, false);
    if qseed.Some? { DigitsRoundTrip(qseed.value, 16, true); }
  }

  lemma NoBarInWords()
    ensures BAR !in QOS_BOOT && BAR !in QSEED_KEY && BAR !in TICKS_KEY && BAR !in NONE_WORD
  {
  }

  // ---- the guest's emission ----

  function SigFrames(sig: seq<byte>, n: nat): (r: seq<Frame>)
    requires MAX_PAYLOAD * n <= |sig|
    ensures |r| == n && forall i | 0 <= i < n :: r[i].kind == FRAME_SIG && |r[i].payload| == MAX_PAYLOAD
  {
    if n == 0 then [] else SigFrames(sig, n - 1) + [Frame(FRAME_SIG, sig[MAX_PAYLOAD * (n - 1)..MAX_PAYLOAD * n])]
  }

  /** Handshake, key digest, attestation string, and the signature in 32 chunks. */
  function BootFrames(f: Compression, seed: seq<byte>, qseed: Option<u64>, ticks: u64): seq<Frame> {
    var msg := Message(qseed, ticks);
    [Frame(FRAME_HANDSHAKE, HELLO),
     Frame(FRAME_PKDIGEST, Digest(f, PkStream(f, seed, BITS))),
     Frame(FRAME_ATTEST, msg)] +
    SigFrames(Signature(f, seed, Digest(f, msg), BITS), 32)
  }

  lemma {:induction false} StreamSnoc(frs: seq<Frame>, fr: Frame)
    ensures Stream(frs + [fr]) == Stream(frs) + Build(fr)
  {
    hide Build;
    if frs == [] {
      assert [fr][1..] == [];
      assert Build(fr) + [] == [] + Build(fr);
    } else {
      StreamSnoc(frs[1..], fr);
      assert (frs + [fr])[1..] == frs[1..] + [fr];
    }
  }

  /** emit_signature: eight elements to a 512-byte chunk, a frame per full chunk. */
  method EmitSignature(f: Compression, seed: seq<byte>, md: seq<byte>, framebuf: array<byte>) returns (wire: seq<byte>)
    requires |md| == HASH_LEN && framebuf.Length == RX_SIZE
    modifies framebuf
    ensures wire == Stream(SigFrames(Signature(f, seed, md, BITS), 32))
  {
    hide Signature, Element, Stream, Build, SigFrames;
    ghost var sig := Signature(f, seed, md, BITS);
    var chunk := new byte[MAX_PAYLOAD];
    wire := [];
    EmptyStream(sig);
    for k := 0 to 32
      invariant wire == Stream(SigFrames(sig, k))
    {
      FillChunk(f, seed, md, k, chunk);
      var len := EmitFrame(framebuf, FRAME_SIG, chunk[..]);
      assert chunk[..] == chunk[..MAX_PAYLOAD] == sig[MAX_PAYLOAD * k..MAX_PAYLOAD * (k + 1)];
      SigFramesNext(sig, k);
      StreamSnoc(SigFrames(sig, k), Frame(FRAME_SIG, sig[MAX_PAYLOAD * k..MAX_PAYLOAD * (k + 1)]));
      wire := wire + framebuf[..len];
    }
  }

  lemma EmptyStream(sig: seq<byte>)
    ensures Stream(SigFrames(sig, 0)) == []
  {
  }

  lemma SigFramesNext(sig: seq<byte>, k: nat)
    requires MAX_PAYLOAD * (k + 1) <= |sig|
    ensures SigFrames(sig, k + 1) == SigFrames(sig, k) + [Frame(FRAME_SIG, sig[MAX_PAYLOAD * k..MAX_PAYLOAD * (k + 1)])]
  {
  }

  /** The eight elements of chunk k. */
  method FillChunk(f: Compression, seed: seq<byte>, md: seq<byte>, k: nat, chunk: array<byte>)
    requires |md| == HASH_LEN && k < 32 && chunk.Length == MAX_PAYLOAD
    modifies chunk
    ensures chunk[..] == Signature(f, seed, md, BITS)[MAX_PAYLOAD * k..MAX_PAYLOAD * (k + 1)]
  {
    hide Signature, Element, Sk, Pk, Digest;
    ghost var sig := Signature(f, seed, md, BITS);
    for e := 0 to 8
      invariant chunk[..SIG_ELEM * e] == sig[MAX_PAYLOAD * k..MAX_PAYLOAD * k + SIG_ELEM * e]
    {
      var i := 8 * k + e;
      var bit := BitOf(md, i);
      var sk := ExpandSk(f, seed, i, bit);
      var sko := ExpandSk(f, seed, i, !bit);
      var pko := Sha256Of(f, sko);
      CopyBytes(chunk, SIG_ELEM * e, sk);
      CopyBytes(chunk, SIG_ELEM * e + HASH_LEN, pko);
      SignatureAt(f, seed, md, BITS, i);
      ElementIs(f, seed, md, i, sk, sko, pko);
      SliceGrows(sig, MAX_PAYLOAD * k, MAX_PAYLOAD * k + SIG_ELEM * e, MAX_PAYLOAD * k + SIG_ELEM * (e + 1));
    }
    assert chunk[..] == chunk[..SIG_ELEM * 8];
  }

  lemma SliceGrows(s: seq<byte>, a: nat, b: nat, c: nat)
    requires a <= b <= c <= |s|
    ensures s[a..c] == s[a..b] + s[b..c]
  {
  }

  lemma ElementIs(f: Compression, seed: seq<byte>, md: seq<byte>, i: nat, sk: seq<byte>, sko: seq<byte>, pko: seq<byte>)
    requires |md| == HASH_LEN && i < BITS
    requires sk == Sk(f, seed, i, BitOf(md, i)) && sko == Sk(f, seed, i, !BitOf(md, i)) && pko == Digest(f, sko)
    ensures Element(f, seed, md, i) == sk + pko
  {
  }

  /** emit_boot_attestation: the byte stream is the frames of BootFrames, in order. */
  method EmitBootAttestation(f: Compression, seed: seq<byte>, qseed: Option<u64>, ticks: u64, framebuf: array<byte>)
    returns (wire: seq<byte>)
    requires framebuf.Length == RX_SIZE
    modifies framebuf
    ensures wire == Stream(BootFrames(f, seed, qseed, ticks))
  {
    hide Digest, PkStream, Signature, SigFrames, Message, Build, Stream;
    var msg := BuildAttestation(qseed, ticks);
    MessageFits(qseed, ticks);
    var len := EmitFrame(framebuf, FRAME_HANDSHAKE, HELLO);
    wire := framebuf[..len];
    var pk := ComputePubkeyDigest(f, seed);
    len := EmitFrame(framebuf, FRAME_PKDIGEST, pk);
    wire := wire + framebuf[..len];
    len := EmitFrame(framebuf, FRAME_ATTEST, msg);
    wire := wire + framebuf[..len];
    var md := Sha256Of(f, msg);
    var sig := EmitSignature(f, seed, md, framebuf);
    ThreeThen(Frame(FRAME_HANDSHAKE, HELLO), Frame(FRAME_PKDIGEST, pk), Frame(FRAME_ATTEST, msg),
              SigFrames(Signature(f, seed, md, BITS), 32));
    wire := wire + sig;
  }

  lemma ThreeThen(a: Frame, b: Frame, c: Frame, rest: seq<Frame>)
    ensures Stream([a, b, c] + rest) == Build(a) + Build(b) + Build(c) + Stream(rest)
  {
    hide Build, Stream;
    StreamHead(c, rest);
    StreamHead(b, [c] + rest);
    StreamHead(a, [b] + ([c] + rest));
    assert [a, b, c] + rest == [a] + ([b] + ([c] + rest));
    Leftward(Build(a), Build(b), Build(c), Stream(rest));
  }

  lemma StreamHead(fr: Frame, rest: seq<Frame>)
    ensures Stream([fr] + rest) == Build(fr) + Stream(rest)
  {
    hide Build;
    assert ([fr] + rest)[1..] == rest;
  }

  lemma Leftward(a: seq<byte>, b: seq<byte>, c: seq<byte>, d: seq<byte>)
    ensures a + (b + (c + d)) == a + b + c + d
  {
  }

  // ---- the host's judgement ----

  datatype Verdict = Verified(qseed: Option<nat>, ticks: nat, pkDigest: seq<byte>) | Refused

  function LastOf(frs: seq<Frame>, kind: byte): Option<seq<byte>> {
    if frs == [] then None
    else if frs[|frs| - 1].kind == kind then Some(frs[|frs| - 1].payload)
    else LastOf(frs[..|frs| - 1], kind)
  }

  function AllOf(frs: seq<Frame>, kind: byte): seq<byte> {
    if frs == [] then []
    else AllOf(frs[..|frs| - 1], kind) + if frs[|frs| - 1].kind == kind then frs[|frs| - 1].payload else []
  }

  function Judge(f: Compression, frs: seq<Frame>, badCrc: nat, want: Option<nat>): Verdict {
    var pk, msg, sig := LastOf(frs, FRAME_PKDIGEST), LastOf(frs, FRAME_ATTEST), AllOf(frs, FRAME_SIG);
    if badCrc > 0 || pk.None? || msg.None? || sig == [] then Refused
    else
      var p := ParseAttestation(msg.value);
      if p.None? || !Verifies(f, msg.value, pk.value, sig) || p.value.0 != want then Refused
      else Verified(p.value.0, p.value.1, pk.value)
  }

  /** attestation_from_bytes */
  function FromBytes(f: Compression, blob: seq<byte>, want: Option<nat>): Verdict {
    Judge(f, Drain(blob).frames, Drain(blob).badCrc, want)
  }

  lemma {:induction false} SigFramesJoin(sig: seq<byte>, n: nat, head: seq<Frame>)
    requires MAX_PAYLOAD * n <= |sig| && forall i | 0 <= i < |head| :: head[i].kind != FRAME_SIG
    ensures AllOf(head + SigFrames(sig, n), FRAME_SIG) == sig[..MAX_PAYLOAD * n]
    ensures LastOf(head + SigFrames(sig, n), FRAME_PKDIGEST) == LastOf(head, FRAME_PKDIGEST)
    ensures LastOf(head + SigFrames(sig, n), FRAME_ATTEST) == LastOf(head, FRAME_ATTEST)
    decreases n
  {
    hide AllOf, LastOf;
    if n == 0 {
      assert head + [] == head;
      NoSigInHead(head);
    } else {
      var a := head + SigFrames(sig, n);
      SigFramesJoin(sig, n - 1, head);
      assert a[..|a| - 1] == head + SigFrames(sig, n - 1);
      assert a[|a| - 1] == Frame(FRAME_SIG, sig[MAX_PAYLOAD * (n - 1)..MAX_PAYLOAD * n]);
      FieldsSnoc(a, FRAME_SIG);
      FieldsSnoc(a, FRAME_PKDIGEST);
      FieldsSnoc(a, FRAME_ATTEST);
      assert sig[..MAX_PAYLOAD * n] == sig[..MAX_PAYLOAD * (n - 1)] + sig[MAX_PAYLOAD * (n - 1)..MAX_PAYLOAD * n];
    }
  }

  lemma {:induction false} NoSigInHead(head: seq<Frame>)
    requires forall i | 0 <= i < |head| :: head[i].kind != FRAME_SIG
    ensures AllOf(head, FRAME_SIG) == []
  {
    if head != [] { NoSigInHead(head[..|head| - 1]); }
  }

  lemma HeadFields(pk: seq<byte>, msg: seq<byte>)
    ensures var head := [Frame(FRAME_HANDSHAKE, HELLO), Frame(FRAME_PKDIGEST, pk), Frame(FRAME_ATTEST, msg)];
            LastOf(head, FRAME_PKDIGEST) == Some(pk) && LastOf(head, FRAME_ATTEST) == Some(msg)
  {
    var head := [Frame(FRAME_HANDSHAKE, HELLO), Frame(FRAME_PKDIGEST, pk), Frame(FRAME_ATTEST, msg)];
    assert head[..2] == [Frame(FRAME_HANDSHAKE, HELLO), Frame(FRAME_PKDIGEST, pk)];
  }

  /** The frames of an honest boot pass the host's judgement against the seed they attest. */
  lemma BootFramesJudged(f: Compression, seed: seq<byte>, qseed: Option<u64>, ticks: u64)
    ensures Judge(f, BootFrames(f, seed, qseed, ticks), 0, WantOf(qseed)) ==
            Verified(WantOf(qseed), ticks % 0x1_0000_0000, Digest(f, PkStream(f, seed, BITS)))
  {
    hide Digest, PkStream, Signature, SigFrames, Message, ParseAttestation, LastOf, AllOf, Verifies;
    var msg := Message(qseed, ticks);
    var pk, sig := Digest(f, PkStream(f, seed, BITS)), Signature(f, seed, Digest(f, msg), BITS);
    var head := [Frame(FRAME_HANDSHAKE, HELLO), Frame(FRAME_PKDIGEST, pk), Frame(FRAME_ATTEST, msg)];
    HeadFields(pk, msg);
    SigFramesJoin(sig, 32, head);
    assert sig[..MAX_PAYLOAD * 32] == sig;
    MessageParses(qseed, ticks);
    SignedVerifies(f, seed, msg);
  }

  function WantOf(qseed: Option<u64>): Option<nat> {
    match qseed
    case None => None
    case Some(v) => Some(v)
  }

  lemma MessageFits(qseed: Option<u64>, ticks: u64)
    ensures |Message(qseed, ticks)| <= MAX_PAYLOAD
  {
    hide Digits;
    assert Power(16, 8) == 0x1_0000_0000;
    assert Power(16, 12) == 0x1_0000_0000_0000;
    assert Power(16, 16) == 0x1_0000_0000_0000_0000;
    assert Power(10, 10) == 10000000000;
    DigitsShort(ticks % 0x1_0000_0000, 10, false, 10);
    if qseed.Some? { DigitsShort(qseed.value, 16, true, 16); }
  }

  /** For every seed, tick count and quantum seed, the emitted byte stream is accepted, with ticks modulo 2^32. */
  lemma AttestationAccepted(f: Compression, seed: seq<byte>, qseed: Option<u64>, ticks: u64)
    ensures FromBytes(f, Stream(BootFrames(f, seed, qseed, ticks)), WantOf(qseed)) ==
            Verified(WantOf(qseed), ticks % 0x1_0000_0000, Digest(f, PkStream(f, seed, BITS)))
  {
    hide Digest, PkStream, Signature, SigFrames, Message, Judge, Drain, Stream;
    var frs := BootFrames(f, seed, qseed, ticks);
    MessageFits(qseed, ticks);
    StreamRoundTrip([], frs, []);
    assert [] + (Stream(frs) + []) == Stream(frs);
    EmptyDrain();
    assert frs + [] == frs;
    BootFramesJudged(f, seed, qseed, ticks);
  }

  // ---- reading it off the wire ----

  predicate Complete(frs: seq<Frame>) {
    LastOf(frs, FRAME_PKDIGEST).Some? && LastOf(frs, FRAME_ATTEST).Some? && |AllOf(frs, FRAME_SIG)| >= SIG_LEN
  }

  lemma {:induction false} FieldsConcat(a: seq<Frame>, b: seq<Frame>, kind: byte)
    ensures LastOf(a + b, kind) == if LastOf(b, kind).Some? then LastOf(b, kind) else LastOf(a, kind)
    ensures AllOf(a + b, kind) == AllOf(a, kind) + AllOf(b, kind)
  {
    hide LastOf, AllOf;
    FieldsEmpty(kind);
    if b == [] {
      assert a + b == a;
    } else {
      var c := a + b;
      FieldsConcat(a, b[..|b| - 1], kind);
      assert c[..|c| - 1] == a + b[..|b| - 1] && c[|c| - 1] == b[|b| - 1];
      FieldsSnoc(c, kind);
      FieldsSnoc(b, kind);
      assert AllOf(a, kind) + (AllOf(b[..|b| - 1], kind) + (if b[|b| - 1].kind == kind then b[|b| - 1].payload else []))
          == AllOf(a, kind) + AllOf(b[..|b| - 1], kind) + (if b[|b| - 1].kind == kind then b[|b| - 1].payload else []);
    }
  }

  lemma FieldsEmpty(kind: byte)
    ensures LastOf([], kind) == None && AllOf([], kind) == []
  {
  }

  lemma FieldsSnoc(frs: seq<Frame>, kind: byte)
    requires frs != []
    ensures var fr, front := frs[|frs| - 1], frs[..|frs| - 1];
            && LastOf(frs, kind) == (if fr.kind == kind then Some(fr.payload) else LastOf(front, kind))
            && AllOf(frs, kind) == AllOf(front, kind) + if fr.kind == kind then fr.payload else []
  {
  }

  /** All three parts have arrived in the first k chunks. */
  predicate CompleteAt(chunks: seq<seq<byte>>, k: nat)
    requires k <= |chunks|
  {
    Complete(Drain(Concat(chunks[..k])).frames)
  }

  /** Reading stops with the first chunk that completes the three parts, or when the chunks run out. */
  predicate StopsAt(chunks: seq<seq<byte>>, used: nat) {
    && used <= |chunks|
    && (used < |chunks| ==> CompleteAt(chunks, used))
    && forall k | 0 <= k < used :: !CompleteAt(chunks, k)
  }

  type Read = Option<seq<byte>>

  /** What the reads deliver before the deadline: None is a read that timed out, an empty one the end of the stream. */
  function Heard(inbox: seq<Read>): seq<seq<byte>> {
    if inbox == [] then []
    else if inbox[0].None? then Heard(inbox[1..])
    else if inbox[0].value == [] then []
    else [inbox[0].value] + Heard(inbox[1..])
  }

  /** After i reads: got chunks have come, raw is their concatenation, and none of the shorter prefixes completed the
      three parts. */
  ghost predicate Progress(chunks: seq<seq<byte>>, inbox: seq<Read>, i: nat, got: nat, raw: seq<byte>) {
    && i <= |inbox| && got <= |chunks| && raw == Concat(chunks[..got])
    && chunks == chunks[..got] + Heard(inbox[i..])
    && forall k | 0 <= k < got :: !CompleteAt(chunks, k)
  }

  lemma ProgressStart(inbox: seq<Read>)
    ensures Progress(Heard(inbox), inbox, 0, 0, [])
  {
    assert inbox[0..] == inbox;
  }

  lemma ProgressIdle(chunks: seq<seq<byte>>, inbox: seq<Read>, i: nat, got: nat, raw: seq<byte>)
    requires Progress(chunks, inbox, i, got, raw) && i < |inbox| && inbox[i].None?
    ensures Progress(chunks, inbox, i + 1, got, raw)
  {
    hide Drain, CompleteAt;
    assert inbox[i..][1..] == inbox[i + 1..];
  }

  lemma ProgressChunk(chunks: seq<seq<byte>>, inbox: seq<Read>, i: nat, got: nat, raw: seq<byte>)
    requires Progress(chunks, inbox, i, got, raw) && i < |inbox| && inbox[i].Some? && inbox[i].value != []
    requires got < |chunks| ==> !CompleteAt(chunks, got)
    ensures Progress(chunks, inbox, i + 1, got + 1, raw + inbox[i].value)
  {
    hide Drain, CompleteAt;
    var chunk := inbox[i].value;
    assert inbox[i..][1..] == inbox[i + 1..];
    assert Heard(inbox[i..]) == [chunk] + Heard(inbox[i + 1..]);
    assert chunks[..got + 1] == chunks[..got] + [chunk];
    assert chunks[..got + 1][..got] == chunks[..got];
  }

  lemma ProgressEnd(chunks: seq<seq<byte>>, inbox: seq<Read>, i: nat, got: nat, raw: seq<byte>)
    requires Progress(chunks, inbox, i, got, raw) && (i < |inbox| ==> inbox[i] == Some([]))
    ensures got == |chunks|
  {
    hide CompleteAt, Concat;
    assert Heard(inbox[i..]) == [];
  }

  lemma CompleteNow(chunks: seq<seq<byte>>, inbox: seq<Read>, i: nat, got: nat, raw: seq<byte>)
    requires Progress(chunks, inbox, i, got, raw)
    ensures CompleteAt(chunks, got) <==>
            var frs := Drain(raw).frames;
            LastOf(frs, FRAME_PKDIGEST).Some? && LastOf(frs, FRAME_ATTEST).Some? && |AllOf(frs, FRAME_SIG)| >= SIG_LEN
  {
    hide Drain, LastOf, AllOf, Heard, Concat;
  }

  /** read_boot_attestation on the reads made before the deadline: keep feeding until the three parts are all there,
      the stream ends or the time is up, then judge everything received. */
  method ReadBootAttestation(f: Compression, inbox: seq<Read>, want: Option<nat>) returns (v: Verdict)
    ensures exists used: nat :: StopsAt(Heard(inbox), used) && v == FromBytes(f, Concat(Heard(inbox)[..used]), want)
  {
    hide Drain, LastOf, AllOf, Judge, FromBytes, Heard, CompleteAt, Progress, Concat;
    ghost var chunks := Heard(inbox);
    var parser := new FrameParser();
    var raw: seq<byte> := [];
    var havePk, haveAttest, sigLen := false, false, 0;
    ghost var seen: seq<Frame> := [];
    ghost var got: nat := 0;
    EmptyDrain();
    FieldsEmpty(FRAME_PKDIGEST);
    FieldsEmpty(FRAME_ATTEST);
    FieldsEmpty(FRAME_SIG);
    ProgressStart(inbox);
    ProgressBounds(chunks, inbox, 0, 0, raw);
    CompleteNow(chunks, inbox, 0, 0, raw);
    var i := 0;
    while i < |inbox|
      invariant i <= |inbox| && got <= |chunks| && Progress(chunks, inbox, i, got, raw) && !CompleteAt(chunks, got)
      invariant parser.buf == Drain(raw).rest && seen == Drain(raw).frames
      invariant havePk == LastOf(seen, FRAME_PKDIGEST).Some? && haveAttest == LastOf(seen, FRAME_ATTEST).Some?
      invariant sigLen == |AllOf(seen, FRAME_SIG)|
    {
      if inbox[i].None? {
        ProgressIdle(chunks, inbox, i, got, raw);
        i := i + 1;
        continue;
      }
      var chunk := inbox[i].value;
      if chunk == [] {
        break;
      }
      ProgressChunk(chunks, inbox, i, got, raw);
      ChunkInvariant(raw, chunk);
      raw := raw + chunk;
      var out := parser.Feed(chunk);
      var pk, at, n := Scan(out);
      FieldsConcat(seen, out, FRAME_PKDIGEST);
      FieldsConcat(seen, out, FRAME_ATTEST);
      FieldsConcat(seen, out, FRAME_SIG);
      havePk, haveAttest, sigLen := havePk || pk, haveAttest || at, sigLen + n;
      seen := seen + out;
      got := got + 1;
      i := i + 1;
      ProgressBounds(chunks, inbox, i, got, raw);
      CompleteNow(chunks, inbox, i, got, raw);
      if havePk && haveAttest && sigLen >= SIG_LEN {
        break;
      }
    }
    if !CompleteAt(chunks, got) { ProgressEnd(chunks, inbox, i, got, raw); }
    ProgressStops(chunks, inbox, i, got, raw);
    v := FromBytes(f, raw, want);
  }

  lemma ProgressBounds(chunks: seq<seq<byte>>, inbox: seq<Read>, i: nat, got: nat, raw: seq<byte>)
    requires Progress(chunks, inbox, i, got, raw)
    ensures i <= |inbox| && got <= |chunks|
  {
  }

  lemma ProgressStops(chunks: seq<seq<byte>>, inbox: seq<Read>, i: nat, got: nat, raw: seq<byte>)
    requires Progress(chunks, inbox, i, got, raw) && (got < |chunks| ==> CompleteAt(chunks, got))
    ensures StopsAt(chunks, got) && raw == Concat(chunks[..got])
  {
    hide CompleteAt, Concat, Heard;
  }

  /** What one batch of frames contributes. */
  method Scan(frs: seq<Frame>) returns (pk: bool, attest: bool, sigLen: nat)
    ensures pk == LastOf(frs, FRAME_PKDIGEST).Some? && attest == LastOf(frs, FRAME_ATTEST).Some?
    ensures sigLen == |AllOf(frs, FRAME_SIG)|
  {
    pk, attest, sigLen := false, false, 0;
    for i := 0 to |frs|
      invariant pk == LastOf(frs[..i], FRAME_PKDIGEST).Some? && attest == LastOf(frs[..i], FRAME_ATTEST).Some?
      invariant sigLen == |AllOf(frs[..i], FRAME_SIG)|
    {
      assert frs[..i + 1][..i] == frs[..i];
      if frs[i].kind == FRAME_PKDIGEST {
        pk := true;
      } else if frs[i].kind == FRAME_ATTEST {
        attest := true;
      } else if frs[i].kind == FRAME_SIG {
        sigLen := sigLen + |frs[i].payload|;
      }
    }
    assert frs[..|frs|] == frs;
  }

  // ---- any part of the stream, cut anyhow ----

  lemma {:induction false} StreamConcat(a: seq<Frame>, b: seq<Frame>)
    ensures Stream(a + b) == Stream(a) + Stream(b)
  {
    hide Build, Stream;
    if a == [] {
      NoFrames();
      assert a + b == b && [] + Stream(b) == Stream(b);
    } else {
      StreamConcat(a[1..], b);
      StreamHead(a[0], a[1..]);
      StreamHead(a[0], a[1..] + b);
      assert a == [a[0]] + a[1..] && a + b == [a[0]] + (a[1..] + b);
      Rightward(Build(a[0]), Stream(a[1..]), Stream(b));
    }
  }

  lemma NoFrames()
    ensures Stream([]) == []
  {
  }

  lemma Rightward(a: seq<byte>, b: seq<byte>, c: seq<byte>)
    ensures (a + b) + c == a + (b + c)
  {
  }

  /** Any prefix of a frame stream parses to some of its frames, without a failure. */
  lemma PrefixFrames(frs: seq<Frame>, x: seq<byte>, y: seq<byte>)
    requires Stream(frs) == x + y && forall i | 0 <= i < |frs| :: |frs[i].payload| <= MAX_PAYLOAD
    ensures Drain(x).frames <= frs && Drain(x).badCrc == 0
  {
    hide Stream, Drain;
    PrefixRest(frs, x, y, MAX_PAYLOAD);
    if y != [] {
      CutStream(frs, x, y);
    } else {
      StreamRoundTrip([], frs, []);
      EmptyDrain();
      assert [] + (Stream(frs) + []) == Stream(frs) == x && frs + [] == frs;
    }
  }

  /** Frames of other kinds than the attestation's. */
  predicate Unrelated(frs: seq<Frame>) {
    forall i | 0 <= i < |frs| ::
      && |frs[i].payload| <= MAX_PAYLOAD
      && frs[i].kind != FRAME_PKDIGEST && frs[i].kind != FRAME_ATTEST && frs[i].kind != FRAME_SIG
  }

  lemma {:induction false} OtherKinds(frs: seq<Frame>, kind: byte)
    requires forall i | 0 <= i < |frs| :: frs[i].kind != kind
    ensures LastOf(frs, kind) == None && AllOf(frs, kind) == []
  {
    if frs != [] { OtherKinds(frs[..|frs| - 1], kind); }
  }

  /** A prefix of the guest's output from boot on, whatever other frames follow, is accepted if it holds the whole
      attestation and refused if not. */
  lemma AnyPrefixJudged(f: Compression, seed: seq<byte>, qseed: Option<u64>, ticks: u64, more: seq<Frame>, x: seq<byte>,
                        y: seq<byte>)
    requires Stream(BootFrames(f, seed, qseed, ticks) + more) == x + y && Unrelated(more)
    ensures var whole := |x| >= |Stream(BootFrames(f, seed, qseed, ticks))|;
            && FromBytes(f, x, WantOf(qseed)) ==
               (if whole then Verified(WantOf(qseed), ticks % 0x1_0000_0000, Digest(f, PkStream(f, seed, BITS)))
                 else Refused)
            && (Complete(Drain(x).frames) ==> whole)
  {
    hide Digest, PkStream, Drain, Stream, BootFrames, Judge, Complete;
    var boot := BootFrames(f, seed, qseed, ticks);
    var s := Stream(boot);
    StreamConcat(boot, more);
    var all := s + Stream(more);
    assert all[..|x|] == x && all[|x|..] == y;
    if |x| >= |s| {
      var x2 := x[|s|..];
      assert x == s + x2 && Stream(more) == x2 + y;
      PrefixFrames(more, x2, y);
      WholeJudged(f, seed, qseed, ticks, x2, Drain(x2).frames);
    } else {
      assert s == x + s[|x|..] by { assert all[..|x|] == s[..|x|]; }
      PrefixIncomplete(f, seed, qseed, ticks, x, s[|x|..]);
      PartRefused(f, x, WantOf(qseed));
    }
  }

  lemma WholeJudged(f: Compression, seed: seq<byte>, qseed: Option<u64>, ticks: u64, x: seq<byte>, after: seq<Frame>)
    requires after == Drain(x).frames && Drain(x).badCrc == 0 && Unrelated(after)
    ensures FromBytes(f, Stream(BootFrames(f, seed, qseed, ticks)) + x, WantOf(qseed)) ==
            Verified(WantOf(qseed), ticks % 0x1_0000_0000, Digest(f, PkStream(f, seed, BITS)))
  {
    hide Digest, PkStream, Signature, SigFrames, Message, Drain, Stream, LastOf, AllOf, ParseAttestation, Verifies;
    var boot := BootFrames(f, seed, qseed, ticks);
    MessageFits(qseed, ticks);
    StreamRoundTrip([], boot, x);
    assert [] + (Stream(boot) + x) == Stream(boot) + x;
    OtherKinds(after, FRAME_PKDIGEST);
    OtherKinds(after, FRAME_ATTEST);
    OtherKinds(after, FRAME_SIG);
    FieldsConcat(boot, after, FRAME_PKDIGEST);
    FieldsConcat(boot, after, FRAME_ATTEST);
    FieldsConcat(boot, after, FRAME_SIG);
    assert AllOf(boot, FRAME_SIG) + [] == AllOf(boot, FRAME_SIG);
    BootFramesJudged(f, seed, qseed, ticks);
  }

  lemma PartRefused(f: Compression, x: seq<byte>, want: Option<nat>)
    requires |AllOf(Drain(x).frames, FRAME_SIG)| < SIG_LEN
    ensures FromBytes(f, x, want) == Refused && !Complete(Drain(x).frames)
  {
    hide Drain, LastOf, AllOf, ParseAttestation;
  }

  /** However the guest's output is cut into reads, and wherever the deadline falls: the host accepts if the whole
      attestation was read, reading past it or not, and refuses otherwise. */
  lemma AnyChunkingAccepted(f: Compression, seed: seq<byte>, qseed: Option<u64>, ticks: u64, more: seq<Frame>,
                            chunks: seq<seq<byte>>, y: seq<byte>, used: nat)
    requires Stream(BootFrames(f, seed, qseed, ticks) + more) == Concat(chunks) + y && Unrelated(more)
    requires StopsAt(chunks, used)
    ensures FromBytes(f, Concat(chunks[..used]), WantOf(qseed)) ==
            if |Concat(chunks)| >= |Stream(BootFrames(f, seed, qseed, ticks))|
            then Verified(WantOf(qseed), ticks % 0x1_0000_0000, Digest(f, PkStream(f, seed, BITS))) else Refused
  {
    hide Digest, PkStream, Drain, Stream, FromBytes, Complete, BootFrames, Unrelated;
    var x, z := Concat(chunks[..used]), Concat(chunks[used..]);
    ConcatSplit(chunks, used);
    assert Concat(chunks) + y == x + (z + y);
    AnyPrefixJudged(f, seed, qseed, ticks, more, x, z + y);
    assert chunks[..|chunks|] == chunks;
  }

  lemma PrefixIncomplete(f: Compression, seed: seq<byte>, qseed: Option<u64>, ticks: u64, x: seq<byte>, y: seq<byte>)
    requires Stream(BootFrames(f, seed, qseed, ticks)) == x + y && y != []
    ensures |AllOf(Drain(x).frames, FRAME_SIG)| < SIG_LEN
  {
    hide Digest, PkStream, Signature, Message, LastOf, Drain, Stream;
    var frs := BootFrames(f, seed, qseed, ticks);
    MessageFits(qseed, ticks);
    CutStream(frs, x, y);
    var p := Drain(x).frames;
    var msg := Message(qseed, ticks);
    var sig := Signature(f, seed, Digest(f, msg), BITS);
    var head := frs[..3];
    assert frs == head + SigFrames(sig, 32);
    SigBytesBound(head, sig, 32, p);
  }

  lemma {:induction false} SigBytesBound(head: seq<Frame>, sig: seq<byte>, n: nat, p: seq<Frame>)
    requires MAX_PAYLOAD * n <= |sig| && n > 0 && forall i | 0 <= i < |head| :: head[i].kind != FRAME_SIG
    requires p <= head + SigFrames(sig, n) && |p| < |head| + n
    ensures |AllOf(p, FRAME_SIG)| < MAX_PAYLOAD * n
  {
    var all := head + SigFrames(sig, n);
    if |p| <= |head| {
      assert p == head[..|p|];
      NoSigInHead(p);
    } else {
      var m := |p| - |head|;
      SigFramesPrefix(sig, n, m);
      assert p == head + SigFrames(sig, m);
      SigFramesJoin(sig, m, head);
    }
  }

  lemma {:induction false} SigFramesPrefix(sig: seq<byte>, n: nat, m: nat)
    requires m <= n && MAX_PAYLOAD * n <= |sig|
    ensures SigFrames(sig, n)[..m] == SigFrames(sig, m)
  {
    if m < n { SigFramesPrefix(sig, n - 1, m); }
  }

  // ---- the octets and the verdict ----

  lemma Words()
    ensures QOS_BOOT + [BAR] + QSEED_KEY == Ascii("QOS-BOOT|qseed=") && [BAR] + TICKS_KEY == Ascii("|ticks=")
    ensures NONE_WORD == Ascii("none")
  {
    hide Ascii;
    AsciiIs("QOS-BOOT", QOS_BOOT);
    AsciiIs("|qseed=", [124, 113, 115, 101, 101, 100, 61]);
    AsciiConcat("QOS-BOOT", "|qseed=");
    assert "QOS-BOOT" + "|qseed=" == "QOS-BOOT|qseed=";
    assert QOS_BOOT + [BAR] + QSEED_KEY == QOS_BOOT + [124, 113, 115, 101, 101, 100, 61];
    AsciiIs("|ticks=", [124, 116, 105, 99, 107, 115, 61]);
    AsciiIs("none", NONE_WORD);
  }

  /** The string that is signed. */
  lemma MessageIs(qseed: Option<u64>, ticks: u64)
    ensures Message(qseed, ticks)
            == Ascii("QOS-BOOT|qseed=") + (if qseed.Some? then Digits(qseed.value, 16, true) else Ascii("none")) +
               Ascii("|ticks=") + Digits(ticks % 0x1_0000_0000, 10, false)
  {
    hide Ascii, Digits;
    Words();
    var q, t := SeedText(qseed), Digits(ticks % 0x1_0000_0000, 10, false);
    ThreeParts(QOS_BOOT, QSEED_KEY, q, TICKS_KEY, t);
  }

  lemma ThreeParts(a: seq<byte>, k: seq<byte>, q: seq<byte>, l: seq<byte>, t: seq<byte>)
    ensures a + [BAR] + (k + q) + [BAR] + (l + t) == (a + [BAR] + k) + q + ([BAR] + l) + t
  {
  }

  /** The frames of a boot in order: the greeting, the digest of the public stream, the string, and the signature in 32
      pieces of 512 octets. */
  lemma BootFramesAre(f: Compression, seed: seq<byte>, qseed: Option<u64>, ticks: u64, i: nat)
    requires i < 32
    ensures var frs, msg := BootFrames(f, seed, qseed, ticks), Message(qseed, ticks);
            && |frs| == 35
            && frs[0] == Frame(0x01, Ascii("QOS-SWARM/1"))
            && frs[1] == Frame(0x10, Digest(f, PkStream(f, seed, 256)))
            && frs[2] == Frame(0x11, msg)
            && frs[3 + i] == Frame(0x12, Signature(f, seed, Digest(f, msg), 256)[512 * i..512 * i + 512])
  {
    hide Ascii, Digest, PkStream, Signature, Message, SigFrames;
    AsciiIs("QOS-SWARM/1", HELLO);
    PieceAt(Signature(f, seed, Digest(f, Message(qseed, ticks)), BITS), 32, i);
  }

  lemma {:induction false} PieceAt(sig: seq<byte>, n: nat, i: nat)
    requires MAX_PAYLOAD * n <= |sig| && i < n
    ensures SigFrames(sig, n)[i] == Frame(0x12, sig[512 * i..512 * i + 512])
  {
    if i < n - 1 { PieceAt(sig, n - 1, i); }
  }

  function Join(parts: seq<seq<byte>>): seq<byte>
    requires parts != []
  {
    if |parts| == 1 then parts[0] else parts[0] + [BAR] + Join(parts[1..])
  }

  /** Splitting at the bars loses nothing and leaves no bar. */
  lemma {:induction false} SplitJoins(s: seq<byte>)
    ensures Join(Split(s)) == s && forall p | p in Split(s) :: BAR !in p
  {
    if s != [] {
      SplitJoins(s[1..]);
      var r := Split(s[1..]);
      if s[0] == BAR {
        assert ([[]] + r)[1..] == r;
        assert [] + [BAR] + Join(r) == s;
      } else {
        JoinHead(s[0], r);
      }
    }
  }

  lemma JoinHead(c: byte, r: seq<seq<byte>>)
    requires r != []
    ensures Join([[c] + r[0]] + r[1..]) == [c] + Join(r)
  {
    var x := [[c] + r[0]] + r[1..];
    assert x[1..] == r[1..];
    if |r| > 1 { assert [c] + r[0] + [BAR] + Join(r[1..]) == [c] + (r[0] + [BAR] + Join(r[1..])); }
  }

  lemma JoinThree(p: seq<seq<byte>>)
    requires |p| == 3
    ensures Join(p) == p[0] + [BAR] + (p[1] + [BAR] + p[2])
  {
    assert p[1..][1..] == p[2..] && p[2..] == [p[2]];
    assert Join(p[2..]) == p[2] && Join(p[1..]) == p[1] + [BAR] + Join(p[1..][1..]);
  }

  /** msg is the attestation text with these two fields. */
  predicate Reads(msg: seq<byte>, qs: seq<byte>, ts: seq<byte>) {
    BAR !in qs && BAR !in ts && msg == Ascii("QOS-BOOT|qseed=") + qs + Ascii("|ticks=") + ts
  }

  predicate ReadsAs(msg: seq<byte>, qs: seq<byte>, ts: seq<byte>, q: Option<nat>, t: nat) {
    && Reads(msg, qs, ts) && ParseInt(ts, 10) == Some(t)
    && if qs == Ascii("none") then q == None else q.Some? && ParseInt(qs, 16) == q
  }

  lemma ReadsSplit(msg: seq<byte>, qs: seq<byte>, ts: seq<byte>)
    requires Reads(msg, qs, ts)
    ensures Split(msg) == [QOS_BOOT, QSEED_KEY + qs, TICKS_KEY + ts]
  {
    hide Ascii, Split;
    Words();
    NoBarInWords();
    var a, b := QSEED_KEY + qs, TICKS_KEY + ts;
    ThreeParts(QOS_BOOT, QSEED_KEY, qs, TICKS_KEY, ts);
    SplitAtBar(QOS_BOOT, a + [BAR] + b);
    SplitAtBar(a, b);
    SplitNoBar(b);
    assert msg == QOS_BOOT + [BAR] + (a + [BAR] + b);
    assert [QOS_BOOT] + ([a] + [b]) == [QOS_BOOT, a, b];
  }

  lemma SplitReads(msg: seq<byte>)
    requires ParseAttestation(msg).Some?
    ensures var p := Split(msg); Reads(msg, p[1][|QSEED_KEY|..], p[2][|TICKS_KEY|..])
  {
    hide Ascii, Split, Join, ParseInt;
    Words();
    SplitJoins(msg);
    var p := Split(msg);
    JoinThree(p);
    var qs, ts := p[1][|QSEED_KEY|..], p[2][|TICKS_KEY|..];
    assert p[1] == QSEED_KEY + qs && p[2] == TICKS_KEY + ts;
    assert p[1] in p && p[2] in p;
    ThreeParts(QOS_BOOT, QSEED_KEY, qs, TICKS_KEY, ts);
    assert msg == QOS_BOOT + [BAR] + p[1] + [BAR] + p[2];
  }

  /** The host reads exactly the strings of this shape, with a decimal tick count and a seed that is "none" or
      hexadecimal. */
  lemma ParsesOnly(msg: seq<byte>, q: Option<nat>, t: nat)
    ensures ParseAttestation(msg) == Some((q, t)) <==> exists qs, ts :: ReadsAs(msg, qs, ts, q, t)
  {
    hide Ascii, Split, ParseInt, Reads;
    Words();
    if ParseAttestation(msg) == Some((q, t)) {
      SplitReads(msg);
      var p := Split(msg);
      assert ReadsAs(msg, p[1][|QSEED_KEY|..], p[2][|TICKS_KEY|..], q, t);
    }
    if qs, ts :| ReadsAs(msg, qs, ts, q, t) {
      ReadsSplit(msg, qs, ts);
      assert (QSEED_KEY + qs)[|QSEED_KEY|..] == qs && (TICKS_KEY + ts)[|TICKS_KEY|..] == ts;
    }
  }

  /** The payload that counts for a kind is that of its last frame; the signature is the payloads of all its frames. */
  lemma {:induction false} LastIs(frs: seq<Frame>, kind: byte, i: nat)
    requires i < |frs| && frs[i].kind == kind && forall j | i < j < |frs| :: frs[j].kind != kind
    ensures LastOf(frs, kind) == Some(frs[i].payload)
  {
    if i < |frs| - 1 { LastIs(frs[..|frs| - 1], kind, i); }
  }

  lemma {:induction false} NoneOf(frs: seq<Frame>, kind: byte)
    ensures LastOf(frs, kind).None? <==> forall j | 0 <= j < |frs| :: frs[j].kind != kind
  {
    if frs != [] { NoneOf(frs[..|frs| - 1], kind); }
  }

  lemma AllIs(frs: seq<Frame>, fr: Frame, kind: byte)
    ensures AllOf([], kind) == []
    ensures AllOf(frs + [fr], kind) == AllOf(frs, kind) + if fr.kind == kind then fr.payload else []
  {
    assert (frs + [fr])[..|frs + [fr]| - 1] == frs;
  }

  /** Reading is complete with the digest, the string and 16384 octets of signature. */
  lemma CompleteIs(frs: seq<Frame>)
    ensures Complete(frs) <==>
            LastOf(frs, 0x10).Some? && LastOf(frs, 0x11).Some? && |AllOf(frs, 0x12)| >= 16384
  {
    hide LastOf, AllOf;
  }

  /** A read that times out delivers nothing, an empty one ends the stream. */
  lemma HeardIs(inbox: seq<Read>, chunk: seq<byte>)
    requires chunk != []
    ensures Heard([]) == [] && Heard([None] + inbox) == Heard(inbox) && Heard([Some([])] + inbox) == []
    ensures Heard([Some(chunk)] + inbox) == [chunk] + Heard(inbox)
  {
    assert ([None] + inbox)[1..] == inbox && ([Some(chunk)] + inbox)[1..] == inbox;
  }

  /** The verdict on a captured stream: verified exactly if no frame failed its CRC, the three parts are there, the
      string reads as this seed and these ticks, its signature is valid under the digest sent, and the seed is the one
      asked for. */
  lemma VerifiedExactly(f: Compression, blob: seq<byte>, want: Option<nat>, q: Option<nat>, t: nat, pk: seq<byte>)
    ensures FromBytes(f, blob, want) == Verified(q, t, pk) <==>
            var frs, m := Drain(blob).frames, LastOf(Drain(blob).frames, 0x11);
            && Drain(blob).badCrc == 0 && LastOf(frs, 0x10) == Some(pk) && m.Some? && AllOf(frs, 0x12) != []
            && ParseAttestation(m.value) == Some((q, t)) && q == want
            && Lamport.Verifies(f, m.value, pk, AllOf(frs, 0x12))
  {
    hide Drain, ParseAttestation, Lamport.Verifies, LastOf, AllOf;
  }
}
