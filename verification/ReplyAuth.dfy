/** The authenticated COM2 request/reply protocol: the guest service with its one asynchronous job,
    the host's verification, and safety over every run of an adversarial wire. */
module ReplyAuth {
  import opened Options
  import opened Bytes
  import opened Sha256
  import opened Hmac

  const OP_STATUS: byte := 1
  const OP_RECALL: byte := 2
  const OP_QSUBMIT: byte := 3
  const OP_KEY: byte := 4

  const NONCE_LEN := 16
  const TAG_LEN := 32
  const KEY_LEN := 32
  const RECALL_PROBE := 32
  const CIRCUIT_MAX := 256
  const RESULT_LEN := 20

  /** op, nonce, rest of the body: what the tag covers. */
  function MacIn(body: seq<byte>, nonce: seq<byte>): seq<byte>
    requires body != []
  {
    [body[0]] + nonce + body[1..]
  }

  lemma MacInInjective(b: seq<byte>, n: seq<byte>, b': seq<byte>, n': seq<byte>)
    requires b != [] && b' != [] && |n| == |n'| == NONCE_LEN && MacIn(b, n) == MacIn(b', n')
    ensures b == b' && n == n'
  {
    var m := MacIn(b, n);
    assert n == m[1..1 + NONCE_LEN] == n';
    assert b == [m[0]] + m[1 + NONCE_LEN..] == b';
  }

  /** A reply as the guest decides it: the body, the nonce to echo if any, and for the deferred answer its job. */
  datatype Reply = Reply(body: seq<byte>, nonce: Option<seq<byte>>, job: Option<int>)

  /** The DATA payload put on the wire. */
  function Payload(f: Compression, key: seq<byte>, r: Reply): seq<byte>
    requires r.body != []
  {
    match r.nonce
    case None => r.body
    case Some(n) => r.body + n + Mac(f, key, MacIn(r.body, n))
  }

  // ---- the guest ----

  datatype Guest = Guest(haveKey: bool, key: seq<byte>, jid: int, authed: bool, nonce: seq<byte>)

  /** What the field service answers, if it does. */
  datatype FieldReply = NoReply | FieldReply(r: u32, live: byte, hit: byte)

  datatype PollResult = Pending | Running | Done(result: seq<byte>) | Failed

  /** The nonce carried after the opcode. */
  function RequestNonce(p: seq<byte>): (n: seq<byte>)
    requires |p| >= 1 + NONCE_LEN
    ensures |n| == NONCE_LEN
  {
    p[1..1 + NONCE_LEN]
  }

  /** handle_data on one request: the new state and the reply sent at once, if any.
      `field` is what the field service says, `submitted` what the broker returns. */
  function OnData(g: Guest, p: seq<byte>, field: FieldReply, submitted: int): (r: (Guest, Option<Reply>))
    ensures r.1.Some? ==> r.1.value.body != [] && r.1.value.job.None?
  {
    if p == [] then (g, None)
    else if p[0] == OP_STATUS then
      if field.NoReply? then (g, None)
      else (g, Some(Reply([OP_STATUS] + Le(field.r, 4) + [field.live],
                          if g.haveKey && |p| >= 1 + NONCE_LEN then Some(RequestNonce(p)) else None, None)))
    else if p[0] == OP_RECALL then
      if |p| < 1 + RECALL_PROBE || field.NoReply? then (g, None)
      else (g, Some(Reply([OP_RECALL, field.hit] + Le(field.r, 4), None, None)))
    else if p[0] == OP_QSUBMIT then
      if g.haveKey && |p| < 1 + NONCE_LEN then (g, None)
      else
        var nonce := if g.haveKey then Some(RequestNonce(p)) else None;
        var clen := if g.haveKey then |p| - 1 - NONCE_LEN else |p| - 1;
        if clen == 0 || clen > CIRCUIT_MAX then (g, Some(Reply([OP_QSUBMIT, 2], nonce, None)))
        else if g.jid != 0 then (g, Some(Reply([OP_QSUBMIT, 1], nonce, None)))
        else if submitted >= 1 then
          (g.(jid := submitted, authed := nonce.Some?, nonce := if nonce.Some? then nonce.value else g.nonce), None)
        else (g, Some(Reply([OP_QSUBMIT, if submitted == -4 then 1 else 2], nonce, None)))
    else if p[0] == OP_KEY then
      if |p| < 1 + KEY_LEN then (g, None) else (g.(haveKey := true, key := p[1..1 + KEY_LEN]), None)
    else (g, None)
  }

  /** qsub_poll_step: one step of the outstanding job. */
  function OnPoll(g: Guest, st: PollResult): (r: (Guest, Option<Reply>))
    ensures r.1.Some? ==> r.1.value.body != [] && g.jid != 0 && r.1.value.job == Some(g.jid)
  {
    if g.jid == 0 || st.Pending? || st.Running? then (g, None)
    else
      var body := match st
                  case Done(res) =>
                    if |res| == RESULT_LEN then [OP_QSUBMIT, if res[0] == 0 then 0 else 2] + res else [OP_QSUBMIT, 2]
                  case _ => [OP_QSUBMIT, 2];
      (g.(jid := 0, authed := false, nonce := seq(NONCE_LEN, _ => 0)),
       Some(Reply(body, if g.authed then Some(g.nonce) else None, Some(g.jid))))
  }

  class SwarmSvc {
    const f: Compression
    var haveKey: bool
    var sessionKey: seq<byte>
    var qsubJid: int
    var qsubAuthed: bool
    var qsubNonce: seq<byte>

    function View(): Guest
      reads this
    {
      Guest(haveKey, sessionKey, qsubJid, qsubAuthed, qsubNonce)
    }

    constructor (f: Compression)
      ensures this.f == f && View() == Guest(false, seq(KEY_LEN, _ => 0), 0, false, seq(NONCE_LEN, _ => 0))
    {
      this.f := f;
      haveKey, sessionKey, qsubJid, qsubAuthed := false, seq(KEY_LEN, _ => 0), 0, false;
      qsubNonce := seq(NONCE_LEN, _ => 0);
    }

    /** emit_authed_reply: one path for every operation, tagged with the key held now. */
    method EmitAuthedReply(body: seq<byte>, nonce: Option<seq<byte>>, ghost job: Option<int>) returns (out: seq<byte>)
      requires body != []
      ensures out == Payload(f, sessionKey, Reply(body, nonce, job))
    {
      match nonce {
        case None => out := body;
        case Some(n) =>
          var macin := [body[0]] + n + body[1..];
          var tag := HmacSha256(f, sessionKey, macin);
          out := body + n + tag;
      }
    }

    /** handle_data */
    method HandleData(p: seq<byte>, field: FieldReply, submitted: int) returns (sent: Option<seq<byte>>)
      modifies this
      ensures View() == OnData(old(View()), p, field, submitted).0
      ensures var r := OnData(old(View()), p, field, submitted).1;
              sent == match r case None => None case Some(reply) => Some(Payload(f, sessionKey, reply))
    {
      hide Mac, Le;
      sent := None;
      if |p| < 1 {
        return;
      }
      if p[0] == OP_STATUS {
        if field.NoReply? {
          return;
        }
        var nonce := if haveKey && |p| >= 1 + NONCE_LEN then Some(p[1..1 + NONCE_LEN]) else None;
        var out := EmitAuthedReply([OP_STATUS] + Le(field.r, 4) + [field.live], nonce, None);
        sent := Some(out);
      } else if p[0] == OP_RECALL {
        if |p| < 1 + RECALL_PROBE || field.NoReply? {
          return;
        }
        sent := Some([OP_RECALL, field.hit] + Le(field.r, 4));
      } else if p[0] == OP_QSUBMIT {
        sent := Submit(p, submitted);
      } else if p[0] == OP_KEY {
        if |p| < 1 + KEY_LEN {
          return;
        }
        sessionKey := p[1..1 + KEY_LEN];
        haveKey := true;
      }
    }

    /** The QSUBMIT branch: submit only, never wait; a refusal uses the nonce in hand and leaves the stash alone. */
    method Submit(p: seq<byte>, submitted: int) returns (sent: Option<seq<byte>>)
      requires p != [] && p[0] == OP_QSUBMIT
      modifies this
      ensures View() == OnData(old(View()), p, NoReply, submitted).0
      ensures sent == match OnData(old(View()), p, NoReply, submitted).1
                      case None => None case Some(reply) => Some(Payload(f, sessionKey, reply))
    {
      hide Mac;
      sent := None;
      var nonce: Option<seq<byte>>, clen := None, |p| - 1;
      if haveKey {
        if |p| < 1 + NONCE_LEN {
          return;
        }
        nonce, clen := Some(p[1..1 + NONCE_LEN]), |p| - 1 - NONCE_LEN;
      }
      var out;
      if clen == 0 || clen > CIRCUIT_MAX {
        out := EmitAuthedReply([OP_QSUBMIT, 2], nonce, None);
        return Some(out);
      }
      if qsubJid != 0 {
        out := EmitAuthedReply([OP_QSUBMIT, 1], nonce, None);
        return Some(out);
      }
      if submitted >= 1 {
        qsubJid := submitted;
        qsubAuthed := nonce.Some?;
        if nonce.Some? {
          qsubNonce := nonce.value;
        }
        return None;
      }
      out := EmitAuthedReply([OP_QSUBMIT, if submitted == -4 then 1 else 2], nonce, None);
      return Some(out);
    }

    /** qsub_poll_step */
    method QsubPollStep(st: PollResult) returns (sent: Option<seq<byte>>)
      modifies this
      ensures View() == OnPoll(old(View()), st).0
      ensures sent == match OnPoll(old(View()), st).1
                      case None => None case Some(reply) => Some(Payload(f, sessionKey, reply))
    {
      hide Mac;
      if qsubJid == 0 || st.Pending? || st.Running? {
        return None;
      }
      var nonce := if qsubAuthed then Some(qsubNonce) else None;
      var body: seq<byte> := [OP_QSUBMIT, 2];
      if st.Done? && |st.result| == RESULT_LEN {
        body := [OP_QSUBMIT, if st.result[0] == 0 then 0 else 2] + st.result;
      }
      var out := EmitAuthedReply(body, nonce, Some(qsubJid));
      qsubJid, qsubAuthed, qsubNonce := 0, false, seq(NONCE_LEN, _ => 0);
      return Some(out);
    }
  }

  // ---- the host ----

  datatype Checked = Accepted(body: seq<byte>) | Refused

  /** The body lengths a keyed host expects for an operation. */
  predicate ValidLen(op: byte, n: int) {
    (op == OP_STATUS && n == 6) || (op == OP_QSUBMIT && (n == 2 || n == 2 + RESULT_LEN))
  }

  function MinLen(op: byte): nat {
    if op == OP_STATUS then 6 else 2
  }

  /** _verify_reply_auth: length, operation, freshness, then the tag. */
  function VerifyReply(f: Compression, key: seq<byte>, p: seq<byte>, nonce: seq<byte>, op: byte): Checked {
    var n := |p| - NONCE_LEN - TAG_LEN;
    if |p| < MinLen(op) + NONCE_LEN + TAG_LEN || !ValidLen(op, n) then Refused
    else if p[0] != op || p[n..n + NONCE_LEN] != nonce then Refused
    else if Mac(f, key, MacIn(p[..n], nonce)) != p[n + NONCE_LEN..] then Refused
    else Accepted(p[..n])
  }

  /** Host and guest agree on the layout: a reply tagged under the host's key for its nonce is accepted as sent. */
  lemma GenuineAccepted(f: Compression, key: seq<byte>, r: Reply)
    requires r.body != [] && r.nonce.Some? && |r.nonce.value| == NONCE_LEN && ValidLen(r.body[0], |r.body|)
    ensures VerifyReply(f, key, Payload(f, key, r), r.nonce.value, r.body[0]) == Accepted(r.body)
  {
    hide Mac;
    var p, n := Payload(f, key, r), |r.body|;
    assert p[..n] == r.body && p[n..n + NONCE_LEN] == r.nonce.value;
    assert p[n + NONCE_LEN..] == Mac(f, key, MacIn(r.body, r.nonce.value));
  }

  /** Every reply of a keyed guest to a nonce-carrying request, at once or deferred, has a length the host expects. */
  lemma RepliesWellFormed(g: Guest, p: seq<byte>, field: FieldReply, submitted: int, st: PollResult)
    ensures var r := OnData(g, p, field, submitted).1;
            r.Some? && r.value.nonce.Some? ==>
              |r.value.nonce.value| == NONCE_LEN && ValidLen(r.value.body[0], |r.value.body|)
    ensures var r := OnPoll(g, st).1;
            r.Some? ==> ValidLen(OP_QSUBMIT, |r.value.body|) && r.value.body[0] == OP_QSUBMIT
  {
  }

  // ---- the asynchronous job ----

  /** The reply context fixed when a job was accepted. */
  datatype Context = Context(jid: int, nonce: Option<seq<byte>>)

  datatype Input = Deliver(p: seq<byte>, field: FieldReply, submitted: int) | PollJob(st: PollResult)

  /** The guest with the jobs it has accepted and the deferred answers it has sent. */
  datatype Service = Service(g: Guest, accepts: seq<Context>, answers: seq<Context>)

  function ContextOf(g: Guest): Context {
    Context(g.jid, if g.authed then Some(g.nonce) else None)
  }

  function Serve(s: Service, i: Input): Service {
    match i
    case Deliver(p, field, submitted) =>
      var g := OnData(s.g, p, field, submitted).0;
      // the context as the request carried it, read off before anything is stashed
      if s.g.jid == 0 && g.jid != 0 then
        var nonce := if s.g.haveKey && |p| >= 1 + NONCE_LEN then Some(RequestNonce(p)) else None;
        Service(g, s.accepts + [Context(submitted, nonce)], s.answers)
      else Service(g, s.accepts, s.answers)
    case PollJob(st) =>
      var (g, r) := OnPoll(s.g, st);
      if r.Some? then Service(g, s.accepts, s.answers + [Context(r.value.job.value, r.value.nonce)])
      else Service(g, s.accepts, s.answers)
  }

  function ServeAll(s: Service, inputs: seq<Input>): Service {
    if inputs == [] then s else Serve(ServeAll(s, inputs[..|inputs| - 1]), inputs[|inputs| - 1])
  }

  /** Answers pair off with accepts in order; at most one accept is unanswered, and the stash is its context. */
  ghost predicate Paired(s: Service) {
    if s.g.jid == 0 then s.answers == s.accepts
    else s.accepts == s.answers + [ContextOf(s.g)]
  }

  lemma ServeKeepsPaired(s: Service, i: Input)
    requires Paired(s)
    ensures Paired(Serve(s, i))
  {
  }

  /** In every run, whatever busy refusals, status requests or key admissions come in between, each deferred
      QSUBMIT answer carries the job and the nonce of the request that started it, once. */
  lemma {:induction false} AnswersCarryTheirNonce(g: Guest, inputs: seq<Input>)
    requires g.jid == 0
    ensures var s := ServeAll(Service(g, [], []), inputs);
            s.answers <= s.accepts && |s.accepts| - |s.answers| == (if s.g.jid == 0 then 0 else 1)
    ensures Paired(ServeAll(Service(g, [], []), inputs))
  {
    if inputs != [] {
      AnswersCarryTheirNonce(g, inputs[..|inputs| - 1]);
      ServeKeepsPaired(ServeAll(Service(g, [], []), inputs[..|inputs| - 1]), inputs[|inputs| - 1]);
    }
  }

  // ---- safety over every run ----

  /** A tag the guest has issued. */
  datatype Tag = Tag(key: seq<byte>, body: seq<byte>, nonce: seq<byte>)

  datatype Waiting = Waiting(op: byte, nonce: seq<byte>, since: nat)

  datatype Acceptance = Acceptance(op: byte, nonce: seq<byte>, body: seq<byte>, since: nat)

  /** since: how many tags had been issued when the request was made. */
  datatype World = World(g: Guest, tags: seq<Tag>, waiting: Option<Waiting>, accepted: seq<Acceptance>)

  datatype Event =
    | Ask(op: byte, nonce: seq<byte>)                                  // the host sends a request
    | Arrive(p: seq<byte>, field: FieldReply, submitted: int)          // any payload at all reaches the guest
    | Advance(st: PollResult)                                          // the guest polls its job
    | Answer(p: seq<byte>)                                             // any payload at all reaches the host

  /** p is laid out as body, nonce, tag, and its own tag verifies for its own body and nonce. */
  predicate WellTagged(f: Compression, key: seq<byte>, p: seq<byte>) {
    var n := |p| - NONCE_LEN - TAG_LEN;
    n > 0 && p[n + NONCE_LEN..] == Mac(f, key, MacIn(p[..n], p[n..n + NONCE_LEN]))
  }

  predicate Issued(tags: seq<Tag>, key: seq<byte>, m: seq<byte>) {
    exists i | 0 <= i < |tags| :: tags[i].body != [] && tags[i].key == key && MacIn(tags[i].body, tags[i].nonce) == m
  }

  /** What the wire can do: nonces are fresh when drawn, and no payload reaches the host whose tag verifies for the
      body and nonce it carries unless the guest has tagged that body and nonce. Everything else - loss, replay,
      reordering, alteration - is allowed. */
  ghost predicate Possible(f: Compression, key: seq<byte>, w: World, e: Event) {
    match e
    case Ask(op, nonce) => |nonce| == NONCE_LEN && forall i | 0 <= i < |w.tags| :: w.tags[i].nonce != nonce
    case Answer(p) =>
      var n := |p| - NONCE_LEN - TAG_LEN;
      WellTagged(f, key, p) ==> Issued(w.tags, key, MacIn(p[..n], p[n..n + NONCE_LEN]))
    case _ => true
  }

  function NewTags(key: seq<byte>, r: Option<Reply>): (t: seq<Tag>)
    requires r.Some? ==> r.value.body != []
    ensures forall i | 0 <= i < |t| :: t[i].body != []
  {
    if r.Some? && r.value.nonce.Some? then [Tag(key, r.value.body, r.value.nonce.value)] else []
  }

  function Next(f: Compression, key: seq<byte>, w: World, e: Event): World {
    match e
    case Ask(op, nonce) => w.(waiting := Some(Waiting(op, nonce, |w.tags|)))
    case Arrive(p, field, submitted) =>
      var (g, r) := OnData(w.g, p, field, submitted);
      w.(g := g, tags := w.tags + NewTags(g.key, r))
    case Advance(st) =>
      var (g, r) := OnPoll(w.g, st);
      w.(g := g, tags := w.tags + NewTags(g.key, r))
    case Answer(p) =>
      if w.waiting.None? || p == [] || p[0] != w.waiting.value.op then w // stray: keep waiting
      else
        match VerifyReply(f, key, p, w.waiting.value.nonce, w.waiting.value.op)
        case Refused => w.(waiting := None)
        case Accepted(body) =>
          w.(waiting := None,
             accepted := w.accepted + [Acceptance(w.waiting.value.op, w.waiting.value.nonce, body,
               w.waiting.value.since)])
  }

  /** A run of possible events. */
  ghost predicate Run(f: Compression, key: seq<byte>, w0: World, es: seq<Event>, w: World) {
    if es == [] then w == w0
    else
      var e := es[|es| - 1];
      exists v :: Run(f, key, w0, es[..|es| - 1], v) && Possible(f, key, v, e) && w == Next(f, key, v, e)
  }

  /** The guest tagged this body for this nonce under the host's key, after the request was made. */
  ghost predicate Honest(key: seq<byte>, tags: seq<Tag>, a: Acceptance) {
    a.body != [] && a.body[0] == a.op && exists i :: a.since <= i < |tags| && tags[i] == Tag(key, a.body, a.nonce)
  }

  ghost predicate Safe(key: seq<byte>, w: World) {
    && (forall i | 0 <= i < |w.tags| :: w.tags[i].body != [] && |w.tags[i].nonce| == NONCE_LEN)
    && (w.waiting.Some? ==>
          |w.waiting.value.nonce| == NONCE_LEN && w.waiting.value.since <= |w.tags| &&
          forall i | 0 <= i < w.waiting.value.since :: w.tags[i].nonce != w.waiting.value.nonce)
    && (w.g.authed ==> |w.g.nonce| == NONCE_LEN)
    && (forall k | 0 <= k < |w.accepted| :: Honest(key, w.tags, w.accepted[k]))
  }

  lemma HonestGrows(key: seq<byte>, tags: seq<Tag>, more: seq<Tag>, a: Acceptance)
    requires Honest(key, tags, a)
    ensures Honest(key, tags + more, a)
  {
    var i :| a.since <= i < |tags| && tags[i] == Tag(key, a.body, a.nonce);
    assert (tags + more)[i] == tags[i];
  }

  /** An accepted answer was tagged by the guest, after the request, for this very nonce and body. */
  lemma AcceptanceHonest(f: Compression, key: seq<byte>, w: World, p: seq<byte>)
    requires Safe(key, w) && Possible(f, key, w, Answer(p)) && w.waiting.Some?
    requires VerifyReply(f, key, p, w.waiting.value.nonce, w.waiting.value.op).Accepted?
    ensures var q := w.waiting.value;
            Honest(key, w.tags, Acceptance(q.op, q.nonce, VerifyReply(f, key, p, q.nonce, q.op).body, q.since))
  {
    hide Mac;
    var q := w.waiting.value;
    var body := VerifyReply(f, key, p, q.nonce, q.op).body;
    assert WellTagged(f, key, p);
    var i :| 0 <= i < |w.tags| && w.tags[i].body != [] && w.tags[i].key == key &&
             MacIn(w.tags[i].body, w.tags[i].nonce) == MacIn(body, q.nonce);
    MacInInjective(w.tags[i].body, w.tags[i].nonce, body, q.nonce);
    assert w.tags[i] == Tag(key, body, q.nonce);
  }

  /** The safety result is not empty: whatever tag the guest has issued under the host's key for the nonce in
      hand may be delivered, and delivering it makes the host accept that body. */
  lemma GenuineDelivered(f: Compression, key: seq<byte>, w: World, i: nat)
    requires w.waiting.Some? && i < |w.tags| && w.tags[i].key == key
    requires w.tags[i].nonce == w.waiting.value.nonce && |w.tags[i].nonce| == NONCE_LEN
    requires w.tags[i].body != [] && w.tags[i].body[0] == w.waiting.value.op
    requires ValidLen(w.tags[i].body[0], |w.tags[i].body|)
    ensures var q, r := w.waiting.value, Reply(w.tags[i].body, Some(w.tags[i].nonce), None);
            var e := Answer(Payload(f, key, r));
            && Possible(f, key, w, e)
            && Next(f, key, w, e).accepted == w.accepted + [Acceptance(q.op, q.nonce, r.body, q.since)]
  {
    hide Mac;
    var r := Reply(w.tags[i].body, Some(w.tags[i].nonce), None);
    var p, n := Payload(f, key, r), |r.body|;
    assert p[..n] == r.body && p[n..n + NONCE_LEN] == r.nonce.value;
    assert Issued(w.tags, key, MacIn(r.body, r.nonce.value));
    GenuineAccepted(f, key, r);
  }

  lemma StepSafe(f: Compression, key: seq<byte>, w: World, e: Event)
    requires Safe(key, w) && Possible(f, key, w, e)
    ensures Safe(key, Next(f, key, w, e))
  {
    hide Mac, Honest, MacIn, WellTagged;
    var w' := Next(f, key, w, e);
    match e
    case Ask(op, nonce) =>
    case Arrive(p, field, submitted) =>
      TagsSafe(key, w, w', OnData(w.g, p, field, submitted).1);
    case Advance(st) =>
      TagsSafe(key, w, w', OnPoll(w.g, st).1);
    case Answer(p) =>
      if w.waiting.Some? && VerifyReply(f, key, p, w.waiting.value.nonce, w.waiting.value.op).Accepted? {
        AcceptanceHonest(f, key, w, p);
      }
  }

  lemma TagsSafe(key: seq<byte>, w: World, w': World, r: Option<Reply>)
    requires Safe(key, w) && (r.Some? ==> r.value.body != [])
    requires r.Some? && r.value.nonce.Some? ==> |r.value.nonce.value| == NONCE_LEN
    requires w'.waiting == w.waiting && w'.accepted == w.accepted && (w'.g.authed ==> |w'.g.nonce| == NONCE_LEN)
    requires w'.tags == w.tags + NewTags(w'.g.key, r)
    ensures Safe(key, w')
  {
    forall k | 0 <= k < |w'.accepted| ensures Honest(key, w'.tags, w'.accepted[k]) {
      HonestGrows(key, w.tags, NewTags(w'.g.key, r), w.accepted[k]);
    }
  }

  /** In every run over a wire that drops, replays, reorders and alters at will, whatever keys are admitted to the
      guest meanwhile, each reply the keyed host accepts has exactly the body the guest tagged, under that key, for
      that operation and that nonce, after the request was made. */
  lemma {:induction false} AcceptedRepliesAreGenuine(f: Compression, key: seq<byte>, g: Guest, es: seq<Event>, w: World)
    requires g.authed ==> |g.nonce| == NONCE_LEN
    requires Run(f, key, World(g, [], None, []), es, w)
    ensures forall k | 0 <= k < |w.accepted| :: Honest(key, w.tags, w.accepted[k])
    ensures Safe(key, w)
  {
    if es != [] {
      var e := es[|es| - 1];
      var v :| Run(f, key, World(g, [], None, []), es[..|es| - 1], v) && Possible(f, key, v, e)
        && w == Next(f, key, v, e);
      AcceptedRepliesAreGenuine(f, key, g, es[..|es| - 1], v);
      StepSafe(f, key, v, e);
    }
  }

  /** An undisturbed authenticated STATUS exchange is such a run, and ends in an acceptance of the guest's answer. */
  lemma StatusExchange(f: Compression, key: seq<byte>, g: Guest, nonce: seq<byte>, field: FieldReply)
    requires g.haveKey && g.key == key && |nonce| == NONCE_LEN && field.FieldReply?
    ensures var body := [OP_STATUS] + Le(field.r, 4) + [field.live];
            var es := [Ask(OP_STATUS, nonce), Arrive([OP_STATUS] + nonce, field, 0),
                       Answer(Payload(f, key, Reply(body, Some(nonce), None)))];
            exists w :: Run(f, key, World(g, [], None, []), es, w)
              && w.accepted == [Acceptance(OP_STATUS, nonce, body, 0)]
  {
    hide Mac, Le, Payload, VerifyReply;
    var body := [OP_STATUS] + Le(field.r, 4) + [field.live];
    var es := [Ask(OP_STATUS, nonce), Arrive([OP_STATUS] + nonce, field, 0),
      Answer(Payload(f, key, Reply(body, Some(nonce), None)))];
    var w0 := World(g, [], None, []);
    var w1 := Next(f, key, w0, es[0]);
    assert RequestNonce([OP_STATUS] + nonce) == nonce;
    var w2 := Next(f, key, w1, es[1]);
    assert w2.tags == [Tag(key, body, nonce)];
    var w3 := Next(f, key, w2, es[2]);
    GenuineDelivered(f, key, w2, 0);
    assert es[..3] == es && es[..2][..1] == es[..1] && es[..1][..0] == [];
    hide Next, Possible;
    assert Run(f, key, w0, es[..0], w0);
    assert Run(f, key, w0, es[..1], w1) by {
      assert Possible(f, key, w0, es[0]) by { Fresh(f, key, w0, OP_STATUS, nonce); }
    }
    assert Run(f, key, w0, es[..2], w2) by {
      assert Possible(f, key, w1, es[1]) by { AlwaysArrives(f, key, w1, [OP_STATUS] + nonce, field, 0); }
    }
    assert Run(f, key, w0, es, w3);
  }

  lemma Fresh(f: Compression, key: seq<byte>, w: World, op: byte, nonce: seq<byte>)
    requires w.tags == [] && |nonce| == NONCE_LEN
    ensures Possible(f, key, w, Ask(op, nonce))
  {
  }

  lemma AlwaysArrives(f: Compression, key: seq<byte>, w: World, p: seq<byte>, field: FieldReply, submitted: int)
    ensures Possible(f, key, w, Arrive(p, field, submitted))
  {
  }

  /** An undisturbed job: the keyed request with its circuit, the executor's 20 octets, and the answer. The run ends in
      the acceptance of the operation, a status of 0 exactly if the executor's is 0 and of 2 otherwise, and the very
      octets of the result. */
  lemma JobExchange(f: Compression, key: seq<byte>, g: Guest, nonce: seq<byte>, circuit: seq<byte>, jid: int,
                    res: seq<byte>)
    requires g.haveKey && g.key == key && g.jid == 0 && |nonce| == 16
    requires 0 < |circuit| <= 256 && jid >= 1 && |res| == 20
    ensures var body := [3, if res[0] == 0 then 0 else 2] + res;
            var es := [Ask(3, nonce), Arrive([3] + nonce + circuit, NoReply, jid), Advance(Done(res)),
                       Answer(body + nonce + Mac(f, key, [3] + nonce + body[1..]))];
            exists w :: Run(f, key, World(g, [], None, []), es, w)
              && w.accepted == [Acceptance(3, nonce, body, 0)] && w.g.jid == 0
  {
    hide Mac, Payload, VerifyReply, Next, Possible, OnData, OnPoll, Run;
    var body: seq<byte> := [3, if res[0] == 0 then 0 else 2] + res;
    var answer := body + nonce + Mac(f, key, [3] + nonce + body[1..]);
    var ask, arrive, advance := Ask(3, nonce), Arrive([3] + nonce + circuit, NoReply, jid), Advance(Done(res));
    var w0 := World(g, [], None, []);
    var w1 := Next(f, key, w0, ask);
    var w2 := Next(f, key, w1, arrive);
    var w3 := Next(f, key, w2, advance);
    var w4 := Next(f, key, w3, Answer(answer));
    JobSteps(f, key, g, nonce, circuit, jid, res);
    PayloadIs(f, key, body, nonce);
    GenuineDelivered(f, key, w3, 0);
    JobAnswered(f, key, w3, answer);
    Fresh(f, key, w0, 3, nonce);
    AlwaysArrives(f, key, w1, [3] + nonce + circuit, NoReply, jid);
    AlwaysAdvances(f, key, w2, Done(res));
    assert [] + [ask] == [ask] && [ask] + [arrive] == [ask, arrive];
    assert [ask, arrive] + [advance] == [ask, arrive, advance];
    assert [ask, arrive, advance] + [Answer(answer)] == [ask, arrive, advance, Answer(answer)];
    RunStarts(f, key, w0);
    RunExtends(f, key, w0, [], w0, ask);
    RunExtends(f, key, w0, [ask], w1, arrive);
    RunExtends(f, key, w0, [ask, arrive], w2, advance);
    RunExtends(f, key, w0, [ask, arrive, advance], w3, Answer(answer));
  }

  lemma RunExtends(f: Compression, key: seq<byte>, w0: World, es: seq<Event>, v: World, e: Event)
    requires Run(f, key, w0, es, v) && Possible(f, key, v, e)
    ensures Run(f, key, w0, es + [e], Next(f, key, v, e))
  {
    hide Next, Possible;
    var all := es + [e];
    assert all[..|all| - 1] == es && all[|all| - 1] == e;
    var w := Next(f, key, v, e);
    assert Run(f, key, w0, all[..|all| - 1], v) && Possible(f, key, v, all[|all| - 1]);
  }

  lemma RunStarts(f: Compression, key: seq<byte>, w0: World)
    ensures Run(f, key, w0, [], w0)
  {
  }

  /** The guest has the job, then has answered it; the host is still waiting. */
  lemma JobSteps(f: Compression, key: seq<byte>, g: Guest, nonce: seq<byte>, circuit: seq<byte>, jid: int,
                 res: seq<byte>)
    requires g.haveKey && g.key == key && g.jid == 0 && |nonce| == 16
    requires 0 < |circuit| <= 256 && jid >= 1 && |res| == 20
    ensures var w1 := Next(f, key, World(g, [], None, []), Ask(3, nonce));
            var w2 := Next(f, key, w1, Arrive([3] + nonce + circuit, NoReply, jid));
            var w3 := Next(f, key, w2, Advance(Done(res)));
            && w3.tags == [Tag(key, [3, if res[0] == 0 then 0 else 2] + res, nonce)]
            && w3.waiting == Some(Waiting(3, nonce, 0)) && w3.accepted == [] && w3.g.jid == 0
  {
    hide OnData;
    SubmitStashes(g, nonce, circuit, jid);
  }

  lemma JobAnswered(f: Compression, key: seq<byte>, w: World, p: seq<byte>)
    requires w.accepted == [] && w.waiting.Some?
    ensures Next(f, key, w, Answer(p)).g == w.g
  {
  }

  lemma PayloadIs(f: Compression, key: seq<byte>, body: seq<byte>, nonce: seq<byte>)
    requires body != []
    ensures Payload(f, key, Reply(body, Some(nonce), None)) == body + nonce + Mac(f, key, [body[0]] + nonce + body[1..])
  {
    hide Mac;
  }

  lemma SubmitStashes(g: Guest, nonce: seq<byte>, circuit: seq<byte>, jid: int)
    requires g.haveKey && g.jid == 0 && |nonce| == 16 && 0 < |circuit| <= 256 && jid >= 1
    ensures OnData(g, [3] + nonce + circuit, NoReply, jid) == (g.(jid := jid, authed := true, nonce := nonce), None)
  {
    var p := [3] + nonce + circuit;
    assert p[1..17] == nonce;
  }

  lemma AlwaysAdvances(f: Compression, key: seq<byte>, w: World, st: PollResult)
    ensures Possible(f, key, w, Advance(st))
  {
  }

  // ---- the octets ----

  /** What the guest answers at once, on the octets of the request. */
  lemma AnswersAre(g: Guest, p: seq<byte>, r: u32, live: byte, hit: byte, submitted: int)
    requires p != []
    ensures var (g', reply) := OnData(g, p, FieldReply(r, live, hit), submitted);
            var inHand := if g.haveKey && |p| >= 17 then Some(p[1..17]) else None;
            var circuit := if g.haveKey then |p| - 17 else |p| - 1;
            && (p[0] == 1 ==> g' == g && reply == Some(Reply([1] + Le(r, 4) + [live], inHand, None)))
            && (p[0] == 2 ==>
                  g' == g && reply == if |p| < 33 then None else Some(Reply([2, hit] + Le(r, 4), None, None)))
            && (p[0] == 3 && circuit < 0 ==> g' == g && reply == None)
            && (p[0] == 3 && (circuit == 0 || circuit > 256) ==> g' == g && reply == Some(Reply([3, 2], inHand, None)))
            && (p[0] == 3 && 0 < circuit <= 256 && g.jid != 0 ==> g' == g && reply == Some(Reply([3, 1], inHand, None)))
            && (p[0] == 3 && 0 < circuit <= 256 && g.jid == 0 && submitted < 1 ==>
                  g' == g && reply == Some(Reply([3, if submitted == -4 then 1 else 2], inHand, None)))
            && (p[0] == 4 ==> g' == (if |p| < 33 then g else g.(haveKey := true, key := p[1..33])) && reply == None)
            && (p[0] == 0 || p[0] > 4 ==> g' == g && reply == None)
  {
    hide Le;
  }

  /** What it answers for a finished job, and that it forgets the job. */
  lemma PollAnswersAre(g: Guest, st: PollResult)
    ensures var (g', reply) := OnPoll(g, st);
            var stashed := if g.authed then Some(g.nonce) else None;
            if g.jid == 0 || st.Pending? || st.Running? then g' == g && reply == None
            else
              && g'.jid == 0 && !g'.authed && g'.key == g.key && g'.haveKey == g.haveKey
              && var body := if st.Done? && |st.result| == 20 then [3, if st.result[0] == 0 then 0 else 2] + st.result
                             else [3, 2];
                 reply == Some(Reply(body, stashed, Some(g.jid)))
  {
  }

  /** The host accepts exactly: the operation it asked for, in a body of a length that fits it, its own nonce, and the
      tag of operation, nonce and rest of the body. */
  lemma AcceptedOnly(f: Compression, key: seq<byte>, p: seq<byte>, nonce: seq<byte>, op: byte, body: seq<byte>)
    requires |nonce| == 16
    ensures VerifyReply(f, key, p, nonce, op) == Accepted(body)
            <==> && ((op == 1 && |body| == 6) || (op == 3 && (|body| == 2 || |body| == 22)))
                 && body[0] == op && p == body + nonce + Mac(f, key, [op] + nonce + body[1..])
  {
    hide Mac;
    var n := |p| - 48;
    if 0 < n { assert p == p[..n] + p[n..n + 16] + p[n + 16..]; }
    if body != [] && p == body + nonce + Mac(f, key, [op] + nonce + body[1..]) {
      assert p[..n] == body && p[n..n + 16] == nonce && p[n + 16..] == Mac(f, key, [op] + nonce + body[1..]);
    }
  }
}
