/** The guest's end of the COM2 wire: emit_frame, and poll_com2 over its fixed accumulator. */
module GuestWire {
  import opened Bytes
  import opened Crc
  import opened Framing

  const RX_SIZE := HDR_LEN + MAX_PAYLOAD + 1

  function Clip(p: seq<byte>): (r: seq<byte>)
    ensures |r| <= MAX_PAYLOAD
  {
    if |p| > MAX_PAYLOAD then p[..MAX_PAYLOAD] else p
  }

  /** emit_frame builds in a static buffer exactly what the host's frame() builds from the clipped payload. */
  method EmitFrame(framebuf: array<byte>, kind: byte, payload: seq<byte>) returns (len: nat)
    requires framebuf.Length == RX_SIZE
    modifies framebuf
    ensures len <= RX_SIZE && framebuf[..len] == Build(Frame(kind, Clip(payload)))
  {
    hide Crc8, Octet;
    var p := if |payload| > MAX_PAYLOAD then payload[..MAX_PAYLOAD] else payload;
    framebuf[0] := MAGIC;
    framebuf[1] := kind;
    framebuf[2] := Octet(|p|);
    framebuf[3] := Octet(|p| / 256);
    assert framebuf[..HDR_LEN] == [MAGIC] + [kind, Octet(|p|), Octet(|p| / 256)];
    CopyBytes(framebuf, HDR_LEN, p);
    BodyIs(Frame(kind, p));
    hide Body;
    assert framebuf[1..HDR_LEN + |p|] == framebuf[..HDR_LEN + |p|][1..];
    var crc := SwarmCrc8(framebuf[1..HDR_LEN + |p|]);
    framebuf[HDR_LEN + |p|] := crc;
    len := HDR_LEN + |p| + 1;
    assert framebuf[..len] == framebuf[..HDR_LEN + |p|] + [crc];
  }

  lemma BodyIs(fr: Frame)
    ensures ([MAGIC] + [fr.kind, Octet(|fr.payload|), Octet(|fr.payload| / 256)]) + fr.payload == [MAGIC] + Body(fr)
  {
    hide Octet;
  }

  /** The guest's resynchronisation: like the host's, except that a frame with a bad CRC is consumed whole. */
  function GuestDrain(b: seq<byte>): (r: (seq<Frame>, seq<byte>))
    ensures |r.1| <= |b|
    decreases |b|
  {
    match Next(b)
    case Wait => ([], b)
    case Skip => GuestDrain(b[1..])
    case BadLength => GuestDrain(b[1..])
    case Take =>
      var r := GuestDrain(b[HDR_LEN + LengthField(b) + 1..]);
      ([FrameAt(b)] + r.0, r.1)
    case BadCrc => GuestDrain(b[HDR_LEN + LengthField(b) + 1..])
  }

  /** A payload is cut after 512 octets, the receive buffer after 517. */
  lemma Cuts(p: seq<byte>, b: seq<byte>, data: seq<byte>)
    requires |b| <= 517
    ensures Clip(p) == if |p| <= 512 then p else p[..512]
    ensures Accepted(b, data) == if |b| + |data| <= 517 then b + data else (b + data)[..517]
  {
  }

  /** What the guest does with its buffer, on the octets. */
  lemma GuestSteps(b: seq<byte>)
    ensures b == [] || (|b| < 4 && b[0] == 0xA5) ==> GuestDrain(b) == ([], b)
    ensures b != [] && b[0] != 0xA5 ==> GuestDrain(b) == GuestDrain(b[1..])
    ensures |b| >= 4 && b[0] == 0xA5 ==>
              var n := b[2] as nat + 256 * (b[3] as nat);
              && (n <= 512 && |b| < n + 5 ==> GuestDrain(b) == ([], b))
              && (n > 512 ==> GuestDrain(b) == GuestDrain(b[1..]))
              && (n <= 512 && |b| >= n + 5 && Crc8(b[1..n + 4]) != b[n + 4] ==>
                    GuestDrain(b) == GuestDrain(b[n + 5..]))
              && (n <= 512 && |b| >= n + 5 && Crc8(b[1..n + 4]) == b[n + 4] ==>
                    var d := GuestDrain(b[n + 5..]); GuestDrain(b) == ([Frame(b[1], b[4..n + 4])] + d.0, d.1))
  {
    hide Crc8;
  }

  /** On a buffer with no CRC failure the guest dispatches the host's frames and keeps the host's rest. */
  lemma {:induction false} GuestAgrees(b: seq<byte>)
    requires Drain(b).badCrc == 0
    ensures GuestDrain(b) == (Drain(b).frames, Drain(b).rest)
    decreases |b|
  {
    hide FrameAt, LengthField, CrcMatches, Next;
    if Next(b) != Wait {
      GuestAgrees(After(b));
      assert Next(b) != BadCrc;
      assert [] + Drain(After(b)).frames == Drain(After(b)).frames;
    }
  }

  lemma {:induction false} GuestRestShort(b: seq<byte>)
    ensures |GuestDrain(b).1| < RX_SIZE
    decreases |b|
  {
    hide FrameAt, CrcMatches;
    if Next(b) == Wait { WaitingIsShort(b); }
    else if Next(b) == Take || Next(b) == BadCrc { GuestRestShort(b[HDR_LEN + LengthField(b) + 1..]); }
    else { GuestRestShort(b[1..]); }
  }

  /** On a CRC failure the two part: a good frame inside the payload of a damaged one reaches the host, never the
      guest. */
  lemma ResyncDiffers(inner: Frame, kind: byte, c: byte)
    requires |inner.payload| < 160 && kind != MAGIC
    requires c != Crc8(Body(Frame(kind, Build(inner))))
    ensures var b := [MAGIC] + Body(Frame(kind, Build(inner))) + [c];
            Drain(b).frames == [inner] && Drain(b).badCrc == 1 && GuestDrain(b).0 == []
  {
    hide Crc8, Octet, Build, Body, FrameAt;
    var outer := Frame(kind, Build(inner));
    var b := [MAGIC] + Body(outer) + [c];
    DamagedHead(outer, c);
    var t := Build(inner) + [c];
    var j := Body(outer)[..3];
    BodyParts(outer);
    assert Body(outer) == j + Build(inner);
    assert b[1..] == j + t;
    OctetsNotMagic(Body(outer)[0], Body(outer)[1], Body(outer)[2], |outer.payload|);
    assert j == [Body(outer)[0], Body(outer)[1], Body(outer)[2]];
    JunkSkipped(j, t);
    DrainBuilt(inner, [c]);
    SingleWaits(c);
    EmptyWaits();
  }

  lemma DamagedHead(outer: Frame, c: byte)
    requires |outer.payload| <= MAX_PAYLOAD && c != Crc8(Body(outer))
    ensures var b := [MAGIC] + Body(outer) + [c];
            Next(b) == BadCrc && |b| == HDR_LEN + LengthField(b) + 1
  {
    hide Crc8, Octet, Body;
    var b := [MAGIC] + Body(outer) + [c];
    var n := |outer.payload|;
    BodyParts(outer);
    LengthSplits(n);
    assert b[1] == Body(outer)[0] && b[2] == Body(outer)[1] && b[3] == Body(outer)[2];
    LengthIs(b, n % 256, n / 256 % 256);
    assert b[1..HDR_LEN + n] == Body(outer);
  }

  lemma OctetsNotMagic(a: byte, lo: byte, hi: byte, n: nat)
    requires n < 165 && lo as nat == n % 256 && hi as nat == n / 256 % 256 && a != MAGIC
    ensures MAGIC !in [a, lo, hi]
  {
  }

  lemma SingleWaits(c: byte)
    ensures Drain([c]).frames == [] && Drain([c]).badCrc == 0
  {
    if c != MAGIC { assert [c][1..] == []; EmptyDrain(); }
  }

  lemma EmptyWaits()
    ensures GuestDrain([]) == ([], [])
  {
  }

  lemma Associates(a: seq<Frame>, b: seq<Frame>, c: seq<Frame>)
    ensures a + (b + c) == (a + b) + c
  {
  }

  /** poll_com2's accumulator. */
  class GuestRx {
    const rxbuf: array<byte>
    var rxlen: nat

    ghost predicate Valid()
      reads this
    {
      rxbuf.Length == RX_SIZE && rxlen <= RX_SIZE
    }

    constructor ()
      ensures Valid() && fresh(rxbuf) && rxlen == 0
    {
      rxbuf := new byte[RX_SIZE](_ => 0);
      rxlen := 0;
    }

    /** Append what fits; the rest of the read is lost. */
    method Accumulate(data: seq<byte>)
      requires Valid()
      modifies this, rxbuf
      ensures Valid()
      ensures rxbuf[..rxlen] == Accepted(old(rxbuf[..rxlen]), data)
    {
      ghost var b := rxbuf[..rxlen];
      var i := 0;
      while i < |data|
        invariant i <= |data| && Valid()
        invariant rxbuf[..rxlen] == Accepted(b, data[..i])
      {
        assert b + data[..i + 1] == (b + data[..i]) + [data[i]];
        if rxlen < RX_SIZE {
          rxbuf[rxlen] := data[i];
          rxlen := rxlen + 1;
          assert rxbuf[..rxlen] == rxbuf[..rxlen - 1] + [data[i]];
        }
        i := i + 1;
      }
      assert data[..i] == data;
    }

    /** Drop the first n bytes by moving the others down. */
    method Shift(n: nat)
      requires Valid() && n <= rxlen
      modifies this, rxbuf
      ensures Valid() && rxbuf[..rxlen] == old(rxbuf[n..rxlen])
    {
      var k := n;
      while k < rxlen
        invariant n <= k <= rxlen == old(rxlen)
        invariant forall j | 0 <= j < k - n :: rxbuf[j] == old(rxbuf[j + n])
        invariant forall j | k - n <= j < rxlen :: rxbuf[j] == old(rxbuf[j])
      {
        rxbuf[k - n] := rxbuf[k];
        k := k + 1;
      }
      rxlen := rxlen - n;
    }

    /** Move the next magic byte, if there is one, to the front. */
    method SkipJunk()
      requires Valid()
      modifies this, rxbuf
      ensures Valid() && rxlen <= old(rxlen)
      ensures GuestDrain(rxbuf[..rxlen]) == GuestDrain(old(rxbuf[..rxlen]))
      ensures rxlen > 0 ==> rxbuf[0] == MAGIC
    {
      hide FrameAt, LengthField, CrcMatches;
      var start := 0;
      while start < rxlen && rxbuf[start] != MAGIC
        invariant start <= rxlen && GuestDrain(rxbuf[start..rxlen]) == GuestDrain(rxbuf[..rxlen])
      {
        assert rxbuf[start..rxlen][1..] == rxbuf[start + 1..rxlen];
        start := start + 1;
      }
      ghost var b := rxbuf[..rxlen];
      if start > 0 {
        Shift(start);
      } else {
        assert b[0..] == b;
      }
    }

    /** One poll: what is dispatched is the guest parse of what the accumulator held plus what fitted of the read. */
    method Poll(data: seq<byte>) returns (out: seq<Frame>)
      requires Valid()
      modifies this, rxbuf
      ensures Valid()
      ensures (out, rxbuf[..rxlen]) == GuestDrain(Accepted(old(rxbuf[..rxlen]), data))
    {
      hide FrameAt, LengthField, CrcMatches, Accepted;
      Accumulate(data);
      ghost var all := GuestDrain(rxbuf[..rxlen]);
      out := [];
      assert out + all.0 == all.0;
      while true
        invariant Valid() && all == Prepend(out, GuestDrain(rxbuf[..rxlen]))
        decreases rxlen
      {
        SkipJunk();
        ghost var b := rxbuf[..rxlen];
        assert out + [] == out;
        if rxlen < HDR_LEN {
          return;
        }
        var len := LengthField(rxbuf[..rxlen]);
        if len > MAX_PAYLOAD {
          assert rxbuf[1..rxlen] == b[1..];
          Shift(1);
          continue;
        }
        var total := HDR_LEN + len + 1;
        if rxlen < total {
          return;
        }
        assert rxbuf[total..rxlen] == b[total..];
        if CrcMatches(rxbuf[..rxlen]) {
          Associates(out, [FrameAt(b)], GuestDrain(b[total..]).0);
          out := out + [FrameAt(rxbuf[..rxlen])];
        }
        Shift(total);
      }
    }
  }

  function Accepted(b: seq<byte>, data: seq<byte>): (r: seq<byte>)
    requires |b| <= RX_SIZE
    ensures |r| <= RX_SIZE
  {
    if |b + data| <= RX_SIZE then b + data else (b + data)[..RX_SIZE]
  }

  function Prepend(out: seq<Frame>, r: (seq<Frame>, seq<byte>)): (seq<Frame>, seq<byte>) {
    (out + r.0, r.1)
  }

  /** A run of polls from an empty accumulator: all frames dispatched, and what is left. */
  function PollRun(chunks: seq<seq<byte>>): (r: (seq<Frame>, seq<byte>))
    ensures |r.1| < RX_SIZE
  {
    if chunks == [] then ([], [])
    else
      var before := PollRun(chunks[..|chunks| - 1]);
      var b := Accepted(before.1, chunks[|chunks| - 1]);
      GuestRestShort(b);
      Prepend(before.0, GuestDrain(b))
  }

  /** Every read fits in the room that the waiting bytes leave. */
  ghost predicate ReadsFit(chunks: seq<seq<byte>>) {
    forall i | 0 <= i < |chunks| :: |PollRun(chunks[..i]).1| + |chunks[i]| <= RX_SIZE
  }

  /** The guest's parse does not depend on how its input is cut, CRC failures or not. */
  lemma {:induction false} GuestChunkInvariant(a: seq<byte>, b: seq<byte>)
    ensures GuestDrain(a + b) == Prepend(GuestDrain(a).0, GuestDrain(GuestDrain(a).1 + b))
    decreases |a|
  {
    hide FrameAt, CrcMatches;
    if Next(a) == Wait {
      assert [] + GuestDrain(a + b).0 == GuestDrain(a + b).0;
    } else {
      NextStable(a, b);
      var n := Advance(a);
      AdvanceStable(a, b);
      GuestChunkInvariant(a[n..], b);
      GuestStep(a);
      GuestStep(a + b);
      hide Next, GuestDrain;
      if Next(a) == Take {
        Associates([FrameAt(a)], GuestDrain(a[n..]).0, GuestDrain(GuestDrain(a[n..]).1 + b).0);
      }
    }
  }

  /** How far the guest moves in one step. */
  function Advance(b: seq<byte>): (n: nat)
    requires Next(b) != Wait
    ensures 0 < n <= |b|
  {
    if Next(b) == Take || Next(b) == BadCrc then HDR_LEN + LengthField(b) + 1 else 1
  }

  lemma AdvanceStable(a: seq<byte>, b: seq<byte>)
    requires Next(a) != Wait && Next(a + b) == Next(a)
    ensures Advance(a + b) == Advance(a) && (a + b)[Advance(a)..] == a[Advance(a)..] + b
  {
    hide CrcMatches;
  }

  lemma GuestStep(b: seq<byte>)
    ensures Next(b) != Wait ==>
              GuestDrain(b) == Prepend(if Next(b) == Take then [FrameAt(b)] else [], GuestDrain(b[Advance(b)..]))
  {
    hide FrameAt, CrcMatches;
    if Next(b) != Wait { assert [] + GuestDrain(b[Advance(b)..]).0 == GuestDrain(b[Advance(b)..]).0; }
  }

  /** While reads fit, polling a stream in pieces is parsing it whole. */
  lemma {:induction false} PollsAreOneParse(chunks: seq<seq<byte>>)
    requires ReadsFit(chunks)
    ensures PollRun(chunks) == GuestDrain(Concat(chunks))
  {
    hide GuestDrain;
    if chunks == [] {
      EmptyWaits();
    } else {
      var p, c := chunks[..|chunks| - 1], chunks[|chunks| - 1];
      forall i | 0 <= i < |p| ensures |PollRun(p[..i]).1| + |p[i]| <= RX_SIZE { assert p[..i] == chunks[..i]; }
      PollsAreOneParse(p);
      assert |PollRun(chunks[..|chunks| - 1]).1| + |c| <= RX_SIZE;
      GuestChunkInvariant(Concat(p), c);
    }
  }

  // ---- where guest and host part ----

  /** The offsets at which the host takes a frame, parsing s from o on, and the offset at which it waits. */
  function HostAt(s: seq<byte>, o: nat): (r: (seq<nat>, nat))
    requires o <= |s|
    ensures o <= r.1 <= |s|
    decreases |s| - o
  {
    var b := s[o..];
    if Next(b) == Wait then ([], o)
    else if Next(b) == Take then var r := HostAt(s, o + Advance(b)); ([o] + r.0, r.1)
    else HostAt(s, o + 1)
  }

  /** The same for the guest, which passes a frame with a bad CRC as a whole. */
  function GuestAt(s: seq<byte>, o: nat): (r: (seq<nat>, nat))
    requires o <= |s|
    ensures o <= r.1 <= |s| && (r.0 != [] ==> r.0[0] >= o)
    decreases |s| - o
  {
    var b := s[o..];
    if Next(b) == Wait then ([], o)
    else
      var r := GuestAt(s, o + Advance(b));
      if Next(b) == Take then ([o] + r.0, r.1) else r
  }

  /** Inside the frame of length n at o no good frame and no unfinished frame begins. */
  predicate Hollow(s: seq<byte>, o: nat, n: nat)
    requires o + n <= |s|
  {
    forall k | o < k < o + n :: Next(s[k..]) != Take && Next(s[k..]) != Wait
  }

  /** Every frame the guest discards for its CRC is hollow. */
  predicate Clear(s: seq<byte>, o: nat)
    requires o <= |s|
    decreases |s| - o
  {
    var b := s[o..];
    Next(b) != Wait ==> (Next(b) == BadCrc ==> Hollow(s, o, Advance(b))) && Clear(s, o + Advance(b))
  }

  lemma {:induction false} HostPasses(s: seq<byte>, o: nat, e: nat)
    requires o <= e <= |s| && forall k | o <= k < e :: Next(s[k..]) != Take && Next(s[k..]) != Wait
    ensures HostAt(s, o) == HostAt(s, e)
    decreases e - o
  {
    hide Next;
    if o < e { HostPasses(s, o + 1, e); }
  }

  /** The first offset inside a discarded frame at which the host does not move on by one. */
  lemma {:induction false} FirstCatch(s: seq<byte>, o: nat, e: nat) returns (k: nat)
    requires o <= e <= |s| && exists j :: o <= j < e && (Next(s[j..]) == Take || Next(s[j..]) == Wait)
    ensures o <= k < e && (Next(s[k..]) == Take || Next(s[k..]) == Wait)
    ensures forall j | o <= j < k :: Next(s[j..]) != Take && Next(s[j..]) != Wait
    decreases e - o
  {
    hide Next;
    if Next(s[o..]) == Take || Next(s[o..]) == Wait { k := o; } else { k := FirstCatch(s, o + 1, e); }
  }

  /** Exactly when the two parsers take the same frames at the same places and keep the same rest: when no frame
      the guest discards for its CRC hides the beginning of another frame, good or unfinished. */
  lemma {:induction false} AgreeIffClear(s: seq<byte>, o: nat)
    requires o <= |s|
    ensures GuestAt(s, o) == HostAt(s, o) <==> Clear(s, o)
    decreases |s| - o
  {
    hide Next, Advance;
    var b := s[o..];
    if Next(b) != Wait {
      var n := Advance(b);
      AgreeIffClear(s, o + n);
      if Next(b) == Take {
        var g, h := GuestAt(s, o + n), HostAt(s, o + n);
        assert ([o] + g.0)[1..] == g.0 && ([o] + h.0)[1..] == h.0;
      } else if Next(b) == BadCrc {
        if Hollow(s, o, n) {
          HostPasses(s, o + 1, o + n);
        } else {
          var k := FirstCatch(s, o + 1, o + n);
          HostPasses(s, o + 1, k);
        }
      } else {
        AdvanceByOne(b);
      }
    }
  }

  lemma AdvanceByOne(b: seq<byte>)
    requires Next(b) == Skip || Next(b) == BadLength
    ensures Advance(b) == 1
  {
  }

  predicate TakenAt(s: seq<byte>, offs: seq<nat>) {
    forall i | 0 <= i < |offs| :: offs[i] <= |s| && Next(s[offs[i]..]) == Take
  }

  /** The frames found at given offsets. */
  function FramesAt(s: seq<byte>, offs: seq<nat>): seq<Frame>
    requires TakenAt(s, offs)
  {
    if offs == [] then []
    else
      assert offs[0] <= |s| && Next(s[offs[0]..]) == Take;
      [FrameAt(s[offs[0]..])] + FramesAt(s, offs[1..])
  }

  lemma TakenCons(s: seq<byte>, o: nat, offs: seq<nat>)
    requires o <= |s| && Next(s[o..]) == Take && TakenAt(s, offs)
    ensures TakenAt(s, [o] + offs) && FramesAt(s, [o] + offs) == [FrameAt(s[o..])] + FramesAt(s, offs)
  {
    hide Next, FrameAt;
    assert ([o] + offs)[1..] == offs;
  }

  lemma TakenNone(s: seq<byte>)
    ensures TakenAt(s, []) && FramesAt(s, []) == []
  {
  }

  /** The offsets are those of the frames the host parser returns... */
  lemma {:induction false} HostFrames(s: seq<byte>, o: nat)
    requires o <= |s|
    ensures TakenAt(s, HostAt(s, o).0)
    ensures Drain(s[o..]).frames == FramesAt(s, HostAt(s, o).0) && Drain(s[o..]).rest == s[HostAt(s, o).1..]
    decreases |s| - o
  {
    hide FrameAt, TakenAt, FramesAt, Next, Advance, After;
    var b := s[o..];
    TakenNone(s);
    if Next(b) != Wait {
      var n := if Next(b) == Take then Advance(b) else 1;
      HostMoves(b);
      assert b[n..] == s[o + n..];
      HostFrames(s, o + n);
      assert [] + Drain(b[n..]).frames == Drain(b[n..]).frames;
      if Next(b) == Take { TakenCons(s, o, HostAt(s, o + n).0); }
    }
  }

  lemma HostMoves(b: seq<byte>)
    requires Next(b) != Wait
    ensures After(b) == b[if Next(b) == Take then Advance(b) else 1..]
  {
    hide CrcMatches;
  }

  /** ...and of those the guest dispatches. */
  lemma {:induction false} GuestFrames(s: seq<byte>, o: nat)
    requires o <= |s|
    ensures TakenAt(s, GuestAt(s, o).0)
    ensures GuestDrain(s[o..]) == (FramesAt(s, GuestAt(s, o).0), s[GuestAt(s, o).1..])
    decreases |s| - o
  {
    hide FrameAt, TakenAt, FramesAt, Next, Advance, GuestDrain;
    var b := s[o..];
    TakenNone(s);
    if Next(b) == Wait {
      GuestWaits(b);
    } else {
      var n := Advance(b);
      assert b[n..] == s[o + n..];
      GuestFrames(s, o + n);
      GuestStep(b);
      assert [] + GuestDrain(b[n..]).0 == GuestDrain(b[n..]).0;
      if Next(b) == Take { TakenCons(s, o, GuestAt(s, o + n).0); }
    }
  }

  lemma GuestWaits(b: seq<byte>)
    requires Next(b) == Wait
    ensures GuestDrain(b) == ([], b)
  {
  }

  /** No frame the guest discards contains a second magic octet. */
  predicate NoInnerMagic(s: seq<byte>, o: nat)
    requires o <= |s|
    decreases |s| - o
  {
    var b := s[o..];
    Next(b) != Wait ==> (Next(b) == BadCrc ==> MAGIC !in b[1..Advance(b)]) && NoInnerMagic(s, o + Advance(b))
  }

  lemma {:induction false} NoInnerMagicClear(s: seq<byte>, o: nat)
    requires o <= |s| && NoInnerMagic(s, o)
    ensures Clear(s, o)
    decreases |s| - o
  {
    hide Advance, Next;
    var b := s[o..];
    if Next(b) != Wait {
      var n := Advance(b);
      NoInnerMagicClear(s, o + n);
      if Next(b) == BadCrc {
        forall k | o < k < o + n
          ensures Next(s[k..]) == Skip
        {
          assert s[k] == b[1..n][k - o - 1];
          SkipsPlain(s[k..]);
        }
      }
    }
  }

  lemma SkipsPlain(b: seq<byte>)
    requires b != [] && b[0] != MAGIC
    ensures Next(b) == Skip
  {
  }

  lemma {:induction false} NoFailureClear(s: seq<byte>, o: nat)
    requires o <= |s| && Drain(s[o..]).badCrc == 0
    ensures Clear(s, o)
    decreases |s| - o
  {
    hide FrameAt, CrcMatches;
    var b := s[o..];
    if Next(b) != Wait {
      assert Next(b) != BadCrc;
      assert After(b) == s[o + Advance(b)..];
      hide Next, Advance;
      NoFailureClear(s, o + Advance(b));
    }
  }

  /** Over every run of polls whose reads fit, the guest dispatches exactly the host's frames, however the stream
      was cut, whenever the stream is clear: in particular if no frame failed its CRC, or none that did contains a
      second magic octet. */
  lemma GuestMatchesHost(chunks: seq<seq<byte>>)
    requires ReadsFit(chunks)
    ensures var s := Concat(chunks);
            && (Clear(s, 0) ==> PollRun(chunks) == (Drain(s).frames, Drain(s).rest))
            && (Drain(s).badCrc == 0 || NoInnerMagic(s, 0) ==> Clear(s, 0))
  {
    hide Next, Clear, HostAt, GuestAt, NoInnerMagic, GuestDrain, Drain;
    var s := Concat(chunks);
    PollsAreOneParse(chunks);
    assert s[0..] == s;
    AgreeIffClear(s, 0);
    HostFrames(s, 0);
    GuestFrames(s, 0);
    if Drain(s).badCrc == 0 { NoFailureClear(s, 0); }
    if NoInnerMagic(s, 0) { NoInnerMagicClear(s, 0); }
  }

  // ---- when reads fit ----

  const READ_MAX := 128

  /** On a stream of frames with payloads of at most cap octets every read of at most r fits, if a frame less one
      octet and a read fit the buffer together, and the guest dispatches exactly those frames. */
  lemma {:induction false} BuiltStreamFits(frs: seq<Frame>, chunks: seq<seq<byte>>, y: seq<byte>, cap: nat, r: nat)
    requires Stream(frs) == Concat(chunks) + y && cap <= MAX_PAYLOAD && HDR_LEN + cap + r <= RX_SIZE
    requires (forall i | 0 <= i < |frs| :: |frs[i].payload| <= cap)
    requires (forall i | 0 <= i < |chunks| :: |chunks[i]| <= r)
    ensures ReadsFit(chunks)
    decreases |chunks|
  {
    hide Stream, GuestDrain, Drain;
    if chunks != [] {
      var p, c := chunks[..|chunks| - 1], chunks[|chunks| - 1];
      assert (Concat(p) + c) + y == Concat(p) + (c + y);
      BuiltStreamFits(frs, p, c + y, cap, r);
      PollsAreOneParse(p);
      PrefixRest(frs, Concat(p), c + y, cap);
      GuestAgrees(Concat(p));
      forall i | 0 <= i < |chunks|
        ensures |PollRun(chunks[..i]).1| + |chunks[i]| <= RX_SIZE
      {
        if i < |p| { assert chunks[..i] == p[..i] && chunks[i] == p[i]; }
      }
    }
  }

  /** The source's reads of 128 octets lose nothing on frames with payloads of at most 385 octets, however cut: more
      than any request the host sends for a circuit the broker admits. */
  lemma NothingLost(frs: seq<Frame>, chunks: seq<seq<byte>>)
    requires Stream(frs) == Concat(chunks)
    requires (forall i | 0 <= i < |frs| :: |frs[i].payload| <= 385)
    requires (forall i | 0 <= i < |chunks| :: |chunks[i]| <= READ_MAX)
    ensures PollRun(chunks) == (frs, [])
  {
    hide Stream, GuestDrain, Drain;
    assert Concat(chunks) + [] == Concat(chunks);
    BuiltStreamFits(frs, chunks, [], 385, READ_MAX);
    PollsAreOneParse(chunks);
    PrefixRest(frs, Concat(chunks), [], 385);
    GuestAgrees(Concat(chunks));
    StreamRoundTrip([], frs, []);
    EmptyDrain();
    assert [] + (Stream(frs) + []) == Stream(frs) && frs + [] == frs;
  }

  lemma {:induction false} ShortRunFits(chunks: seq<seq<byte>>)
    requires |Concat(chunks)| <= RX_SIZE
    ensures ReadsFit(chunks)
  {
    hide GuestDrain, PollRun;
    if chunks != [] {
      var p, c := chunks[..|chunks| - 1], chunks[|chunks| - 1];
      assert |Concat(p)| + |c| <= RX_SIZE;
      ShortRunFits(p);
      PollsAreOneParse(p);
      hide Concat;
      forall i | 0 <= i < |chunks|
        ensures |PollRun(chunks[..i]).1| + |chunks[i]| <= RX_SIZE
      {
        if i < |p| {
          assert chunks[..i] == p[..i] && chunks[i] == p[i];
        } else {
          assert chunks[..i] == p && chunks[i] == c;
        }
      }
    }
  }

  /** The bound is exact: behind any longer frame a, all but its last octet already read, a read of 128 octets with
      the whole of another good frame loses the end of that frame, and the guest never dispatches it. */
  lemma FrameLost(a: Frame, b: Frame, before: seq<seq<byte>>)
    requires 385 < |a.payload| <= MAX_PAYLOAD && |b.payload| == 122
    requires Concat(before) == Build(a)[..HDR_LEN + |a.payload|]
    ensures var read := Build(a)[HDR_LEN + |a.payload|..] + Build(b);
            && |read| == READ_MAX
            && PollRun(before + [read]) == ([a], Build(b)[..MAX_PAYLOAD - |a.payload|])
            && Drain(Concat(before + [read])).frames == [a, b]
  {
    hide Build, GuestDrain, Drain;
    var x, n := Build(a), HDR_LEN + |a.payload|;
    var read := x[n..] + Build(b);
    var k := MAX_PAYLOAD - |a.payload|;
    var all := before + [read];
    assert all[..|all| - 1] == before;
    ShortRunFits(before);
    PollsAreOneParse(before);
    CutFrame(a, x[..n]);
    GuestAgrees(x[..n]);
    assert x[..n] + read == x + Build(b);
    assert (x + Build(b))[..RX_SIZE] == x + Build(b)[..k];
    GuestTakes(a, Build(b)[..k]);
    CutFrame(b, Build(b)[..k]);
    GuestAgrees(Build(b)[..k]);
    DrainBuilt(a, Build(b));
    DrainBuilt(b, []);
    EmptyDrain();
    assert Build(b) + [] == Build(b) && [a] + [b] == [a, b] && [] + [a] == [a] && [a] + [] == [a];
  }

  lemma GuestTakes(fr: Frame, x: seq<byte>)
    requires |fr.payload| <= MAX_PAYLOAD
    ensures GuestDrain(Build(fr) + x) == Prepend([fr], GuestDrain(x))
  {
    hide Build, FrameAt, CrcMatches;
    BuiltHead(fr, x);
    GuestStep(Build(fr) + x);
    assert After(Build(fr) + x) == (Build(fr) + x)[Advance(Build(fr) + x)..];
  }
}
