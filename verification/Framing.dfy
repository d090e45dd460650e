/** The COM2 frame codec: the two builders, the host's resynchronising parser and the guest's. */
module Framing {
  import opened Bytes
  import opened Crc

  const MAGIC: byte := 0xA5
  const HDR_LEN := 4
  const MAX_PAYLOAD := 512

  datatype Frame = Frame(kind: byte, payload: seq<byte>)

  /** The type, length and payload octets: what the CRC covers. */
  function Body(fr: Frame): (r: seq<byte>)
    ensures |r| == 3 + |fr.payload|
  {
    [fr.kind, Octet(|fr.payload|), Octet(|fr.payload| / 256)] + fr.payload
  }

  /** frame(): magic, body, CRC. The length field holds the payload length modulo 2^16. */
  function Build(fr: Frame): (r: seq<byte>)
    ensures |r| == HDR_LEN + |fr.payload| + 1
  {
    [MAGIC] + Body(fr) + [Crc8(Body(fr))]
  }

  function Stream(frs: seq<Frame>): seq<byte> {
    if frs == [] then [] else Build(frs[0]) + Stream(frs[1..])
  }

  // ---- the host parser ----

  datatype Parsed = Parsed(frames: seq<Frame>, badCrc: nat, badLen: nat, rest: seq<byte>)

  function LengthField(b: seq<byte>): nat
    requires |b| >= HDR_LEN
  {
    b[2] as nat + 256 * (b[3] as nat)
  }

  predicate CrcMatches(b: seq<byte>)
    requires |b| >= HDR_LEN && |b| >= HDR_LEN + LengthField(b) + 1
  {
    Crc8(b[1..HDR_LEN + LengthField(b)]) == b[HDR_LEN + LengthField(b)]
  }

  function FrameAt(b: seq<byte>): Frame
    requires |b| >= HDR_LEN && |b| >= HDR_LEN + LengthField(b) + 1
  {
    Frame(b[1], b[HDR_LEN..HDR_LEN + LengthField(b)])
  }

  /** What the parser does with the head of its buffer. */
  datatype Step = Skip | Wait | BadLength | BadCrc | Take

  function Next(b: seq<byte>): (s: Step)
    ensures s != Wait ==> b != []
    ensures s == Take ==> |b| >= HDR_LEN && |b| >= HDR_LEN + LengthField(b) + 1
  {
    if b != [] && b[0] != MAGIC then Skip
    else if |b| < HDR_LEN then Wait
    else if LengthField(b) > MAX_PAYLOAD then BadLength
    else if |b| < HDR_LEN + LengthField(b) + 1 then Wait
    else if CrcMatches(b) then Take
    else BadCrc
  }

  function After(b: seq<byte>): (r: seq<byte>)
    requires Next(b) != Wait
    ensures |r| < |b|
  {
    if Next(b) == Take then b[HDR_LEN + LengthField(b) + 1..] else b[1..]
  }

  /** Everything extracted from a buffer before the parser has to wait. */
  function Drain(b: seq<byte>): (r: Parsed)
    decreases |b|
  {
    match Next(b)
    case Wait => Parsed([], 0, 0, b)
    case Skip => Drain(After(b))
    case Take => Join(Parsed([FrameAt(b)], 0, 0, []), Drain(After(b)))
    case BadLength => Join(Parsed([], 0, 1, []), Drain(After(b)))
    case BadCrc => Join(Parsed([], 1, 0, []), Drain(After(b)))
  }

  function Join(a: Parsed, b: Parsed): Parsed {
    Parsed(a.frames + b.frames, a.badCrc + b.badCrc, a.badLen + b.badLen, b.rest)
  }

  /** A frame octet by octet: 0xA5, kind, payload length with its least significant octet first, payload, and the CRC of
      all but the first. */
  lemma BuildLayout(fr: Frame)
    ensures var c := [fr.kind, Octet(|fr.payload|), Octet(|fr.payload| / 256)] + fr.payload;
            Build(fr) == [0xA5] + c + [Crc8(c)]
  {
  }

  /** What the host does with its buffer, on the octets: what it skips, what it waits for, what it counts. */
  lemma DrainSteps(b: seq<byte>)
    ensures b == [] || (|b| < 4 && b[0] == 0xA5) ==> Drain(b) == Parsed([], 0, 0, b)
    ensures b != [] && b[0] != 0xA5 ==> Drain(b) == Drain(b[1..])
    ensures |b| >= 4 && b[0] == 0xA5 ==>
              var n := b[2] as nat + 256 * (b[3] as nat);
              var d := Drain(b[1..]);
              && (n <= 512 && |b| < n + 5 ==> Drain(b) == Parsed([], 0, 0, b))
              && (n > 512 ==> Drain(b) == Parsed(d.frames, d.badCrc, d.badLen + 1, d.rest))
              && (n <= 512 && |b| >= n + 5 && Crc8(b[1..n + 4]) != b[n + 4] ==>
                    Drain(b) == Parsed(d.frames, d.badCrc + 1, d.badLen, d.rest))
  {
    NextIs(b);
    DrainStep(b);
    hide Next, Drain;
    if Next(b) == BadLength || Next(b) == BadCrc { NoFrames(Drain(b[1..])); }
  }

  /** ...and what it takes. */
  lemma DrainTakes(b: seq<byte>, n: nat)
    requires |b| >= 4 && b[0] == 0xA5 && n == b[2] as nat + 256 * (b[3] as nat) && n <= 512 && |b| >= n + 5
    requires Crc8(b[1..n + 4]) == b[n + 4]
    ensures var d := Drain(b[n + 5..]);
            Drain(b) == Parsed([Frame(b[1], b[4..n + 4])] + d.frames, d.badCrc, d.badLen, d.rest)
  {
    NextIs(b);
    DrainStep(b);
    hide Next, Drain;
  }

  /** The decision on the octets. */
  lemma NextIs(b: seq<byte>)
    ensures b == [] || (|b| < 4 && b[0] == 0xA5) ==> Next(b) == Wait
    ensures b != [] && b[0] != 0xA5 ==> Next(b) == Skip
    ensures |b| >= 4 && b[0] == 0xA5 ==>
              var n := b[2] as nat + 256 * (b[3] as nat);
              && (n <= 512 && |b| < n + 5 ==> Next(b) == Wait)
              && (n > 512 ==> Next(b) == BadLength)
              && (n <= 512 && |b| >= n + 5 ==>
                    Next(b) == if Crc8(b[1..n + 4]) == b[n + 4] then Take else BadCrc)
  {
    hide Crc8;
  }

  lemma DrainStep(b: seq<byte>)
    ensures Next(b) == Wait ==> Drain(b) == Parsed([], 0, 0, b)
    ensures Next(b) == Skip ==> Drain(b) == Drain(b[1..])
    ensures Next(b) == Take ==>
              Drain(b) == Join(Parsed([FrameAt(b)], 0, 0, []), Drain(b[HDR_LEN + LengthField(b) + 1..]))
    ensures Next(b) == BadLength ==> Drain(b) == Join(Parsed([], 0, 1, []), Drain(b[1..]))
    ensures Next(b) == BadCrc ==> Drain(b) == Join(Parsed([], 1, 0, []), Drain(b[1..]))
  {
    hide Next;
  }

  lemma NoFrames(d: Parsed)
    ensures [] + d.frames == d.frames
  {
  }

  lemma JoinAssoc(a: Parsed, b: Parsed, c: Parsed)
    ensures Join(Join(a, b), c) == Join(a, Join(b, c))
  {
    assert (a.frames + b.frames) + c.frames == a.frames + (b.frames + c.frames);
  }

  lemma JoinNothing(a: Parsed, rest: seq<byte>)
    ensures Join(Parsed([], 0, 0, rest), a) == a
  {
  }

  /** A decision already taken is not changed by what arrives later. */
  lemma NextStable(a: seq<byte>, b: seq<byte>)
    requires Next(a) != Wait
    ensures Next(a + b) == Next(a) && After(a + b) == After(a) + b
    ensures Next(a) == Take ==> FrameAt(a + b) == FrameAt(a)
  {
    assert (a + b)[1..] == a[1..] + b;
    if |a| >= HDR_LEN && |a| >= HDR_LEN + LengthField(a) + 1 {
      assert LengthField(a + b) == LengthField(a);
      assert (a + b)[1..HDR_LEN + LengthField(a)] == a[1..HDR_LEN + LengthField(a)];
      assert (a + b)[HDR_LEN..HDR_LEN + LengthField(a)] == a[HDR_LEN..HDR_LEN + LengthField(a)];
      assert (a + b)[HDR_LEN + LengthField(a) + 1..] == a[HDR_LEN + LengthField(a) + 1..] + b;
    }
  }

  /** Chunk invariance: feeding a then b gives the frames, counters and buffer of feeding a + b. */
  lemma {:induction false} ChunkInvariant(a: seq<byte>, b: seq<byte>)
    ensures Drain(a + b) == Join(Drain(a), Drain(Drain(a).rest + b))
    decreases |a|
  {
    hide Next, After, FrameAt, Join;
    if Next(a) == Wait {
      JoinNothing(Drain(a + b), a);
    } else {
      NextStable(a, b);
      ChunkInvariant(After(a), b);
      var d := Drain(After(a));
      var e := Drain(d.rest + b);
      JoinKeepsRest(Parsed([], 0, 0, []), d);
      if Next(a) == Take {
        JoinAssoc(Parsed([FrameAt(a)], 0, 0, []), d, e);
        JoinKeepsRest(Parsed([FrameAt(a)], 0, 0, []), d);
      } else {
        JoinAssoc(Parsed([], 0, 1, []), d, e);
        JoinAssoc(Parsed([], 1, 0, []), d, e);
        JoinKeepsRest(Parsed([], 0, 1, []), d);
        JoinKeepsRest(Parsed([], 1, 0, []), d);
      }
    }
  }

  lemma JoinKeepsRest(a: Parsed, b: Parsed)
    ensures Join(a, b).rest == b.rest
  {
  }

  lemma EmptyDrain()
    ensures Drain([]) == Parsed([], 0, 0, [])
  {
  }

  /** What is left over never yields anything by itself. */
  lemma {:induction false} RestIsWaiting(b: seq<byte>)
    ensures Next(Drain(b).rest) == Wait && |Drain(b).rest| <= |b|
    ensures forall i | 0 <= i < |Drain(b).frames| :: |Drain(b).frames[i].payload| <= MAX_PAYLOAD
    decreases |b|
  {
    if Next(b) != Wait { RestIsWaiting(After(b)); }
  }

  /** A waiting buffer is shorter than the longest frame. */
  lemma WaitingIsShort(b: seq<byte>)
    requires Next(b) == Wait
    ensures |b| < HDR_LEN + MAX_PAYLOAD + 1
  {
  }

  /** One built frame of legal size, with anything after it. */
  lemma DrainBuilt(fr: Frame, x: seq<byte>)
    requires |fr.payload| <= MAX_PAYLOAD
    ensures Drain(Build(fr) + x) == Join(Parsed([fr], 0, 0, []), Drain(x))
  {
    hide Body, Join, FrameAt, Next, After;
    BuiltHead(fr, x);
  }

  lemma BuiltHead(fr: Frame, x: seq<byte>)
    requires |fr.payload| <= MAX_PAYLOAD
    ensures var b := Build(fr) + x;
            Next(b) == Take && FrameAt(b) == fr && After(b) == x
  {
    hide Crc8, Octet, Body;
    var b := Build(fr) + x;
    var n := |fr.payload|;
    BodyParts(fr);
    assert b[1..HDR_LEN + n] == Body(fr) && b[HDR_LEN + n] == Crc8(Body(fr)) && b[HDR_LEN + n + 1..] == x;
    assert b[1] == Body(fr)[0] && b[2] == Body(fr)[1] && b[3] == Body(fr)[2];
    LengthSplits(n);
    LengthIs(b, n % 256, n / 256 % 256);
    assert b[HDR_LEN..HDR_LEN + n] == Body(fr)[3..];
    hide Build;
    assert CrcMatches(b);
  }

  lemma LengthSplits(n: nat)
    requires n < 0x1_0000
    ensures n % 256 + 256 * (n / 256 % 256) == n
  {
  }

  lemma LengthIs(b: seq<byte>, lo: nat, hi: nat)
    requires |b| >= HDR_LEN && b[2] as nat == lo && b[3] as nat == hi
    ensures LengthField(b) == lo + 256 * hi
  {
  }

  lemma BodyParts(fr: Frame)
    ensures Body(fr)[0] == fr.kind && Body(fr)[3..] == fr.payload
    ensures Body(fr)[1] as nat == |fr.payload| % 256 && Body(fr)[2] as nat == |fr.payload| / 256 % 256
  {
    hide Octet;
  }

  /** Magic-free junk is skipped. */
  lemma {:induction false} JunkSkipped(j: seq<byte>, x: seq<byte>)
    requires MAGIC !in j
    ensures Drain(j + x) == Drain(x)
  {
    if j == [] {
      assert j + x == x;
    } else {
      assert (j + x)[1..] == j[1..] + x;
      assert Next(j + x) == Skip;
      JunkSkipped(j[1..], x);
    }
  }

  /** Exactly the frames that were built come out of their concatenation, after any magic-free junk. */
  lemma {:induction false} StreamRoundTrip(j: seq<byte>, frs: seq<Frame>, x: seq<byte>)
    requires MAGIC !in j && forall i | 0 <= i < |frs| :: |frs[i].payload| <= MAX_PAYLOAD
    ensures Drain(j + (Stream(frs) + x)) == Join(Parsed(frs, 0, 0, []), Drain(x))
    decreases |frs|
  {
    hide Build, Drain, Join;
    JunkSkipped(j, Stream(frs) + x);
    if frs == [] {
      assert Stream(frs) + x == x;
      JoinNothing(Drain(x), []);
    } else {
      assert Stream(frs) + x == Build(frs[0]) + (Stream(frs[1..]) + x);
      DrainBuilt(frs[0], Stream(frs[1..]) + x);
      StreamRoundTrip([], frs[1..], x);
      assert [] + (Stream(frs[1..]) + x) == Stream(frs[1..]) + x;
      JoinAssoc(Parsed([frs[0]], 0, 0, []), Parsed(frs[1..], 0, 0, []), Drain(x));
      JoinFrames([frs[0]], frs[1..]);
      assert frs == [frs[0]] + frs[1..];
    }
  }

  lemma JoinFrames(a: seq<Frame>, b: seq<Frame>)
    ensures Join(Parsed(a, 0, 0, []), Parsed(b, 0, 0, [])) == Parsed(a + b, 0, 0, [])
  {
  }

  /** A built frame is recovered exactly when its payload is of legal size. */
  lemma RecoveredIffLegal(fr: Frame)
    ensures Drain(Build(fr)).frames == [fr] <==> |fr.payload| <= MAX_PAYLOAD
  {
    hide Build;
    if |fr.payload| <= MAX_PAYLOAD {
      DrainBuilt(fr, []);
      assert Build(fr) + [] == Build(fr);
      EmptyDrain();
    } else {
      RestIsWaiting(Build(fr));
      var fs := Drain(Build(fr)).frames;
      if fs != [] { assert |fs[0].payload| <= MAX_PAYLOAD; }
    }
  }

  /** A proper prefix of a stream yields a proper prefix of its frames. */
  lemma {:induction false} CutStream(frs: seq<Frame>, x: seq<byte>, y: seq<byte>)
    requires Stream(frs) == x + y && y != []
    requires forall i | 0 <= i < |frs| :: |frs[i].payload| <= MAX_PAYLOAD
    ensures Drain(x).frames <= frs && |Drain(x).frames| < |frs|
    decreases |frs|
  {
    hide Build, Next, Drain;
    var b, rest, s := Build(frs[0]), Stream(frs[1..]), x + y;
    assert x == s[..|x|] && b == (b + rest)[..|b|] && rest == (b + rest)[|b|..];
    if |x| < |b| {
      assert x == b[..|x|];
      CutFrame(frs[0], x);
    } else {
      var x' := x[|b|..];
      assert x == b + x' && rest == x' + y;
      CutStream(frs[1..], x', y);
      DrainBuilt(frs[0], x');
      assert frs == [frs[0]] + frs[1..];
    }
  }

  /** Anywhere inside a stream of frames nothing has failed, and what waits is less than a frame. */
  lemma {:induction false} PrefixRest(frs: seq<Frame>, x: seq<byte>, y: seq<byte>, cap: nat)
    requires Stream(frs) == x + y && cap <= MAX_PAYLOAD
    requires forall i | 0 <= i < |frs| :: |frs[i].payload| <= cap
    ensures Drain(x).badCrc == 0 && |Drain(x).rest| <= HDR_LEN + cap
    decreases |frs|
  {
    hide Build, Next, Drain;
    if frs == [] {
      assert x == [];
      EmptyDrain();
    } else {
      var b, rest, s := Build(frs[0]), Stream(frs[1..]), x + y;
      assert x == s[..|x|] && b == (b + rest)[..|b|] && rest == (b + rest)[|b|..];
      if |x| < |b| {
        assert x == b[..|x|];
        CutFrame(frs[0], x);
      } else {
        var x' := x[|b|..];
        assert x == b + x' && rest == x' + y;
        PrefixRest(frs[1..], x', y, cap);
        DrainBuilt(frs[0], x');
      }
    }
  }

  lemma CutFrame(fr: Frame, x: seq<byte>)
    requires |fr.payload| <= MAX_PAYLOAD && |x| < |Build(fr)| && x == Build(fr)[..|x|]
    ensures Drain(x) == Parsed([], 0, 0, x)
  {
    hide Crc8, Octet, Body;
    if |x| >= HDR_LEN {
      BuiltHead(fr, []);
      assert Build(fr) + [] == Build(fr);
      assert LengthField(x) == LengthField(Build(fr));
      assert |Build(fr)| == HDR_LEN + LengthField(Build(fr)) + 1;
    } else if x != [] {
      assert x[0] == MAGIC;
    }
  }

  /** Successive reads, joined. */
  function Concat(chunks: seq<seq<byte>>): seq<byte> {
    if chunks == [] then [] else Concat(chunks[..|chunks| - 1]) + chunks[|chunks| - 1]
  }

  lemma {:induction false} ConcatSplit(chunks: seq<seq<byte>>, k: nat)
    requires k <= |chunks|
    ensures Concat(chunks) == Concat(chunks[..k]) + Concat(chunks[k..])
    decreases |chunks|
  {
    if k == |chunks| {
      assert chunks[..k] == chunks && chunks[k..] == [];
    } else {
      var c := chunks[..|chunks| - 1];
      ConcatSplit(c, k);
      assert c[..k] == chunks[..k] && chunks[k..][..|chunks| - k - 1] == c[k..];
    }
  }

  /** FrameParser. */
  class FrameParser {
    var buf: seq<byte>
    var badCrc: nat
    var badLen: nat

    constructor ()
      ensures buf == [] && badCrc == 0 && badLen == 0
    {
      buf, badCrc, badLen := [], 0, 0;
    }

    /** feed(): always terminates, and leaves what Drain leaves. */
    method Feed(data: seq<byte>) returns (out: seq<Frame>)
      modifies this
      ensures var r := Drain(old(buf) + data);
              out == r.frames && buf == r.rest && badCrc == old(badCrc) + r.badCrc && badLen == old(badLen) + r.badLen
    {
      hide CrcMatches, FrameAt, LengthField, Join;
      buf := buf + data;
      ghost var all := Drain(buf);
      ghost var got := Parsed([], 0, 0, []);
      out := [];
      JoinNothing(all, []);
      while true
        invariant all == Join(got, Drain(buf))
        invariant got.frames == out && got.rest == []
        invariant badCrc == old(badCrc) + got.badCrc && badLen == old(badLen) + got.badLen
        decreases |buf|
      {
        while buf != [] && buf[0] != MAGIC
          invariant all == Join(got, Drain(buf))
          invariant badCrc == old(badCrc) + got.badCrc && badLen == old(badLen) + got.badLen
          decreases |buf|
        {
          buf := buf[1..];
        }
        JoinAssoc(got, Parsed([], 0, 1, []), Drain(buf[if buf == [] then 0 else 1..]));
        JoinAssoc(got, Parsed([], 1, 0, []), Drain(buf[if buf == [] then 0 else 1..]));
        if |buf| < HDR_LEN {
          Concluded(got, buf);
          return;
        }
        var length := LengthField(buf);
        if length > MAX_PAYLOAD {
          badLen := badLen + 1;
          buf := buf[1..];
          got := Counted(got, Parsed([], 0, 1, []));
          continue;
        }
        var total := HDR_LEN + length + 1;
        if |buf| < total {
          Concluded(got, buf);
          return;
        }
        if CrcMatches(buf) {
          JoinAssoc(got, Parsed([FrameAt(buf)], 0, 0, []), Drain(buf[total..]));
          got := Counted(got, Parsed([FrameAt(buf)], 0, 0, []));
          out := out + [FrameAt(buf)];
          buf := buf[total..];
        } else {
          badCrc := badCrc + 1;
          got := Counted(got, Parsed([], 1, 0, []));
          buf := buf[1..];
        }
      }
    }
  }

  ghost function Counted(a: Parsed, b: Parsed): (r: Parsed)
    ensures r == Join(a, b)
    ensures r == Parsed(a.frames + b.frames, a.badCrc + b.badCrc, a.badLen + b.badLen, b.rest)
  {
    Join(a, b)
  }

  lemma Concluded(got: Parsed, b: seq<byte>)
    requires Next(b) == Wait
    ensures Join(got, Drain(b)) == Parsed(got.frames, got.badCrc, got.badLen, b)
  {
  }
}
