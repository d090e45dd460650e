/** The authority ledger: a coalescing ring of the most recent events that survives reboot. */
module Audit {
  import opened Options
  import opened Bytes

  const AUDIT_GRANT: u16 := 1
  const AUDIT_REVOKE: u16 := 7
  const AUDIT_REAP: u16 := 8
  const AUDIT_UNLINK: u16 := 10
  const AUDIT_V_OK: u16 := 1
  const AUDIT_V_EPERM: u16 := 2

  /** What a record says, apart from when it was made. */
  datatype Event = Event(kind: u16, pid: u32, verdict: u16, rtype: u32, rid: u32, perms: u32)

  datatype Entry = Entry(seqno: nat, tick: u64, ev: Event, count: u32)

  const EmptyEntry := Entry(0, 0, Event(0, 0, 0, 0, 0, 0), 0)

  /** An event together with the timer tick at which it was recorded. */
  type Stamped = (Event, u64)

  // ---- the history this boot, run-length encoded ----

  /** One record appended to the entries of this boot, the first of which has number `floor`. */
  function Append(es: seq<Entry>, floor: nat, e: Stamped): (r: seq<Entry>) {
    if es != [] && es[|es| - 1].ev == e.0 then
      var last := es[|es| - 1];
      es[..|es| - 1] + [last.(count := (last.count + 1) % 0x1_0000_0000, tick := e.1)]
    else
      es + [Entry(floor + |es|, e.1, e.0, 1)]
  }

  function Entries(floor: nat, hist: seq<Stamped>): (r: seq<Entry>) {
    if hist == [] then [] else Append(Entries(floor, hist[..|hist| - 1]), floor, hist[|hist| - 1])
  }

  /** The run lengths without the 32-bit wrap of the stored counter. */
  ghost function Counts(hist: seq<Stamped>): (c: seq<nat>)
    ensures hist != [] ==> c != []
  {
    if hist == [] then []
    else
      var h, e := hist[..|hist| - 1], hist[|hist| - 1];
      NextCounts(Counts(h), h != [] && h[|h| - 1].0 == e.0)
  }

  ghost function NextCounts(c: seq<nat>, repeated: bool): (r: seq<nat>)
    ensures r != []
  {
    if repeated && c != [] then c[..|c| - 1] + [c[|c| - 1] + 1] else c + [1]
  }

  function Events(hist: seq<Stamped>): (r: seq<Event>)
    ensures |r| == |hist|
  {
    seq(|hist|, i requires 0 <= i < |hist| => hist[i].0)
  }

  function Labels(es: seq<Entry>): (r: seq<Event>)
    ensures |r| == |es|
  {
    seq(|es|, i requires 0 <= i < |es| => es[i].ev)
  }

  function Repeat(e: Event, n: nat): (r: seq<Event>)
    ensures |r| == n
  {
    seq(n, _ => e)
  }

  /** The meaning of a run-length code: each label repeated its count. */
  function Expand(labels: seq<Event>, counts: seq<nat>): seq<Event>
    requires |labels| == |counts|
  {
    if labels == [] then []
    else Expand(labels[..|labels| - 1], counts[..|counts| - 1]) + Repeat(labels[|labels| - 1], counts[|counts| - 1])
  }

  /** A code with no empty run and no two adjacent equal runs. */
  ghost predicate Canonical(labels: seq<Event>, counts: seq<nat>) {
    && |labels| == |counts|
    && (forall i | 0 <= i < |counts| :: counts[i] > 0)
    && (forall i | 0 < i < |labels| :: labels[i - 1] != labels[i])
  }

  /** Two splits of a sequence into a rest and a maximal final run agree. */
  lemma SameFinalRun(p: seq<Event>, u: Event, x: nat, q: seq<Event>, v: Event, y: nat)
    requires x > 0 && y > 0 && p + Repeat(u, x) == q + Repeat(v, y)
    requires (p == [] || p[|p| - 1] != u) && (q == [] || q[|q| - 1] != v)
    ensures p == q && u == v && x == y
  {
    var s, t := p + Repeat(u, x), q + Repeat(v, y);
    assert s[|s| - 1] == u && t[|t| - 1] == v;
    assert p == s[..|p|] && q == t[..|q|];
  }

  /** The shape of a canonical code: a canonical rest, and a last run that is maximal. */
  lemma LastRun(a: seq<Event>, m: seq<nat>)
    requires Canonical(a, m) && a != []
    ensures |m| == |a| && m[|m| - 1] > 0
    ensures Canonical(a[..|a| - 1], m[..|m| - 1])
    ensures var p := Expand(a[..|a| - 1], m[..|m| - 1]);
            Expand(a, m) == p + Repeat(a[|a| - 1], m[|m| - 1]) && (p == [] || p[|p| - 1] != a[|a| - 1])
  {
    if |a| > 1 {
      var a', m' := a[..|a| - 1], m[..|m| - 1];
      var p := Expand(a', m');
      assert p == Expand(a'[..|a'| - 1], m'[..|m'| - 1]) + Repeat(a'[|a'| - 1], m'[|m'| - 1]);
      assert p[|p| - 1] == a'[|a'| - 1];
    }
  }

  lemma NoRuns(a: seq<Event>, m: seq<nat>)
    requires Canonical(a, m)
    ensures |a| == |m| && (a == [] <==> Expand(a, m) == [])
  {
    if a != [] { LastRun(a, m); }
  }

  /** A canonical code is determined by what it expands to. */
  lemma {:induction false} CanonicalUnique(a: seq<Event>, m: seq<nat>, b: seq<Event>, n: seq<nat>)
    requires Canonical(a, m) && Canonical(b, n) && Expand(a, m) == Expand(b, n)
    ensures a == b && m == n
  {
    hide Expand, Canonical, Repeat;
    if a == [] || b == [] {
      NoRuns(a, m);
      NoRuns(b, n);
    } else {
      LastRun(a, m);
      LastRun(b, n);
      var a', m', b', n' := a[..|a| - 1], m[..|m| - 1], b[..|b| - 1], n[..|n| - 1];
      SameFinalRun(Expand(a', m'), a[|a| - 1], m[|m| - 1], Expand(b', n'), b[|b| - 1], n[|n| - 1]);
      CanonicalUnique(a', m', b', n');
      assert a == a' + [a[|a| - 1]] && b == b' + [b[|b| - 1]];
      assert m == m' + [m[|m| - 1]] && n == n' + [n[|n| - 1]];
    }
  }

  /** es, with unwrapped run lengths cs, is the canonical run-length code of hist: numbered consecutively from
      the floor, counts reduced modulo 2^32, the last entry stamped with its latest occurrence. */
  ghost predicate Encodes(es: seq<Entry>, cs: seq<nat>, floor: nat, hist: seq<Stamped>) {
    && Canonical(Labels(es), cs)
    && Expand(Labels(es), cs) == Events(hist)
    && (forall i | 0 <= i < |es| :: es[i].seqno == floor + i && es[i].count == cs[i] % 0x1_0000_0000)
    && (hist != [] ==> es != [] && es[|es| - 1].ev == hist[|hist| - 1].0 && es[|es| - 1].tick == hist[|hist| - 1].1)
  }

  lemma EmptyEncodes(floor: nat)
    ensures Encodes([], [], floor, [])
  {
  }

  lemma {:induction false} EntriesEncodeHistory(floor: nat, hist: seq<Stamped>)
    ensures Encodes(Entries(floor, hist), Counts(hist), floor, hist)
  {
    hide Append, Encodes, Entries, Counts;
    if hist == [] {
      EmptyEncodes(floor);
      NoEntries(floor);
    } else {
      var h, e := hist[..|hist| - 1], hist[|hist| - 1];
      assert hist == h + [e];
      EntriesEncodeHistory(floor, h);
      EntriesSnoc(floor, h, e);
      CountsSnoc(h, e);
      if h != [] && h[|h| - 1].0 == e.0 {
        CoalesceEncodes(Entries(floor, h), Counts(h), floor, h, e);
      } else {
        NoEntries(floor);
        StartEncodes(Entries(floor, h), Counts(h), floor, h, e);
      }
    }
  }

  lemma NoEntries(floor: nat)
    ensures Entries(floor, []) == [] && Counts([]) == []
  {
  }

  lemma CountsSnoc(h: seq<Stamped>, e: Stamped)
    ensures Counts(h + [e]) == NextCounts(Counts(h), h != [] && h[|h| - 1].0 == e.0)
  {
    assert (h + [e])[..|h + [e]| - 1] == h;
  }

  /** A repeat bumps the last run. */
  lemma CoalesceEncodes(es: seq<Entry>, cs: seq<nat>, floor: nat, h: seq<Stamped>, e: Stamped)
    requires Encodes(es, cs, floor, h) && h != [] && h[|h| - 1].0 == e.0
    ensures |cs| == |es| > 0
    ensures Encodes(Append(es, floor, e), cs[..|cs| - 1] + [cs[|cs| - 1] + 1], floor, h + [e])
  {
    var k := |es| - 1;
    var es', cs' := Append(es, floor, e), cs[..k] + [cs[k] + 1];
    assert Events(h + [e]) == Events(h) + [e.0];
    assert Labels(es') == Labels(es);
    assert cs'[..k] == cs[..k];
    assert Repeat(e.0, cs[k] + 1) == Repeat(e.0, cs[k]) + [e.0];
    assert Labels(es)[k] == e.0;
    CountWraps(cs[k]);
  }

  /** Anything else starts a run of its own. */
  lemma StartEncodes(es: seq<Entry>, cs: seq<nat>, floor: nat, h: seq<Stamped>, e: Stamped)
    requires Encodes(es, cs, floor, h) && (if h == [] then es == [] else h[|h| - 1].0 != e.0)
    ensures Encodes(Append(es, floor, e), cs + [1], floor, h + [e])
  {
    hide Canonical, Expand, Labels, Events;
    LabelsAt(es);
    StartCode(Labels(es), cs, e.0);
    LabelsSnoc(es, Entry(floor + |es|, e.1, e.0, 1));
    EventsSnoc(h, e);
  }

  lemma LabelsAt(es: seq<Entry>)
    ensures |Labels(es)| == |es| && forall i | 0 <= i < |es| :: Labels(es)[i] == es[i].ev
  {
  }

  lemma LabelsSnoc(es: seq<Entry>, x: Entry)
    ensures Labels(es + [x]) == Labels(es) + [x.ev]
  {
  }

  lemma EventsSnoc(h: seq<Stamped>, e: Stamped)
    ensures Events(h + [e]) == Events(h) + [e.0]
  {
  }

  lemma StartCode(l: seq<Event>, cs: seq<nat>, ev: Event)
    requires Canonical(l, cs) && (l != [] ==> l[|l| - 1] != ev)
    ensures Canonical(l + [ev], cs + [1]) && Expand(l + [ev], cs + [1]) == Expand(l, cs) + [ev]
  {
    assert (l + [ev])[..|l|] == l && (cs + [1])[..|cs|] == cs;
    assert Repeat(ev, 1) == [ev];
  }

  // ---- where each event went ----

  /** How often the event has changed up to the i-th. */
  ghost function RunOf(h: seq<Stamped>, i: nat): nat
    requires i < |h|
  {
    if i == 0 then 0 else RunOf(h, i - 1) + if h[i].0 != h[i - 1].0 then 1 else 0
  }

  /** How many of the first n events belong to run r. */
  ghost function InRun(h: seq<Stamped>, n: nat, r: nat): nat
    requires n <= |h|
  {
    if n == 0 then 0 else InRun(h, n - 1, r) + if RunOf(h, n - 1) == r then 1 else 0
  }

  lemma {:induction false} RunPrefix(h: seq<Stamped>, e: Stamped, i: nat)
    requires i < |h|
    ensures RunOf(h + [e], i) == RunOf(h, i)
  {
    if i > 0 { RunPrefix(h, e, i - 1); }
  }

  lemma {:induction false} InRunPrefix(h: seq<Stamped>, e: Stamped, n: nat, r: nat)
    requires n <= |h|
    ensures InRun(h + [e], n, r) == InRun(h, n, r)
  {
    if n > 0 {
      InRunPrefix(h, e, n - 1, r);
      RunPrefix(h, e, n - 1);
    }
  }

  lemma {:induction false} RunMonotone(h: seq<Stamped>, i: nat, j: nat)
    requires i <= j < |h|
    ensures RunOf(h, i) <= RunOf(h, j)
  {
    if i < j { RunMonotone(h, i, j - 1); }
  }

  lemma {:induction false} NoneLater(h: seq<Stamped>, n: nat, r: nat)
    requires n <= |h| && (n > 0 ==> r > RunOf(h, n - 1))
    ensures InRun(h, n, r) == 0
  {
    if n > 0 {
      if n > 1 { RunMonotone(h, n - 2, n - 1); }
      NoneLater(h, n - 1, r);
    }
  }

  ghost predicate Counted(es: seq<Entry>, h: seq<Stamped>) {
    && |es| == (if h == [] then 0 else RunOf(h, |h| - 1) + 1)
    && forall r | 0 <= r < |es| :: es[r].count == InRun(h, |h|, r) % 0x1_0000_0000
  }

  ghost predicate Placed(es: seq<Entry>, floor: nat, h: seq<Stamped>) {
    && (forall i | 0 <= i < |h| :: RunOf(h, i) < |es| && es[RunOf(h, i)].ev == h[i].0)
    && (forall r | 0 <= r < |es| :: es[r].seqno == floor + r)
    && (forall i | 0 <= i < |h| && LastOfRun(h, i) :: RunOf(h, i) < |es| && es[RunOf(h, i)].tick == h[i].1)
  }

  ghost predicate LastOfRun(h: seq<Stamped>, i: nat)
    requires i < |h|
  {
    i + 1 < |h| ==> h[i + 1].0 != h[i].0
  }

  lemma RunSnoc(h: seq<Stamped>, e: Stamped)
    ensures var g := h + [e];
            && (forall i: nat | i < |h| :: RunOf(g, i) == RunOf(h, i) <= RunOf(h, |h| - 1))
            && RunOf(g, |h|) == (if h == [] then 0 else RunOf(h, |h| - 1) + if e.0 != h[|h| - 1].0 then 1 else 0)
  {
    forall i: nat | i < |h|
      ensures RunOf(h + [e], i) == RunOf(h, i) <= RunOf(h, |h| - 1)
    {
      RunPrefix(h, e, i);
      RunMonotone(h, i, |h| - 1);
    }
  }

  lemma InRunSnoc(h: seq<Stamped>, e: Stamped, r: nat)
    ensures var g := h + [e]; InRun(g, |g|, r) == InRun(h, |h|, r) + if RunOf(g, |h|) == r then 1 else 0
    ensures (h == [] || r > RunOf(h, |h| - 1)) ==> InRun(h, |h|, r) == 0
  {
    hide RunOf;
    InRunPrefix(h, e, |h|, r);
    if h == [] || r > RunOf(h, |h| - 1) { NoneLater(h, |h|, r); }
  }

  lemma AppendIs(es: seq<Entry>, floor: nat, e: Stamped)
    ensures var es', k := Append(es, floor, e), |es| - 1;
            if es != [] && es[k].ev == e.0 then
              && |es'| == |es| && (forall r | 0 <= r < k :: es'[r] == es[r])
              && es'[k] == es[k].(count := (es[k].count + 1) % 0x1_0000_0000, tick := e.1)
            else
              && |es'| == |es| + 1 && (forall r | 0 <= r <= k :: es'[r] == es[r])
              && es'[|es|] == Entry(floor + |es|, e.1, e.0, 1)
  {
  }

  lemma CountedStep(es: seq<Entry>, floor: nat, h: seq<Stamped>, e: Stamped)
    requires Counted(es, h) && Placed(es, floor, h)
    ensures Counted(Append(es, floor, e), h + [e])
  {
    hide InRun, RunOf, Append;
    var g, es' := h + [e], Append(es, floor, e);
    AppendIs(es, floor, e);
    RunSnoc(h, e);
    forall r: nat | r < |es'|
      ensures es'[r].count == InRun(g, |g|, r) % 0x1_0000_0000
    {
      InRunSnoc(h, e, r);
      CountWraps(InRun(h, |h|, r));
    }
  }

  lemma PlacedStep(es: seq<Entry>, floor: nat, h: seq<Stamped>, e: Stamped)
    requires Counted(es, h) && Placed(es, floor, h)
    ensures Placed(Append(es, floor, e), floor, h + [e])
  {
    hide InRun, RunOf, Append;
    var g, es' := h + [e], Append(es, floor, e);
    AppendIs(es, floor, e);
    RunSnoc(h, e);
    forall i: nat | i < |g| && LastOfRun(g, i)
      ensures RunOf(g, i) < |es'| && es'[RunOf(g, i)].tick == g[i].1
    {
      if i < |h| {
        assert g[i] == h[i] && (i + 1 < |h| ==> g[i + 1] == h[i + 1]);
        LastTick(es, floor, h, i);
        if i + 1 < |h| { ChangeSeparates(h, i); } else { assert g[i + 1] == e; }
      }
    }
  }

  lemma LastTick(es: seq<Entry>, floor: nat, h: seq<Stamped>, i: nat)
    requires Placed(es, floor, h) && i < |h| && LastOfRun(h, i)
    ensures RunOf(h, i) < |es| && es[RunOf(h, i)].tick == h[i].1
  {
    hide RunOf;
  }

  /** After a change no later event belongs to the run. */
  lemma ChangeSeparates(h: seq<Stamped>, i: nat)
    requires i + 1 < |h| && h[i + 1].0 != h[i].0
    ensures RunOf(h, i) < RunOf(h, |h| - 1)
  {
    RunMonotone(h, i + 1, |h| - 1);
  }

  lemma {:induction false} EntriesPlaced(floor: nat, h: seq<Stamped>)
    ensures Counted(Entries(floor, h), h) && Placed(Entries(floor, h), floor, h)
  {
    hide Entries, Counted, Placed;
    if h == [] {
      NoEntries(floor);
      NothingPlaced(floor);
    } else {
      var p, e := h[..|h| - 1], h[|h| - 1];
      assert h == p + [e];
      EntriesPlaced(floor, p);
      EntriesSnoc(floor, p, e);
      CountedStep(Entries(floor, p), floor, p, e);
      PlacedStep(Entries(floor, p), floor, p, e);
    }
  }

  lemma NothingPlaced(floor: nat)
    ensures Counted([], []) && Placed([], floor, [])
  {
  }

  /** Where every recorded event is found: in the entry whose index is the number of changes before it, whose number is
      the floor plus that index, whose count is the number of events of that run modulo 2^32, and whose tick is that of
      the last of them. */
  lemma EventPlaced(floor: nat, h: seq<Stamped>, i: nat)
    requires i < |h|
    ensures var es, r := Entries(floor, h), RunOf(h, i);
            && |es| == RunOf(h, |h| - 1) + 1 && r < |es|
            && es[r].ev == h[i].0 && es[r].seqno == floor + r
            && es[r].count == InRun(h, |h|, r) % 0x1_0000_0000
            && (i == |h| - 1 || h[i + 1].0 != h[i].0 ==> es[r].tick == h[i].1)
  {
    hide Entries, RunOf, InRun;
    EntriesPlaced(floor, h);
    assert i == |h| - 1 || h[i + 1].0 != h[i].0 ==> LastOfRun(h, i);
  }

  lemma CountWraps(c: nat)
    ensures (c % 0x1_0000_0000 + 1) % 0x1_0000_0000 == (c + 1) % 0x1_0000_0000
  {
  }

  // ---- the ring ----

  function Min(a: nat, b: nat): nat { if a < b then a else b }

  /** The oldest-first walk of the ring: from slot 0 until it has wrapped, from total % N afterwards. */
  function Window(ring: seq<Entry>, total: nat): (w: seq<Entry>)
    requires |ring| > 0
    ensures |w| == Min(total, |ring|)
  {
    var start := if total <= |ring| then 0 else total % |ring|;
    seq(Min(total, |ring|), i requires 0 <= i => ring[(start + i) % |ring|])
  }

  /** The last n elements (all of them, if there are fewer). */
  function Last<T>(s: seq<T>, n: nat): (r: seq<T>)
    ensures |r| == Min(|s|, n)
  {
    if |s| <= n then s else s[|s| - n..]
  }

  lemma ModShift(a: nat, b: nat, n: nat)
    requires n > 0
    ensures (a % n + b) % n == (a + b) % n
  {
    DivIdentity(a, n);
    DivIdentity(a % n + b, n);
    ModShiftFrom(a, b, n, a / n, a % n, (a % n + b) / n, (a % n + b) % n);
  }

  lemma DivIdentity(a: nat, n: nat)
    requires n > 0
    ensures a == (a / n) * n + a % n && 0 <= a % n < n
  {
  }

  lemma ModShiftFrom(a: nat, b: nat, n: nat, p: nat, c: nat, q: nat, r: nat)
    requires a == p * n + c && c + b == q * n + r && r < n
    ensures (a + b) % n == r
  {
    MulSum(p, q, n);
    ShiftedSum(a, b, p * n, c, q * n, r, (p + q) * n);
    ModUnique(a + b, n, p + q, r);
  }

  lemma ShiftedSum(a: int, b: int, pn: int, c: int, qn: int, r: int, sum: int)
    requires a == pn + c && c + b == qn + r && sum == pn + qn
    ensures a + b == sum + r
  {
  }

  lemma MulSum(p: int, q: int, n: int)
    ensures (p + q) * n == p * n + q * n
  {
  }

  lemma ModDistinct(a: nat, b: nat, n: nat)
    requires n > 0 && a < b < a + n
    ensures a % n != b % n
  {
    var d := b / n - a / n;
    MulSign(d, n);
    assert d * n == (b / n) * n - (a / n) * n == (b - b % n) - (a - a % n);
  }

  lemma ModPlus(a: nat, n: nat)
    requires n > 0
    ensures (a + n) % n == a % n
  {
    ModUnique(a + n, n, a / n + 1, a % n);
  }

  /** The i-th entry of the walk is the slot of its absolute record number. */
  lemma WindowAt(ring: seq<Entry>, total: nat, i: nat)
    requires |ring| > 0 && i < Min(total, |ring|)
    ensures Window(ring, total)[i] == ring[(total - Min(total, |ring|) + i) % |ring|]
  {
    var n := |ring|;
    if total > n {
      ModShift(total, i, n);
      ModPlus(total - n + i, n);
    }
  }

  /** Writing the next slot evicts the oldest entry, if the ring is full, and appends. */
  lemma WindowPush(ring: seq<Entry>, total: nat, e: Entry)
    requires |ring| > 0
    ensures Window(ring[total % |ring| := e], total + 1) == Last(Window(ring, total) + [e], |ring|)
  {
    var n := |ring|;
    var ring' := ring[total % n := e];
    var w, w' := Window(ring, total), Window(ring', total + 1);
    var r := Last(w + [e], n);
    forall i | 0 <= i < |w'| ensures w'[i] == r[i] {
      var k := total + 1 - |w'| + i;
      WindowAt(ring', total + 1, i);
      if k < total {
        ModDistinct(k, total, n);
        WindowAt(ring, total, k - (total - |w|));
      }
    }
  }

  /** Rewriting the newest slot rewrites the last entry of the walk. */
  lemma WindowPatch(ring: seq<Entry>, total: nat, e: Entry)
    requires |ring| > 0 && total > 0
    ensures var w := Window(ring, total);
            Window(ring[(total - 1) % |ring| := e], total) == w[..|w| - 1] + [e] &&
            w[|w| - 1] == ring[(total - 1) % |ring|]
  {
    var n := |ring|;
    var ring' := ring[(total - 1) % n := e];
    var w, w' := Window(ring, total), Window(ring', total);
    WindowAt(ring, total, |w| - 1);
    forall i | 0 <= i < |w| ensures w'[i] == (w[..|w| - 1] + [e])[i] {
      WindowAt(ring', total, i);
      WindowAt(ring, total, i);
      var k := total - |w| + i;
      if k < total - 1 { ModDistinct(k, total - 1, n); }
    }
  }

  lemma LastPush<T>(s: seq<T>, e: T, n: nat)
    requires n > 0
    ensures Last(Last(s, n) + [e], n) == Last(s + [e], n)
  {
  }

  lemma LastPatch<T>(s: seq<T>, e: T, n: nat)
    requires n > 0 && s != []
    ensures var w := Last(s, n);
            w[|w| - 1] == s[|s| - 1] && w[..|w| - 1] + [e] == Last(s[..|s| - 1] + [e], n)
  {
  }

  // ---- persistence ----

  const AUDIT_BLOB_MAGIC: u32 := 0x31445541
  const AUDIT_BLOB_VERSION: u32 := 1
  const AUDIT_BLOB_HDR := 32
  const ENTRY_BYTES := 40
  const MAX_TOTAL := 0x1_0000_0000_0000

  function BlobBytes(n: nat): nat { AUDIT_BLOB_HDR + ENTRY_BYTES * n }

  /** The blob rounded up to whole 512-byte sectors. */
  function BlobBufSize(n: nat): (r: nat)
    ensures r >= BlobBytes(n)
  {
    (BlobBytes(n) + 511) / 512 * 512
  }

  /** The in-memory image of one entry. */
  function EntryBytes(e: Entry): (r: seq<byte>)
    ensures |r| == ENTRY_BYTES
  {
    Le(e.seqno, 8) + Le(e.tick, 8) + Le(e.ev.pid, 4) + Le(e.ev.kind, 2) + Le(e.ev.verdict, 2) +
    Le(e.ev.rtype, 4) + Le(e.ev.rid, 4) + Le(e.ev.perms, 4) + Le(e.count, 4)
  }

  function Field16(s: seq<byte>): u16 requires |s| == 2 { FromLeBound(s); FieldSizes(); FromLe(s) }

  function Field32(s: seq<byte>): u32 requires |s| == 4 { FromLeBound(s); FieldSizes(); FromLe(s) }

  function Field64(s: seq<byte>): u64 requires |s| == 8 { FromLeBound(s); FieldSizes(); FromLe(s) }

  function EntryOf(s: seq<byte>): Entry
    requires |s| == ENTRY_BYTES
  {
    Entry(Field64(s[0..8]), Field64(s[8..16]),
          Event(Field16(s[20..22]), Field32(s[16..20]), Field16(s[22..24]),
                Field32(s[24..28]), Field32(s[28..32]), Field32(s[32..36])),
          Field32(s[36..40]))
  }

  lemma EntryRoundTrip(e: Entry)
    requires e.seqno < 0x1_0000_0000_0000_0000
    ensures EntryOf(EntryBytes(e)) == e
  {
    hide Le, FromLe, Pow256;
    FieldSizes();
    var s := EntryBytes(e);
    assert s[0..8] == Le(e.seqno, 8) && s[8..16] == Le(e.tick, 8);
    assert s[16..20] == Le(e.ev.pid, 4) && s[20..22] == Le(e.ev.kind, 2) && s[22..24] == Le(e.ev.verdict, 2);
    assert s[24..28] == Le(e.ev.rtype, 4) && s[28..32] == Le(e.ev.rid, 4);
    assert s[32..36] == Le(e.ev.perms, 4) && s[36..40] == Le(e.count, 4);
    LeSmall(e.seqno, 8);
    LeSmall(e.tick, 8);
    LeSmall(e.ev.pid, 4);
    LeSmall(e.ev.kind, 2);
    LeSmall(e.ev.verdict, 2);
    LeSmall(e.ev.rtype, 4);
    LeSmall(e.ev.rid, 4);
    LeSmall(e.ev.perms, 4);
    LeSmall(e.count, 4);
  }

  function Image(ring: seq<Entry>): (r: seq<byte>)
    ensures |r| == ENTRY_BYTES * |ring|
  {
    if ring == [] then [] else Image(ring[..|ring| - 1]) + EntryBytes(ring[|ring| - 1])
  }

  lemma {:induction false} ImageAt(ring: seq<Entry>, i: nat)
    requires i < |ring|
    ensures Image(ring)[ENTRY_BYTES * i..ENTRY_BYTES * i + ENTRY_BYTES] == EntryBytes(ring[i])
  {
    hide EntryBytes;
    var r := ring[..|ring| - 1];
    if i < |r| {
      ImageAt(r, i);
      assert Image(ring)[ENTRY_BYTES * i..ENTRY_BYTES * i + ENTRY_BYTES]
        == Image(r)[ENTRY_BYTES * i..ENTRY_BYTES * i + ENTRY_BYTES];
    }
  }

  function Header(n: nat, total: nat): (r: seq<byte>)
    ensures |r| == AUDIT_BLOB_HDR
  {
    Le(AUDIT_BLOB_MAGIC, 4) + Le(AUDIT_BLOB_VERSION, 4) + Le(n, 4) + Le(ENTRY_BYTES, 4) +
    Le(total % 0x1_0000_0000, 4) + Le(total / 0x1_0000_0000, 4) + Le(0, 8)
  }

  function Blob(total: nat, ring: seq<Entry>): (r: seq<byte>)
    ensures |r| == BlobBytes(|ring|)
  {
    Header(|ring|, total) + Image(ring)
  }

  function Word(b: seq<byte>, off: nat): nat
    requires off + 4 <= |b|
  {
    FromLe(b[off..off + 4])
  }

  lemma BlobParts(total: nat, ring: seq<Entry>)
    ensures Blob(total, ring) == Header(|ring|, total) + Image(ring)
    ensures |Image(ring)| + AUDIT_BLOB_HDR == BlobBytes(|ring|) && AUDIT_BLOB_HDR == 32
  {
  }

  // ---- the octets of the image ----

  /** The 40 octets of an entry, each field with its least significant octet first. */
  lemma EntryLayout(e: Entry)
    ensures var b := EntryBytes(e);
            && |b| == 40
            && b[0..8] == Le(e.seqno, 8) && b[8..16] == Le(e.tick, 8)
            && b[16..20] == Le(e.ev.pid, 4) && b[20..22] == Le(e.ev.kind, 2) && b[22..24] == Le(e.ev.verdict, 2)
            && b[24..28] == Le(e.ev.rtype, 4) && b[28..32] == Le(e.ev.rid, 4) && b[32..36] == Le(e.ev.perms, 4)
            && b[36..40] == Le(e.count, 4)
  {
    hide Le;
  }

  /** The 32 octets before them: "AUD1", version 1, the number of entries, their size, the total, eight zeros. */
  lemma HeaderLayout(n: nat, total: nat)
    ensures Header(n, total) == Ascii("AUD1") + Le(1, 4) + Le(n, 4) + Le(40, 4) + Le(total, 8) + seq(8, _ => 0)
  {
    hide Le, Ascii, Pow256;
    MagicIs();
    LeHalves(total);
    LeMod(total, 4);
    assert Pow256(4) == 0x1_0000_0000 by { FieldSizes(); }
    var a := Ascii("AUD1") + Le(1, 4) + Le(n, 4) + Le(40, 4);
    Reassociated(a, Le(total, 4), Le(total / 0x1_0000_0000, 4));
    EightZeros();
  }

  lemma Reassociated(a: seq<byte>, b: seq<byte>, c: seq<byte>)
    ensures (a + b) + c == a + (b + c)
  {
  }

  lemma EightZeros()
    ensures Le(0, 8) == seq(8, _ => 0)
  {
    hide Le, Octet;
    LeZero(8);
  }

  lemma MagicIs()
    ensures Le(AUDIT_BLOB_MAGIC, 4) == Ascii("AUD1")
  {
    hide Le, Octet, Ascii;
    Le2And4(AUDIT_BLOB_MAGIC);
    OctetIs(AUDIT_BLOB_MAGIC, 0x41);
    OctetIs(AUDIT_BLOB_MAGIC / 0x100, 0x55);
    OctetIs(AUDIT_BLOB_MAGIC / 0x1_0000, 0x44);
    OctetIs(AUDIT_BLOB_MAGIC / 0x100_0000, 0x31);
    AsciiIs("AUD1", [0x41, 0x55, 0x44, 0x31]);
  }

  /** Entry i of the image, and the sector-rounded size of the buffer. */
  lemma BlobLayout(total: nat, ring: seq<Entry>, i: nat)
    requires i < |ring|
    ensures var b := Blob(total, ring);
            && |b| == 32 + 40 * |ring|
            && b[..32] == Header(|ring|, total) && b[32 + 40 * i..72 + 40 * i] == EntryBytes(ring[i])
    ensures var r := BlobBufSize(|ring|); r % 512 == 0 && r - 512 < 32 + 40 * |ring| <= r
  {
    hide Header, Image, EntryBytes;
    ImageAt(ring, i);
    var h, im, b := Header(|ring|, total), Image(ring), Blob(total, ring);
    assert b[32 + 40 * i..72 + 40 * i] == im[40 * i..40 * i + 40];
  }

  /** Ticks are boot-relative: a loaded entry keeps everything but its tick, which becomes 0. */
  lemma UntickIs(es: seq<Entry>, i: nat)
    requires i < |es|
    ensures |Untick(es)| == |es|
    ensures Untick(es)[i] == Entry(es[i].seqno, 0, es[i].ev, es[i].count)
  {
  }

  /** What loading accepts: enough octets, "AUD1", version 1, this ring's size, 40-octet entries, and a total of at most
      2^48; it then installs that total and the entries. */
  lemma LoadsExactly(n: nat, b: seq<byte>)
    requires n < 0x1_0000_0000
    ensures var r := ParseBlob(n, b);
            && (r.Some? <==> |b| >= 32 + 40 * n && b[..16] == Ascii("AUD1") + Le(1, 4) + Le(n, 4) + Le(40, 4)
                             && FromLe(b[16..24]) <= 0x1_0000_0000_0000)
            && (r.Some? ==>
                  && r.value.0 == FromLe(b[16..24]) && |r.value.1| == n
                  && forall i | 0 <= i < n ::
                       r.value.1[i] == EntryOf(b[32 + 40 * i..72 + 40 * i]).(tick := 0))
  {
    hide Le, FromLe, Ascii, EntryOf;
    if |b| >= 32 + 40 * n {
      TotalRead(b);
      PrefixRead(n, b);
      forall i: nat | i < n
        ensures Untick(Slots(n, b))[i] == EntryOf(b[32 + 40 * i..72 + 40 * i]).(tick := 0)
      {
        assert 32 + 40 * i + 40 == 72 + 40 * i;
      }
    }
  }

  lemma TotalRead(b: seq<byte>)
    requires |b| >= 32
    ensures FromLe(b[16..24]) == Word(b, 16) + 0x1_0000_0000 * Word(b, 20)
  {
    hide Le, FromLe;
    var s := b[16..24];
    var v := FromLe(s);
    LeOfFromLe(s);
    LeHalves(v);
    assert s[..4] == b[16..20] && s[4..] == b[20..24];
    assert s[..4] == Le(v, 4) && s[4..] == Le(v / 0x1_0000_0000, 4);
    FieldSizes();
    FromLeBound(s);
    LeRoundTrip(v, 4);
    LeSmall(v / 0x1_0000_0000, 4);
  }

  lemma WordIs(b: seq<byte>, off: nat, v: nat)
    requires off + 4 <= |b| && v < 0x1_0000_0000
    ensures Word(b, off) == v <==> b[off..off + 4] == Le(v, 4)
  {
    hide Le, FromLe;
    FieldSizes();
    LeOfFromLe(b[off..off + 4]);
    LeSmall(v, 4);
  }

  lemma PrefixRead(n: nat, b: seq<byte>)
    requires |b| >= 32 && n < 0x1_0000_0000
    ensures b[..16] == Ascii("AUD1") + Le(1, 4) + Le(n, 4) + Le(40, 4)
            <==> Word(b, 0) == AUDIT_BLOB_MAGIC && Word(b, 4) == AUDIT_BLOB_VERSION && Word(b, 8) == n
                 && Word(b, 12) == ENTRY_BYTES
  {
    hide Le, Word, Ascii;
    MagicIs();
    WordIs(b, 0, AUDIT_BLOB_MAGIC);
    WordIs(b, 4, 1);
    WordIs(b, 8, n);
    WordIs(b, 12, 40);
    FourWords(b[..16], Ascii("AUD1"), Le(1, 4), Le(n, 4), Le(40, 4));
    assert b[..16][0..4] == b[0..4] && b[..16][4..8] == b[4..8] && b[..16][8..12] == b[8..12];
    assert b[..16][12..16] == b[12..16];
  }

  lemma FourWords(s: seq<byte>, a: seq<byte>, b: seq<byte>, c: seq<byte>, d: seq<byte>)
    requires |s| == 16 && |a| == |b| == |c| == |d| == 4
    ensures s == a + b + c + d <==> s[0..4] == a && s[4..8] == b && s[8..12] == c && s[12..16] == d
  {
    if s[0..4] == a && s[4..8] == b && s[8..12] == c && s[12..16] == d {
      assert s == s[0..4] + s[4..8] + s[8..12] + s[12..16];
    }
  }

  /** What lies behind the image is what it was before the two writes. */
  lemma TailKept(now: seq<byte>, before: seq<byte>, zeros: seq<byte>, len: nat, n: nat)
    requires |now| == |before| == |zeros| && AUDIT_BLOB_HDR <= len && n <= |now|
    requires len <= |now| && now[len..] == before[len..] && before[AUDIT_BLOB_HDR..] == zeros[AUDIT_BLOB_HDR..]
    requires forall i | 0 <= i < n :: zeros[i] == 0
    ensures forall i | len <= i < n :: now[i] == 0
  {
    forall i | len <= i < n
      ensures now[i] == 0
    {
      assert now[i] == now[len..][i - len] == before[i] == before[AUDIT_BLOB_HDR..][i - AUDIT_BLOB_HDR];
    }
  }

  /** What audit_load accepts and the ring it installs; ticks are reset because they are boot-relative. */
  function ParseBlob(n: nat, b: seq<byte>): (r: Option<(nat, seq<Entry>)>)
    ensures r.Some? ==> |r.value.1| == n && r.value.0 <= MAX_TOTAL
  {
    if |b| < BlobBytes(n) then None
    else if Word(b, 0) != AUDIT_BLOB_MAGIC || Word(b, 4) != AUDIT_BLOB_VERSION then None
    else if Word(b, 8) != n || Word(b, 12) != ENTRY_BYTES then None
    else
      var total := Word(b, 16) + 0x1_0000_0000 * Word(b, 20);
      if total > MAX_TOTAL then None else Some((total, Untick(Slots(n, b))))
  }

  function Slots(n: nat, b: seq<byte>): (r: seq<Entry>)
    requires BlobBytes(n) <= |b|
    ensures |r| == n
  {
    seq(n, i requires 0 <= i < n =>
      EntryOf(b[AUDIT_BLOB_HDR + ENTRY_BYTES * i..AUDIT_BLOB_HDR + ENTRY_BYTES * i + ENTRY_BYTES]))
  }

  function Untick(es: seq<Entry>): (r: seq<Entry>)
    ensures |r| == |es|
  {
    seq(|es|, i requires 0 <= i < |es| => es[i].(tick := 0))
  }

  lemma HeaderWords(n: nat, total: nat, rest: seq<byte>)
    requires n < 0x1_0000_0000 && total <= MAX_TOTAL
    ensures var b := Header(n, total) + rest;
            && Word(b, 0) == AUDIT_BLOB_MAGIC && Word(b, 4) == AUDIT_BLOB_VERSION
            && Word(b, 8) == n && Word(b, 12) == ENTRY_BYTES
            && Word(b, 16) == total % 0x1_0000_0000 && Word(b, 20) == total / 0x1_0000_0000
  {
    hide Le, FromLe, Pow256;
    FieldSizes();
    var b := Header(n, total) + rest;
    assert b[0..4] == Le(AUDIT_BLOB_MAGIC, 4) && b[4..8] == Le(AUDIT_BLOB_VERSION, 4);
    assert b[8..12] == Le(n, 4) && b[12..16] == Le(ENTRY_BYTES, 4);
    assert b[16..20] == Le(total % 0x1_0000_0000, 4) && b[20..24] == Le(total / 0x1_0000_0000, 4);
    LeSmall(AUDIT_BLOB_MAGIC, 4);
    LeSmall(AUDIT_BLOB_VERSION, 4);
    LeSmall(n, 4);
    LeSmall(ENTRY_BYTES, 4);
    LeSmall(total % 0x1_0000_0000, 4);
    LeSmall(total / 0x1_0000_0000, 4);
  }

  /** Serialize then load restores the whole ring, up to ticks, and the record count. */
  lemma BlobRoundTrip(total: nat, ring: seq<Entry>, pad: seq<byte>)
    requires |ring| < 0x1_0000_0000 && total <= MAX_TOTAL
    requires forall i | 0 <= i < |ring| :: ring[i].seqno < 0x1_0000_0000_0000_0000
    ensures ParseBlob(|ring|, Blob(total, ring) + pad) == Some((total, Untick(ring)))
  {
    hide Header, Image, EntryOf, EntryBytes, Word;
    var n, b := |ring|, Blob(total, ring) + pad;
    assert b == Header(n, total) + (Image(ring) + pad);
    HeaderWords(n, total, Image(ring) + pad);
    forall i | 0 <= i < n ensures Slots(n, b)[i] == ring[i] {
      var o := ENTRY_BYTES * i;
      ImageAt(ring, i);
      EntryRoundTrip(ring[i]);
      assert b[AUDIT_BLOB_HDR + o..AUDIT_BLOB_HDR + o + ENTRY_BYTES] == Image(ring)[o..o + ENTRY_BYTES];
    }
    assert Slots(n, b) == ring;
  }

  lemma WindowUntick(ring: seq<Entry>, total: nat)
    requires |ring| > 0
    ensures Window(Untick(ring), total) == Untick(Window(ring, total))
  {
  }

  /** A reboot: the ring serialized by one boot is the restored prefix of the next, up to ticks. */
  lemma RebootRestores(total: nat, ring: seq<Entry>, pad: seq<byte>)
    requires 0 < |ring| < 0x1_0000_0000 && total <= MAX_TOTAL
    requires forall i | 0 <= i < |ring| :: ring[i].seqno < 0x1_0000_0000_0000_0000
    ensures var p := ParseBlob(|ring|, Blob(total, ring) + pad);
            p.Some? && p.value.0 == total && Window(p.value.1, total) == Untick(Window(ring, total))
  {
    BlobRoundTrip(total, ring, pad);
    WindowUntick(ring, total);
  }

  /** The walk is numbered consecutively up to total - 1, across the restore boundary and any wrap. */
  lemma WalkNumbered(restored: seq<Entry>, floor: nat, hist: seq<Stamped>, n: nat)
    requires n > 0 && |restored| <= floor
    requires forall i | 0 <= i < |restored| :: restored[i].seqno == floor - |restored| + i
    ensures var w := Last(restored + Entries(floor, hist), n);
            var total := floor + |Entries(floor, hist)|;
            forall i | 0 <= i < |w| :: w[i].seqno == total - |w| + i
  {
    hide Entries, Counts, Canonical, Expand;
    EntriesEncodeHistory(floor, hist);
    EndNumbered(restored + Entries(floor, hist), floor - |restored|, n);
  }

  lemma EndNumbered(es: seq<Entry>, first: nat, n: nat)
    requires forall i | 0 <= i < |es| :: es[i].seqno == first + i
    ensures var w := Last(es, n);
            forall i | 0 <= i < |w| :: w[i].seqno == first + |es| - |w| + i
  {
  }

  // ---- the whole life of a ledger ----

  /** Everything recorded over a series of boots, run-length encoded boot by boot, ticks kept for the last boot only:
      the log of which the ring holds the end. */
  function Log(boots: seq<seq<Stamped>>): (es: seq<Entry>) {
    if boots == [] then []
    else
      var before := Log(boots[..|boots| - 1]);
      Untick(before) + Entries(|before|, boots[|boots| - 1])
  }

  /** What the walk of an n-slot ring shows after the boots, each restored from the blob the last one left. */
  function Walk(boots: seq<seq<Stamped>>, n: nat): (w: seq<Entry>) {
    if boots == [] then []
    else
      var earlier := boots[..|boots| - 1];
      Last(Untick(Walk(earlier, n)) + Entries(|Log(earlier)|, boots[|boots| - 1]), n)
  }

  lemma LastUntick(s: seq<Entry>, n: nat)
    ensures Last(Untick(s), n) == Untick(Last(s, n))
  {
  }

  lemma LastOfLast(s: seq<Entry>, t: seq<Entry>, n: nat)
    ensures Last(Last(s, n) + t, n) == Last(s + t, n)
  {
  }

  /** Over any number of boots the log is numbered 0, 1, 2, ... without a gap or a repeat... */
  lemma {:induction false} LogNumbered(boots: seq<seq<Stamped>>)
    ensures forall i | 0 <= i < |Log(boots)| :: Log(boots)[i].seqno == i
  {
    hide Entries, Encodes;
    if boots != [] {
      var before := boots[..|boots| - 1];
      LogNumbered(before);
      EntriesNumbered(|Log(before)|, boots[|boots| - 1]);
    }
  }

  lemma EntriesNumbered(floor: nat, hist: seq<Stamped>)
    ensures forall i | 0 <= i < |Entries(floor, hist)| :: Entries(floor, hist)[i].seqno == floor + i
  {
    EntriesEncodeHistory(floor, hist);
  }

  /** ...and the ring always shows its last n entries, numbered consecutively up to the last of all. */
  lemma {:induction false} WalkIsLogEnd(boots: seq<seq<Stamped>>, n: nat)
    ensures Walk(boots, n) == Last(Log(boots), n)
    ensures var w := Walk(boots, n);
            |w| == Min(|Log(boots)|, n) && forall i | 0 <= i < |w| :: w[i].seqno == |Log(boots)| - |w| + i
  {
    hide Entries;
    LogNumbered(boots);
    if boots != [] {
      var before, h := boots[..|boots| - 1], boots[|boots| - 1];
      WalkIsLogEnd(before, n);
      LastUntick(Log(before), n);
      LastOfLast(Untick(Log(before)), Entries(|Log(before)|, h), n);
    }
  }

  /** The walk is what a real ring shows: if a ring holds it with the log's length as its total, then the ring the next
      boot restores from that ring's blob holds it without ticks, and the next boot's records extend it as Walk says. */
  lemma BootContinues(boots: seq<seq<Stamped>>, ring: seq<Entry>, pad: seq<byte>, hist: seq<Stamped>)
    requires 0 < |ring| < 0x1_0000_0000 && |Log(boots)| <= MAX_TOTAL
    requires forall i | 0 <= i < |ring| :: ring[i].seqno < 0x1_0000_0000_0000_0000
    requires Window(ring, |Log(boots)|) == Walk(boots, |ring|)
    ensures var p := ParseBlob(|ring|, Blob(|Log(boots)|, ring) + pad);
            && p.Some? && p.value.0 == |Log(boots)|
            && Window(p.value.1, p.value.0) == Untick(Walk(boots, |ring|))
            && Last(Window(p.value.1, p.value.0) + Entries(p.value.0, hist), |ring|) == Walk(boots + [hist], |ring|)
            && p.value.0 + |Entries(p.value.0, hist)| == |Log(boots + [hist])|
  {
    hide Window, Entries, ParseBlob, Blob;
    RebootRestores(|Log(boots)|, ring, pad);
    assert (boots + [hist])[..|boots|] == boots;
  }

  // ---- the ledger object ----

  lemma EntriesSnoc(floor: nat, h: seq<Stamped>, e: Stamped)
    ensures Entries(floor, h + [e]) == Append(Entries(floor, h), floor, e)
  {
    assert (h + [e])[..|h + [e]| - 1] == h;
  }

  lemma AppendShape(es: seq<Entry>, floor: nat, e: Stamped)
    ensures var es' := Append(es, floor, e);
            if es != [] && es[|es| - 1].ev == e.0 then
              |es'| == |es| &&
              es'[|es| - 1] == es[|es| - 1].(count := (es[|es| - 1].count + 1) % 0x1_0000_0000, tick := e.1)
            else |es'| == |es| + 1
  {
  }

  lemma NothingRecorded(floor: nat, r: seq<Entry>, n: nat)
    requires |r| <= n
    ensures Entries(floor, []) == [] && Last(r + Entries(floor, []), n) == r
  {
    assert r + [] == r;
  }

  lemma AppendKeeps(es: seq<Entry>, floor: nat, e: Stamped)
    ensures var es' := Append(es, floor, e);
            if es != [] && es[|es| - 1].ev == e.0 then es' == es[..|es| - 1] + [es'[|es| - 1]]
            else es' == es + [Entry(floor + |es|, e.1, e.0, 1)]
  {
  }

  /** Where the next record goes, in terms of the walk. */
  lemma RecordStep(ring: seq<Entry>, total: nat, restored: seq<Entry>, floor: nat, es: seq<Entry>, e: Stamped)
    requires |ring| > 0 && total == floor + |es|
    requires Window(ring, total) == Last(restored + es, |ring|)
    ensures es != [] ==> ring[(total - 1) % |ring|] == es[|es| - 1]
    ensures var es' := Append(es, floor, e);
            if es != [] && es[|es| - 1].ev == e.0 then
              Window(ring[(total - 1) % |ring| := es'[|es| - 1]], total) == Last(restored + es', |ring|)
            else
              Window(ring[total % |ring| := Entry(total, e.1, e.0, 1)], total + 1) == Last(restored + es', |ring|)
  {
    hide Window, Last, Append;
    AppendShape(es, floor, e);
    AppendKeeps(es, floor, e);
    var all, es', n := restored + es, Append(es, floor, e), |ring|;
    if es != [] {
      WindowPatch(ring, total, es'[|es| - 1]);
      LastPatch(all, es'[|es| - 1], n);
    }
    if es != [] && es[|es| - 1].ev == e.0 {
      assert all[..|all| - 1] + [es'[|es| - 1]] == restored + es';
    } else {
      WindowPush(ring, total, es'[|es|]);
      LastPush(all, es'[|es|], n);
      assert all + [es'[|es|]] == restored + es';
    }
  }

  class Ledger {
    const ring: array<Entry>
    var total: nat
    var floor: nat              // the value of total at the last restore
    ghost var restored: seq<Entry> // the walk of the ring right after the last restore
    ghost var hist: seq<Stamped>   // everything recorded since

    /** The ring holds the last ring.Length of: what was restored, then the run-length code of this boot. */
    ghost predicate Valid()
      reads this, ring
    {
      && 0 < ring.Length < 0x1_0000_0000
      && |restored| == Min(floor, ring.Length)
      && total == floor + |Entries(floor, hist)|
      && Window(ring[..], total) == Last(restored + Entries(floor, hist), ring.Length)
    }

    /** audit_format's walk, oldest first. */
    ghost function Contents(): seq<Entry>
      requires Valid()
      reads this, ring
    {
      Window(ring[..], total)
    }

    constructor (n: nat)
      requires 0 < n < 0x1_0000_0000
      ensures Valid() && fresh(ring) && ring.Length == n
      ensures total == floor == 0 && hist == [] && Contents() == []
    {
      ring := new Entry[n](_ => EmptyEntry);
      total, floor, restored, hist := 0, 0, [], [];
    }

    method Record(ev: Event, tick: u64)
      requires Valid()
      modifies this`total, this`hist, ring
      ensures Valid() && hist == old(hist) + [(ev, tick)]
      ensures Contents() == Last(restored + Entries(floor, old(hist) + [(ev, tick)]), ring.Length)
    {
      hide Window, Last, Entries, Append;
      ghost var es := Entries(floor, hist);
      RecordStep(ring[..], total, restored, floor, es, (ev, tick));
      AppendShape(es, floor, (ev, tick));
      EntriesSnoc(floor, hist, (ev, tick));
      hist := hist + [(ev, tick)];
      if total > floor {
        var k := (total - 1) % ring.Length;
        var last := ring[k];
        if last.ev == ev {
          ring[k] := last.(count := (last.count + 1) % 0x1_0000_0000, tick := tick);
          assert ring[..] == old(ring[..])[k := ring[k]];
          return;
        }
      }
      var k := total % ring.Length;
      ring[k] := Entry(total, tick, ev, 1);
      assert ring[..] == old(ring[..])[k := ring[k]];
      total := total + 1;
    }

    /** audit_serialize: the whole image, zero-padded to the sector boundary; 0 if the buffer is too small. */
    method Serialize(buf: array<byte>) returns (len: nat)
      requires Valid() && buf as object != ring
      modifies buf
      ensures buf.Length < BlobBufSize(ring.Length) ==> len == 0 && buf[..] == old(buf[..])
      ensures buf.Length >= BlobBufSize(ring.Length) ==>
                len == BlobBytes(ring.Length) && buf[..len] == Blob(total, ring[..]) &&
                forall i | len <= i < BlobBufSize(ring.Length) :: buf[i] == 0
    {
      hide *;
      BlobParts(total, ring[..]);
      if buf.Length < BlobBufSize(ring.Length) {
        return 0;
      }
      Zero(buf, BlobBufSize(ring.Length));
      ghost var zeros := buf[..];
      WriteHeader(buf, ring.Length, total);
      ghost var before := buf[..];
      assert before[AUDIT_BLOB_HDR..] == zeros[AUDIT_BLOB_HDR..];
      CopyBytes(buf, AUDIT_BLOB_HDR, Image(ring[..]));
      len := BlobBytes(ring.Length);
      assert buf[len..] == before[len..];
      TailKept(buf[..], before, zeros, len, BlobBufSize(ring.Length));
    }

    /** audit_load: refuse (-1) anything but this build's geometry and a plausible count, touching nothing;
        otherwise install the ring, reset ticks and raise the coalesce floor. */
    method Load(buf: array<byte>) returns (rc: int)
      requires Valid()
      modifies this, ring
      ensures Valid()
      ensures match ParseBlob(ring.Length, buf[..])
              case None => rc == -1 && ring[..] == old(ring[..]) && total == old(total) && floor == old(floor) &&
                           hist == old(hist) && restored == old(restored)
              case Some((t, slots)) => rc == 0 && ring[..] == slots && total == floor == t && hist == [] &&
                                       restored == Contents() == Window(slots, t)
    {
      hide Entries, Last, EntryOf, FromLe, Le, Slots, Untick;
      ghost var b, n := buf[..], ring.Length;
      if buf.Length < BlobBytes(ring.Length) {
        return -1;
      }
      if Word(buf[..], 0) != AUDIT_BLOB_MAGIC || Word(buf[..], 4) != AUDIT_BLOB_VERSION ||
         Word(buf[..], 8) != ring.Length || Word(buf[..], 12) != ENTRY_BYTES {
        return -1;
      }
      var t := Word(buf[..], 16) + 0x1_0000_0000 * Word(buf[..], 20);
      if t > MAX_TOTAL {
        return -1;
      }
      Install(buf);
      total := t;
      floor := t;
      ResetTicks();
      assert ring[..] == Untick(Slots(n, b));
      hist := [];
      restored := Window(ring[..], total);
      NothingRecorded(total, restored, n);
      return 0;
    }

    /** Copy the ring image out of the blob. */
    method Install(buf: array<byte>)
      requires BlobBytes(ring.Length) <= buf.Length
      modifies ring
      ensures ring[..] == Slots(ring.Length, buf[..])
    {
      ghost var b := buf[..];
      for i := 0 to ring.Length
        invariant forall j | 0 <= j < i :: ring[j] == Slots(ring.Length, b)[j]
        invariant buf[..] == b
      {
        hide EntryOf;
        var o := AUDIT_BLOB_HDR + ENTRY_BYTES * i;
        assert b[o..o + ENTRY_BYTES] == buf[o..o + ENTRY_BYTES];
        ring[i] := EntryOf(buf[o..o + ENTRY_BYTES]);
      }
    }

    method ResetTicks()
      modifies ring
      ensures ring[..] == Untick(old(ring[..]))
    {
      for i := 0 to ring.Length
        invariant forall j | 0 <= j < i :: ring[j] == old(ring[j]).(tick := 0)
        invariant forall j | i <= j < ring.Length :: ring[j] == old(ring[j])
      {
        ring[i] := ring[i].(tick := 0);
      }
    }
  }

  method Zero(buf: array<byte>, n: nat)
    requires n <= buf.Length
    modifies buf
    ensures forall i | 0 <= i < n :: buf[i] == 0
  {
    for i := 0 to n
      invariant forall j | 0 <= j < i :: buf[j] == 0
    {
      buf[i] := 0;
    }
  }

  method WriteHeader(buf: array<byte>, n: nat, total: nat)
    requires buf.Length >= AUDIT_BLOB_HDR && forall i | 0 <= i < buf.Length && i < 32 :: buf[i] == 0
    modifies buf
    ensures buf[..AUDIT_BLOB_HDR] == Header(n, total)
    ensures buf[AUDIT_BLOB_HDR..] == old(buf[AUDIT_BLOB_HDR..])
  {
    hide Le;
    ghost var tail := buf[24..];
    assert tail[..8] == Le(0, 8) by { LeZero(8); }
    PutLe(buf, 0, AUDIT_BLOB_MAGIC, 4);
    assert buf[24..] == tail;
    PutLe(buf, 4, AUDIT_BLOB_VERSION, 4);
    assert buf[24..] == tail;
    PutLe(buf, 8, n, 4);
    assert buf[24..] == tail;
    PutLe(buf, 12, ENTRY_BYTES, 4);
    assert buf[24..] == tail;
    PutLe(buf, 16, total % 0x1_0000_0000, 4);
    assert buf[24..] == tail;
    PutLe(buf, 20, total / 0x1_0000_0000, 4);
    assert buf[24..] == tail;
    assert buf[..32] == buf[..24] + buf[24..32];
    assert buf[24..32] == tail[..8];
  }

  lemma {:induction false} LeZero(n: nat)
    ensures forall i | 0 <= i < n :: Le(0, n)[i] == 0
  {
    if n > 0 { LeZero(n - 1); }
  }
}
