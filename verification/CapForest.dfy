/** The capability table as a value: handles, the derivation forest and what authority flows along it. */
module CapForest {
  import opened Options
  import opened Bytes
  import opened QsvBits

  const CAP_RESOURCE_IPC: u32 := 1
  const CAP_RESOURCE_TYPE_COUNT: u32 := 7
  const CAP_GRANT: u32 := 0x08
  const CAP_REVOKE: u32 := 0x10

  /** Every bit of a is set in b: a & ~b == 0. */
  predicate SubBits(a: nat, b: nat) {
    a == 0 || (a % 2 <= b % 2 && SubBits(a / 2, b / 2))
  }

  lemma {:induction false} SubBitsTrans(a: nat, b: nat, c: nat)
    requires SubBits(a, b) && SubBits(b, c)
    ensures SubBits(a, c)
  {
    if a != 0 {
      if b != 0 { SubBitsTrans(a / 2, b / 2, c / 2); }
      else { SubBitsTrans(a / 2, 0, c / 2); }
    }
  }

  lemma {:induction false} SubBitsRefl(a: nat)
    ensures SubBits(a, a)
  {
    if a != 0 { SubBitsRefl(a / 2); }
  }

  lemma {:induction false} SubBitsDown(a: nat, b: nat, q: nat)
    requires SubBits(a, b)
    ensures Bit(a, q) <= Bit(b, q)
  {
    if a == 0 {
      ZeroBits(q);
    } else if q > 0 {
      SubBitsDown(a / 2, b / 2, q - 1);
    }
  }

  lemma {:induction false} SubBitsUp(a: nat, b: nat)
    requires forall q: nat :: Bit(a, q) <= Bit(b, q)
    ensures SubBits(a, b)
  {
    if a != 0 {
      assert Bit(a, 0) <= Bit(b, 0);
      forall q: nat
        ensures Bit(a / 2, q) <= Bit(b / 2, q)
      {
        assert Bit(a, q + 1) <= Bit(b, q + 1);
      }
      SubBitsUp(a / 2, b / 2);
    }
  }

  lemma SubBitsOnly(a: nat, b: nat, q: nat)
    requires SubBits(a, b)
    ensures a / Pow2(q) % 2 <= b / Pow2(q) % 2
  {
    hide SubBits, Bit, Pow2;
    SubBitsDown(a, b, q);
    BitIs(a, q);
    BitIs(b, q);
  }

  /** No bit of a, weighing 2^q, is missing in b. */
  ghost predicate BitsWithin(a: nat, b: nat) { forall q: nat :: a / Pow2(q) % 2 <= b / Pow2(q) % 2 }

  lemma SubBitsIf(a: nat, b: nat)
    requires BitsWithin(a, b)
    ensures SubBits(a, b)
  {
    hide SubBits, Bit;
    forall q: nat
      ensures Bit(a, q) <= Bit(b, q)
    {
      BitIs(a, q);
      BitIs(b, q);
      assert a / Pow2(q) % 2 <= b / Pow2(q) % 2;
    }
    SubBitsUp(a, b);
  }

  /** The test a & ~b == 0 is what it stands for, bit by bit. */
  lemma SubBitsIs(a: nat, b: nat)
    ensures SubBits(a, b) <==> BitsWithin(a, b)
  {
    hide SubBits;
    if SubBits(a, b) {
      forall q: nat
        ensures a / Pow2(q) % 2 <= b / Pow2(q) % 2
      {
        SubBitsOnly(a, b, q);
      }
    }
    if BitsWithin(a, b) { SubBitsIf(a, b); }
  }

  datatype Cap = Cap(id: u32, owner: u32, rtype: u32, rid: u32, perms: u32, expires: u64,
                     revocable: bool, inherited: bool, spawnChannel: bool, parent: u32)

  datatype Slot = Slot(cap: Cap, gen: u16, live: bool)

  type Table = seq<Slot>

  const MAX_SLOTS := 65535

  function MakeId(i: nat, gen: u16): (id: u32)
    requires i < MAX_SLOTS
    ensures id != 0
  {
    gen * 0x1_0000 + i + 1
  }

  /** The live slot a handle names; None if it is stale, revoked or malformed. */
  function Resolve(t: Table, id: u32): (r: Option<nat>)
    ensures r.Some? ==> r.value < |t| && t[r.value].live
  {
    var low := id % 0x1_0000;
    if id == 0 || low == 0 || low - 1 >= |t| then None
    else if !t[low - 1].live || t[low - 1].gen != id / 0x1_0000 then None
    else Some(low - 1)
  }

  function Freed(s: Slot): Slot {
    Slot(s.cap, (s.gen + 1) % 0x1_0000, false)
  }

  function Parent(t: Table, i: nat): (r: Option<nat>)
    requires i < |t|
    ensures r.Some? ==> r.value < |t| && t[r.value].live
  {
    if t[i].cap.parent == 0 then None else Resolve(t, t[i].cap.parent)
  }

  /** The n-th ancestor of slot i. */
  function Anc(t: Table, i: nat, n: nat): (r: Option<nat>)
    requires i < |t|
    ensures r.Some? ==> r.value < |t|
    decreases n
  {
    if n == 0 then Some(i)
    else if Parent(t, i).None? then None
    else Anc(t, Parent(t, i).value, n - 1)
  }

  /** A child never expires after its parent; 0 means never. */
  predicate NoLater(child: u64, parent: u64) {
    parent == 0 || (child != 0 && child <= parent)
  }

  ghost predicate Attenuates(child: Cap, parent: Cap) {
    && child.rtype == parent.rtype && child.rid == parent.rid
    && SubBits(child.perms, parent.perms)
    && NoLater(child.expires, parent.expires)
  }

  /** Every live slot carries its own handle, and its parent handle, if any, names an older live slot with at least
      its authority. */
  ghost predicate Forest(t: Table, born: seq<nat>) {
    && |t| < MAX_SLOTS && |born| == |t|
    && (forall i: nat | i < |t| && t[i].live :: t[i].cap.id == MakeId(i, t[i].gen))
    && (forall i: nat | i < |t| && t[i].live && t[i].cap.parent != 0 ::
          Parent(t, i).Some? && born[Parent(t, i).value] < born[i] && Attenuates(t[i].cap, t[Parent(t, i).value].cap))
  }

  lemma ResolveId(t: Table, i: nat, id: u32)
    requires |t| < MAX_SLOTS
    ensures i < |t| && t[i].live && id == MakeId(i, t[i].gen) ==> Resolve(t, id) == Some(i)
    ensures Resolve(t, id) == Some(i) ==> id == MakeId(i, t[i].gen)
  {
  }

  /** Parents are older than children, so a chain of n ancestors spans at least n births. */
  lemma {:induction false} AncOlder(t: Table, born: seq<nat>, i: nat, n: nat)
    requires Forest(t, born) && i < |t| && t[i].live && Anc(t, i, n).Some?
    ensures t[Anc(t, i, n).value].live && born[Anc(t, i, n).value] + n <= born[i]
    decreases n
  {
    if n > 0 { AncOlder(t, born, Parent(t, i).value, n - 1); }
  }

  lemma {:induction false} AncTrans(t: Table, i: nat, n: nat, m: nat)
    requires i < |t| && Anc(t, i, n).Some?
    ensures Anc(t, i, n + m) == Anc(t, Anc(t, i, n).value, m)
    decreases n
  {
    if n > 0 { AncTrans(t, Parent(t, i).value, n - 1, m); }
  }

  /** Authority never grows along any chain of derivations. */
  lemma {:induction false} AuthorityAttenuates(t: Table, born: seq<nat>, i: nat, n: nat)
    requires Forest(t, born) && i < |t| && t[i].live && Anc(t, i, n).Some?
    ensures t[Anc(t, i, n).value].live && Attenuates(t[i].cap, t[Anc(t, i, n).value].cap)
    decreases n
  {
    if n == 0 {
      SubBitsRefl(t[i].cap.perms);
    } else {
      var p := Parent(t, i).value;
      AuthorityAttenuates(t, born, p, n - 1);
      SubBitsTrans(t[i].cap.perms, t[p].cap.perms, t[Anc(t, i, n).value].cap.perms);
    }
  }

  /** The ancestor walk ends: no live slot has as many ancestors as it has birth numbers below it. */
  lemma ChainsEnd(t: Table, born: seq<nat>, i: nat, n: nat)
    requires Forest(t, born) && i < |t| && t[i].live && n > born[i]
    ensures Anc(t, i, n).None?
  {
    if Anc(t, i, n).Some? { AncOlder(t, born, i, n); }
  }

  // ---- pruning ----

  /** b is a with some live slots freed. */
  ghost predicate Shrinks(a: Table, b: Table) {
    |a| == |b| && forall i: nat | i < |a| :: b[i] == a[i] || (a[i].live && b[i] == Freed(a[i]))
  }

  lemma {:induction false} AncSurvives(a: Table, b: Table, born: seq<nat>, i: nat, n: nat)
    requires Shrinks(a, b) && Forest(b, born) && i < |a| && b[i].live
    ensures Anc(a, i, n) == Anc(b, i, n)
    decreases n
  {
    if n > 0 && b[i].cap.parent != 0 {
      var j := Parent(b, i).value;
      ResolveId(b, j, b[i].cap.parent);
      ResolveId(a, j, a[i].cap.parent);
      AncSurvives(a, b, born, j, n - 1);
    }
  }

  /** Slot i hangs below a slot satisfying P, or satisfies it itself. */
  ghost predicate Under(t: Table, i: nat, P: Cap -> bool)
    requires i < |t|
  {
    exists n: nat :: Anc(t, i, n).Some? && P(t[Anc(t, i, n).value].cap)
  }

  /** Slot i is a proper descendant of slot r. */
  ghost predicate Below(t: Table, i: nat, r: nat)
    requires i < |t|
  {
    exists n: nat :: n > 0 && Anc(t, i, n) == Some(r)
  }

  ghost predicate AtOrBelow(t: Table, i: nat, r: nat)
    requires i < |t|
  {
    i == r || Below(t, i, r)
  }

  /** If no survivor satisfies P, no survivor hangs below a slot that did. */
  lemma SurvivorsClear(a: Table, b: Table, born: seq<nat>, P: Cap -> bool, i: nat)
    requires Shrinks(a, b) && Forest(b, born) && i < |a| && b[i].live
    requires forall j: nat | j < |b| && b[j].live :: !P(b[j].cap)
    ensures !Under(a, i, P)
  {
    forall n: nat | Anc(a, i, n).Some? ensures !P(a[Anc(a, i, n).value].cap) {
      AncSurvives(a, b, born, i, n);
      AncOlder(b, born, i, n);
    }
  }

  /** If no survivor names r as its parent, no survivor hangs below r. */
  lemma {:induction false} SurvivorsNotBelow(a: Table, b: Table, born: seq<nat>, r: nat, i: nat, n: nat)
    requires Shrinks(a, b) && Forest(b, born) && |a| < MAX_SLOTS && i < |a| && b[i].live && r < |a| && a[r].live
    requires forall j: nat | j < |b| && b[j].live :: b[j].cap.parent != MakeId(r, a[r].gen)
    requires n > 0
    ensures Anc(a, i, n) != Some(r)
    decreases n
  {
    if b[i].cap.parent != 0 {
      var j := Parent(b, i).value;
      ResolveId(b, j, b[i].cap.parent);
      ResolveId(a, j, a[i].cap.parent);
      if n > 1 {
        SurvivorsNotBelow(a, b, born, r, j, n - 1);
      }
    }
  }

  /** b is a after freeing some proper descendants of r. */
  ghost predicate Pruned(a: Table, b: Table, r: nat) {
    && |a| == |b|
    && forall i: nat | i < |a| :: b[i] == a[i] || (a[i].live && b[i] == Freed(a[i]) && Below(a, i, r))
  }

  ghost predicate NoChildren(t: Table, id: u32, upTo: nat) {
    forall j: nat | j < |t| && j < upTo && t[j].live :: t[j].cap.parent != id
  }

  lemma NotBelowSelf(t: Table, born: seq<nat>, i: nat)
    requires Forest(t, born) && i < |t| && t[i].live
    ensures !Below(t, i, i)
  {
    forall n: nat | n > 0 ensures Anc(t, i, n) != Some(i) {
      if Anc(t, i, n).Some? { AncOlder(t, born, i, n); }
    }
  }

  /** The root of a pruning is not itself freed. */
  lemma PrunedKeepsRoot(a: Table, b: Table, born: seq<nat>, r: nat)
    requires Pruned(a, b, r) && Forest(a, born) && r < |a| && a[r].live
    ensures b[r] == a[r]
  {
    NotBelowSelf(a, born, r);
  }

  /** Pruning below a child of r is pruning below r. */
  lemma PrunedThrough(a: Table, b: Table, d: Table, born: seq<nat>, r: nat, c: nat)
    requires Pruned(a, b, r) && Forest(b, born) && c < |a| && b[c].live && Parent(a, c) == Some(r)
    requires Pruned(b, d, c)
    ensures Pruned(a, d, r)
  {
    forall i: nat | i < |a| && d[i] != a[i] && b[i] == a[i]
      ensures Below(a, i, r)
    {
      var n: nat :| n > 0 && Anc(b, i, n) == Some(c);
      AncSurvives(a, b, born, i, n);
      AncTrans(a, i, n, 1);
      assert Anc(a, c, 1) == Anc(a, r, 0);
      assert Anc(a, i, n + 1) == Some(r);
    }
  }

  /** ...and so is freeing the child. */
  lemma PrunedChild(a: Table, b: Table, r: nat, c: nat)
    requires Pruned(a, b, r) && c < |a| && b[c].live && Parent(a, c) == Some(r)
    ensures Pruned(a, b[c := Freed(b[c])], r)
  {
    assert Anc(a, c, 1) == Anc(a, r, 0);
  }

  /** Freeing a slot that no live slot names as its parent leaves a forest. */
  lemma FreeKeepsForest(t: Table, born: seq<nat>, i: nat)
    requires Forest(t, born) && i < |t| && t[i].live
    requires forall j: nat | j < |t| && t[j].live :: t[j].cap.parent != t[i].cap.id
    ensures Forest(t[i := Freed(t[i])], born)
  {
    var u := t[i := Freed(t[i])];
    forall j: nat | j < |u| && u[j].live && u[j].cap.parent != 0
      ensures Parent(u, j) == Parent(t, j)
    {
      ResolveId(t, i, t[j].cap.parent);
    }
  }

  /** Filling a free slot with a root, or with a child of a live slot, leaves a forest. */
  lemma FillKeepsForest(t: Table, born: seq<nat>, i: nat, s: Slot, clock: nat)
    requires Forest(t, born) && i < |t| && !t[i].live && s.live && s.gen == t[i].gen && s.cap.id == MakeId(i, s.gen)
    requires forall j | 0 <= j < |born| :: born[j] < clock
    requires s.cap.parent != 0 ==>
               Resolve(t, s.cap.parent).Some? && Attenuates(s.cap, t[Resolve(t, s.cap.parent).value].cap)
    ensures Forest(t[i := s], born[i := clock])
  {
    var u := t[i := s];
    forall j: nat | j < |u| && u[j].live && u[j].cap.parent != 0
      ensures Resolve(u, u[j].cap.parent) == Resolve(t, u[j].cap.parent) && Resolve(t, u[j].cap.parent) != Some(i)
    {
      if j != i { assert Parent(t, j).Some?; }
    }
  }

  // ---- how long a handle stays dead ----

  /** Slot generations count frees modulo 2^16. */
  ghost predicate Generations(t: Table, frees: seq<nat>) {
    |frees| == |t| && forall i | 0 <= i < |t| :: t[i].gen == frees[i] % 0x1_0000
  }

  /** From t to u the counts of frees grew by one at each slot that was freed, and nowhere else. */
  ghost predicate Tracks(t: Table, f: seq<nat>, u: Table, g: seq<nat>) {
    && |t| == |u| == |f| == |g|
    && forall i | 0 <= i < |t| :: g[i] == f[i] + if t[i].live && !u[i].live then 1 else 0
  }

  lemma TracksSelf(t: Table, f: seq<nat>)
    requires |f| == |t|
    ensures Tracks(t, f, t, f)
  {
  }

  /** No slot is freed twice on the way. */
  lemma TracksThen(t: Table, f: seq<nat>, u: Table, g: seq<nat>, v: Table, h: seq<nat>)
    requires Tracks(t, f, u, g) && Tracks(u, g, v, h) && Shrinks(t, u) && Shrinks(u, v)
    ensures Tracks(t, f, v, h)
  {
  }

  lemma TracksFreed(t: Table, f: seq<nat>, i: nat)
    requires |f| == |t| && i < |t| && t[i].live
    ensures Tracks(t, f, t[i := Freed(t[i])], f[i := f[i] + 1]) && Shrinks(t, t[i := Freed(t[i])])
  {
  }

  lemma TracksFilled(t: Table, f: seq<nat>, i: nat, s: Slot)
    requires |f| == |t| && i < |t| && !t[i].live
    ensures Tracks(t, f, t[i := s], f)
  {
  }

  /** The table and its free counts between two operations. */
  datatype Snapshot = Snapshot(t: Table, frees: seq<nat>)

  /** A run of the table: each operation's contract relates one snapshot to the next. */
  ghost predicate History(run: seq<Snapshot>) {
    && (forall k | 0 <= k < |run| :: |run[k].t| < MAX_SLOTS && Generations(run[k].t, run[k].frees))
    && (forall k | 0 < k < |run| :: Tracks(run[k - 1].t, run[k - 1].frees, run[k].t, run[k].frees))
  }

  /** An operation whose contract gives Tracks extends the run by one snapshot. */
  lemma HistoryGrows(run: seq<Snapshot>, s: Snapshot)
    requires History(run) && run != [] && |s.t| < MAX_SLOTS && Generations(s.t, s.frees)
    requires Tracks(run[|run| - 1].t, run[|run| - 1].frees, s.t, s.frees)
    ensures History(run + [s])
  {
  }

  /** How many times slot i has been freed over a run. */
  ghost function FreeCount(run: seq<Snapshot>, i: nat): nat
    requires forall k | 0 <= k < |run| :: i < |run[k].t|
  {
    if |run| < 2 then 0
    else
      var k := |run| - 1;
      FreeCount(run[..k], i) + if run[k - 1].t[i].live && !run[k].t[i].live then 1 else 0
  }

  lemma {:induction false} SameLength(run: seq<Snapshot>, k: nat)
    requires History(run) && k < |run|
    ensures |run[k].t| == |run[k].frees| == |run[0].t|
  {
    if k > 0 { SameLength(run, k - 1); }
  }

  lemma {:induction false} CountsFrees(run: seq<Snapshot>, i: nat)
    requires History(run) && run != [] && i < |run[0].t|
    ensures forall k | 0 <= k < |run| :: i < |run[k].t| == |run[k].frees|
    ensures run[|run| - 1].frees[i] == run[0].frees[i] + FreeCount(run, i)
  {
    forall k | 0 <= k < |run| ensures i < |run[k].t| == |run[k].frees| { SameLength(run, k); }
    if |run| > 1 {
      var k := |run| - 1;
      CountsFrees(run[..k], i);
      assert Tracks(run[k - 1].t, run[k - 1].frees, run[k].t, run[k].frees);
    }
  }

  lemma SumOfParts(qa: nat, ra: nat, qn: nat, rn: nat, m: nat)
    requires ra < m && rn < m
    ensures (qa * m + ra + (qn * m + rn)) % m == if ra + rn < m then ra + rn else ra + rn - m
  {
    var v := qa * m + ra + (qn * m + rn);
    if ra + rn < m {
      assert (qa + qn) * m == qa * m + qn * m;
      ModUnique(v, m, qa + qn, ra + rn);
    } else {
      assert (qa + qn + 1) * m == qa * m + qn * m + m;
      ModUnique(v, m, qa + qn + 1, ra + rn - m);
    }
  }

  lemma SameModulo(a: nat, n: nat, m: nat)
    requires m > 0
    ensures (a + n) % m == a % m <==> n % m == 0
  {
    DivMod(a, m);
    DivMod(n, m);
    SumOfParts(a / m, a % m, n / m, n % m, m);
  }

  /** What becomes of a handle over any run: it resolves at the end exactly when its slot is then live and has been
      freed a multiple of 2^16 times since, and it can only ever resolve to its own slot. */
  lemma HandleFate(run: seq<Snapshot>, id: u32, i: nat)
    requires History(run) && run != [] && Resolve(run[0].t, id) == Some(i)
    ensures forall k | 0 <= k < |run| :: i < |run[k].t|
    ensures var last := run[|run| - 1].t;
            Resolve(last, id) == if last[i].live && FreeCount(run, i) % 0x1_0000 == 0 then Some(i) else None
  {
    CountsFrees(run, i);
    ResolveId(run[0].t, i, id);
    var last := run[|run| - 1];
    SameModulo(run[0].frees[i], FreeCount(run, i), 0x1_0000);
    HandleSlot(last.t, i, run[0].t[i].gen, id);
  }

  lemma HandleSlot(t: Table, i: nat, gen: u16, id: u32)
    requires i < |t| < MAX_SLOTS && id == MakeId(i, gen)
    ensures Resolve(t, id) == if t[i].live && t[i].gen == gen then Some(i) else None
  {
  }

  /** So a handle whose slot has been freed stays unresolvable until that slot has been freed 2^16 times... */
  lemma StaleUntilWrap(run: seq<Snapshot>, id: u32, i: nat)
    requires History(run) && run != [] && Resolve(run[0].t, id) == Some(i)
    ensures forall k | 0 <= k < |run| :: i < |run[k].t|
    ensures 0 < FreeCount(run, i) < 0x1_0000 ==> Resolve(run[|run| - 1].t, id) == None
  {
    HandleFate(run, id, i);
  }

  /** ...and then aliases whatever occupies the slot. */
  lemma WrapAliases(run: seq<Snapshot>, id: u32, i: nat)
    requires History(run) && run != [] && Resolve(run[0].t, id) == Some(i)
    ensures forall k | 0 <= k < |run| :: i < |run[k].t|
    ensures FreeCount(run, i) == 0x1_0000 && run[|run| - 1].t[i].live ==> Resolve(run[|run| - 1].t, id) == Some(i)
  {
    HandleFate(run, id, i);
  }

  /** The cascade frees exactly the proper descendants. */
  lemma PrunedExact(a: Table, b: Table, born: seq<nat>, id: u32, r: nat, i: nat)
    requires Pruned(a, b, r) && Forest(a, born) && Forest(b, born) && NoChildren(b, id, |b|)
    requires Resolve(a, id) == Some(r) && i < |a|
    ensures b[i] == if a[i].live && Below(a, i, r) then Freed(a[i]) else a[i]
  {
    ResolveId(a, r, id);
    if b[i].live {
      forall n: nat | n > 0 ensures Anc(a, i, n) != Some(r) { SurvivorsNotBelow(a, b, born, r, i, n); }
    }
  }

  /** b is a after freeing some slots that satisfy P or hang below one that does. */
  ghost predicate PrunedUnder(a: Table, b: Table, P: Cap -> bool) {
    && |a| == |b|
    && forall i: nat | i < |a| :: b[i] == a[i] || (a[i].live && b[i] == Freed(a[i]) && Under(a, i, P))
  }

  ghost predicate NoMatch(t: Table, P: Cap -> bool, upTo: nat) {
    forall j: nat | j < |t| && j < upTo && t[j].live :: !P(t[j].cap)
  }

  /** One root of a sweep: its descendants, then itself. */
  lemma SweepRoot(a: Table, b: Table, d: Table, born: seq<nat>, P: Cap -> bool, i: nat)
    requires PrunedUnder(a, b, P) && Forest(b, born) && i < |a| && b[i].live && P(b[i].cap)
    requires Pruned(b, d, i) && d[i] == b[i] && NoMatch(b, P, i)
    ensures PrunedUnder(a, d[i := Freed(d[i])], P) && NoMatch(d[i := Freed(d[i])], P, i + 1)
  {
    forall k: nat | k < |a| && d[k] != a[k] && b[k] == a[k] ensures Under(a, k, P) {
      var n: nat :| n > 0 && Anc(b, k, n) == Some(i);
      AncSurvives(a, b, born, k, n);
    }
    assert Anc(a, i, 0) == Some(i);
  }

  lemma SweepExact(a: Table, b: Table, born: seq<nat>, P: Cap -> bool, i: nat)
    requires PrunedUnder(a, b, P) && Forest(b, born) && NoMatch(b, P, |b|) && i < |a|
    ensures b[i] == if a[i].live && Under(a, i, P) then Freed(a[i]) else a[i]
  {
    if b[i].live { SurvivorsClear(a, b, born, P, i); }
  }

  lemma AncPrefix(t: Table, i: nat, n: nat, m: nat)
    requires i < |t| && n <= m && Anc(t, i, m).Some?
    ensures Anc(t, i, n).Some?
    decreases n
  {
    if n > 0 { AncPrefix(t, Parent(t, i).value, n - 1, m - 1); }
  }
}
