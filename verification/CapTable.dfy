/** The capability table: create, derive, cascade revocation, death cleanup and the bounded lookups,
    each kept in step with the authority ledger. */
module CapTable {
  import opened Options
  import opened Bytes
  import opened Audit
  import opened CapForest

  datatype CapResult =
    | SUCCESS | INVALID_ID | DENIED | EXPIRED | NO_SPACE | INVALID_ARG | NOT_OWNER | ESCALATION | NOT_REVOCABLE

  // ---- conservation between table and ledger ----

  datatype Holding = Holding(owner: u32, rtype: u32, rid: u32, perms: u32)

  function HoldingOf(c: Cap): Holding { Holding(c.owner, c.rtype, c.rid, c.perms) }

  function Subject(e: Event): Holding { Holding(e.pid, e.rtype, e.rid, e.perms) }

  predicate IsRemoval(kind: u16) { kind == AUDIT_REVOKE || kind == AUDIT_REAP || kind == AUDIT_UNLINK }

  ghost function Granted(h: seq<Stamped>): multiset<Holding> {
    if h == [] then multiset{}
    else
      Granted(h[..|h| - 1]) +
      if h[|h| - 1].0.kind == AUDIT_GRANT then multiset{Subject(h[|h| - 1].0)} else multiset{}
  }

  ghost function Removed(h: seq<Stamped>): multiset<Holding> {
    if h == [] then multiset{}
    else Removed(h[..|h| - 1]) + if IsRemoval(h[|h| - 1].0.kind) then multiset{Subject(h[|h| - 1].0)} else multiset{}
  }

  ghost function LiveHoldings(t: Table): multiset<Holding> {
    if t == [] then multiset{}
    else LiveHoldings(t[..|t| - 1]) + Held(t[|t| - 1])
  }

  ghost function Held(s: Slot): multiset<Holding> {
    if s.live then multiset{HoldingOf(s.cap)} else multiset{}
  }

  lemma {:induction false} LiveConcat(a: Table, b: Table)
    ensures LiveHoldings(a + b) == LiveHoldings(a) + LiveHoldings(b)
  {
    hide Held, LiveHoldings;
    if b == [] {
      assert a + b == a;
      assert LiveHoldings(b) == multiset{} by { NothingLive(b); }
    } else {
      var c, s := a + b, b[|b| - 1];
      LiveConcat(a, b[..|b| - 1]);
      assert c[..|c| - 1] == a + b[..|b| - 1] && c[|c| - 1] == s;
      LiveSnoc(c);
      LiveSnoc(b);
    }
  }

  lemma LiveSnoc(t: Table)
    requires t != []
    ensures LiveHoldings(t) == LiveHoldings(t[..|t| - 1]) + Held(t[|t| - 1])
  {
  }

  lemma LiveOne(s: Slot)
    ensures LiveHoldings([s]) == Held(s)
  {
    assert [s][..0] == [];
  }

  lemma LiveHoldingsUpdate(t: Table, i: nat, s: Slot)
    requires i < |t|
    ensures LiveHoldings(t[i := s]) + Held(t[i]) == LiveHoldings(t) + Held(s)
  {
    hide LiveHoldings, Held;
    var a, b := t[..i], t[i + 1..];
    assert t == a + ([t[i]] + b) && t[i := s] == a + ([s] + b);
    LiveConcat(a, [t[i]] + b);
    LiveConcat([t[i]], b);
    LiveConcat(a, [s] + b);
    LiveConcat([s], b);
    LiveOne(t[i]);
    LiveOne(s);
  }

  lemma {:induction false} NothingLive(t: Table)
    requires forall i | 0 <= i < |t| :: !t[i].live
    ensures LiveHoldings(t) == multiset{}
  {
    if t != [] { NothingLive(t[..|t| - 1]); }
  }

  lemma Snoc(h: seq<Stamped>, e: Stamped)
    ensures Granted(h + [e]) == Granted(h) + (if e.0.kind == AUDIT_GRANT then multiset{Subject(e.0)} else multiset{})
    ensures Removed(h + [e]) == Removed(h) + (if IsRemoval(e.0.kind) then multiset{Subject(e.0)} else multiset{})
  {
    assert (h + [e])[..|h|] == h;
  }

  datatype Stats = Stats(created: nat, derived: nat, revoked: nat, active: nat)

  /** What was granted is what was removed plus what is live, and the counters agree. */
  ghost predicate Books(t: Table, h: seq<Stamped>, s: Stats) {
    && Granted(h) == Removed(h) + LiveHoldings(t)
    && s.active == |LiveHoldings(t)|
    && s.created + s.derived == s.active + s.revoked
  }

  /** The counters after one grant. */
  function Granting(s: Stats, derivedCap: bool): Stats {
    if derivedCap then s.(derived := s.derived + 1, active := s.active + 1)
    else s.(created := s.created + 1, active := s.active + 1)
  }

  /** Removals never touch the counts of what was handed out. */
  predicate SameGrants(a: Stats, b: Stats) { a.created == b.created && a.derived == b.derived }

  lemma BooksRemove(t: Table, h: seq<Stamped>, s: Stats, i: nat, e: Stamped)
    requires Books(t, h, s) && i < |t| && t[i].live && IsRemoval(e.0.kind) && Subject(e.0) == HoldingOf(t[i].cap)
    ensures s.active > 0 && Books(t[i := Freed(t[i])], h + [e], s.(active := s.active - 1, revoked := s.revoked + 1))
  {
    LiveHoldingsUpdate(t, i, Freed(t[i]));
    Snoc(h, e);
    assert LiveHoldings(t[i := Freed(t[i])]) + multiset{Subject(e.0)} == LiveHoldings(t);
  }

  lemma BooksGrant(t: Table, h: seq<Stamped>, s: Stats, i: nat, u: Slot, e: Stamped, r: Stats)
    requires Books(t, h, s) && i < |t| && !t[i].live && u.live
    requires e.0.kind == AUDIT_GRANT && Subject(e.0) == HoldingOf(u.cap)
    requires r.created + r.derived == s.created + s.derived + 1 && r.active == s.active + 1 && r.revoked == s.revoked
    ensures Books(t[i := u], h + [e], r)
  {
    LiveHoldingsUpdate(t, i, u);
    Snoc(h, e);
    assert LiveHoldings(t[i := u]) == LiveHoldings(t) + multiset{Subject(e.0)};
  }

  lemma BooksNeutral(t: Table, h: seq<Stamped>, s: Stats, e: Stamped)
    requires Books(t, h, s) && e.0.kind != AUDIT_GRANT && !IsRemoval(e.0.kind)
    ensures Books(t, h + [e], s)
  {
    Snoc(h, e);
  }

  /** Births precede the clock, and every live slot lies below the high-water mark. */
  ghost predicate Bounds(t: Table, hwm: nat, born: seq<nat>, clock: nat) {
    && (forall i | 0 <= i < |born| :: born[i] < clock)
    && hwm <= |t| && (forall i | hwm <= i < |t| :: !t[i].live)
  }

  lemma EmptyTable(t: Table, h: seq<Stamped>)
    requires |t| < MAX_SLOTS && Granted(h) == Removed(h) && forall i | 0 <= i < |t| :: !t[i].live && t[i].gen == 0
    ensures var zeros: seq<nat> := seq(|t|, _ => 0);
            Forest(t, zeros) && Bounds(t, 0, zeros, 1) && Generations(t, zeros) && Books(t, h, Stats(0, 0, 0, 0))
  {
    NothingLive(t);
  }

  /** hist grew by records of one kind only. */
  ghost predicate OnlyKind(before: seq<Stamped>, after: seq<Stamped>, kind: u16) {
    before <= after && forall k | |before| <= k < |after| :: after[k].0.kind == kind && after[k].0.verdict == AUDIT_V_OK
  }

  // ---- lookups ----

  predicate Expired(c: Cap, now: u64) { c.expires != 0 && now >= c.expires }

  /** The first live slot satisfying P, scanning the whole table. */
  function First(t: Table, P: Cap -> bool, from: nat): (r: Option<nat>)
    requires from <= |t|
    ensures r.Some? ==> from <= r.value < |t| && t[r.value].live && P(t[r.value].cap)
    ensures r.None? ==> forall i | from <= i < |t| :: !(t[i].live && P(t[i].cap))
    ensures r.Some? ==> forall i | from <= i < r.value :: !(t[i].live && P(t[i].cap))
    decreases |t| - from
  {
    if from == |t| then None
    else if t[from].live && P(t[from].cap) then Some(from)
    else First(t, P, from + 1)
  }

  function Wanted(pid: u32, rtype: u32, perms: u32, now: u64): Cap -> bool {
    (c: Cap) => c.owner == pid && c.rtype == rtype && SubBits(perms, c.perms) && !Expired(c, now)
  }

  function WantedResource(pid: u32, rtype: u32, perms: u32, rid: u32, now: u64): Cap -> bool {
    (c: Cap) => c.owner == pid && c.rtype == rtype && c.rid == rid && SubBits(perms, c.perms) && !Expired(c, now)
  }

  function OwnedBy(pid: u32): Cap -> bool {
    (c: Cap) => c.owner == pid
  }

  function IpcTo(pid: u32): Cap -> bool {
    (c: Cap) => c.rtype == CAP_RESOURCE_IPC && c.rid == pid
  }

  /** The owner, or the owner of an ancestor that carries CAP_REVOKE. */
  ghost predicate Authorized(t: Table, i: nat, pid: u32)
    requires i < |t|
  {
    || t[i].cap.owner == pid
    || exists n: nat :: n > 0 && Anc(t, i, n).Some? &&
         t[Anc(t, i, n).value].cap.owner == pid && SubBits(CAP_REVOKE, t[Anc(t, i, n).value].cap.perms)
  }

  class Capabilities {
    const slots: array<Slot>
    const ledger: Ledger
    var hwm: nat
    var stats: Stats
    ghost var born: seq<nat>  // when each slot was last filled
    ghost var clock: nat      // later than every birth
    ghost var frees: seq<nat> // how often each slot has been freed

    ghost predicate Valid()
      reads this, slots, ledger, ledger.ring
    {
      && slots as object != ledger.ring
      && slots.Length < MAX_SLOTS && |born| == |frees| == slots.Length
      && Forest(slots[..], born)
      && Bounds(slots[..], hwm, born, clock)
      && Generations(slots[..], frees)
      && ledger.Valid()
      && Books(slots[..], ledger.hist, stats)
    }

    constructor (n: nat, l: Ledger)
      requires n < MAX_SLOTS && l.Valid() && Granted(l.hist) == Removed(l.hist)
      ensures Valid() && fresh(slots) && slots.Length == n && ledger == l
      ensures forall i | 0 <= i < n :: !slots[i].live
    {
      hide Forest, Bounds, Generations, Books, Ledger.Valid, Granted, Removed;
      slots := new Slot[n](_ => Slot(Cap(0, 0, 0, 0, 0, 0, false, false, false, 0), 0, false));
      ledger := l;
      hwm, stats := 0, Stats(0, 0, 0, 0);
      born, clock, frees := seq(n, _ => 0), 1, seq(n, _ => 0);
      new;
      EmptyTable(slots[..], l.hist);
    }

    /** free_slot, with the caller's capture-before-free of the record fields and its bookkeeping. */
    method Release(i: nat, kind: u16, now: u64)
      requires Valid() && i < slots.Length && slots[i].live && IsRemoval(kind)
      requires forall j | 0 <= j < slots.Length && slots[j].live :: slots[j].cap.parent != slots[i].cap.id
      modifies this`stats, this`frees, slots, ledger`total, ledger`hist, ledger.ring
      ensures Valid()
      ensures slots[..] == old(slots[..])[i := Freed(old(slots[i]))]
      ensures var c := old(slots[i].cap);
              ledger.hist == old(ledger.hist) + [(Event(kind, c.owner, AUDIT_V_OK, c.rtype, c.rid, c.perms), now)]
      ensures SameGrants(old(stats), stats) && Tracks(old(slots[..]), old(frees), slots[..], frees)
    {
      hide Books, Forest, Generations, Bounds, Ledger.Valid, SubBits, Tracks, Ledger.Contents, Entries, Last;
      ghost var t := slots[..];
      var c := slots[i].cap;
      FreeKeepsForest(t, born, i);
      BooksRemove(t, ledger.hist, stats, i, (Event(kind, c.owner, AUDIT_V_OK, c.rtype, c.rid, c.perms), now));
      GenerationFreed(t, frees, i);
      TracksFreed(t, frees, i);
      BoundsFreed(t, hwm, born, clock, i);
      slots[i] := Freed(slots[i]);
      stats := stats.(active := stats.active - 1, revoked := stats.revoked + 1);
      frees := frees[i := frees[i] + 1];
      ledger.Record(Event(kind, c.owner, AUDIT_V_OK, c.rtype, c.rid, c.perms), now);
      assert slots[..] == t[i := Freed(t[i])];
    }

    /** The cascade: free every live descendant of the capability in slot p, children last, and nothing else. */
    method RevokeChildrenOf(id: u32, kind: u16, now: u64, ghost p: nat)
      requires Valid() && Resolve(slots[..], id) == Some(p) && IsRemoval(kind)
      modifies this`stats, this`frees, slots, ledger`total, ledger`hist, ledger.ring
      ensures Valid()
      ensures Pruned(old(slots[..]), slots[..], p) && NoChildren(slots[..], id, slots.Length)
      ensures OnlyKind(old(ledger.hist), ledger.hist, kind) && SameGrants(old(stats), stats)
      ensures Tracks(old(slots[..]), old(frees), slots[..], frees)
      decreases clock - born[p]
    {
      hide Books, Generations, Ledger.Valid, SubBits, Pruned, NoChildren, OnlyKind, Parent, Resolve, Forest, MakeId,
           Tracks;
      ghost var t, h, f := slots[..], ledger.hist, frees;
      CascadeStart(t, id, p, h, kind);
      TracksSelf(t, f);
      var i := 0;
      while i < slots.Length
        invariant i <= slots.Length && Valid()
        invariant Pruned(t, slots[..], p) && NoChildren(slots[..], id, i)
        invariant OnlyKind(h, ledger.hist, kind) && SameGrants(old(stats), stats)
        invariant Tracks(t, f, slots[..], frees)
      {
        if slots[i].live && slots[i].cap.parent == id {
          ghost var t1, h1, f1 := slots[..], ledger.hist, frees;
          var child := slots[i].cap.id;
          CascadeChild(t, t1, born, id, p, i);
          RevokeChildrenOf(child, kind, now, i);
          ghost var t2, h2, f2 := slots[..], ledger.hist, frees;
          CascadeReturn(t, t1, t2, born, id, p, i);
          PrunedShrinks(t, t1, p);
          PrunedShrinks(t1, t2, i);
          TracksThen(t, f, t1, f1, t2, f2);
          Release(i, kind, now);
          PrunedShrinks(t, t2, p);
          FreedShrinks(t2, i);
          TracksThen(t, f, t2, f2, slots[..], frees);
          CascadeFreed(t, t1, t2, born, id, p, i);
          OnlyKindGrows(h, h1, h2, ledger.hist, kind);
        } else {
          CascadeSkip(slots[..], id, i);
        }
        i := i + 1;
      }
    }

    /** cap_revoke: the owner, or an ancestor's owner with CAP_REVOKE, frees exactly the derivation subtree. */
    method Revoke(id: u32, requester: u32, now: u64) returns (r: CapResult)
      requires Valid()
      modifies this`stats, this`frees, slots, ledger`total, ledger`hist, ledger.ring
      ensures Valid() && OnlyKind(old(ledger.hist), ledger.hist, AUDIT_REVOKE) && SameGrants(old(stats), stats)
      ensures Tracks(old(slots[..]), old(frees), slots[..], frees)
      ensures var t, p := old(slots[..]), old(Resolve(slots[..], id));
              r == (if p.None? then INVALID_ID
                    else if !t[p.value].cap.revocable then NOT_REVOCABLE
                    else if !Authorized(t, p.value, requester) then NOT_OWNER
                    else SUCCESS)
      ensures r != SUCCESS ==> slots[..] == old(slots[..]) && ledger.hist == old(ledger.hist) && stats == old(stats)
      ensures r == SUCCESS ==>
                var t, p := old(slots[..]), old(Resolve(slots[..], id)).value;
                forall i: nat | i < slots.Length ::
                  slots[i] == if t[i].live && AtOrBelow(t, i, p) then Freed(t[i]) else t[i]
    {
      ghost var t := slots[..];
      var p := Resolve(slots[..], id);
      if p.None? {
        return INVALID_ID;
      }
      if !slots[p.value].cap.revocable {
        return NOT_REVOCABLE;
      }
      var ok := MayRevoke(p.value, requester);
      if !ok {
        return NOT_OWNER;
      }
      RevokeSubtree(id, p.value, now);
      return SUCCESS;
    }

    /** The ownership test, with its walk up the ancestors. */
    method MayRevoke(p: nat, requester: u32) returns (ok: bool)
      requires Valid() && p < slots.Length && slots[p].live
      ensures ok == Authorized(slots[..], p, requester)
    {
      hide Books, Generations, SubBits, Ledger.Valid, Forest, Anc, Resolve, Parent, NoneMayRevoke;
      ghost var t := slots[..];
      if slots[p].cap.owner == requester {
        return true;
      }
      ok := false;
      var ancestor := slots[p].cap.parent;
      ghost var n: nat, at: nat := 1, p;
      WalkStart(t, p, requester);
      while ancestor != 0
        invariant !ok && at < slots.Length && slots[at].live && ancestor == slots[at].cap.parent
        invariant n > 0 && Anc(t, p, n - 1) == Some(at) && NoneMayRevoke(t, p, requester, n)
        decreases born[at]
      {
        var a := Resolve(slots[..], ancestor);
        WalkStep(t, born, p, requester, n, at);
        if slots[a.value].cap.owner == requester && SubBits(CAP_REVOKE, slots[a.value].cap.perms) {
          return true;
        }
        ancestor := slots[a.value].cap.parent;
        n, at := n + 1, a.value;
      }
      WalkEnd(t, p, requester, n, at);
    }

    method RevokeSubtree(id: u32, p: nat, now: u64)
      requires Valid() && Resolve(slots[..], id) == Some(p)
      modifies this`stats, this`frees, slots, ledger`total, ledger`hist, ledger.ring
      ensures Valid() && OnlyKind(old(ledger.hist), ledger.hist, AUDIT_REVOKE) && SameGrants(old(stats), stats)
      ensures Tracks(old(slots[..]), old(frees), slots[..], frees)
      ensures var t := old(slots[..]);
              forall i: nat | i < slots.Length ::
                slots[i] == if t[i].live && AtOrBelow(t, i, p) then Freed(t[i]) else t[i]
    {
      hide Books, Generations, SubBits, Ledger.Valid, Forest, Pruned, NoChildren, OnlyKind, Resolve, Parent, MakeId,
           Tracks;
      ghost var t, h, f := slots[..], ledger.hist, frees;
      RevokeChildrenOf(id, AUDIT_REVOKE, now, p);
      ghost var t1, h1, f1 := slots[..], ledger.hist, frees;
      SubtreeRoot(t, t1, born, id, p);
      Release(p, AUDIT_REVOKE, now);
      PrunedShrinks(t, t1, p);
      FreedShrinks(t1, p);
      TracksThen(t, f, t1, f1, slots[..], frees);
      OnlyKindGrows(h, h, h1, ledger.hist, AUDIT_REVOKE) by { CascadeStart(t, id, p, h, AUDIT_REVOKE); }
      forall i: nat | i < slots.Length
        ensures slots[i] == if t[i].live && AtOrBelow(t, i, p) then Freed(t[i]) else t[i]
      {
        PrunedExact(t, t1, born, id, p, i);
        if i != p { assert slots[..][i] == t1[i]; }
      }
    }

    /** cap_revoke_all_for_process: exactly the pid's capabilities and everything derived from them, recorded as
        REAP. */
    method RevokeAllForProcess(pid: u32, now: u64)
      requires Valid()
      modifies this`stats, this`frees, slots, ledger`total, ledger`hist, ledger.ring
      ensures Valid() && OnlyKind(old(ledger.hist), ledger.hist, AUDIT_REAP) && SameGrants(old(stats), stats)
      ensures Tracks(old(slots[..]), old(frees), slots[..], frees)
      ensures var t := old(slots[..]);
              forall i: nat | i < slots.Length ::
                slots[i] == if t[i].live && Under(t, i, OwnedBy(pid)) then Freed(t[i]) else t[i]
    {
      hide Books, Generations, SubBits, Ledger.Valid, Forest, NoMatch, PrunedUnder, OnlyKind, Under, Tracks, Shrinks;
      ghost var t, h, f, P := slots[..], ledger.hist, frees, OwnedBy(pid);
      TracksSelf(t, f);
      SweepStart(t, P, h, AUDIT_REAP);
      var i := 0;
      while i < slots.Length
        invariant i <= slots.Length && Valid()
        invariant PrunedUnder(t, slots[..], P) && NoMatch(slots[..], P, i)
        invariant OnlyKind(h, ledger.hist, AUDIT_REAP) && SameGrants(old(stats), stats)
        invariant Tracks(t, f, slots[..], frees)
      {
        if slots[i].live && slots[i].cap.owner == pid {
          ghost var t1, f1 := slots[..], frees;
          SweepOne(i, AUDIT_REAP, now, t, h, P);
          UnderShrinks(t, t1, P);
          TracksThen(t, f, t1, f1, slots[..], frees);
        } else {
          SweepSkip(slots[..], P, i);
        }
        i := i + 1;
      }
      SweepEnd(t, slots[..], born, P);
    }

    /** cap_revoke_ipc_targets: exactly the IPC capabilities naming the dead pid and everything derived from them,
        recorded as UNLINK. */
    method RevokeIpcTargets(dead: u32, now: u64)
      requires Valid()
      modifies this`stats, this`frees, slots, ledger`total, ledger`hist, ledger.ring
      ensures Valid() && OnlyKind(old(ledger.hist), ledger.hist, AUDIT_UNLINK) && SameGrants(old(stats), stats)
      ensures Tracks(old(slots[..]), old(frees), slots[..], frees)
      ensures var t := old(slots[..]);
              forall i: nat | i < slots.Length ::
                slots[i] == if t[i].live && Under(t, i, IpcTo(dead)) then Freed(t[i]) else t[i]
    {
      hide Books, Generations, SubBits, Ledger.Valid, Forest, NoMatch, PrunedUnder, OnlyKind, Under, Tracks, Shrinks;
      ghost var t, h, f, P := slots[..], ledger.hist, frees, IpcTo(dead);
      TracksSelf(t, f);
      SweepStart(t, P, h, AUDIT_UNLINK);
      var i := 0;
      while i < slots.Length
        invariant i <= slots.Length && Valid()
        invariant PrunedUnder(t, slots[..], P) && NoMatch(slots[..], P, i)
        invariant OnlyKind(h, ledger.hist, AUDIT_UNLINK) && SameGrants(old(stats), stats)
        invariant Tracks(t, f, slots[..], frees)
      {
        if slots[i].live && slots[i].cap.rtype == CAP_RESOURCE_IPC && slots[i].cap.rid == dead {
          ghost var t1, f1 := slots[..], frees;
          SweepOne(i, AUDIT_UNLINK, now, t, h, P);
          UnderShrinks(t, t1, P);
          TracksThen(t, f, t1, f1, slots[..], frees);
        } else {
          SweepSkip(slots[..], P, i);
        }
        i := i + 1;
      }
      SweepEnd(t, slots[..], born, P);
    }

    /** The body of both sweeps: cascade below slot i, then free it. */
    method SweepOne(i: nat, kind: u16, now: u64, ghost t: Table, ghost h: seq<Stamped>, ghost P: Cap -> bool)
      requires Valid() && IsRemoval(kind) && i < slots.Length && slots[i].live && P(slots[i].cap)
      requires |t| == slots.Length
      requires PrunedUnder(t, slots[..], P) && NoMatch(slots[..], P, i) && OnlyKind(h, ledger.hist, kind)
      modifies this`stats, this`frees, slots, ledger`total, ledger`hist, ledger.ring
      ensures Valid()
      ensures PrunedUnder(t, slots[..], P) && NoMatch(slots[..], P, i + 1) && OnlyKind(h, ledger.hist, kind)
      ensures SameGrants(old(stats), stats)
      ensures Tracks(old(slots[..]), old(frees), slots[..], frees) && Shrinks(old(slots[..]), slots[..])
    {
      hide Books, Generations, SubBits, Ledger.Valid, NoMatch, PrunedUnder, OnlyKind, Pruned, NoChildren, Forest,
           Resolve, MakeId, Tracks, Shrinks;
      ghost var t1, h1, f1 := slots[..], ledger.hist, frees;
      var id := slots[i].cap.id;
      OwnHandle(t1, born, i);
      RevokeChildrenOf(id, kind, now, i);
      ghost var t2, h2, f2 := slots[..], ledger.hist, frees;
      SubtreeRoot(t1, t2, born, id, i);
      Release(i, kind, now);
      PrunedShrinks(t1, t2, i);
      FreedShrinks(t2, i);
      TracksThen(t1, f1, t2, f2, slots[..], frees);
      ShrinksThen(t1, t2, slots[..]);
      SweepRoot(t, t1, t2, born, P, i);
      OnlyKindGrows(h, h1, h2, ledger.hist, kind);
    }

    /** First-fit allocation; it keeps the lookup bound above the slot it takes. */
    method AllocSlot() returns (found: Option<nat>)
      requires slots.Length < MAX_SLOTS && hwm <= slots.Length
      modifies this`hwm, slots
      ensures found.None? ==>
                && hwm == old(hwm) && slots[..] == old(slots[..])
                && forall i | 0 <= i < slots.Length :: slots[i].live
      ensures found.Some? ==>
                var i := found.value;
                && i < slots.Length && !old(slots[i].live) && (forall j | 0 <= j < i :: old(slots[j].live))
                && slots[..] == old(slots[..])[
                     i := Slot(old(slots[i].cap).(id := MakeId(i, old(slots[i].gen))), old(slots[i].gen), true)]
                && hwm == if i + 1 > old(hwm) then i + 1 else old(hwm)
    {
      for i := 0 to slots.Length
        invariant slots[..] == old(slots[..]) && hwm == old(hwm)
        invariant forall j | 0 <= j < i :: slots[j].live
      {
        if !slots[i].live {
          slots[i] := Slot(slots[i].cap.(id := MakeId(i, slots[i].gen)), slots[i].gen, true);
          if i + 1 > hwm {
            hwm := i + 1;
          }
          return Some(i);
        }
      }
      return None;
    }

    /** Fill an allocated slot, count it and record the grant. */
    method Fill(i: nat, c: Cap, now: u64, derivedCap: bool, ghost t: Table, ghost oldHwm: nat)
      requires slots as object != ledger.ring && slots.Length < MAX_SLOTS && |born| == |frees| == slots.Length
      requires ledger.Valid() && Books(t, ledger.hist, stats) && Forest(t, born) && Generations(t, frees)
      requires |t| == slots.Length && i < |t| && !t[i].live && slots[i].gen == t[i].gen
      requires forall j | 0 <= j < |t| && j != i :: slots[j] == t[j]
      requires forall j | 0 <= j < |born| :: born[j] < clock
      requires oldHwm <= hwm <= slots.Length && i < hwm && forall j | oldHwm <= j < |t| :: !t[j].live
      requires c.id == MakeId(i, t[i].gen)
      requires c.parent != 0 ==> Resolve(t, c.parent).Some? && Attenuates(c, t[Resolve(t, c.parent).value].cap)
      modifies this`stats, this`born, this`clock, slots, ledger`total, ledger`hist, ledger.ring
      ensures Valid()
      ensures slots[..] == t[i := Slot(c, t[i].gen, true)]
      ensures ledger.hist == old(ledger.hist) +
                [(Event(AUDIT_GRANT, c.owner, AUDIT_V_OK, c.rtype, c.rid, c.perms), now)]
      ensures stats == Granting(old(stats), derivedCap)
      ensures Tracks(t, frees, slots[..], frees)
    {
      hide Books, Generations, SubBits, Ledger.Valid, Forest, Resolve, Attenuates, MakeId, Tracks, Bounds,
           Ledger.Contents, Entries, Last;
      var g := Event(AUDIT_GRANT, c.owner, AUDIT_V_OK, c.rtype, c.rid, c.perms);
      var s' := Granting(stats, derivedCap);
      FillKeepsForest(t, born, i, Slot(c, t[i].gen, true), clock);
      BooksGrant(t, ledger.hist, stats, i, Slot(c, t[i].gen, true), (g, now), s');
      GenerationKept(t, frees, i, c);
      TracksFilled(t, frees, i, Slot(c, t[i].gen, true));
      BoundsFilled(t, hwm, oldHwm, born, clock, i, Slot(c, t[i].gen, true));
      slots[i] := Slot(c, slots[i].gen, true);
      stats := s';
      born := born[i := clock];
      clock := clock + 1;
      assert slots[..] == t[i := Slot(c, t[i].gen, true)];
      ledger.Record(g, now);
    }

    /** cap_create: a root capability in the first free slot. */
    method Create(owner: u32, rtype: u32, rid: u32, perms: u32, expires: u64, now: u64)
      returns (r: CapResult, id: u32)
      requires Valid()
      modifies this`hwm, this`stats, this`born, this`clock, slots, ledger`total, ledger`hist, ledger.ring
      ensures Valid()
      ensures r == (if rtype >= CAP_RESOURCE_TYPE_COUNT then INVALID_ARG
                    else if forall i | 0 <= i < slots.Length :: old(slots[i].live) then NO_SPACE
                    else SUCCESS)
      ensures r != SUCCESS ==> slots[..] == old(slots[..]) && ledger.hist == old(ledger.hist) && stats == old(stats)
      ensures r == SUCCESS ==>
                exists i: nat ::
                  i < slots.Length && !old(slots[i].live) && (forall j | 0 <= j < i :: old(slots[j].live)) &&
                  slots[..] == old(slots[..])[
                    i := Slot(Cap(id, owner, rtype, rid, perms, expires, true, false, false, 0), old(slots[i].gen),
                              true)] &&
                  Resolve(slots[..], id) == Some(i)
      ensures r == SUCCESS ==>
                && Tracks(old(slots[..]), old(frees), slots[..], frees)
                && stats.created == old(stats.created) + 1 && stats.derived == old(stats.derived)
                && ledger.hist == old(ledger.hist) + [(Event(AUDIT_GRANT, owner, AUDIT_V_OK, rtype, rid, perms), now)]
    {
      hide Books, Generations, SubBits, Ledger.Valid, Forest, Resolve, Attenuates, MakeId;
      id := 0;
      if rtype >= CAP_RESOURCE_TYPE_COUNT {
        return INVALID_ARG, id;
      }
      ghost var t, hw := slots[..], hwm;
      var found := AllocSlot();
      if found.None? {
        return NO_SPACE, id;
      }
      var i := found.value;
      id := slots[i].cap.id;
      Fill(i, Cap(id, owner, rtype, rid, perms, expires, true, false, false, 0), now, false, t, hw);
      OwnHandle(slots[..], born, i);
      return SUCCESS, id;
    }

    /** cap_derive: an attenuated child of a live, unexpired, grantable capability the requester owns. */
    method Derive(parentId: u32, requester: u32, newOwner: u32, perms: u32, expires: u64, now: u64)
      returns (r: CapResult, id: u32)
      requires Valid()
      modifies this`hwm, this`stats, this`born, this`clock, slots, ledger`total, ledger`hist, ledger.ring
      ensures Valid()
      ensures r == DeriveResult(old(slots[..]), parentId, requester, perms, now)
      ensures r != SUCCESS ==> slots[..] == old(slots[..]) && ledger.hist == old(ledger.hist) && stats == old(stats)
      ensures r == SUCCESS ==>
                var t := old(slots[..]);
                var p := Resolve(t, parentId).value;
                exists i: nat :: i < slots.Length && !t[i].live && (forall j | 0 <= j < i :: t[j].live) &&
                  slots[..] == t[
                    i := Slot(Cap(id, newOwner, t[p].cap.rtype, t[p].cap.rid, perms, Clamp(expires, t[p].cap.expires),
                                  true, true, false, parentId), t[i].gen, true)] &&
                  Resolve(slots[..], id) == Some(i) && Parent(slots[..], i) == Some(p) &&
                  Attenuates(slots[i].cap, t[p].cap)
      ensures r == SUCCESS ==>
                var c := old(slots[..])[Resolve(old(slots[..]), parentId).value].cap;
                && Tracks(old(slots[..]), old(frees), slots[..], frees)
                && stats.derived == old(stats.derived) + 1 && stats.created == old(stats.created)
                && ledger.hist == old(ledger.hist) +
                  [(Event(AUDIT_GRANT, newOwner, AUDIT_V_OK, c.rtype, c.rid, perms), now)]
    {
      hide Books, Generations, SubBits, Ledger.Valid, Forest, Resolve, MakeId;
      id := 0;
      ghost var t, hw := slots[..], hwm;
      var p := Resolve(slots[..], parentId);
      if p.None? {
        return INVALID_ID, id;
      }
      var parent := slots[p.value].cap;
      if parent.owner != requester {
        return NOT_OWNER, id;
      }
      if Expired(parent, now) {
        return EXPIRED, id;
      }
      if !SubBits(CAP_GRANT, parent.perms) {
        return DENIED, id;
      }
      if !SubBits(perms, parent.perms) {
        return ESCALATION, id;
      }
      var clamped := expires;
      if parent.expires != 0 && (expires == 0 || expires > parent.expires) {
        clamped := parent.expires;
      }
      var found := AllocSlot();
      if found.None? {
        return NO_SPACE, id;
      }
      var i := found.value;
      id := slots[i].cap.id;
      var c := Cap(id, newOwner, parent.rtype, parent.rid, perms, clamped, true, true, false, parentId);
      NonZeroHandle(t, parentId);
      Fill(i, c, now, true, t, hw);
      OwnHandle(slots[..], born, i);
      ChildResolves(t, slots[..], born, i, p.value, parentId);
      return SUCCESS, id;
    }

    /** cap_mark_spawn_channel: an informational tag that no decision reads. */
    method MarkSpawnChannel(id: u32) returns (r: CapResult)
      requires Valid()
      modifies slots
      ensures Valid()
      ensures Tracks(old(slots[..]), frees, slots[..], frees)
      ensures var p := Resolve(old(slots[..]), id);
              if p.None? then r == INVALID_ID && slots[..] == old(slots[..])
              else r == SUCCESS && slots[..] == Marked(old(slots[..]), p.value)
    {
      hide Ledger.Valid, Books, Forest, Generations;
      var p := Resolve(slots[..], id);
      if p.None? {
        return INVALID_ID;
      }
      ghost var t := slots[..];
      MarkKeepsForest(t, born, frees, p.value);
      MarkKeepsBooks(t, ledger.hist, stats, p.value);
      slots[p.value] := slots[p.value].(cap := slots[p.value].cap.(spawnChannel := true));
      assert slots[..] == Marked(t, p.value);
      return SUCCESS;
    }

    /** A record that moves no capability: a denial, a spawn, a quota or egress verdict. */
    method Note(ev: Event, now: u64)
      requires Valid() && ev.kind != AUDIT_GRANT && !IsRemoval(ev.kind)
      modifies ledger`total, ledger`hist, ledger.ring
      ensures Valid() && slots[..] == old(slots[..]) && ledger.hist == old(ledger.hist) + [(ev, now)]
    {
      hide Ledger.Valid, Books, Forest, Generations;
      BooksNeutral(slots[..], ledger.hist, stats, (ev, now));
      ledger.Record(ev, now);
    }

    /** cap_find: the resource of the first match below the high-water mark, which is the first match of the whole
        table. */
    method Find(pid: u32, rtype: u32, perms: u32, now: u64) returns (r: CapResult, rid: u32)
      requires Valid()
      ensures match First(slots[..], Wanted(pid, rtype, perms, now), 0)
              case None => r == DENIED
              case Some(i) => r == SUCCESS && rid == slots[i].cap.rid
    {
      hide Ledger.Valid, Books, Forest, Generations, SubBits, First;
      rid := 0;
      var i := 0;
      while i < hwm
        invariant i <= hwm
        invariant First(slots[..], Wanted(pid, rtype, perms, now), i)
                    == First(slots[..], Wanted(pid, rtype, perms, now), 0)
      {
        FirstStep(slots[..], Wanted(pid, rtype, perms, now), i);
        if slots[i].live && slots[i].cap.owner == pid && slots[i].cap.rtype == rtype &&
           SubBits(perms, slots[i].cap.perms) && !Expired(slots[i].cap, now) {
          return SUCCESS, slots[i].cap.rid;
        }
        i := i + 1;
      }
      NothingAbove(slots[..], Wanted(pid, rtype, perms, now), i);
      return DENIED, rid;
    }

    /** cap_find_resource: whether any live capability in the whole table matches. */
    method FindResource(pid: u32, rtype: u32, perms: u32, rid: u32, now: u64) returns (r: CapResult)
      requires Valid()
      ensures r == if First(slots[..], WantedResource(pid, rtype, perms, rid, now), 0).Some? then SUCCESS else DENIED
    {
      hide Ledger.Valid, Books, Forest, Generations, SubBits, First;
      var i := 0;
      while i < hwm
        invariant i <= hwm
        invariant First(slots[..], WantedResource(pid, rtype, perms, rid, now), i) ==
                  First(slots[..], WantedResource(pid, rtype, perms, rid, now), 0)
      {
        FirstStep(slots[..], WantedResource(pid, rtype, perms, rid, now), i);
        if slots[i].live && slots[i].cap.owner == pid && slots[i].cap.rtype == rtype && slots[i].cap.rid == rid &&
           SubBits(perms, slots[i].cap.perms) && !Expired(slots[i].cap, now) {
          return SUCCESS;
        }
        i := i + 1;
      }
      NothingAbove(slots[..], WantedResource(pid, rtype, perms, rid, now), i);
      return DENIED;
    }

    /** cap_find_id: the handle of the first match; it resolves to that very slot. */
    method FindId(pid: u32, rtype: u32, perms: u32, rid: u32, now: u64) returns (r: CapResult, id: u32)
      requires Valid()
      ensures match First(slots[..], WantedResource(pid, rtype, perms, rid, now), 0)
              case None => r == DENIED
              case Some(i) => r == SUCCESS && Resolve(slots[..], id) == Some(i)
    {
      hide Ledger.Valid, Books, Forest, Generations, SubBits, First;
      id := 0;
      var i := 0;
      while i < hwm
        invariant i <= hwm
        invariant First(slots[..], WantedResource(pid, rtype, perms, rid, now), i) ==
                  First(slots[..], WantedResource(pid, rtype, perms, rid, now), 0)
      {
        FirstStep(slots[..], WantedResource(pid, rtype, perms, rid, now), i);
        if slots[i].live && slots[i].cap.owner == pid && slots[i].cap.rtype == rtype && slots[i].cap.rid == rid &&
           SubBits(perms, slots[i].cap.perms) && !Expired(slots[i].cap, now) {
          OwnHandle(slots[..], born, i);
          return SUCCESS, slots[i].cap.id;
        }
        i := i + 1;
      }
      NothingAbove(slots[..], WantedResource(pid, rtype, perms, rid, now), i);
      return DENIED, id;
    }
  }

  lemma FirstStep(t: Table, P: Cap -> bool, i: nat)
    requires i < |t|
    ensures First(t, P, i) == if t[i].live && P(t[i].cap) then Some(i) else First(t, P, i + 1)
  {
  }

  lemma NothingAbove(t: Table, P: Cap -> bool, from: nat)
    requires from <= |t| && forall i | from <= i < |t| :: !t[i].live
    ensures First(t, P, from).None?
  {
  }

  /** cap_derive's tests, in their order. */
  function DeriveResult(t: Table, parentId: u32, requester: u32, perms: u32, now: u64): CapResult {
    var p := Resolve(t, parentId);
    if p.None? then INVALID_ID
    else if t[p.value].cap.owner != requester then NOT_OWNER
    else if Expired(t[p.value].cap, now) then EXPIRED
    else if !SubBits(CAP_GRANT, t[p.value].cap.perms) then DENIED
    else if !SubBits(perms, t[p.value].cap.perms) then ESCALATION
    else if forall i | 0 <= i < |t| :: t[i].live then NO_SPACE
    else SUCCESS
  }

  /** A child's expiry, cut down to its parent's. */
  function Clamp(expires: u64, parent: u64): (r: u64)
    ensures NoLater(r, parent)
  {
    if parent != 0 && (expires == 0 || expires > parent) then parent else expires
  }

  lemma NonZeroHandle(t: Table, id: u32)
    ensures Resolve(t, id).Some? ==> id != 0
  {
  }

  lemma ChildResolves(t: Table, u: Table, born: seq<nat>, i: nat, p: nat, parentId: u32)
    requires Forest(u, born) && |u| == |t| && i < |u| && p < |t| && u[i].live && u[i].cap.parent == parentId
    requires Resolve(t, parentId) == Some(p) && !t[i].live && forall j | 0 <= j < |t| && j != i :: u[j] == t[j]
    ensures Parent(u, i) == Some(p)
  {
    ResolveId(t, p, parentId);
    ResolveId(u, p, parentId);
    NonZeroHandle(t, parentId);
  }

  function Marked(t: Table, i: nat): (u: Table)
    requires i < |t|
    ensures |u| == |t|
  {
    t[i := t[i].(cap := t[i].cap.(spawnChannel := true))]
  }

  lemma MarkKeepsForest(t: Table, born: seq<nat>, frees: seq<nat>, i: nat)
    requires Forest(t, born) && Generations(t, frees) && i < |t| && t[i].live
    ensures Forest(Marked(t, i), born) && Generations(Marked(t, i), frees)
  {
    var u := Marked(t, i);
    forall j: nat | j < |t| ensures Parent(u, j) == Parent(t, j) { }
  }

  lemma MarkKeepsBooks(t: Table, h: seq<Stamped>, s: Stats, i: nat)
    requires Books(t, h, s) && i < |t|
    ensures Books(Marked(t, i), h, s)
  {
    hide LiveHoldings;
    var u := Marked(t, i);
    LiveHoldingsUpdate(t, i, u[i]);
    assert Held(u[i]) == Held(t[i]);
    assert LiveHoldings(u) == LiveHoldings(u) + Held(u[i]) - Held(u[i]) == LiveHoldings(t);
  }

  /** After a revocation no handle of the subtree resolves: Freed bumps the generation. */
  lemma RevokedHandleDead(t: Table, u: Table, born: seq<nat>, i: nat)
    requires Forest(t, born) && i < |t| == |u| && t[i].live && u[i] == Freed(t[i])
    ensures Resolve(u, t[i].cap.id).None?
  {
    assert t[i].cap.id == MakeId(i, t[i].gen);
  }

  lemma GenerationKept(t: Table, frees: seq<nat>, i: nat, c: Cap)
    requires Generations(t, frees) && i < |t|
    ensures Generations(t[i := Slot(c, t[i].gen, true)], frees)
  {
  }

  lemma OwnHandle(t: Table, born: seq<nat>, i: nat)
    requires Forest(t, born) && i < |t| && t[i].live
    ensures Resolve(t, t[i].cap.id) == Some(i)
  {
    ResolveId(t, i, t[i].cap.id);
  }

  lemma SweepStart(t: Table, P: Cap -> bool, h: seq<Stamped>, kind: u16)
    ensures PrunedUnder(t, t, P) && NoMatch(t, P, 0) && OnlyKind(h, h, kind)
  {
  }

  lemma SweepSkip(t: Table, P: Cap -> bool, i: nat)
    requires NoMatch(t, P, i) && i < |t| && !(t[i].live && P(t[i].cap))
    ensures NoMatch(t, P, i + 1)
  {
  }

  lemma SweepEnd(t: Table, u: Table, born: seq<nat>, P: Cap -> bool)
    requires PrunedUnder(t, u, P) && Forest(u, born) && NoMatch(u, P, |u|)
    ensures |t| == |u| && forall i: nat | i < |t| :: u[i] == if t[i].live && Under(t, i, P) then Freed(t[i]) else t[i]
  {
    forall i: nat | i < |t| ensures u[i] == if t[i].live && Under(t, i, P) then Freed(t[i]) else t[i] {
      SweepExact(t, u, born, P, i);
    }
  }

  /** No ancestor nearer than the n-th authorizes the requester. */
  ghost predicate NoneMayRevoke(t: Table, p: nat, pid: u32, n: nat)
    requires p < |t|
  {
    forall m: nat | 0 < m < n && Anc(t, p, m).Some? ::
      !(t[Anc(t, p, m).value].cap.owner == pid && SubBits(CAP_REVOKE, t[Anc(t, p, m).value].cap.perms))
  }

  lemma WalkStart(t: Table, p: nat, pid: u32)
    requires p < |t|
    ensures Anc(t, p, 0) == Some(p) && NoneMayRevoke(t, p, pid, 1)
  {
  }

  lemma WalkStep(t: Table, born: seq<nat>, p: nat, pid: u32, n: nat, at: nat)
    requires Forest(t, born) && p < |t| && at < |t| && t[at].live && t[at].cap.parent != 0
    requires n > 0 && Anc(t, p, n - 1) == Some(at) && NoneMayRevoke(t, p, pid, n)
    ensures var a := Resolve(t, t[at].cap.parent);
            a.Some? && born[a.value] < born[at] && Anc(t, p, n) == a &&
            if t[a.value].cap.owner == pid && SubBits(CAP_REVOKE, t[a.value].cap.perms) then Authorized(t, p, pid)
            else NoneMayRevoke(t, p, pid, n + 1)
  {
    var a := Parent(t, at);
    AncTrans(t, p, n - 1, 1);
    assert Anc(t, at, 1) == Anc(t, a.value, 0);
  }

  lemma WalkEnd(t: Table, p: nat, pid: u32, n: nat, at: nat)
    requires p < |t| && at < |t| && t[at].cap.parent == 0 && t[p].cap.owner != pid
    requires n > 0 && Anc(t, p, n - 1) == Some(at) && NoneMayRevoke(t, p, pid, n)
    ensures !Authorized(t, p, pid)
  {
    forall m: nat | m >= n ensures Anc(t, p, m).None? {
      if Anc(t, p, m).Some? {
        AncPrefix(t, p, n, m);
        AncTrans(t, p, n - 1, 1);
      }
    }
  }

  lemma SubtreeRoot(t: Table, t1: Table, born: seq<nat>, id: u32, p: nat)
    requires Forest(t, born) && Forest(t1, born) && Pruned(t, t1, p) && Resolve(t, id) == Some(p)
    requires NoChildren(t1, id, |t1|)
    ensures p < |t1| == |t| && t1[p] == t[p] && t[p].live
    ensures forall j | 0 <= j < |t1| && t1[j].live :: t1[j].cap.parent != t1[p].cap.id
  {
    PrunedKeepsRoot(t, t1, born, p);
    ResolveId(t, p, id);
  }

  // The steps of the cascade, on values.

  lemma CascadeStart(t: Table, id: u32, p: nat, h: seq<Stamped>, kind: u16)
    ensures Pruned(t, t, p) && NoChildren(t, id, 0) && OnlyKind(h, h, kind)
  {
  }

  lemma CascadeChild(t: Table, t1: Table, born: seq<nat>, id: u32, p: nat, i: nat)
    requires Forest(t, born) && Forest(t1, born) && Pruned(t, t1, p) && Resolve(t, id) == Some(p)
    requires i < |t1| && t1[i].live && t1[i].cap.parent == id
    ensures Resolve(t1, t1[i].cap.id) == Some(i) && Parent(t1, i) == Some(p) && Parent(t, i) == Some(p)
    ensures p < |born| && i < |born| && born[p] < born[i]
  {
    PrunedKeepsRoot(t, t1, born, p);
    ResolveId(t, p, id);
    ResolveId(t1, p, id);
    ResolveId(t1, i, t1[i].cap.id);
  }

  lemma CascadeReturn(t: Table, t1: Table, t2: Table, born: seq<nat>, id: u32, p: nat, i: nat)
    requires Forest(t1, born) && Forest(t2, born) && Pruned(t, t1, p) && Pruned(t1, t2, i)
    requires i < |t1| && t1[i].live && Parent(t, i) == Some(p)
    requires NoChildren(t2, t1[i].cap.id, |t2|)
    ensures |t2| == |t1| && t2[i] == t1[i] && Pruned(t, t2, p)
    ensures forall j | 0 <= j < |t2| && t2[j].live :: t2[j].cap.parent != t2[i].cap.id
  {
    PrunedKeepsRoot(t1, t2, born, i);
    PrunedThrough(t, t1, t2, born, p, i);
  }

  lemma CascadeFreed(t: Table, t1: Table, t2: Table, born: seq<nat>, id: u32, p: nat, i: nat)
    requires Pruned(t, t2, p) && Pruned(t1, t2, i) && i < |t2| == |t1| == |t| && t2[i].live && Parent(t, i) == Some(p)
    requires NoChildren(t1, id, i)
    ensures Pruned(t, t2[i := Freed(t2[i])], p) && NoChildren(t2[i := Freed(t2[i])], id, i + 1)
  {
    PrunedChild(t, t2, p, i);
  }

  lemma CascadeSkip(t: Table, id: u32, i: nat)
    requires NoChildren(t, id, i) && i < |t| && !(t[i].live && t[i].cap.parent == id)
    ensures NoChildren(t, id, i + 1)
  {
  }

  lemma PrunedShrinks(t: Table, u: Table, r: nat)
    requires Pruned(t, u, r)
    ensures Shrinks(t, u)
  {
  }

  lemma UnderShrinks(t: Table, u: Table, P: Cap -> bool)
    requires PrunedUnder(t, u, P)
    ensures Shrinks(t, u)
  {
  }

  lemma FreedShrinks(t: Table, i: nat)
    requires i < |t| && t[i].live
    ensures Shrinks(t, t[i := Freed(t[i])])
  {
  }

  lemma ShrinksThen(t: Table, u: Table, v: Table)
    requires Shrinks(t, u) && Shrinks(u, v)
    ensures Shrinks(t, v)
  {
  }

  lemma OnlyKindGrows(h: seq<Stamped>, h1: seq<Stamped>, h2: seq<Stamped>, h3: seq<Stamped>, kind: u16)
    requires OnlyKind(h, h1, kind) && OnlyKind(h1, h2, kind) && |h3| == |h2| + 1 && h3[..|h2|] == h2
    requires h3[|h2|].0.kind == kind && h3[|h2|].0.verdict == AUDIT_V_OK
    ensures OnlyKind(h, h3, kind)
  {
  }

  lemma BoundsFilled(t: Table, hwm: nat, oldHwm: nat, born: seq<nat>, clock: nat, i: nat, s: Slot)
    requires (forall j | 0 <= j < |born| :: born[j] < clock) && i < |born| == |t|
    requires oldHwm <= hwm <= |t| && i < hwm && forall j | oldHwm <= j < |t| :: !t[j].live
    ensures Bounds(t[i := s], hwm, born[i := clock], clock + 1)
  {
  }

  lemma BoundsFreed(t: Table, hwm: nat, born: seq<nat>, clock: nat, i: nat)
    requires Bounds(t, hwm, born, clock) && i < |t|
    ensures Bounds(t[i := Freed(t[i])], hwm, born, clock)
  {
  }

  lemma GenerationFreed(t: Table, frees: seq<nat>, i: nat)
    requires Generations(t, frees) && i < |t|
    ensures Generations(t[i := Freed(t[i])], frees[i := frees[i] + 1])
  {
  }
}
