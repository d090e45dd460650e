/** What the tests of the capability table mean, bit by bit and tick by tick, and how its handles are laid out. */
module CapLaws {
  import opened Options
  import opened Bytes
  import opened QsvBits
  import opened Audit
  import opened AuditText
  import opened CapForest
  import opened CapTable

  /** The masks 0x08 and 0x10 are bits 3 and 4. */
  lemma GrantAndRevokeBits(p: nat)
    ensures SubBits(CAP_GRANT, p) <==> p / 8 % 2 == 1
    ensures SubBits(CAP_REVOKE, p) <==> p / 16 % 2 == 1
  {
    hide SubBits;
    OneBit(p, 3);
    OneBit(p, 4);
    assert Pow2(3) == 8 && Pow2(4) == 16;
  }

  lemma {:induction false} OneBit(p: nat, q: nat)
    ensures SubBits(Pow2(q), p) <==> p / Pow2(q) % 2 == 1
  {
    if q > 0 {
      OneBit(p / 2, q - 1);
      DivTwice(p, Pow2(q - 1));
      assert Pow2(q) / 2 == Pow2(q - 1) && Pow2(q) % 2 == 0;
    } else {
      assert SubBits(1, p) <==> 1 <= p % 2;
    }
  }

  /** Along any chain of derivations nothing grows: the same resource, no permission bit the ancestor lacks, and at any
      tick at which the ancestor is expired so is the descendant. */
  lemma AuthorityAt(t: Table, born: seq<nat>, i: nat, n: nat, q: nat, now: u64)
    requires Forest(t, born) && i < |t| && t[i].live && Anc(t, i, n).Some?
    ensures var c, a := t[i].cap, t[Anc(t, i, n).value].cap;
            && c.rtype == a.rtype && c.rid == a.rid
            && c.perms / Pow2(q) % 2 <= a.perms / Pow2(q) % 2
            && (a.expires != 0 && now >= a.expires ==> c.expires != 0 && now >= c.expires)
  {
    hide SubBits, Pow2, Forest, Anc;
    AuthorityAttenuates(t, born, i, n);
    SubBitsIs(t[i].cap.perms, t[Anc(t, i, n).value].cap.perms);
  }

  /** Expiry begins at exactly the tick named, 0 names none, and it does not end. */
  lemma ExpiryBegins(c: Cap, now: u64, later: u64)
    ensures c.expires == 0 ==> !Expired(c, now)
    ensures c.expires > 0 ==> !Expired(c, c.expires - 1) && Expired(c, c.expires)
    ensures Expired(c, now) && now <= later ==> Expired(c, later)
    ensures !Expired(c, later) && now <= later ==> !Expired(c, now)
  {
  }

  /** The descendants of an expired capability are expired. */
  lemma DescendantsExpire(t: Table, born: seq<nat>, i: nat, n: nat, now: u64)
    requires Forest(t, born) && i < |t| && t[i].live && Anc(t, i, n).Some?
    requires Expired(t[Anc(t, i, n).value].cap, now)
    ensures Expired(t[i].cap, now)
  {
    hide Forest, Anc;
    AuthorityAt(t, born, i, n, 0, now);
  }

  /** The child's expiry is the latest that is no later than either the one asked for or the parent's. */
  lemma ClampIsLatest(asked: u64, parent: u64, now: u64)
    ensures var r := Clamp(asked, parent);
            (r != 0 && now >= r) <==> (asked != 0 && now >= asked) || (parent != 0 && now >= parent)
  {
  }

  /** What cap_derive answers, in terms of the parent's bits and ticks: the first test that fails decides. */
  lemma DeriveDecides(t: Table, id: u32, p: nat, requester: u32, perms: u32, now: u64)
    requires Resolve(t, id) == Some(p)
    ensures var c, r := t[p].cap, DeriveResult(t, id, requester, perms, now);
            var mine := c.owner == requester;
            var current := c.expires == 0 || now < c.expires;
            var grantable := c.perms / 8 % 2 == 1;
            var within := BitsWithin(perms, c.perms);
            var room := exists i :: 0 <= i < |t| && !t[i].live;
            && (r == NOT_OWNER <==> !mine)
            && (r == EXPIRED <==> mine && !current)
            && (r == DENIED <==> mine && current && !grantable)
            && (r == ESCALATION <==> mine && current && grantable && !within)
            && (r == NO_SPACE <==> mine && current && grantable && within && !room)
            && (r == SUCCESS <==> mine && current && grantable && within && room)
  {
    hide SubBits, Pow2, Resolve;
    GrantAndRevokeBits(t[p].cap.perms);
    SubBitsIs(perms, t[p].cap.perms);
  }

  /** An ancestor of the capability belongs to the process and carries bit 4. */
  ghost predicate HeldAbove(t: Table, i: nat, pid: u32)
    requires i < |t|
  {
    exists n: nat :: n > 0 && Anc(t, i, n).Some? &&
      t[Anc(t, i, n).value].cap.owner == pid && t[Anc(t, i, n).value].cap.perms / 16 % 2 == 1
  }

  /** Who may revoke: the owner, or the owner of such an ancestor. */
  lemma AuthorizedIs(t: Table, i: nat, pid: u32)
    requires i < |t|
    ensures Authorized(t, i, pid) <==> t[i].cap.owner == pid || HeldAbove(t, i, pid)
  {
    hide SubBits;
    if Authorized(t, i, pid) && t[i].cap.owner != pid {
      var n: nat :| n > 0 && Anc(t, i, n).Some? &&
        t[Anc(t, i, n).value].cap.owner == pid && SubBits(CAP_REVOKE, t[Anc(t, i, n).value].cap.perms);
      GrantAndRevokeBits(t[Anc(t, i, n).value].cap.perms);
    }
    if HeldAbove(t, i, pid) {
      var n: nat :| n > 0 && Anc(t, i, n).Some? &&
        t[Anc(t, i, n).value].cap.owner == pid && t[Anc(t, i, n).value].cap.perms / 16 % 2 == 1;
      GrantAndRevokeBits(t[Anc(t, i, n).value].cap.perms);
    }
  }

  /** What the lookups look for. */
  lemma WantedIs(pid: u32, rtype: u32, perms: u32, rid: u32, now: u64, c: Cap)
    ensures var fits := c.owner == pid && c.rtype == rtype && (c.expires == 0 || now < c.expires) &&
                        BitsWithin(perms, c.perms);
            && (Wanted(pid, rtype, perms, now)(c) <==> fits)
            && (WantedResource(pid, rtype, perms, rid, now)(c) <==> fits && c.rid == rid)
  {
    hide SubBits, Pow2;
    SubBitsIs(perms, c.perms);
  }

  /** What the two death cleanups look for; resource type 1 is IPC. */
  lemma SweptIs(pid: u32, c: Cap)
    ensures OwnedBy(pid)(c) <==> c.owner == pid
    ensures IpcTo(pid)(c) <==> c.rtype == 1 && c.rid == pid
  {
  }

  /** A handle holds the slot number plus one in its low half and the generation in its high half, and resolves
      exactly while that slot is live in that generation. */
  lemma ResolveIs(t: Table, id: u32, i: nat)
    requires |t| < MAX_SLOTS
    ensures Resolve(t, id) == Some(i) <==> i < |t| && t[i].live && id % 0x1_0000 == i + 1 && id / 0x1_0000 == t[i].gen
  {
  }

  lemma HandleLayout(i: nat, gen: u16)
    requires i < MAX_SLOTS
    ensures MakeId(i, gen) % 0x1_0000 == i + 1 && MakeId(i, gen) / 0x1_0000 == gen
  {
  }

  ghost function LiveCount(t: Table): nat {
    if t == [] then 0 else LiveCount(t[..|t| - 1]) + if t[|t| - 1].live then 1 else 0
  }

  lemma {:induction false} LiveCounted(t: Table)
    ensures |LiveHoldings(t)| == LiveCount(t)
  {
    if t != [] { LiveCounted(t[..|t| - 1]); }
  }

  /** The books in plain terms: every holding granted is either removed or live, the active counter is the number of
      live slots, and everything created or derived is active or revoked. */
  lemma BooksSay(t: Table, h: seq<Stamped>, s: Stats)
    requires Books(t, h, s)
    ensures Granted(h) == Removed(h) + LiveHoldings(t)
    ensures s.active == LiveCount(t) && s.created + s.derived == LiveCount(t) + s.revoked
  {
    LiveCounted(t);
  }

  /** The codes the table records are the ones printed as these words, and a resource type is valid exactly if it has a
      name. */
  lemma CodesAreNamed(t: u32)
    ensures KindName(AUDIT_GRANT) == Ascii("GRANT") && KindName(AUDIT_REVOKE) == Ascii("REVOKE")
    ensures KindName(AUDIT_REAP) == Ascii("REAP") && KindName(AUDIT_UNLINK) == Ascii("UNLINK")
    ensures VerdictName(AUDIT_V_OK) == Ascii("OK") && VerdictName(AUDIT_V_EPERM) == Ascii("EPERM")
    ensures TypeName(CAP_RESOURCE_IPC) == Ascii("IPC")
    ensures t < CAP_RESOURCE_TYPE_COUNT <==> TypeName(t) != Ascii("?")
  {
    hide Ascii;
    KindNames(1);
    TypeNames(t);
    VerdictNames(1);
    VerdictNames(2);
    AsciiIs("?", QUERY);
  }

  /** What the books count: GRANT on one side, REVOKE, REAP and UNLINK on the other, matched by owner, type, identifier
      and permissions. */
  lemma BooksMatch(e: Event, c: Cap)
    ensures IsRemoval(e.kind) <==> e.kind == 7 || e.kind == 8 || e.kind == 10
    ensures Subject(e) == HoldingOf(c) <==>
            e.pid == c.owner && e.rtype == c.rtype && e.rid == c.rid && e.perms == c.perms
  {
  }
}
