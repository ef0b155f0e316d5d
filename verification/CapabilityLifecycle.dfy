/**
  The life of one enrollment capability over whole runs of either store: issued, claimed, released,
  claimed again, and finally consumed or revoked.  Runs may clash: the in-memory store lets one flow
  hold two capabilities, the SQLite store refuses the claim and goes on.
*/
module CapabilityLifecycle {
  import opened Wrappers
  import opened Timestamps
  import opened Enrollment

  function Find(rs: Records, id: string): Option<Capability> {
    var i := First(rs, WithId(id));
    if i < 0 then None else Some(rs[i].cap)
  }

  predicate SameIdentity(a: Capability, b: Capability) {
    && a.capabilityId == b.capabilityId && a.purpose == b.purpose && a.subject == b.subject
    && a.expiresAt == b.expiresAt && a.issuedBy == b.issuedBy
  }

  /** Everything one operation can do to a capability. */
  predicate Transition(c: Capability, c': Capability, op: Op, o: Outcome, now: Instant) {
    || c' == c
    || (&& Open(c)
        && match op
           case Claim(_, flow, purpose) =>
             && c.claimedFlow.None? && c.purpose == purpose && now < c.expiresAt
             && c' == c.(claimedFlow := Some(flow), claimedAt := Some(now)) && o == Claimed(c')
           case Consume(flow) =>
             c.claimedFlow == Some(flow) && now < c.expiresAt && c' == c.(consumedAt := Some(now)) && o == Consumed(c')
           case Release(flow) =>
             c.claimedFlow == Some(flow) && c' == c.(claimedFlow := None, claimedAt := None) && o == Changed(true)
           case Revoke(id) =>
             id == c.capabilityId && c' == c.(revokedAt := Some(now)) && o == Changed(true)
           case Issue(_, _, _, _, _, _) => false)
  }

  predicate UniqueIds(rs: Records) {
    forall i, j | 0 <= i < j < |rs| :: rs[i].cap.capabilityId != rs[j].cap.capabilityId
  }

  /** The operation overwrites the capability: only the in-memory store lets an issue reuse an id. */
  predicate Overwrites(store: Store, op: Op, now: Instant, id: string) {
    store.InMemory? && op.Issue? && op.id == id && NewCapability(op, now).Success?
  }

  /** The random id of this capability is not drawn again, where that would overwrite it. */
  predicate KeepsItsId(store: Store, trace: Trace, id: string) {
    forall k | 0 <= k < |trace| :: !Overwrites(store, trace[k].1, trace[k].0, id)
  }

  /** A write at one place changes what is found under that id only. */
  lemma FindAfterWrite(rs: Records, i: int, e: Entry, id: string)
    requires UniqueIds(rs) && 0 <= i < |rs| && e.cap.capabilityId == rs[i].cap.capabilityId
    ensures Find(rs[i := e], id) == if id == e.cap.capabilityId then Some(e.cap) else Find(rs, id)
    ensures UniqueIds(rs[i := e])
  {
    var rs' := rs[i := e];
    var j, k := First(rs, WithId(id)), First(rs', WithId(id));
    assert forall x | 0 <= x < |rs| :: WithId(id)(rs'[x]) <==> WithId(id)(rs[x]);
    if id == e.cap.capabilityId {
      assert WithId(id)(rs'[i]) && k == i;
    }
  }

  lemma FindAfterAppend(rs: Records, e: Entry, id: string)
    requires UniqueIds(rs) && First(rs, WithId(e.cap.capabilityId)) < 0 && id != e.cap.capabilityId
    ensures UniqueIds(rs + [e]) && Find(rs + [e], id) == Find(rs, id)
  {
    var rs' := rs + [e];
    var j, k := First(rs, WithId(id)), First(rs', WithId(id));
    assert forall x | 0 <= x < |rs| :: rs'[x] == rs[x] && !WithId(e.cap.capabilityId)(rs[x]);
    assert !WithId(id)(rs'[|rs|]);
    if 0 <= j { assert WithId(id)(rs'[j]); }
  }

  /** An issue changes what is found under the new id only. */
  lemma FindAfterIssue(rs: Records, e: Entry, id: string)
    requires UniqueIds(rs) && id != e.cap.capabilityId
    ensures var i := First(rs, WithId(e.cap.capabilityId));
            var rs' := if i < 0 then rs + [e] else rs[i := e];
            UniqueIds(rs') && Find(rs', id) == Find(rs, id)
  {
    hide UniqueIds, Find;
    var i := First(rs, WithId(e.cap.capabilityId));
    if i < 0 {
      FindAfterAppend(rs, e, id);
    } else {
      FindAfterWrite(rs, i, e, id);
    }
  }

  lemma FoundThere(rs: Records, i: int)
    requires UniqueIds(rs) && 0 <= i < |rs|
    ensures Find(rs, rs[i].cap.capabilityId) == Some(rs[i].cap)
  {
    assert WithId(rs[i].cap.capabilityId)(rs[i]);
  }

  /** One write takes the capability it rewrites through its transition, and leaves the others alone. */
  lemma WriteLifecycle(rs: Records, i: int, c: Capability, op: Op, o: Outcome, now: Instant, id: string)
    requires UniqueIds(rs) && 0 <= i < |rs| && c.capabilityId == rs[i].cap.capabilityId && Find(rs, id).Some?
    requires Transition(rs[i].cap, c, op, o, now)
    ensures var rs' := rs[i := Entry(rs[i].digest, c)];
            UniqueIds(rs') && Find(rs', id).Some? && Transition(Find(rs, id).value, Find(rs', id).value, op, o, now)
  {
    hide UniqueIds, Find;
    FindAfterWrite(rs, i, Entry(rs[i].digest, c), id);
    FoundThere(rs, i);
  }

  lemma MemoryLifecycle(digest: Digest, rs: Records, op: Op, now: Instant, id: string)
    requires UniqueIds(rs) && Find(rs, id).Some? && !Overwrites(InMemory, op, now, id)
    ensures var (rs', o) := MemoryStep(digest, rs, op, now);
            UniqueIds(rs') && Find(rs', id).Some? && Transition(Find(rs, id).value, Find(rs', id).value, op, o, now)
  {
    hide UniqueIds, Find;
    var o := MemoryStep(digest, rs, op, now).1;
    match op
    case Issue(newId, token, _, _, _, _) =>
      if NewCapability(op, now).Success? {
        FindAfterIssue(rs, Entry(digest(token), NewCapability(op, now).value), id);
      }
    case Claim(token, flow, purpose) =>
      var i := First(rs, WithDigest(digest(token)));
      if o.Claimed? && rs[i].cap.claimedFlow.None? {
        WriteLifecycle(rs, i, rs[i].cap.(claimedFlow := Some(flow), claimedAt := Some(now)), op, o, now, id);
      }
    case Consume(flow) =>
      var i := First(rs, HeldBy(flow));
      if o.Consumed? {
        WriteLifecycle(rs, i, rs[i].cap.(consumedAt := Some(now)), op, o, now, id);
      }
    case Release(flow) =>
      var i := First(rs, HeldBy(flow));
      if o == Changed(true) {
        WriteLifecycle(rs, i, rs[i].cap.(claimedFlow := None, claimedAt := None), op, o, now, id);
      }
    case Revoke(revoked) =>
      var i := First(rs, WithId(revoked));
      if o == Changed(true) {
        WriteLifecycle(rs, i, rs[i].cap.(revokedAt := Some(now)), op, o, now, id);
      }
  }

  /** An SQLite issue of a stored id clashes, so it overwrites nothing. */
  lemma ReissueClashes(digest: Digest, rs: Records, op: Op, now: Instant, id: string)
    requires Find(rs, id).Some? && Overwrites(InMemory, op, now, id)
    ensures Clash(digest, rs, op, now)
  {
  }

  /** One operation of either store takes a stored capability through one transition. */
  lemma StepLifecycle(store: Store, digest: Digest, rs: Records, op: Op, now: Instant, id: string)
    requires UniqueIds(rs) && Find(rs, id).Some? && !Overwrites(store, op, now, id)
    ensures var (rs', o) := StoreStep(store, digest, rs, op, now);
            UniqueIds(rs') && Find(rs', id).Some? && Transition(Find(rs, id).value, Find(rs', id).value, op, o, now)
  {
    hide UniqueIds, Find, MemoryStep, Clash;
    if Overwrites(InMemory, op, now, id) {
      ReissueClashes(digest, rs, op, now, id);
    } else {
      MemoryLifecycle(digest, rs, op, now, id);
    }
  }

  /** Whatever a consume returns was held by that flow, unexpired, and still open. */
  lemma ConsumeNeedsHolder(store: Store, digest: Digest, rs: Records, op: Op, now: Instant, c: Capability)
    requires UniqueIds(rs) && StoreStep(store, digest, rs, op, now).1 == Consumed(c)
    ensures op.Consume? && c.claimedFlow == Some(op.flow) && now < c.expiresAt
    ensures Find(rs, c.capabilityId).Some? && Open(Find(rs, c.capabilityId).value)
    ensures Find(StoreStep(store, digest, rs, op, now).0, c.capabilityId) == Some(c) && !Open(c)
  {
    hide Clash, UniqueIds;
    var i := First(rs, HeldBy(op.flow));
    FoundThere(rs, i);
    FindAfterWrite(rs, i, Entry(rs[i].digest, c), c.capabilityId);
  }

  lemma MemoryKeepsIds(digest: Digest, rs: Records, op: Op, now: Instant)
    requires UniqueIds(rs)
    ensures UniqueIds(MemoryStep(digest, rs, op, now).0)
  {
  }

  lemma StepKeepsIds(store: Store, digest: Digest, rs: Records, op: Op, now: Instant)
    requires UniqueIds(rs)
    ensures UniqueIds(StoreStep(store, digest, rs, op, now).0)
  {
    hide UniqueIds, MemoryStep, Clash;
    MemoryKeepsIds(digest, rs, op, now);
  }

  // ---- Over runs ----

  /** Ids stay unique along every run of either store. */
  lemma {:induction false} RunKeepsIds(store: Store, digest: Digest, rs: Records, trace: Trace)
    requires UniqueIds(rs)
    ensures UniqueIds(StoreAfter(store, digest, rs, trace))
    decreases |trace|
  {
    hide UniqueIds, StoreStep;
    if |trace| > 0 {
      StepKeepsIds(store, digest, rs, trace[0].1, trace[0].0);
      RunKeepsIds(store, digest, StoreStep(store, digest, rs, trace[0].1, trace[0].0).0, trace[1..]);
    }
  }

  predicate ConsumesIt(o: Outcome, id: string) {
    o.Consumed? && o.cap.capabilityId == id
  }

  function ConsumeCount(os: seq<Outcome>, id: string): nat {
    if |os| == 0 then 0 else (if ConsumesIt(os[0], id) then 1 else 0) + ConsumeCount(os[1..], id)
  }

  /** The operation takes the capability from the flow that holds it and leaves it unclaimed. */
  predicate Frees(before: Option<Capability>, after: Option<Capability>, op: Op, flow: string) {
    && op == Release(flow) && before.Some? && before.value.claimedFlow == Some(flow)
    && after.Some? && after.value.claimedFlow.None?
  }

  /** Some step of the run releases the capability from that flow. */
  predicate ReleasedIn(store: Store, digest: Digest, rs: Records, trace: Trace, id: string, flow: string)
    decreases |trace|
  {
    |trace| > 0 &&
    var rs1 := StoreStep(store, digest, rs, trace[0].1, trace[0].0).0;
    Frees(Find(rs, id), Find(rs1, id), trace[0].1, flow) || ReleasedIn(store, digest, rs1, trace[1..], id, flow)
  }

  /** What a run may make of a capability: the same one, for good once it is consumed or revoked, and never both. */
  predicate Continues(c: Capability, c': Capability) {
    && SameIdentity(c, c') && (!Open(c) ==> c' == c)
    && (c.consumedAt.None? || c.revokedAt.None? ==> c'.consumedAt.None? || c'.revokedAt.None?)
  }

  /** Identity, purpose, subject and expiry never change; consumed and revoked are for good, and exclude each other. */
  lemma {:induction false} RunLifecycle(store: Store, digest: Digest, rs: Records, trace: Trace, id: string)
    requires UniqueIds(rs) && Find(rs, id).Some? && KeepsItsId(store, trace, id)
    ensures var found := Find(StoreAfter(store, digest, rs, trace), id);
            found.Some? && Continues(Find(rs, id).value, found.value)
    decreases |trace|
  {
    hide UniqueIds, StoreStep, Find, Overwrites;
    if |trace| > 0 {
      var (now, op) := trace[0];
      StepLifecycle(store, digest, rs, op, now, id);
      RunLifecycle(store, digest, StoreStep(store, digest, rs, op, now).0, trace[1..], id);
    }
  }

  /** A capability is consumed at most once, and never after it was consumed or revoked. */
  lemma {:induction false} ConsumedAtMostOnce(store: Store, digest: Digest, rs: Records, trace: Trace, id: string)
    requires UniqueIds(rs) && Find(rs, id).Some? && KeepsItsId(store, trace, id)
    ensures ConsumeCount(StoreOutcomes(store, digest, rs, trace), id) <= if Open(Find(rs, id).value) then 1 else 0
    decreases |trace|
  {
    hide UniqueIds, StoreStep, Find, Overwrites;
    if |trace| > 0 {
      var (now, op) := trace[0];
      var (rs1, o) := StoreStep(store, digest, rs, op, now);
      StepLifecycle(store, digest, rs, op, now, id);
      if ConsumesIt(o, id) {
        ConsumeNeedsHolder(store, digest, rs, op, now, o.cap);
      }
      ConsumedAtMostOnce(store, digest, rs1, trace[1..], id);
      var rest := StoreOutcomes(store, digest, rs1, trace[1..]);
      assert ([o] + rest)[0] == o && ([o] + rest)[1..] == rest;
    }
  }

  /** A second flow can hold a capability only after the first one released it. */
  lemma {:induction false} HandoverNeedsRelease(store: Store, digest: Digest, rs: Records, trace: Trace, id: string,
                                                flow: string)
    requires UniqueIds(rs) && Find(rs, id).Some? && KeepsItsId(store, trace, id)
    requires Find(rs, id).value.claimedFlow == Some(flow)
    ensures var found := Find(StoreAfter(store, digest, rs, trace), id);
            found.Some? && (found.value.claimedFlow != Some(flow) ==> ReleasedIn(store, digest, rs, trace, id, flow))
    decreases |trace|
  {
    hide UniqueIds, StoreStep, Find, Overwrites;
    if |trace| > 0 {
      var (now, op) := trace[0];
      var rs1 := StoreStep(store, digest, rs, op, now).0;
      StepLifecycle(store, digest, rs, op, now, id);
      RunLifecycle(store, digest, rs1, trace[1..], id);
      if Find(rs1, id).value.claimedFlow == Some(flow) {
        HandoverNeedsRelease(store, digest, rs1, trace[1..], id, flow);
      }
    }
  }

  /**
    From a fresh store of either kind: whatever was done before, a capability found then lives its life
    over everything done later, as long as its own id is not issued anew.
  */
  lemma LifecycleFromStart(store: Store, digest: Digest, before: Trace, later: Trace, id: string)
    requires Find(StoreAfter(store, digest, [], before), id).Some? && KeepsItsId(store, later, id)
    ensures var rs := StoreAfter(store, digest, [], before);
            var c, found := Find(rs, id).value, Find(StoreAfter(store, digest, rs, later), id);
            && found.Some? && Continues(c, found.value)
            && ConsumeCount(StoreOutcomes(store, digest, rs, later), id) <= (if Open(c) then 1 else 0)
            && (c.claimedFlow.Some? && found.value.claimedFlow != c.claimedFlow ==>
                  ReleasedIn(store, digest, rs, later, id, c.claimedFlow.value))
  {
    hide Find, StoreStep, Overwrites;
    var rs := StoreAfter(store, digest, [], before);
    RunKeepsIds(store, digest, [], before);
    RunLifecycle(store, digest, rs, later, id);
    ConsumedAtMostOnce(store, digest, rs, later, id);
    if Find(rs, id).value.claimedFlow.Some? {
      HandoverNeedsRelease(store, digest, rs, later, id, Find(rs, id).value.claimedFlow.value);
    }
  }

  // ---- On the SQLite table itself ----

  function RowId(id: string): Row -> bool {
    (r: Row) => r.capabilityId == id
  }

  /** The capability the table's row of that id decodes to. */
  function FindRow(t: Table, id: string): Option<Capability> {
    var i := First(t, RowId(id));
    if i < 0 then None else match CapabilityFromRow(t[i]) case Success(c) => Some(c) case Failure(_) => None
  }

  lemma FoundRow(rs: Records, t: Table, id: string)
    requires Related(rs, t)
    ensures FindRow(t, id) == Find(rs, id) && UniqueIds(rs)
  {
    hide RowOf, CapabilityFromRow;
    RowKeys(rs, t);
    var i, j := First(rs, WithId(id)), First(t, RowId(id));
    assert forall k | 0 <= k < |rs| :: RowId(id)(t[k]) <==> WithId(id)(rs[k]);
    if 0 <= i { RowBack(rs[i]); }
  }

  /** Over every SQLite run, refused claims and issues included, with no condition on its operations. */
  lemma SqliteLifecycle(digest: Digest, rs: Records, t: Table, trace: Trace, id: string)
    requires Related(rs, t) && FindRow(t, id).Some?
    ensures var c, found := FindRow(t, id).value, FindRow(SqlAfter(digest, t, trace), id);
            && found.Some? && Continues(c, found.value)
            && ConsumeCount(SqlOutcomes(digest, t, trace), id) <= (if Open(c) then 1 else 0)
            && (c.claimedFlow.Some? && found.value.claimedFlow != c.claimedFlow ==>
                  ReleasedIn(InSqlite, digest, rs, trace, id, c.claimedFlow.value))
  {
    hide Related, Find, FindRow, UniqueIds;
    FoundRow(rs, t, id);
    RefineAnyRun(digest, rs, t, trace);
    FoundRow(StoreAfter(InSqlite, digest, rs, trace), SqlAfter(digest, t, trace), id);
    RunLifecycle(InSqlite, digest, rs, trace, id);
    ConsumedAtMostOnce(InSqlite, digest, rs, trace, id);
    if FindRow(t, id).value.claimedFlow.Some? {
      HandoverNeedsRelease(InSqlite, digest, rs, trace, id, FindRow(t, id).value.claimedFlow.value);
    }
  }

  // ---- What each operation answers about the one capability it concerns ----

  lemma FirstIs<T>(rs: seq<T>, p: T -> bool, i: nat)
    requires i < |rs| && p(rs[i]) && forall j | 0 <= j < |rs| && j != i :: !p(rs[j])
    ensures First(rs, p) == i
  {
  }

  /**
    A claim by the one holder of that token succeeds exactly for the capability's purpose, before it
    expires, unless it is consumed, revoked or another flow's, or, in SQLite, it would become the flow's
    second one; it is bound to the flow, at the time of its first claim.
  */
  lemma ClaimAnswers(store: Store, digest: Digest, rs: Records, i: nat, token: string, flow: string, purpose: Purpose,
                     now: Instant)
    requires i < |rs| && rs[i].digest == digest(token)
    requires forall j | 0 <= j < |rs| && j != i :: rs[j].digest != digest(token)
    ensures var c, o := rs[i].cap, StoreStep(store, digest, rs, Claim(token, flow, purpose), now).1;
            var free := c.claimedFlow == None;
            var second := exists j | 0 <= j < |rs| :: rs[j].cap.claimedFlow == Some(flow);
            if || token == "" || flow == "" || purpose != c.purpose || c.expiresAt <= now || c.consumedAt != None
               || c.revokedAt != None || (!free && c.claimedFlow != Some(flow)) then o == Refused(Unavailable)
            else if store.InSqlite? && free && second then o == Refused(IntegrityError)
            else if free then o == Claimed(c.(claimedFlow := Some(flow), claimedAt := Some(now)))
            else o == Claimed(c)
  {
    FirstIs(rs, WithDigest(digest(token)), i);
  }

  /**
    An issue stores the new capability under its token's digest; in memory it takes the place of one with
    its id, and in SQLite it is refused if its id or digest is there.
  */
  lemma IssueAnswers(store: Store, digest: Digest, rs: Records, op: Op, now: Instant)
    requires UniqueIds(rs) && op.Issue? && NewCapability(op, now).Success?
    ensures var c, (rs', o) := NewCapability(op, now).value, StoreStep(store, digest, rs, op, now);
            var known := exists i | 0 <= i < |rs| ::
                           rs[i].cap.capabilityId == op.id || rs[i].digest == digest(op.token);
            if store.InSqlite? && known then o == Refused(IntegrityError) && rs' == rs
            else
              && o == Issued(c) && Entry(digest(op.token), c) in rs'
              && (forall e | e in rs' :: e == Entry(digest(op.token), c) || (e in rs && e.cap.capabilityId != op.id))
              && (forall e | e in rs && e.cap.capabilityId != op.id :: e in rs')
  {
    hide NewCapability;
    CapabilityFields(op, now);
    var e := Entry(digest(op.token), NewCapability(op, now).value);
    var i := First(rs, WithId(op.id));
    if i < 0 {
      assert e == (rs + [e])[|rs|];
      assert forall x | x in rs :: !WithId(op.id)(x);
    } else {
      assert rs[i := e][i] == e;
      forall x | x in rs && x.cap.capabilityId != op.id
        ensures x in rs[i := e]
      {
        var j :| 0 <= j < |rs| && rs[j] == x;
        assert rs[i := e][j] == x;
      }
    }
  }

  lemma UnknownTokenRefused(store: Store, digest: Digest, rs: Records, token: string, flow: string, purpose: Purpose,
                            now: Instant)
    requires forall j | 0 <= j < |rs| :: rs[j].digest != digest(token)
    ensures StoreStep(store, digest, rs, Claim(token, flow, purpose), now) == (rs, Refused(Unavailable))
  {
    var i := First(rs, WithDigest(digest(token)));
  }

  /** The flow's one capability is consumed exactly if it is unexpired and neither consumed nor revoked. */
  lemma ConsumeAnswers(store: Store, digest: Digest, rs: Records, i: nat, flow: string, now: Instant)
    requires i < |rs| && rs[i].cap.claimedFlow == Some(flow)
    requires forall j | 0 <= j < |rs| && j != i :: rs[j].cap.claimedFlow != Some(flow)
    ensures var c, (rs', o) := rs[i].cap, StoreStep(store, digest, rs, Consume(flow), now);
            if c.expiresAt <= now || c.consumedAt != None || c.revokedAt != None then
              o == Refused(Unavailable) && rs' == rs
            else
              var c' := c.(consumedAt := Some(now));
              o == Consumed(c') && rs' == rs[i := Entry(rs[i].digest, c')]
  {
    FirstIs(rs, HeldBy(flow), i);
  }

  /** It is released, expired or not, exactly if it is neither consumed nor revoked. */
  lemma ReleaseAnswers(store: Store, digest: Digest, rs: Records, i: nat, flow: string, now: Instant)
    requires i < |rs| && rs[i].cap.claimedFlow == Some(flow)
    requires forall j | 0 <= j < |rs| && j != i :: rs[j].cap.claimedFlow != Some(flow)
    ensures var c, (rs', o) := rs[i].cap, StoreStep(store, digest, rs, Release(flow), now);
            if c.consumedAt != None || c.revokedAt != None then o == Changed(false) && rs' == rs
            else
              && o == Changed(true)
              && rs' == rs[i := Entry(rs[i].digest, c.(claimedFlow := None, claimedAt := None))]
  {
    FirstIs(rs, HeldBy(flow), i);
  }

  lemma NothingHeld(store: Store, digest: Digest, rs: Records, flow: string, now: Instant)
    requires forall j | 0 <= j < |rs| :: rs[j].cap.claimedFlow != Some(flow)
    ensures StoreStep(store, digest, rs, Consume(flow), now) == (rs, Refused(Unavailable))
    ensures StoreStep(store, digest, rs, Release(flow), now) == (rs, Changed(false))
  {
    var i := First(rs, HeldBy(flow));
  }

  /** A capability is revoked, claimed or not and expired or not, exactly if it is neither consumed nor revoked. */
  lemma RevokeAnswers(store: Store, digest: Digest, rs: Records, i: nat, now: Instant)
    requires UniqueIds(rs) && i < |rs|
    ensures var c, (rs', o) := rs[i].cap, StoreStep(store, digest, rs, Revoke(rs[i].cap.capabilityId), now);
            if c.consumedAt != None || c.revokedAt != None then o == Changed(false) && rs' == rs
            else o == Changed(true) && rs' == rs[i := Entry(rs[i].digest, c.(revokedAt := Some(now)))]
  {
    FirstIs(rs, WithId(rs[i].cap.capabilityId), i);
  }

  lemma UnknownIdUnchanged(store: Store, digest: Digest, rs: Records, id: string, now: Instant)
    requires forall j | 0 <= j < |rs| :: rs[j].cap.capabilityId != id
    ensures StoreStep(store, digest, rs, Revoke(id), now) == (rs, Changed(false))
  {
    var i := First(rs, WithId(id));
  }
}
