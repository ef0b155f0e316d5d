/**
  Logins as three steps: read the credential, verify the assertion against the counter read, compare
  and set.  Any number of sessions interleave with each other and with every other store operation.
  Verification is an oracle that obeys the counter rule of section 7.2 of Web Authentication Level 2.
*/
module Login {
  import opened Wrappers
  import opened PasskeyModels
  import opened CredentialStore
  import opened MemoryCredentials

  datatype Event =
    | Read(session: nat, credentialId: Bytes)
    | Finish(session: nat, count: nat, deviceType: Option<string>, backedUp: Option<bool>)
    | Other(op: Op)

  /** The store, and the credential value each running login has read. */
  datatype System = System(store: State, sessions: map<nat, Credential>)

  /** The counter rule: both zero, or strictly greater than the stored counter. */
  predicate CounterAccepted(stored: int, count: int) {
    (stored == 0 && count == 0) || stored < count
  }

  function Expectation(c: Credential, e: Event): Op
    requires e.Finish?
  {
    CompareAndSet(c.credentialId, c.signCount, e.count, e.deviceType, e.backedUp)
  }

  /** The store operation an event amounts to, if it gets that far. */
  function OpOf(sys: System, e: Event): Option<Op> {
    match e
    case Read(_, id) => Some(GetCredential(id))
    case Finish(session, count, _, _) =>
      if session in sys.sessions && CounterAccepted(sys.sessions[session].signCount, count)
      then Some(Expectation(sys.sessions[session], e)) else None
    case Other(op) => Some(op)
  }

  function Next(sys: System, e: Event): System {
    var store := match OpOf(sys, e) case Some(op) => Step(sys.store, op).0 case None => sys.store;
    match e
    case Read(session, id) =>
      if id in sys.store.credentials then System(store, sys.sessions[session := sys.store.credentials[id]]) else sys
    case Finish(session, _, _, _) => System(store, sys.sessions - {session})
    case Other(_) => System(store, sys.sessions)
  }

  function Reach(sys: System, trace: seq<Event>): System
    decreases |trace|
  {
    if |trace| == 0 then sys else Reach(Next(sys, trace[0]), trace[1..])
  }

  /** The event completes a login with credential `id`, having read counter `n`. */
  predicate Wins(sys: System, e: Event, id: Bytes, n: int) {
    && e.Finish? && e.session in sys.sessions
    && sys.sessions[e.session].credentialId == id && sys.sessions[e.session].signCount == n
    && OpOf(sys, e).Some? && Step(sys.store, OpOf(sys, e).value).1.CredentialFound?
  }

  function WinCount(sys: System, trace: seq<Event>, id: Bytes, n: int): nat
    decreases |trace|
  {
    if |trace| == 0 then 0
    else (if Wins(sys, trace[0], id, n) then 1 else 0) + WinCount(Next(sys, trace[0]), trace[1..], id, n)
  }

  predicate RemovedBy(sys: System, e: Event, id: Bytes) {
    e.Other? && Removes(sys.store, e.op, id)
  }

  predicate RemovedIn(sys: System, trace: seq<Event>, id: Bytes)
    decreases |trace|
  {
    |trace| > 0 && (RemovedBy(sys, trace[0], id) || RemovedIn(Next(sys, trace[0]), trace[1..], id))
  }

  lemma NextKeeps(sys: System, e: Event, id: Bytes)
    requires Consistent(sys.store)
    ensures Consistent(Next(sys, e).store)
    ensures id in sys.store.credentials && !RemovedBy(sys, e, id) ==>
              && id in Next(sys, e).store.credentials
              && Succeeds(sys.store.credentials[id], Next(sys, e).store.credentials[id])
  {
    hide Step, Consistent;
    var op := OpOf(sys, e);
    if op.Some? {
      StepKeepsConsistent(sys.store, op.value);
      StepEffects(sys.store, op.value);
      assert Removes(sys.store, op.value, id) ==> RemovedBy(sys, e, id);
    }
    if e.Read? {
      assert Step(sys.store, GetCredential(e.credentialId)).0
          == sys.store by { ReadsNothing(sys.store, e.credentialId); }
    }
  }

  lemma ReadsNothing(s: State, id: Bytes)
    ensures Step(s, GetCredential(id)).0 == s
  {
  }

  /**
    Over any interleaving a credential keeps its owner and public key, and its counter never decreases,
    until it is removed.
  */
  lemma {:induction false} CounterNeverDecreases(sys: System, trace: seq<Event>, id: Bytes)
    requires Consistent(sys.store) && id in sys.store.credentials && !RemovedIn(sys, trace, id)
    ensures id in Reach(sys, trace).store.credentials
    ensures Succeeds(sys.store.credentials[id], Reach(sys, trace).store.credentials[id])
    decreases |trace|
  {
    hide Next, Consistent;
    if |trace| > 0 {
      NextKeeps(sys, trace[0], id);
      CounterNeverDecreases(Next(sys, trace[0]), trace[1..], id);
    }
  }

  /** A login that read a non-zero counter wins only at that counter, and leaves it strictly greater. */
  lemma WinRaises(sys: System, e: Event, id: Bytes, n: int)
    requires Wins(sys, e, id, n) && n != 0
    ensures id in sys.store.credentials && sys.store.credentials[id].signCount == n
    ensures id in Next(sys, e).store.credentials && n < Next(sys, e).store.credentials[id].signCount
  {
  }

  function RemovalCount(sys: System, trace: seq<Event>, id: Bytes): nat
    decreases |trace|
  {
    if |trace| == 0 then 0
    else (if RemovedBy(sys, trace[0], id) then 1 else 0) + RemovalCount(Next(sys, trace[0]), trace[1..], id)
  }

  predicate Passed(s: State, id: Bytes, n: int) {
    id in s.credentials && n < s.credentials[id].signCount
  }

  /**
    However the sessions interleave with each other and with every other operation, removals and
    registrations anew included: each life of the credential admits at most one login per non-zero
    counter read, and none once the stored counter has passed it.
  */
  lemma {:induction false} WinsPerLife(sys: System, trace: seq<Event>, id: Bytes, n: int)
    requires Consistent(sys.store) && n != 0
    ensures WinCount(sys, trace, id, n) <= RemovalCount(sys, trace, id) + if Passed(sys.store, id, n) then 0 else 1
    decreases |trace|
  {
    hide Next, Consistent, Wins, RemovedBy;
    if |trace| > 0 {
      NextKeeps(sys, trace[0], id);
      if Wins(sys, trace[0], id, n) {
        WinRaises(sys, trace[0], id, n);
      }
      WinsPerLife(Next(sys, trace[0]), trace[1..], id, n);
    }
  }

  lemma {:induction false} NoRemovals(sys: System, trace: seq<Event>, id: Bytes)
    requires !RemovedIn(sys, trace, id)
    ensures RemovalCount(sys, trace, id) == 0
    decreases |trace|
  {
    hide Next, RemovedBy;
    if |trace| > 0 {
      NoRemovals(Next(sys, trace[0]), trace[1..], id);
    }
  }

  /** Within one life: at most one login succeeds per non-zero counter read. */
  lemma OneWinPerCounter(sys: System, trace: seq<Event>, id: Bytes, n: int)
    requires Consistent(sys.store) && n != 0 && !RemovedIn(sys, trace, id)
    ensures WinCount(sys, trace, id, n) <= 1
  {
    WinsPerLife(sys, trace, id, n);
    NoRemovals(sys, trace, id);
  }

  // ---- The in-memory store hands out its live object ----

  /**
    An expectation read from the live object at the last moment checks nothing: only a regressing
    counter is refused.
  */
  lemma LiveExpectation(s: State, id: Bytes, count: int, deviceType: Option<string>, backedUp: Option<bool>)
    requires id in s.credentials
    ensures Step(s, CompareAndSet(id, s.credentials[id].signCount, count, deviceType, backedUp)).1.CredentialFound?
       <==> s.credentials[id].signCount <= count
  {
  }

  datatype LiveLogin = LiveLogin(count: int, deviceType: Option<string>, backedUp: Option<bool>)

  /** A login that passes the live object's counter as its expectation, whatever it verified against. */
  function LiveFinish(s: State, id: Bytes, l: LiveLogin): (State, Outcome) {
    var expected := if id in s.credentials then s.credentials[id].signCount else 0;
    Step(s, CompareAndSet(id, expected, l.count, l.deviceType, l.backedUp))
  }

  function LiveAfter(s: State, id: Bytes, logins: seq<LiveLogin>): State {
    if |logins| == 0 then s else LiveFinish(LiveAfter(s, id, logins[..|logins| - 1]), id, logins[|logins| - 1]).0
  }

  predicate LiveWins(s: State, id: Bytes, logins: seq<LiveLogin>, i: nat)
    requires i < |logins|
  {
    LiveFinish(LiveAfter(s, id, logins[..i]), id, logins[i]).1.CredentialFound?
  }

  /** The counter is the greatest presented so far: nothing else is compared. */
  lemma {:induction false} LiveCounter(s: State, id: Bytes, logins: seq<LiveLogin>, i: nat)
    requires id in s.credentials && i <= |logins|
    ensures var s' := LiveAfter(s, id, logins[..i]);
            && id in s'.credentials && s.credentials[id].signCount <= s'.credentials[id].signCount
            && (forall j | 0 <= j < i :: logins[j].count <= s'.credentials[id].signCount)
            && (s'.credentials[id].signCount == s.credentials[id].signCount
                || exists j | 0 <= j < i :: logins[j].count == s'.credentials[id].signCount)
  {
    if i > 0 {
      assert logins[..i][..i - 1] == logins[..i - 1];
      LiveCounter(s, id, logins, i - 1);
    }
  }

  /**
    Any number of logins verified against one counter of the live object, finishing one after
    another: a login wins exactly if no earlier one presented a greater counter.  So two at one
    non-zero counter both win as soon as their counters come in non-decreasing order.
  */
  lemma LiveWinsExactly(s: State, id: Bytes, logins: seq<LiveLogin>, i: nat)
    requires id in s.credentials && i < |logins|
    requires forall k | 0 <= k < |logins| :: CounterAccepted(s.credentials[id].signCount, logins[k].count)
    ensures LiveWins(s, id, logins, i) <==> forall j | 0 <= j < i :: logins[j].count <= logins[i].count
  {
    LiveCounter(s, id, logins, i);
  }

  /** A fresh in-memory store with one registration. */
  method Registered(user: User, c: Credential) returns (store: MemoryCredentialStore)
    requires c.userId == user.userId
    ensures fresh(store) && fresh(store.Objects()) && store.Valid()
    ensures c.credentialId in store.credentials && store.View().credentials == map[c.credentialId := c]
  {
    hide CompareAndSetStep, RelabelStep, DeleteStep, UserByHandle, OwnedBy;
    store := new MemoryCredentialStore();
    var credential := new PasskeyCredential(c);
    var saved := store.SaveRegistration(user, credential);
    assert saved == Done;
  }

  /** The same on the objects: both logins verify before either finishes, and each expects the live counter. */
  method LiveObjectAdmitsTwo(user: User, c: Credential, one: LiveLogin, two: LiveLogin)
    returns (first: Outcome, second: Outcome)
    requires c.userId == user.userId && CounterAccepted(c.signCount, one.count)
               && CounterAccepted(c.signCount, two.count)
    ensures first.CredentialFound?
    ensures second.CredentialFound? <==> one.count <= two.count
  {
    hide SaveStep, RelabelStep, DeleteStep, UserByHandle, OwnedBy;
    var store := Registered(user, c);
    var a := store.GetCredential(c.credentialId);
    var b := store.GetCredential(c.credentialId);
    ghost var before := store.View().credentials;
    first := store.CompareAndSetAfterLogin(c.credentialId, a.value.signCount, one.count, one.deviceType, one.backedUp);
    assert before[c.credentialId].signCount == c.signCount;
    assert store.View().credentials[c.credentialId].signCount == one.count;
    second := store.CompareAndSetAfterLogin(c.credentialId, b.value.signCount, two.count, two.deviceType, two.backedUp);
  }
}
