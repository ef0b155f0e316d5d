/**
  The credential store: three dictionaries and the operations on them.  This module is the meaning
  of the store, which the in-memory class and the SQLite tables are both proved against, and holds
  what every run of operations keeps.
*/
module CredentialStore {
  import opened Wrappers
  import opened PasskeyModels

  datatype State = State(
    users: map<string, User>,
    byHandle: map<Bytes, string>,
    credentials: map<Bytes, Credential>)

  const EMPTY := State(map[], map[], map[])

  datatype Op =
    | Save(user: User, credential: Credential)
    | GetUser(userId: string)
    | GetUserByHandle(handle: Bytes)
    | ListForUser(userId: string)
    | GetCredential(credentialId: Bytes)
    | CompareAndSet(credentialId: Bytes, expected: int, count: int, deviceType: Option<string>, backedUp: Option<bool>)
    | Relabel(credentialId: Bytes, userId: string, labelText: Option<string>)
    | Delete(credentialId: Bytes, owner: Option<string>, requireRemaining: bool)

  datatype Outcome =
    | Done
    | UserFound(user: Option<User>)
    | Listed(credentials: set<Credential>)
    | CredentialFound(credential: Option<Credential>)
    | Deleted(removed: bool)
    | Refused(error: StoreError)

  function Lookup<K, V>(m: map<K, V>, k: K): Option<V> {
    if k in m then Some(m[k]) else None
  }

  function SaveStep(s: State, u: User, c: Credential): (State, Outcome) {
    if c.userId != u.userId then (s, Refused(CredentialConflict))
    else if || (u.userId in s.users && s.users[u.userId] != u)
            || (u.handle in s.byHandle && s.byHandle[u.handle] != u.userId) then
      (s, Refused(UserConflict))
    else if && c.credentialId in s.credentials
            && (s.credentials[c.credentialId].userId != c.userId
                || s.credentials[c.credentialId].publicKey != c.publicKey) then
      (s, Refused(CredentialConflict))
    else
      (State(s.users[u.userId := u], s.byHandle[u.handle := u.userId],
             if c.credentialId in s.credentials then s.credentials else s.credentials[c.credentialId := c]), Done)
  }

  /** An empty user id counts as no user here: the source tests it for truth. */
  function UserByHandle(s: State, h: Bytes): Option<User> {
    if h in s.byHandle && s.byHandle[h] != "" then Lookup(s.users, s.byHandle[h]) else None
  }

  function OwnedBy(s: State, user: string): set<Bytes> {
    set k | k in s.credentials && s.credentials[k].userId == user
  }

  function AfterLogin(c: Credential, count: int, deviceType: Option<string>, backedUp: Option<bool>): Credential {
    c.(signCount := if c.signCount < count then count else c.signCount, deviceType := deviceType, backedUp := backedUp)
  }

  function CompareAndSetStep(s: State, id: Bytes, expected: int, count: int,
                             deviceType: Option<string>, backedUp: Option<bool>): (State, Outcome)
  {
    if id !in s.credentials then (s, Refused(CredentialNotFound))
    else
      var c := s.credentials[id];
      if (expected != 0 && c.signCount != expected) || count < c.signCount then (s, Refused(CounterConflict))
      else
        var c' := AfterLogin(c, count, deviceType, backedUp);
        (s.(credentials := s.credentials[id := c']), CredentialFound(Some(c')))
  }

  function RelabelStep(s: State, id: Bytes, user: string, labelText: Option<string>): (State, Outcome) {
    if id !in s.credentials || s.credentials[id].userId != user then (s, CredentialFound(None))
    else
      var c' := s.credentials[id].(labelText := labelText);
      (s.(credentials := s.credentials[id := c']), CredentialFound(Some(c')))
  }

  function DeleteStep(s: State, id: Bytes, owner: Option<string>, requireRemaining: bool): (State, Outcome) {
    if id !in s.credentials || (owner.Some? && s.credentials[id].userId != owner.value) then (s, Deleted(false))
    else if requireRemaining && |OwnedBy(s, s.credentials[id].userId)| <= 1 then (s, Deleted(false))
    else (s.(credentials := s.credentials - {id}), Deleted(true))
  }

  function Step(s: State, op: Op): (State, Outcome) {
    match op
    case Save(u, c) => SaveStep(s, u, c)
    case GetUser(id) => (s, UserFound(Lookup(s.users, id)))
    case GetUserByHandle(h) => (s, UserFound(UserByHandle(s, h)))
    case ListForUser(id) => (s, Listed(set k | k in OwnedBy(s, id) :: s.credentials[k]))
    case GetCredential(id) => (s, CredentialFound(Lookup(s.credentials, id)))
    case CompareAndSet(id, expected, count, deviceType, backedUp) =>
      CompareAndSetStep(s, id, expected, count, deviceType, backedUp)
    case Relabel(id, user, labelText) => RelabelStep(s, id, user, labelText)
    case Delete(id, owner, requireRemaining) => DeleteStep(s, id, owner, requireRemaining)
  }

  function After(s: State, ops: seq<Op>): State
    decreases |ops|
  {
    if |ops| == 0 then s else After(Step(s, ops[0]).0, ops[1..])
  }

  // ---- What every run keeps ----

  /**
    Users and their handles are inverse bijections, and every credential is kept under its own id for a
    stored user.
  */
  ghost predicate Consistent(s: State) {
    && (forall id | id in s.users ::
          && s.users[id].userId == id
          && s.users[id].handle in s.byHandle && s.byHandle[s.users[id].handle] == id)
    && (forall h | h in s.byHandle :: s.byHandle[h] in s.users && s.users[s.byHandle[h]].handle == h)
    && (forall k | k in s.credentials :: s.credentials[k].credentialId == k && s.credentials[k].userId in s.users)
  }

  /** Fields of a credential no operation rewrites, and the counter no operation lowers. */
  predicate Succeeds(before: Credential, after: Credential) {
    && after.credentialId == before.credentialId && after.userId == before.userId
    && after.publicKey == before.publicKey && after.transports == before.transports
    && after.createdAt == before.createdAt && before.signCount <= after.signCount
  }

  predicate Removes(s: State, op: Op, id: Bytes) {
    op.Delete? && op.credentialId == id && Step(s, op).1 == Deleted(true)
  }

  /** Some operation of the run removes credential `id`. */
  predicate RemovesIn(s: State, ops: seq<Op>, id: Bytes)
    decreases |ops|
  {
    |ops| > 0 && (Removes(s, ops[0], id) || RemovesIn(Step(s, ops[0]).0, ops[1..], id))
  }

  lemma StepKeepsConsistent(s: State, op: Op)
    requires Consistent(s)
    ensures Consistent(Step(s, op).0)
  {
  }

  /** A refused operation changes nothing. */
  lemma RefusalChangesNothing(s: State, op: Op)
    ensures Step(s, op).1.Refused? ==> Step(s, op).0 == s
  {
  }

  /** Users unchanged, credentials still there with the same owner and key, counters no lower. */
  ghost predicate Extends(s: State, s': State) {
    && (forall u | u in s.users :: u in s'.users && s'.users[u] == s.users[u])
    && (forall k | k in s.credentials :: k in s'.credentials && Succeeds(s.credentials[k], s'.credentials[k]))
  }

  lemma SaveExtends(s: State, u: User, c: Credential)
    ensures Extends(s, SaveStep(s, u, c).0) && SaveStep(s, u, c).1 != Deleted(true)
  {
  }

  lemma SetExtends(s: State, id: Bytes, expected: int, count: int, deviceType: Option<string>, backedUp: Option<bool>)
    ensures var (s', o) := CompareAndSetStep(s, id, expected, count, deviceType, backedUp);
            Extends(s, s') && o != Deleted(true)
  {
  }

  lemma RelabelExtends(s: State, id: Bytes, user: string, labelText: Option<string>)
    ensures Extends(s, RelabelStep(s, id, user, labelText).0) && RelabelStep(s, id, user, labelText).1 != Deleted(true)
  {
  }

  lemma DeleteTakesOne(s: State, id: Bytes, owner: Option<string>, requireRemaining: bool)
    ensures var (s', o) := DeleteStep(s, id, owner, requireRemaining);
            if o == Deleted(true) then s' == s.(credentials := s.credentials - {id}) && id in s.credentials else s' == s
  {
  }

  lemma StepEffects(s: State, op: Op)
    ensures var s' := Step(s, op).0;
            && (forall u | u in s.users :: u in s'.users && s'.users[u] == s.users[u])
            && (forall k | k in s.credentials ::
                  if Removes(s, op, k) then k !in s'.credentials
                  else k in s'.credentials && Succeeds(s.credentials[k], s'.credentials[k]))
  {
    hide SaveStep, CompareAndSetStep, RelabelStep, DeleteStep;
    match op
    case Save(u, c) => SaveExtends(s, u, c);
    case CompareAndSet(id, expected, count, deviceType, backedUp) =>
        SetExtends(s, id, expected, count, deviceType, backedUp);
    case Relabel(id, user, labelText) => RelabelExtends(s, id, user, labelText);
    case Delete(id, owner, requireRemaining) => DeleteTakesOne(s, id, owner, requireRemaining);
    case _ =>
  }

  /** Consistency is an invariant of every run, and no run ever changes a stored user record. */
  lemma {:induction false} RunKeepsUsers(s: State, ops: seq<Op>)
    requires Consistent(s)
    ensures Consistent(After(s, ops))
    ensures forall u | u in s.users :: u in After(s, ops).users && After(s, ops).users[u] == s.users[u]
    decreases |ops|
  {
    if |ops| > 0 {
      StepKeepsConsistent(s, ops[0]);
      StepEffects(s, ops[0]);
      RunKeepsUsers(Step(s, ops[0]).0, ops[1..]);
    }
  }

  /**
    Until it is removed, a credential stays stored with the owner and public key it was registered
    with, and its counter never decreases.
  */
  lemma {:induction false} RunKeepsCredential(s: State, ops: seq<Op>, id: Bytes)
    requires Consistent(s) && id in s.credentials && !RemovesIn(s, ops, id)
    ensures id in After(s, ops).credentials && Succeeds(s.credentials[id], After(s, ops).credentials[id])
    decreases |ops|
  {
    if |ops| > 0 {
      StepKeepsConsistent(s, ops[0]);
      StepEffects(s, ops[0]);
      RunKeepsCredential(Step(s, ops[0]).0, ops[1..], id);
    }
  }

  /** Saving a registration again, however much later, is a no-op as long as its credential was not removed. */
  lemma RepeatedSave(s: State, u: User, c: Credential, ops: seq<Op>)
    requires Consistent(s) && Step(s, Save(u, c)).1 == Done
    requires !RemovesIn(Step(s, Save(u, c)).0, ops, c.credentialId)
    ensures var later := After(Step(s, Save(u, c)).0, ops);
            Step(later, Save(u, c)) == (later, Done)
  {
    hide CompareAndSetStep, RelabelStep, DeleteStep, UserByHandle, OwnedBy;
    var s1 := Step(s, Save(u, c)).0;
    StepKeepsConsistent(s, Save(u, c));
    RunKeepsUsers(s1, ops);
    RunKeepsCredential(s1, ops, c.credentialId);
    var later := After(s1, ops);
    assert later.users[u.userId] == u && later.byHandle[u.handle] == u.userId;
    assert later.users[u.userId := u] == later.users && later.byHandle[u.handle := u.userId] == later.byHandle;
  }

  // ---- What each operation answers ----

  /** Another user has the id or the handle. */
  predicate UserClash(s: State, u: User) {
    exists x | x in s.users :: s.users[x] != u && (s.users[x].userId == u.userId || s.users[x].handle == u.handle)
  }

  /**
    A save succeeds exactly if the credential names its user, no other user has that id or handle, and
    the credential id is new or has this owner and key; then exactly the user and, if it is new, the
    credential are there that were not.
  */
  lemma SaveAnswers(s: State, u: User, c: Credential)
    requires Consistent(s)
    ensures var (s', o) := Step(s, Save(u, c));
            var known := c.credentialId in s.credentials;
            && (o == Refused(UserConflict) <==> c.userId == u.userId && UserClash(s, u))
            && (o == Done <==>
                  && c.userId == u.userId && !UserClash(s, u)
                  && (known ==> s.credentials[c.credentialId].userId == c.userId
                                && s.credentials[c.credentialId].publicKey == c.publicKey))
            && (o != Done ==> s' == s && (o == Refused(UserConflict) || o == Refused(CredentialConflict)))
            && (o == Done ==>
                  && (forall x :: Step(s', GetUser(x)).1 ==
                                  if x == u.userId then UserFound(Some(u)) else Step(s, GetUser(x)).1)
                  && (forall k :: Step(s', GetCredential(k)).1 ==
                                  if k == c.credentialId && !known then CredentialFound(Some(c))
                                  else Step(s, GetCredential(k)).1))
  {
    if x :| x in s.users && s.users[x] != u && (s.users[x].userId == u.userId || s.users[x].handle == u.handle) {
      assert s.users[x].userId == x && s.byHandle[s.users[x].handle] == x;
    }
    if u.userId in s.users && s.users[u.userId] != u {
      assert UserClash(s, u);
    }
    if u.handle in s.byHandle && s.byHandle[u.handle] != u.userId {
      assert s.users[s.byHandle[u.handle]].handle == u.handle && UserClash(s, u);
    }
  }

  /** A handle finds the user who has it, unless that user's id is empty; a user id finds its own credentials. */
  lemma QueryAnswers(s: State, u: User, c: Credential)
    requires Consistent(s)
    ensures Step(s, GetUserByHandle(u.handle)).1 == UserFound(Some(u)) <==>
              u.userId != "" && Step(s, GetUser(u.userId)).1 == UserFound(Some(u))
    ensures Step(s, ListForUser(u.userId)).1.Listed?
    ensures c in Step(s, ListForUser(u.userId)).1.credentials <==>
              c.userId == u.userId && Step(s, GetCredential(c.credentialId)).1 == CredentialFound(Some(c))
  {
  }

  /**
    A login's update is refused for an unknown credential, and for a counter below the stored one or an
    expectation, unless it is zero, other than the stored one; otherwise the counter, device type and
    backup flag are the login's, and nothing else changes.
  */
  lemma SetAnswers(s: State, id: Bytes, expected: int, count: int, deviceType: Option<string>, backedUp: Option<bool>)
    ensures var (s', o) := Step(s, CompareAndSet(id, expected, count, deviceType, backedUp));
            && (o == Refused(CredentialNotFound) <==> id !in s.credentials)
            && (id in s.credentials ==>
                  var c := s.credentials[id];
                  var refused := count < c.signCount || expected !in {0, c.signCount};
                  var c' := c.(signCount := count, deviceType := deviceType, backedUp := backedUp);
                  && o == (if refused then Refused(CounterConflict) else CredentialFound(Some(c')))
                  && s' == if refused then s else s.(credentials := s.credentials[id := c']))
            && (id !in s.credentials ==> s' == s)
  {
  }

  /** Only its owner relabels a credential, and only the label changes. */
  lemma RelabelAnswers(s: State, id: Bytes, user: string, labelText: Option<string>)
    ensures var (s', o) := Step(s, Relabel(id, user, labelText));
            var owned := id in s.credentials && s.credentials[id].userId == user;
            && o == CredentialFound(if owned then Some(s.credentials[id].(labelText := labelText)) else None)
            && s' == if owned then s.(credentials := s.credentials[id := s.credentials[id].(labelText := labelText)])
                     else s
  {
  }

  /**
    A delete removes the credential exactly if it is there, is the named owner's if one is named, and,
    if one must remain, is not the only one of its user.
  */
  lemma DeleteAnswers(s: State, id: Bytes, owner: Option<string>, requireRemaining: bool)
    ensures var (s', o) := Step(s, Delete(id, owner, requireRemaining));
            && o.Deleted?
            && (o.removed <==>
                  && id in s.credentials && owner in {None, Some(s.credentials[id].userId)}
                  && (requireRemaining ==> exists k | k in s.credentials ::
                          k != id && s.credentials[k].userId == s.credentials[id].userId))
            && s' == if o.removed then s.(credentials := s.credentials - {id}) else s
  {
    if id in s.credentials {
      var own := OwnedBy(s, s.credentials[id].userId);
      assert |own - {id}| == |own| - 1;
      if |own| > 1 {
        var k :| k in own - {id};
        assert k in s.credentials && k != id && s.credentials[k].userId == s.credentials[id].userId;
      } else {
        assert own - {id} == {};
        assert forall k | k in s.credentials && k != id :: k !in own - {id};
      }
    }
  }
}
