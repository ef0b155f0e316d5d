/**
  The registration and authentication ceremonies across the challenge and credential stores, and
  credential removal.  Attestation and assertion verification are oracles: they either raise or
  return the authenticator's data.
*/
module PasskeyService {
  import opened Wrappers
  import opened Base64Url
  import opened Timestamps
  import opened PasskeyModels
  import opened ChallengeStore
  import opened ChallengeClasses
  import opened Transactions
  import Credentials = CredentialStore
  import SqliteCredentials
  import CredentialClass = SqliteCredentialStore
  import Login

  /** What a verified attestation says. */
  datatype Attestation = Attestation(
    credentialId: Bytes, publicKey: Bytes, signCount: nat, transports: seq<string>,
    deviceType: Option<string>, backedUp: Option<bool>)

  /** What a verified assertion says. */
  datatype Assertion = Assertion(count: int, deviceType: Option<string>, backedUp: Option<bool>)

  /** Checks a registration response against the challenge it must answer. */
  type AttestationVerifier = Bytes -> Option<Attestation>

  /** Checks a response against a challenge, a public key and the stored counter. */
  type AssertionVerifier = (Bytes, Bytes, int) -> Option<Assertion>

  datatype Verified = Verified(user: User, credential: Credential, context: Option<Context>)

  datatype ServiceError =
    | MissingUser
    | UserMismatch
    | Store(error: ChallengeStore.Error)
    | Transaction(completion: Completion)
    | InvalidAttestation
    | InvalidContext
    | UnknownCredential
    | UserHandleMismatch
    | InvalidAssertion
    | CredentialStore(failure: StoreError)
    | FinalCredential

  function Blank(t: Option<string>): bool {
    t.None? || t.value == ""
  }

  /** The checks a registration context's constructor makes. */
  predicate ValidContext(c: Context) {
    (c.kind.Invitation? || c.kind.Recovery?) <==> !Blank(c.capabilityId)
  }

  /** The context a begin_registration call settles on. */
  function SettledContext(user: Option<User>, context: Option<Context>): (r: Result<Context, ServiceError>)
    ensures r.Success? <==>
              && (user.Some? || context.Some?)
              && (user.Some? && context.Some? ==> user.value == context.value.user)
    ensures r.Success? ==> (user.Some? ==> r.value.user == user.value) && (context.Some? ==> r.value == context.value)
    ensures r.Success? && context.None? ==>
              ValidContext(r.value) && r.value.kind == SelfRegistration && r.value.capabilityId == None
  {
    match context
    case None => if user.None? then Failure(MissingUser) else Success(Context(SelfRegistration, user.value, None))
    case Some(c) => if user.Some? && user.value != c.user then Failure(UserMismatch) else Success(c)
  }

  /** ChallengeRecord.registration_context, which builds the context anew and so checks it again. */
  function RecordContext(r: Challenge): Result<Option<Context>, ServiceError> {
    if r.user.None? || r.registrationKind.None? then Success(None)
    else
      var c := Context(r.registrationKind.value, r.user.value, r.capabilityId);
      if ValidContext(c) then Success(Some(c)) else Failure(InvalidContext)
  }

  /** What verify_registration makes of the popped record. */
  function VerifiedFrom(r: Challenge, verify: AttestationVerifier, now: Instant): Result<Verified, ServiceError> {
    if r.user.None? then Failure(Store(ChallengeNotFound))
    else match verify(r.challenge)
      case None => Failure(InvalidAttestation)
      case Some(a) =>
        match RecordContext(r)
        case Failure(e) => Failure(e)
        case Success(context) =>
          Success(Verified(r.user.value,
                           Credential(a.credentialId, r.user.value.userId, a.publicKey, a.signCount, a.transports,
                                      a.deviceType, a.backedUp, None, now),
                           context))
  }

  /** The stored credential a response names and its user, if the response's user handle fits. */
  function Candidate(db: SqliteCredentials.Db, id: Bytes, handle: Option<Bytes>, required: bool)
    : Result<(User, Credential), ServiceError> {
    match SqliteCredentials.SqlStep(db, Credentials.GetCredential(id)).1
    case CredentialFound(Some(stored)) =>
      (match SqliteCredentials.SqlStep(db, Credentials.GetUser(stored.userId)).1
       case UserFound(Some(user)) =>
         if handle != Some(user.handle) && (required || handle.Some?) then Failure(UserHandleMismatch)
         else Success((user, stored))
       case UserFound(None) => Failure(UnknownCredential)
       case Refused(e) => Failure(CredentialStore(e))
       case _ => Failure(UnknownCredential))
    case Refused(e) => Failure(CredentialStore(e))
    case _ => Failure(UnknownCredential)
  }

  function LoginOp(stored: Credential, id: Bytes, a: Assertion): Credentials.Op {
    Credentials.CompareAndSet(id, stored.signCount, a.count, a.deviceType, a.backedUp)
  }

  /** The answer a compare-and-set gives a login. */
  function LoginAnswer(user: User, o: Credentials.Outcome): Result<(User, Credential), ServiceError> {
    match o
    case CredentialFound(Some(c)) => Success((user, c))
    case Refused(e) => Failure(CredentialStore(e))
    case _ => Failure(UnknownCredential)
  }

  class PasskeyService {
    const challenges: SqliteChallengeStore
    const credentials: CredentialClass.SqliteCredentialStore

    constructor (challenges: SqliteChallengeStore, credentials: CredentialClass.SqliteCredentialStore)
      ensures this.challenges == challenges && this.credentials == credentials
    {
      this.challenges, this.credentials := challenges, credentials;
    }

    method BeginRegistration(marker: string, flow: string, user: Option<User>, context: Option<Context>,
                             challenge: Bytes, ttl: int, now: Instant) returns (r: Result<Challenge, ServiceError>)
      requires challenges.conn.Valid()
      modifies challenges.conn
      ensures challenges.conn.Valid()
      ensures match SettledContext(user, context)
              case Failure(e) => unchanged(challenges.conn) && r == Failure(e)
              case Success(c) =>
                var op := Save(flow, Registration, challenge, ttl, Some(c.user), Some(c));
                match NewRecord(op, now)
                case Failure(e) => unchanged(challenges.conn) && r == Failure(Store(e))
                case Success(record) =>
                  && (r.Success? ==> r.value == record) && (r.Failure? ==> r.error.Transaction?)
                  && challenges.conn.Moved(challenges.external,
                                           if r.Success? then Completed else r.error.completion,
                                           SqlStep(old(challenges.conn.Visible(challenges.external)), op, now).0)
    {
      hide NewRecord, ChallengeStore.SqlStep;
      var settled := SettledContext(user, context);
      if settled.Failure? {
        return Failure(settled.error);
      }
      var op := Save(flow, Registration, challenge, ttl, Some(settled.value.user), Some(settled.value));
      SaveOutcome(challenges.conn.Visible(challenges.external), op, now);
      var saved := challenges.Save(marker, op, now);
      match saved
      case Failure(c) => return Failure(Transaction(c));
      case Success(Saved(record)) => return Success(record);
      case Success(Refused(e)) => return Failure(Store(e));
      case Success(_) => assert false;
    }

    /** Consumes the challenge, then verifies; it never touches the credential tables. */
    method VerifyRegistration(marker: string, flow: string, verify: AttestationVerifier, now: Instant)
      returns (r: Result<Verified, ServiceError>)
      requires challenges.conn.Valid()
      modifies challenges.conn
      ensures challenges.conn.Valid()
      ensures var (rows, outcome) := SqlStep(old(challenges.conn.Visible(challenges.external)), Pop(flow, Registration),
                                             now);
              if r.Failure? && r.error.Transaction? then
                  challenges.conn.Moved(challenges.external, r.error.completion, rows)
              else && challenges.conn.Moved(challenges.external, Completed, rows)
                   && r == match outcome
                           case Popped(record) => VerifiedFrom(record, verify, now)
                           case Refused(e) => Failure(Store(e))
                           case _ => Failure(Store(ChallengeNotFound))
    {
      hide ChallengeStore.SqlStep;
      var popped := challenges.Pop(marker, flow, Registration, now);
      match popped
      case Failure(c) => return Failure(Transaction(c));
      case Success(Popped(record)) => return VerifiedFrom(record, verify, now);
      case Success(Refused(e)) => return Failure(Store(e));
      case Success(_) => return Failure(Store(ChallengeNotFound));
    }

    method BeginAuthentication(marker: string, flow: string, challenge: Bytes, ttl: int, now: Instant)
      returns (r: Result<Challenge, ServiceError>)
      requires challenges.conn.Valid()
      modifies challenges.conn
      ensures challenges.conn.Valid()
      ensures var op := Save(flow, Authentication, challenge, ttl, None, None);
              match NewRecord(op, now)
              case Failure(e) => unchanged(challenges.conn) && r == Failure(Store(e))
              case Success(record) =>
                && (r.Success? ==> r.value == record) && (r.Failure? ==> r.error.Transaction?)
                && challenges.conn.Moved(challenges.external, if r.Success? then Completed else r.error.completion,
                                         SqlStep(old(challenges.conn.Visible(challenges.external)), op, now).0)
    {
      hide NewRecord, ChallengeStore.SqlStep;
      var op := Save(flow, Authentication, challenge, ttl, None, None);
      SaveOutcome(challenges.conn.Visible(challenges.external), op, now);
      var saved := challenges.Save(marker, op, now);
      match saved
      case Failure(c) => return Failure(Transaction(c));
      case Success(Saved(record)) => return Success(record);
      case Success(Refused(e)) => return Failure(Store(e));
      case Success(_) => assert false;
    }

    /** Looks the credential up, then consumes the challenge, then verifies, and only then touches the credential. */
    method FinishAuthentication(marker: string, loginMarker: string, flow: string, id: Bytes, handle: Option<Bytes>,
                                required: bool, verify: AssertionVerifier, now: Instant)
      returns (r: Result<(User, Credential), ServiceError>)
      requires challenges.conn.Valid() && credentials.conn.Valid()
      modifies challenges.conn, credentials.conn
      ensures challenges.conn.Valid() && credentials.conn.Valid()
      ensures match Candidate(old(credentials.conn.working), id, handle, required)
              case Failure(e) => unchanged(challenges.conn) && unchanged(credentials.conn) && r == Failure(e)
              case Success((user, stored)) =>
                var (rows, outcome) := SqlStep(old(challenges.conn.Visible(challenges.external)),
                                               Pop(flow, Authentication), now);
                || (&& r.Failure? && r.error.Transaction? && unchanged(credentials.conn)
                    && challenges.conn.Moved(challenges.external, r.error.completion, rows))
                || (&& challenges.conn.Moved(challenges.external, Completed, rows)
                    && match outcome
                       case Popped(record) =>
                         (match verify(record.challenge, stored.publicKey, stored.signCount)
                          case None => unchanged(credentials.conn) && r == Failure(InvalidAssertion)
                          case Some(a) =>
                            var start := old(credentials.conn.Visible(credentials.external));
                            var (db, answer) := SqliteCredentials.SqlStep(start, LoginOp(stored, id, a));
                            if r.Failure? && r.error.Transaction? then
                              credentials.conn.Moved(credentials.external, r.error.completion, db)
                            else
                              && credentials.conn.Moved(credentials.external, Completed, db)
                              && r == LoginAnswer(user, answer))
                       case Refused(e) => unchanged(credentials.conn) && r == Failure(Store(e))
                       case _ => unchanged(credentials.conn) && r == Failure(Store(ChallengeNotFound)))
    {
      hide ChallengeStore.SqlStep, SqliteCredentials.SqlStep;
      var found := credentials.Query(Credentials.GetCredential(id));
      if found.Refused? {
        return Failure(CredentialStore(found.error));
      }
      if !found.CredentialFound? || found.credential.None? {
        return Failure(UnknownCredential);
      }
      var stored := found.credential.value;
      var owner := credentials.Query(Credentials.GetUser(stored.userId));
      if owner.Refused? {
        return Failure(CredentialStore(owner.error));
      }
      if !owner.UserFound? || owner.user.None? {
        return Failure(UnknownCredential);
      }
      var user := owner.user.value;
      if handle != Some(user.handle) && (required || handle.Some?) {
        return Failure(UserHandleMismatch);
      }
      var popped := challenges.Pop(marker, flow, Authentication, now);
      if popped.Failure? {
        return Failure(Transaction(popped.error));
      }
      if !popped.value.Popped? {
        return Failure(Store(if popped.value.Refused? then popped.value.error else ChallengeNotFound));
      }
      var verified := verify(popped.value.record.challenge, stored.publicKey, stored.signCount);
      if verified.None? {
        return Failure(InvalidAssertion);
      }
      var a := verified.value;
      var updated := credentials.CompareAndSetAfterLogin(loginMarker, id, stored.signCount, a.count, a.deviceType,
                                                         a.backedUp);
      if updated.Failure? {
        return Failure(Transaction(updated.error));
      }
      return LoginAnswer(user, updated.value);
    }

    /** Tries the guarded delete, and explains a refusal by looking the credential up. */
    method RemoveCredential(marker: string, userId: string, id: Bytes, allowFinal: bool)
      returns (r: Result<(), ServiceError>)
      requires credentials.conn.Valid()
      modifies credentials.conn
      ensures credentials.conn.Valid()
      ensures var (db, error) := SqlRemove(old(credentials.conn.Visible(credentials.external)), userId, id, allowFinal);
              if r.Failure? && r.error.Transaction? then
                  credentials.conn.Moved(credentials.external, r.error.completion, db)
              else && credentials.conn.Moved(credentials.external, Completed, db)
                   && r == if error.Some? then Failure(error.value) else Success(())
    {
      hide BytesToB64url, SqliteCredentials.SqliteCredential;
      ghost var start := credentials.conn.Visible(credentials.external);
      var deleted := credentials.DeleteCredential(marker, id, Some(userId), !allowFinal);
      if deleted.Failure? {
        return Failure(Transaction(deleted.error));
      }
      if deleted.value == Credentials.Deleted(true) {
        return Success(());
      }
      var found := credentials.Query(Credentials.GetCredential(id));
      if found.CredentialFound? && found.credential.Some? && found.credential.value.userId == userId {
        return Failure(FinalCredential);
      }
      return Failure(UnknownCredential);
    }
  }

  /** The tables after remove_credential, and the error it raises. */
  function SqlRemove(db: SqliteCredentials.Db, userId: string, id: Bytes, allowFinal: bool)
    : (SqliteCredentials.Db, Option<ServiceError>) {
    var (db', deleted) := SqliteCredentials.SqlDelete(db, id, Some(userId), !allowFinal);
    if deleted == Credentials.Deleted(true) then (db', None)
    else match SqliteCredentials.SqlStep(db', Credentials.GetCredential(id)).1
      case CredentialFound(Some(c)) => (db', Some(if c.userId == userId then FinalCredential else UnknownCredential))
      case _ => (db', Some(UnknownCredential))
  }

  /** The same on the store's meaning. */
  function RemoveStep(s: Credentials.State, userId: string, id: Bytes, allowFinal: bool)
    : (Credentials.State, Option<ServiceError>) {
    var (s', deleted) := Credentials.DeleteStep(s, id, Some(userId), !allowFinal);
    if deleted == Credentials.Deleted(true) then (s', None)
    else (s', Some(if id in s'.credentials && s'.credentials[id].userId == userId then FinalCredential
                   else UnknownCredential))
  }

  lemma RefineRemove(s: Credentials.State, db: SqliteCredentials.Db, userId: string, id: Bytes, allowFinal: bool)
    requires SqliteCredentials.Related(s, db)
    ensures SqlRemove(db, userId, id, allowFinal).1 == RemoveStep(s, userId, id, allowFinal).1
    ensures SqliteCredentials.Related(RemoveStep(s, userId, id, allowFinal).0, SqlRemove(db, userId, id, allowFinal).0)
  {
    hide SqliteCredentials.Related, SqliteCredentials.SqlDelete, SqliteCredentials.SqlStep, Credentials.DeleteStep;
    SqliteCredentials.RefineDelete(s, db, id, Some(userId), !allowFinal);
    var s' := Credentials.DeleteStep(s, id, Some(userId), !allowFinal).0;
    SqliteCredentials.LookupAnswers(s', SqliteCredentials.SqlDelete(db, id, Some(userId), !allowFinal).0, userId, id);
  }

  /** When each answer is given: the last credential is the only one of one's own that is denied. */
  lemma RemovalAnswers(s: Credentials.State, db: SqliteCredentials.Db, userId: string, id: Bytes, allowFinal: bool)
    requires SqliteCredentials.Related(s, db)
    ensures var (db', error) := SqlRemove(db, userId, id, allowFinal);
            var owned := Credentials.OwnedBy(s, userId);
            && (error == Some(UnknownCredential) <==> id !in owned)
            && (error == Some(FinalCredential) <==> id in owned && !allowFinal && owned == {id})
            && (error == None <==> id in owned && (allowFinal || owned != {id}))
            && SqliteCredentials.Related(if error == None then s.(credentials := s.credentials - {id}) else s, db')
  {
    hide SqlRemove, SqliteCredentials.Related;
    RefineRemove(s, db, userId, id, allowFinal);
    OnlyOne(Credentials.OwnedBy(s, userId), id);
  }

  lemma OnlyOne(owned: set<Bytes>, id: Bytes)
    ensures id in owned ==> (owned == {id} <==> |owned| <= 1)
  {
    if id in owned {
      assert |owned - {id}| == |owned| - 1;
      assert |owned| <= 1 ==> owned - {id} == {};
    }
  }

  ghost predicate ObeysCounterRule(verify: AssertionVerifier) {
    forall ch, key, n :: verify(ch, key, n).Some? ==> Login.CounterAccepted(n, verify(ch, key, n).value.count)
  }

  /** The candidate is the stored credential and its owner; only then does the user handle matter. */
  lemma CandidateIsOwner(s: Credentials.State, db: SqliteCredentials.Db, id: Bytes, handle: Option<Bytes>,
                         required: bool)
    requires SqliteCredentials.Related(s, db) && Credentials.Consistent(s)
    ensures Candidate(db, id, handle, required) ==
            if id !in s.credentials then Failure(UnknownCredential)
            else
              var user := s.users[s.credentials[id].userId];
              if handle == Some(user.handle) || (!required && handle.None?) then Success((user, s.credentials[id]))
              else Failure(UserHandleMismatch)
  {
    hide SqliteCredentials.Related, SqliteCredentials.SqlStep;
    SqliteCredentials.LookupAnswers(s, db, if id in s.credentials then s.credentials[id].userId else "", id);
  }

  /** A login nobody interrupts never meets a counter conflict: it stores exactly the counter that was verified. */
  lemma UninterruptedLogin(s: Credentials.State, db: SqliteCredentials.Db, id: Bytes, verify: AssertionVerifier,
                           ch: Bytes)
    requires SqliteCredentials.Related(s, db) && Credentials.Consistent(s) && id in s.credentials
               && ObeysCounterRule(verify)
    requires verify(ch, s.credentials[id].publicKey, s.credentials[id].signCount).Some?
    ensures var stored := s.credentials[id];
            var a := verify(ch, stored.publicKey, stored.signCount).value;
            var (db', o) := SqliteCredentials.SqlStep(db, LoginOp(stored, id, a));
            var c := stored.(signCount := a.count, deviceType := a.deviceType, backedUp := a.backedUp);
            && LoginAnswer(s.users[stored.userId], o) == Success((s.users[stored.userId], c))
            && SqliteCredentials.Related(s.(credentials := s.credentials[id := c]), db')
  {
    hide BytesToB64url, SqliteCredentials.SqliteCredential, SqliteCredentials.Related,
        SqliteCredentials.SqlCompareAndSet;
    var stored := s.credentials[id];
    var a := verify(ch, stored.publicKey, stored.signCount).value;
    SqliteCredentials.RefineCompareAndSet(s, db, id, stored.signCount, a.count, a.deviceType, a.backedUp);
  }

  lemma SaveOutcome(t: Rows, op: Op, now: Instant)
    requires op.Save?
    ensures SqlStep(t, op, now).1 == match NewRecord(op, now) case Success(r) => Saved(r) case Failure(e) => Refused(e)
  {
  }

  /** Between its read and its write a login is the Finish event of the interleavings in Login. */
  lemma LoginIsFinish(stored: Credential, a: Assertion, session: nat)
    requires 0 <= a.count
    ensures LoginOp(stored, stored.credentialId, a)
         == Login.Expectation(stored, Login.Finish(session, a.count, a.deviceType, a.backedUp))
  {
  }

  // ---- Registration end to end ----

  /**
    The verified credential is the attested one: every field of it, and the user and context, come from
    the attestation, the popped record and the clock.
  */
  lemma VerifiedFields(r: Challenge, verify: AttestationVerifier, now: Instant)
    ensures VerifiedFrom(r, verify, now).Success? <==>
              && r.user.Some? && verify(r.challenge).Some?
              && (r.registrationKind.Some? ==>
                    (r.registrationKind in {Some(Invitation), Some(Recovery)} <==> r.capabilityId !in {None, Some("")}))
    ensures VerifiedFrom(r, verify, now).Success? ==>
              var v, a := VerifiedFrom(r, verify, now).value, verify(r.challenge).value;
              && r.user == Some(v.user) && v.credential.userId == v.user.userId
              && v.credential.credentialId == a.credentialId && v.credential.publicKey == a.publicKey
              && v.credential.signCount == a.signCount && v.credential.transports == a.transports
              && v.credential.deviceType == a.deviceType && v.credential.backedUp == a.backedUp
              && v.credential.labelText == None && v.credential.createdAt == now
              && (v.context.Some? <==> r.registrationKind.Some?)
              && (v.context.Some? ==>
                    && v.context.value.user == v.user && Some(v.context.value.kind) == r.registrationKind
                    && v.context.value.capabilityId == r.capabilityId)
  {
  }

  /** The record a registration begins with carries its context, in memory and through the row. */
  lemma ContextComesBack(c: Context, flow: string, challenge: Bytes, ttl: int, now: Instant)
    requires ValidContext(c)
    requires NewRecord(Save(flow, Registration, challenge, ttl, Some(c.user), Some(c)), now).Success?
    ensures var r := NewRecord(Save(flow, Registration, challenge, ttl, Some(c.user), Some(c)), now).value;
            && r.user == Some(c.user) && RecordContext(r) == Success(Some(c))
            && SqliteChallenge(ChallengeValues(r)) == Success(r)
  {
    RowRoundTrip(NewRecord(Save(flow, Registration, challenge, ttl, Some(c.user), Some(c)), now).value);
  }

  /** Operation `j` of the run is begin_registration for that flow and context. */
  predicate Begins(trace: Trace, j: nat, flow: string, c: Context) {
    && j < |trace| && trace[j].1.Save?
    && trace[j].1 == Save(flow, Registration, trace[j].1.challenge, trace[j].1.ttl, Some(c.user), Some(c))
  }

  /**
    Over every run: a verified registration answers the challenge of the flow's latest
    begin_registration and returns exactly the context, and the user, which that stored; its credential
    belongs to that user, so saving it can never meet the owner-mismatch error; and no later
    verification succeeds without a new begin.
  */
  lemma RegistrationReturnsContext(trace: Trace, i: nat, flow: string, verify: AttestationVerifier, now: Instant)
    returns (j: nat)
    requires Nondecreasing(trace) && i < |trace| && trace[i].1 == Pop(flow, Registration)
    requires SqlOutcome(trace, i).Popped? && VerifiedFrom(SqlOutcome(trace, i).record, verify, now).Success?
    ensures j < i && SavesAt(trace, j, (flow, Registration))
    ensures verify(trace[j].1.challenge).Some?
    ensures forall k | j < k < i :: !SavesAt(trace, k, (flow, Registration))
    ensures var v := VerifiedFrom(SqlOutcome(trace, i).record, verify, now).value;
            && v.credential.userId == v.user.userId
            && (forall c | Begins(trace, j, flow, c) && ValidContext(c) :: v.context == Some(c) && v.user == c.user)
            && (forall s | Credentials.Step(s, Credentials.Save(v.user, v.credential)).1
                == Credentials.Refused(CredentialConflict) ::
                  v.credential.credentialId in s.credentials)
    ensures forall k | i < k < |trace| && PopsAt(trace, k, (flow, Registration)) ::
              exists m: nat | i < m < k :: SavesAt(trace, m, (flow, Registration))
  {
    hide SqlOutcome, NewRecord;
    var record := SqlOutcome(trace, i).record;
    PopFromHistory(trace, i, record);
    j :| Pending(trace, i, (flow, Registration), j) && SavedAt(trace, j) == record;
    forall c | Begins(trace, j, flow, c) && ValidContext(c)
      ensures record.user == Some(c.user) && RecordContext(record) == Success(Some(c))
    {
      ContextComesBack(c, flow, trace[j].1.challenge, trace[j].1.ttl, trace[j].0);
    }
    forall k | i < k < |trace| && PopsAt(trace, k, (flow, Registration))
      ensures exists m: nat | i < m < k :: SavesAt(trace, m, (flow, Registration))
    {
      EachSavePopsOnce(trace, i, k, (flow, Registration));
    }
  }
}
