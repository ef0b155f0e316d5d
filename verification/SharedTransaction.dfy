/**
  The passkey service in external mode: challenges, credentials and the host's own tables in one
  database, both stores on the caller's one connection, and every ceremony inside the caller's
  transaction.  The caller's commit publishes all of it and the caller's rollback none.
*/
module SharedTransaction {
  import opened Wrappers
  import opened Timestamps
  import opened PasskeyModels
  import opened Transactions
  import opened PasskeyService
  import Challenges = ChallengeStore
  import Credentials = CredentialStore
  import Sql = SqliteCredentials

  datatype Database<R> = Database(challenges: Challenges.Rows, credentials: Sql.Db, host: R)

  type LoginResult = Result<(User, Credential), ServiceError>

  type RegistrationResult = Result<Verified, ServiceError>

  /** What finish_authentication makes of the database. */
  function LoginStep<R>(d: Database<R>, flow: string, id: Bytes, handle: Option<Bytes>, required: bool,
                        verify: AssertionVerifier, now: Instant): (Database<R>, LoginResult)
  {
    match Candidate(d.credentials, id, handle, required)
    case Failure(e) => (d, Failure(e))
    case Success((user, stored)) =>
      var (rows, popped) := Challenges.SqlStep(d.challenges, Challenges.Pop(flow, Challenges.Authentication), now);
      var d1 := d.(challenges := rows);
      match popped
      case Popped(record) =>
        (match verify(record.challenge, stored.publicKey, stored.signCount)
         case None => (d1, Failure(InvalidAssertion))
         case Some(a) =>
           var (db, o) := Sql.SqlStep(d.credentials, LoginOp(stored, id, a));
           (d1.(credentials := db), LoginAnswer(user, o)))
      case Refused(e) => (d1, Failure(Store(e)))
      case _ => (d1, Failure(Store(Challenges.ChallengeNotFound)))
  }

  /** What verify_registration followed by save_registration makes of it. */
  function RegisterStep<R>(d: Database<R>, flow: string, verify: AttestationVerifier, now: Instant)
    : (Database<R>, RegistrationResult)
  {
    var (rows, popped) := Challenges.SqlStep(d.challenges, Challenges.Pop(flow, Challenges.Registration), now);
    var d1 := d.(challenges := rows);
    match popped
    case Popped(record) =>
      (match VerifiedFrom(record, verify, now)
       case Failure(e) => (d1, Failure(e))
       case Success(v) =>
         var (db, o) := Sql.SqlStep(d.credentials, Credentials.Save(v.user, v.credential));
         (d1.(credentials := db), if o.Refused? then Failure(CredentialStore(o.error)) else Success(v)))
    case Refused(e) => (d1, Failure(Store(e)))
    case _ => (d1, Failure(Store(Challenges.ChallengeNotFound)))
  }

  /** A raising operation of either store leaves its tables alone. */
  lemma RefusedLeaves(rows: Challenges.Rows, flow: string, kind: Challenges.ChallengeKind, now: Instant)
    ensures Challenges.SqlStep(rows, Challenges.Pop(flow, kind), now).1.Refused? ==>
              Challenges.SqlStep(rows, Challenges.Pop(flow, kind), now).0 == rows
  {
    hide TextLess, IsoText, Challenges.SqliteChallenge;
  }

  lemma RefusedKeeps(db: Sql.Db, op: Credentials.Op)
    ensures Sql.SqlStep(db, op).1.Refused? ==> Sql.SqlStep(db, op).0 == db
  {
    hide Sql.SqliteCredential, Sql.SqliteUser;
  }

  class SharedPasskeyService<R> {
    const conn: Connection<Database<R>>

    constructor (conn: Connection<Database<R>>)
      ensures this.conn == conn
    {
      this.conn := conn;
    }

    ghost predicate InTransaction()
      reads conn
    {
      conn.Valid() && conn.inTransaction && conn.foreignKeys
    }

    /** Still the caller's transaction, with the caller's savepoints and nothing published. */
    twostate predicate Undisturbed()
      reads conn
    {
      && InTransaction() && conn.committed == old(conn.committed) && conn.savepoints == old(conn.savepoints)
    }

    /** One bracketed operation on the challenge table. */
    method Pop(marker: string, flow: string, kind: Challenges.ChallengeKind, now: Instant)
      returns (o: Challenges.Outcome)
      requires InTransaction()
      modifies conn
      ensures Undisturbed()
      ensures var (rows, outcome) := Challenges.SqlStep(old(conn.working).challenges, Challenges.Pop(flow, kind), now);
              o == outcome && conn.working == old(conn.working).(challenges := rows)
    {
      hide Challenges.SqlStep;
      ghost var frames, start := conn.savepoints, conn.working;
      RefusedLeaves(conn.working.challenges, flow, kind, now);
      var _ := conn.Enter(true, marker);
      var step := Challenges.SqlStep(conn.working.challenges, Challenges.Pop(flow, kind), now);
      conn.working := conn.working.(challenges := step.0);
      conn.Leave(true, marker, step.1.Refused?, frames, start);
      return step.1;
    }

    /** One bracketed operation on the credential tables. */
    method Perform(marker: string, op: Credentials.Op) returns (o: Credentials.Outcome)
      requires InTransaction()
      modifies conn
      ensures Undisturbed()
      ensures var (db, outcome) := Sql.SqlStep(old(conn.working).credentials, op);
              o == outcome && conn.working == old(conn.working).(credentials := db)
    {
      hide Sql.SqlStep;
      ghost var frames, start := conn.savepoints, conn.working;
      RefusedKeeps(conn.working.credentials, op);
      var _ := conn.Enter(true, marker);
      var step := Sql.SqlStep(conn.working.credentials, op);
      conn.working := conn.working.(credentials := step.0);
      conn.Leave(true, marker, step.1.Refused?, frames, start);
      return step.1;
    }

    method FinishAuthentication(popMarker: string, loginMarker: string, flow: string, id: Bytes, handle: Option<Bytes>,
                                required: bool, verify: AssertionVerifier, now: Instant) returns (r: LoginResult)
      requires InTransaction()
      modifies conn
      ensures Undisturbed()
      ensures (conn.working, r) == LoginStep(old(conn.working), flow, id, handle, required, verify, now)
    {
      hide Sql.SqlStep, Challenges.SqlStep, Candidate;
      var candidate := Candidate(conn.working.credentials, id, handle, required);
      if candidate.Failure? {
        return Failure(candidate.error);
      }
      var (user, stored) := candidate.value;
      var popped := Pop(popMarker, flow, Challenges.Authentication, now);
      if !popped.Popped? {
        return Failure(Store(if popped.Refused? then popped.error else Challenges.ChallengeNotFound));
      }
      var verified := verify(popped.record.challenge, stored.publicKey, stored.signCount);
      if verified.None? {
        return Failure(InvalidAssertion);
      }
      var updated := Perform(loginMarker, LoginOp(stored, id, verified.value));
      return LoginAnswer(user, updated);
    }

    method Register(popMarker: string, saveMarker: string, flow: string, verify: AttestationVerifier, now: Instant)
      returns (r: RegistrationResult)
      requires InTransaction()
      modifies conn
      ensures Undisturbed()
      ensures (conn.working, r) == RegisterStep(old(conn.working), flow, verify, now)
    {
      hide Sql.SqlStep, Challenges.SqlStep, VerifiedFrom;
      var popped := Pop(popMarker, flow, Challenges.Registration, now);
      if !popped.Popped? {
        return Failure(Store(if popped.Refused? then popped.error else Challenges.ChallengeNotFound));
      }
      var verified := VerifiedFrom(popped.record, verify, now);
      if verified.Failure? {
        return verified;
      }
      var saved := Perform(saveMarker, Credentials.Save(verified.value.user, verified.value.credential));
      return if saved.Refused? then Failure(CredentialStore(saved.error)) else verified;
    }

    /**
      The caller's commit publishes the consumed challenge and the updated credential together, its
      rollback neither.
    */
    method LoginTransaction(flow: string, id: Bytes, handle: Option<Bytes>, required: bool, verify: AssertionVerifier,
                            now: Instant, commit: bool) returns (r: LoginResult)
      requires conn.Valid() && !conn.inTransaction && conn.foreignKeys
      modifies conn
      ensures conn.Valid() && !conn.inTransaction
      ensures r == LoginStep(old(conn.committed), flow, id, handle, required, verify, now).1
      ensures conn.committed ==
              if commit then LoginStep(old(conn.committed), flow, id, handle, required, verify, now).0
                  else old(conn.committed)
    {
      hide LoginStep;
      var _ := conn.Begin();
      r := FinishAuthentication("pop", "login", flow, id, handle, required, verify, now);
      if commit {
        conn.Commit();
      } else {
        conn.Rollback();
      }
    }

    /** The same for a registration: challenge, user and credential together or not at all. */
    method RegistrationTransaction(flow: string, verify: AttestationVerifier, now: Instant, commit: bool)
      returns (r: RegistrationResult)
      requires conn.Valid() && !conn.inTransaction && conn.foreignKeys
      modifies conn
      ensures conn.Valid() && !conn.inTransaction
      ensures r == RegisterStep(old(conn.committed), flow, verify, now).1
      ensures conn.committed ==
              if commit then RegisterStep(old(conn.committed), flow, verify, now).0 else old(conn.committed)
    {
      hide RegisterStep;
      var _ := conn.Begin();
      r := Register("pop", "save", flow, verify, now);
      if commit {
        conn.Commit();
      } else {
        conn.Rollback();
      }
    }
  }

  /** A committed login used up its challenge, whether or not it succeeded once the challenge was found. */
  lemma LoginUsesChallenge<R>(d: Database<R>, flow: string, id: Bytes, handle: Option<Bytes>, required: bool,
                              verify: AssertionVerifier, now: Instant)
    ensures var (d', r) := LoginStep(d, flow, id, handle, required, verify, now);
            && d'.host == d.host
            && (r.Success? || r == Failure(InvalidAssertion) ==> (flow, Challenges.Authentication) !in d'.challenges)
            && (r.Failure? ==> d'.credentials == d.credentials)
  {
    hide TextLess, IsoText, Challenges.SqliteChallenge, Sql.SqlStep;
    var c := Candidate(d.credentials, id, handle, required);
    if c.Success? {
      var popped := Challenges.SqlStep(d.challenges, Challenges.Pop(flow, Challenges.Authentication), now).1;
      if popped.Popped? {
        var a := verify(popped.record.challenge, c.value.1.publicKey, c.value.1.signCount);
        if a.Some? {
          LoginOutcome(d.credentials, LoginOp(c.value.1, id, a.value));
        }
      }
    }
  }

  /** So does a registration; one that fails has stored nothing. */
  lemma RegistrationUsesChallenge<R>(d: Database<R>, flow: string, verify: AttestationVerifier, now: Instant)
    ensures var popped := Challenges.SqlStep(d.challenges, Challenges.Pop(flow, Challenges.Registration), now).1;
            var (d', r) := RegisterStep(d, flow, verify, now);
            && d'.host == d.host && (r.Failure? ==> d'.credentials == d.credentials)
            && (popped.Popped? ==> (flow, Challenges.Registration) !in d'.challenges)
            && (!popped.Popped? ==> r.Failure? && d' == d)
  {
    hide TextLess, IsoText, Challenges.SqliteChallenge, Sql.SqlStep, VerifiedFrom;
    var popped := Challenges.SqlStep(d.challenges, Challenges.Pop(flow, Challenges.Registration), now).1;
    if popped.Popped? {
      var v := VerifiedFrom(popped.record, verify, now);
      if v.Success? { RefusedKeeps(d.credentials, Credentials.Save(v.value.user, v.value.credential)); }
    }
  }

  lemma LoginOutcome(db: Sql.Db, op: Credentials.Op)
    requires op.CompareAndSet?
    ensures var (db', o) := Sql.SqlStep(db, op);
            (o.Refused? && db' == db) || (o.CredentialFound? && o.credential.Some?)
  {
    hide Sql.SqliteCredential;
  }

  // ---- From attestation to login ----

  /** The credential an attestation stands for, as long as no login has used it. */
  function Attested(user: User, a: Attestation, now: Instant): Credential {
    Credential(a.credentialId, user.userId, a.publicKey, a.signCount, a.transports, a.deviceType, a.backedUp, None, now)
  }

  /** A successful registration of a new id stores the attested credential under the attested id, and nothing else. */
  lemma RegisterStores<R>(d: Database<R>, s: Credentials.State, flow: string, verify: AttestationVerifier, now: Instant,
                          ch: Bytes)
    returns (s': Credentials.State)
    requires Sql.Related(s, d.credentials) && Credentials.Consistent(s)
    requires var r := RegisterStep(d, flow, verify, now).1;
             r.Success? && r.value.credential.credentialId !in s.credentials
    requires var popped := Challenges.SqlStep(d.challenges, Challenges.Pop(flow, Challenges.Registration), now).1;
             popped.record.challenge == ch
    ensures var (d', r) := RegisterStep(d, flow, verify, now);
            && verify(ch).Some? && r.value.credential == Attested(r.value.user, verify(ch).value, now)
            && Sql.Related(s', d'.credentials) && Credentials.Consistent(s') && d'.host == d.host
            && s'.credentials == s.credentials[verify(ch).value.credentialId := r.value.credential]
            && r.value.user.userId in s'.users && s'.users[r.value.user.userId] == r.value.user
  {
    hide Sql.SqlStep, Sql.SqlSave, Challenges.SqlStep, Sql.Related, Credentials.Consistent;
    var record := Challenges.SqlStep(d.challenges, Challenges.Pop(flow, Challenges.Registration), now).1.record;
    VerifiedFields(record, verify, now);
    var v := VerifiedFrom(record, verify, now).value;
    hide VerifiedFrom;
    Sql.RefineStep(s, d.credentials, Credentials.Save(v.user, v.credential));
    Credentials.StepKeepsConsistent(s, Credentials.Save(v.user, v.credential));
    s' := Credentials.Step(s, Credentials.Save(v.user, v.credential)).0;
  }

  /** How a login with credential c of that user ends, once the response names it and its challenge is found. */
  function LoginAgainst(user: User, c: Credential, ch: Bytes, check: AssertionVerifier): LoginResult {
    match check(ch, c.publicKey, c.signCount)
    case None => Failure(InvalidAssertion)
    case Some(b) =>
      if b.count < c.signCount then Failure(CredentialStore(CounterConflict))
      else Success((user, c.(signCount := b.count, deviceType := b.deviceType, backedUp := b.backedUp)))
  }

  predicate HandleFits(handle: Option<Bytes>, required: bool, user: User) {
    handle == Some(user.handle) || (handle == None && !required)
  }

  /** A login checks the response against the stored key and counter, and refuses only what that refuses. */
  lemma LoginExactly<R>(d: Database<R>, s: Credentials.State, flow: string, id: Bytes, handle: Option<Bytes>,
                        required: bool, check: AssertionVerifier, now: Instant, ch: Bytes)
    requires Sql.Related(s, d.credentials) && Credentials.Consistent(s) && id in s.credentials
    requires s.credentials[id].userId in s.users && HandleFits(handle, required, s.users[s.credentials[id].userId])
    requires var popped := Challenges.SqlStep(d.challenges, Challenges.Pop(flow, Challenges.Authentication), now).1;
             popped.Popped? && popped.record.challenge == ch
    ensures LoginStep(d, flow, id, handle, required, check, now).1
         == LoginAgainst(s.users[s.credentials[id].userId], s.credentials[id], ch, check)
  {
    hide Sql.SqlStep, Challenges.SqlStep, Sql.Related, Credentials.Consistent, Candidate;
    CandidateIsOwner(s, d.credentials, id, handle, required);
    var c := s.credentials[id];
    var b := check(ch, c.publicKey, c.signCount);
    if b.Some? {
      var op := Credentials.CompareAndSet(id, c.signCount, b.value.count, b.value.deviceType, b.value.backedUp);
      assert LoginOp(c, id, b.value) == op;
      Sql.RefineStep(s, d.credentials, op);
      Credentials.SetAnswers(s, id, c.signCount, b.value.count, b.value.deviceType, b.value.backedUp);
    }
  }

  /**
    From the attestation alone: once a registration of a new id is committed, a login that presents the
    attested id is checked against the attested key and counter, and answers with the registered user.
  */
  lemma RegistrationLogsIn<R>(d: Database<R>, s: Credentials.State, flow: string, verify: AttestationVerifier,
                              now: Instant, ch: Bytes, e: Database<R>, flow2: string, handle: Option<Bytes>,
                              required: bool, check: AssertionVerifier, later: Instant, ch2: Bytes)
    requires Sql.Related(s, d.credentials) && Credentials.Consistent(s)
    requires var r := RegisterStep(d, flow, verify, now).1;
             && r.Success? && r.value.credential.credentialId !in s.credentials
             && HandleFits(handle, required, r.value.user)
    requires var popped := Challenges.SqlStep(d.challenges, Challenges.Pop(flow, Challenges.Registration), now).1;
             popped.record.challenge == ch
    requires e.credentials == RegisterStep(d, flow, verify, now).0.credentials
    requires var popped := Challenges.SqlStep(e.challenges, Challenges.Pop(flow2, Challenges.Authentication), later).1;
             popped.Popped? && popped.record.challenge == ch2
    ensures verify(ch).Some?
    ensures var a, user := verify(ch).value, RegisterStep(d, flow, verify, now).1.value.user;
            LoginStep(e, flow2, a.credentialId, handle, required, check, later).1 ==
              match check(ch2, a.publicKey, a.signCount)
              case None => Failure(InvalidAssertion)
              case Some(b) =>
                if b.count < a.signCount then Failure(CredentialStore(CounterConflict))
                else Success((user, Credential(a.credentialId, user.userId, a.publicKey, b.count, a.transports,
                                               b.deviceType, b.backedUp, None, now)))
  {
    hide RegisterStep, LoginStep, Challenges.SqlStep, Sql.Related, Credentials.Consistent;
    var s' := RegisterStores(d, s, flow, verify, now, ch);
    LoginExactly(e, s', flow2, verify(ch).value.credentialId, handle, required, check, later, ch2);
  }
}
