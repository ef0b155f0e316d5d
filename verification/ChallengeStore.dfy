/**
  The single-use challenge stores.  The in-memory store discards a record on every pop, expired or
  not, and compares instants; the SQLite store deletes only a row whose expiry text is greater than
  the text of now.  On a clock that never goes backwards both give the same outcomes, and those are
  determined by the history: a pop yields the latest saved record, once, before it expires.
*/
module ChallengeStore {
  import opened Wrappers
  import opened Base64Url
  import opened Timestamps
  import opened PasskeyModels

  datatype ChallengeKind = Registration | Authentication

  datatype RegistrationKind = SelfRegistration | Invitation | AdditionalCredential | Recovery

  datatype Context = Context(kind: RegistrationKind, user: User, capabilityId: Option<string>)

  datatype Challenge = Challenge(
    challenge: Bytes,
    kind: ChallengeKind,
    key: string,
    expiresAt: Instant,
    user: Option<User>,
    registrationKind: Option<RegistrationKind>,
    capabilityId: Option<string>)

  type Slot = (string, ChallengeKind)

  datatype Op =
    | Save(key: string, kind: ChallengeKind, challenge: Bytes, ttl: int, user: Option<User>, context: Option<Context>)
    | Pop(key: string, kind: ChallengeKind)
    | Cleanup

  datatype Error = ContextMismatch | Overflow | ChallengeNotFound | CorruptRow

  datatype Outcome = Saved(record: Challenge) | Popped(record: Challenge) | Cleaned | Refused(error: Error)

  const MICROS_PER_SECOND := 1_000_000

  /** The record a save builds, or the error it raises before touching the store. */
  function NewRecord(op: Op, now: Instant): (r: Result<Challenge, Error>)
    requires op.Save?
    ensures r.Success? ==>
              && (r.value.key, r.value.kind) == (op.key, op.kind) && r.value.challenge == op.challenge
              && r.value.expiresAt - now == op.ttl * MICROS_PER_SECOND && (op.user.Some? ==> r.value.user == op.user)
  {
    if op.context.Some? && (op.kind != Registration || op.user !in {None, Some(op.context.value.user)}) then
      Failure(ContextMismatch)
    else
      var t := now + op.ttl * MICROS_PER_SECOND;
      if !(0 <= t < MAX_INSTANT) then Failure(Overflow)
      else
        Success(match op.context
                case Some(c) => Challenge(op.challenge, op.kind, op.key, t, Some(c.user), Some(c.kind), c.capabilityId)
                case None => Challenge(op.challenge, op.kind, op.key, t, op.user, None, None))
  }

  /** When a save is refused, and every field of the record otherwise; a lifetime is counted in seconds. */
  lemma RecordFields(op: Op, now: Instant)
    requires op.Save?
    ensures var fits := op.context.Some? ==>
                          op.kind == Registration && (op.user == None || op.user == Some(op.context.value.user));
            var expires := now + op.ttl * 1_000_000;
            match NewRecord(op, now)
            case Failure(e) => if fits then e == Overflow && !(0 <= expires < MAX_INSTANT) else e == ContextMismatch
            case Success(r) =>
              && fits && r.challenge == op.challenge && r.kind == op.kind && r.key == op.key && r.expiresAt == expires
              && r.user == (if op.context.Some? then Some(op.context.value.user) else op.user)
              && r.registrationKind == (if op.context.Some? then Some(op.context.value.kind) else None)
              && r.capabilityId == (if op.context.Some? then op.context.value.capabilityId else None)
  {
  }

  // ---- The in-memory store ----

  type Records = map<Slot, Challenge>

  function MemoryStep(m: Records, op: Op, now: Instant): (Records, Outcome) {
    match op
    case Save(key, kind, _, _, _, _) =>
      (match NewRecord(op, now)
       case Failure(e) => (m, Refused(e))
       case Success(r) => (m[(key, kind) := r], Saved(r)))
    case Pop(key, kind) =>
      var m' := m - {(key, kind)};
      if (key, kind) !in m || m[(key, kind)].expiresAt <= now then (m', Refused(ChallengeNotFound))
      else (m', Popped(m[(key, kind)]))
    case Cleanup => (map s | s in m && now < m[s].expiresAt :: m[s], Cleaned)
  }

  // ---- The SQLite store ----

  datatype ChallengeRow = ChallengeRow(
    challenge: Bytes,
    kind: ChallengeKind,
    key: string,
    expiresAt: string,
    userId: Option<string>,
    userHandle: Option<string>,
    userName: Option<string>,
    userDisplayName: Option<string>,
    registrationKind: Option<RegistrationKind>,
    capabilityId: Option<string>)

  type Rows = map<Slot, ChallengeRow>

  function ChallengeValues(r: Challenge): ChallengeRow {
    match r.user
    case Some(u) =>
      ChallengeRow(r.challenge, r.kind, r.key, IsoText(r.expiresAt), Some(u.userId), Some(BytesToB64url(u.handle)),
                   Some(u.name), u.displayName, r.registrationKind, r.capabilityId)
    case None =>
      ChallengeRow(r.challenge, r.kind, r.key, IsoText(r.expiresAt), None, None, None, None, r.registrationKind,
                   r.capabilityId)
  }

  function RowUser(row: ChallengeRow): Result<Option<User>, Error> {
    match row.userId
    case None => Success(None)
    case Some(id) =>
      if row.userHandle.None? || row.userName.None? then Failure(Error.CorruptRow)
      else match B64urlToBytes(row.userHandle.value)
        case Success(handle) => Success(Some(User(id, handle, row.userName.value, row.userDisplayName)))
        case Failure(_) => Failure(Error.CorruptRow)
  }

  function SqliteChallenge(row: ChallengeRow): Result<Challenge, Error> {
    match RowUser(row)
    case Failure(e) => Failure(e)
    case Success(user) =>
      match ParseIso(row.expiresAt)
      case Some(t) =>
        if 0 <= t < MAX_INSTANT then
          Success(Challenge(row.challenge, row.kind, row.key, t, user, row.registrationKind, row.capabilityId))
        else Failure(Error.CorruptRow)
      case None => Failure(Error.CorruptRow)
  }

  function SqlStep(t: Rows, op: Op, now: Instant): (Rows, Outcome) {
    match op
    case Save(key, kind, _, _, _, _) =>
      (match NewRecord(op, now)
       case Failure(e) => (t, Refused(e))
       case Success(r) => (t[(key, kind) := ChallengeValues(r)], Saved(r)))
    case Pop(key, kind) =>
      // DELETE ... WHERE key=? AND kind=? AND expires_at>? RETURNING ...
      if (key, kind) in t && TextLess(IsoText(now), t[(key, kind)].expiresAt) then
        match SqliteChallenge(t[(key, kind)])
        case Success(r) => (t - {(key, kind)}, Popped(r))
        case Failure(e) => (t, Refused(e))
      else (t, Refused(ChallengeNotFound))
    case Cleanup => (map s | s in t && TextLess(IsoText(now), t[s].expiresAt) :: t[s], Cleaned)
  }

  /** What a challenge's row brings back is the challenge. */
  lemma RowRoundTrip(r: Challenge)
    ensures SqliteChallenge(ChallengeValues(r)) == Success(r)
  {
    hide IsoText, ParseIso, BytesToB64url, B64urlToBytes;
    ParseBack(r.expiresAt);
    if r.user.Some? { RoundTrip(r.user.value.handle); }
  }

  // ---- Refinement over runs ----

  predicate LiveAt(m: Records, s: Slot, now: int) {
    s in m && now < m[s].expiresAt
  }

  ghost predicate RowsAreRecords(t: Rows, u: Records) {
    t.Keys == u.Keys && forall s | s in u :: t[s] == ChallengeValues(u[s])
  }

  /** The same live records; what has expired may linger in either. */
  ghost predicate SameLive(m: Records, u: Records, now: int) {
    forall s: Slot :: LiveAt(m, s, now) || LiveAt(u, s, now) ==> s in m && s in u && m[s] == u[s]
  }

  /** SQLite's step on the records its rows stand for. */
  function RecordStep(u: Records, op: Op, now: Instant): (Records, Outcome) {
    match op
    case Pop(key, kind) => if LiveAt(u, (key, kind), now) then MemoryStep(u, op, now)
        else (u, Refused(ChallengeNotFound))
    case _ => MemoryStep(u, op, now)
  }

  lemma SqlOnRecords(t: Rows, u: Records, op: Op, now: Instant)
    requires RowsAreRecords(t, u)
    ensures RowsAreRecords(SqlStep(t, op, now).0, RecordStep(u, op, now).0)
    ensures SqlStep(t, op, now).1 == RecordStep(u, op, now).1
  {
    hide IsoText, ParseIso, TextLess, SqliteChallenge, BytesToB64url;
    match op
    case Save(_, _, _, _, _, _) =>
    case Pop(key, kind) =>
      var s := (key, kind);
      if s in u {
        RowRoundTrip(u[s]);
        TextOrder(now, u[s].expiresAt);
      }
    case Cleanup =>
      forall s | s in u
        ensures TextLess(IsoText(now), t[s].expiresAt) <==> now < u[s].expiresAt
      {
        TextOrder(now, u[s].expiresAt);
      }
  }

  lemma RefineStep(m: Records, u: Records, op: Op, before: int, now: Instant)
    requires SameLive(m, u, before) && before <= now
    ensures SameLive(MemoryStep(m, op, now).0, RecordStep(u, op, now).0, now)
    ensures MemoryStep(m, op, now).1 == RecordStep(u, op, now).1
  {
  }

  /** A run from fresh stores: each operation with its clock reading. */
  type Trace = seq<(Instant, Op)>

  function MemoryAfter(trace: Trace): Records {
    if |trace| == 0 then map[]
    else var (now, op) := trace[|trace| - 1]; MemoryStep(MemoryAfter(trace[..|trace| - 1]), op, now).0
  }

  function RowsAfter(trace: Trace): Rows {
    if |trace| == 0 then map[]
    else var (now, op) := trace[|trace| - 1]; SqlStep(RowsAfter(trace[..|trace| - 1]), op, now).0
  }

  function RecordsAfter(trace: Trace): Records {
    if |trace| == 0 then map[]
    else var (now, op) := trace[|trace| - 1]; RecordStep(RecordsAfter(trace[..|trace| - 1]), op, now).0
  }

  function MemoryOutcome(trace: Trace, i: nat): Outcome
    requires i < |trace|
  {
    MemoryStep(MemoryAfter(trace[..i]), trace[i].1, trace[i].0).1
  }

  function SqlOutcome(trace: Trace, i: nat): Outcome
    requires i < |trace|
  {
    SqlStep(RowsAfter(trace[..i]), trace[i].1, trace[i].0).1
  }

  lemma {:induction false} RelatedAfter(trace: Trace, now: int)
    requires Nondecreasing(trace) && (|trace| > 0 ==> trace[|trace| - 1].0 <= now)
    ensures RowsAreRecords(RowsAfter(trace), RecordsAfter(trace))
    ensures SameLive(MemoryAfter(trace), RecordsAfter(trace), now)
  {
    hide MemoryStep, SqlStep, RecordStep;
    if |trace| > 0 {
      var front := trace[..|trace| - 1];
      var (t, op) := trace[|trace| - 1];
      RelatedAfter(front, t);
      SqlOnRecords(RowsAfter(front), RecordsAfter(front), op, t);
      RefineStep(MemoryAfter(front), RecordsAfter(front), op, t, t);
    }
  }

  lemma SqlIsRecord(trace: Trace, i: nat)
    requires Nondecreasing(trace) && i < |trace|
    ensures SqlOutcome(trace, i) == RecordStep(RecordsAfter(trace[..i]), trace[i].1, trace[i].0).1
  {
    hide MemoryStep, SqlStep, RecordStep;
    RelatedAfter(trace[..i], trace[i].0);
    SqlOnRecords(RowsAfter(trace[..i]), RecordsAfter(trace[..i]), trace[i].1, trace[i].0);
  }

  /** On a clock that never goes backwards both stores give the same outcome at every point of every run. */
  lemma RunsAgree(trace: Trace, i: nat)
    requires Nondecreasing(trace) && i < |trace|
    ensures MemoryOutcome(trace, i) == SqlOutcome(trace, i)
  {
    hide MemoryStep, SqlStep, RecordStep;
    var (now, op) := trace[i];
    RelatedAfter(trace[..i], now);
    SqlOnRecords(RowsAfter(trace[..i]), RecordsAfter(trace[..i]), op, now);
    RefineStep(MemoryAfter(trace[..i]), RecordsAfter(trace[..i]), op, now, now);
  }

  /** A cleanup leaves exactly the unexpired records, and their rows, as they were. */
  lemma CleanupLeaves(t: Rows, u: Records, now: Instant, s: Slot)
    requires RowsAreRecords(t, u)
    ensures var left, rows := MemoryStep(u, Cleanup, now).0, SqlStep(t, Cleanup, now).0;
            && (s in left <==> s in u && u[s].expiresAt > now) && (s in rows <==> s in left)
            && (s in left ==> left[s] == u[s] && rows[s] == t[s])
  {
    hide IsoText, ParseIso, TextLess, BytesToB64url;
    if s in u { TextOrder(now, u[s].expiresAt); }
  }

  // ---- Outcomes from the history ----

  predicate SavesAt(trace: Trace, j: nat, s: Slot) {
    j < |trace| && trace[j].1.Save? && (trace[j].1.key, trace[j].1.kind) == s
        && NewRecord(trace[j].1, trace[j].0).Success?
  }

  function SavedAt(trace: Trace, j: nat): Challenge
    requires j < |trace| && trace[j].1.Save? && NewRecord(trace[j].1, trace[j].0).Success?
  {
    NewRecord(trace[j].1, trace[j].0).value
  }

  predicate PopsAt(trace: Trace, j: nat, s: Slot) {
    j < |trace| && trace[j].1.Pop? && (trace[j].1.key, trace[j].1.kind) == s && SqlOutcome(trace, j).Popped?
  }

  /** The save at `j` is the last one for the slot before `n`, and nothing has popped it since. */
  ghost predicate Pending(trace: Trace, n: nat, s: Slot, j: nat) {
    && j < n <= |trace| && SavesAt(trace, j, s)
    && forall k | j < k < n :: !SavesAt(trace, k, s) && !PopsAt(trace, k, s)
  }

  /** Every stored record is pending. */
  lemma {:induction false} StoredIsPending(trace: Trace, n: nat, s: Slot) returns (j: nat)
    requires Nondecreasing(trace) && n <= |trace| && s in RecordsAfter(trace[..n])
    ensures Pending(trace, n, s, j) && RecordsAfter(trace[..n])[s] == SavedAt(trace, j)
  {
    hide SqlOutcome, NewRecord;
    assert trace[..n][..n - 1] == trace[..n - 1];
    if SavesAt(trace, n - 1, s) {
      j := n - 1;
    } else {
      j := StoredIsPending(trace, n - 1, s);
      SqlIsRecord(trace, n - 1);
    }
  }

  /** Every pending record is stored until it expires. */
  lemma {:induction false} PendingIsStored(trace: Trace, n: nat, s: Slot, j: nat, now: int)
    requires Nondecreasing(trace) && Pending(trace, n, s, j)
    requires trace[n - 1].0 <= now < SavedAt(trace, j).expiresAt
    ensures s in RecordsAfter(trace[..n]) && RecordsAfter(trace[..n])[s] == SavedAt(trace, j)
  {
    hide SqlOutcome, NewRecord;
    assert trace[..n][..n - 1] == trace[..n - 1];
    if j < n - 1 {
      PendingIsStored(trace, n - 1, s, j, now);
      SqlIsRecord(trace, n - 1);
      var (t, op) := trace[n - 1];
      var u := RecordsAfter(trace[..n - 1]);
      assert RecordsAfter(trace[..n]) == RecordStep(u, op, t).0;
      assert t <= now && LiveAt(u, s, t);
      assert !SavesAt(trace, n - 1, s) && !PopsAt(trace, n - 1, s);
    }
  }

  lemma PendingBefore(trace: Trace, n: nat, s: Slot, j: nat)
    requires Nondecreasing(trace) && Pending(trace, n, s, j) && n < |trace|
    ensures 0 < n && trace[n - 1].0 <= trace[n].0
  {
  }

  /** A pop yields a record exactly when it is the latest saved one, unpopped and unexpired. */
  lemma PopFromHistory(trace: Trace, i: nat, r: Challenge)
    requires Nondecreasing(trace) && i < |trace| && trace[i].1.Pop?
    ensures SqlOutcome(trace, i) == Popped(r) <==>
              exists j :: Pending(trace, i, (trace[i].1.key, trace[i].1.kind), j)
                       && SavedAt(trace, j) == r && trace[i].0 < r.expiresAt
  {
    hide SqlOutcome, RecordsAfter, NewRecord;
    var (now, op) := trace[i];
    var s := (op.key, op.kind);
    SqlIsRecord(trace, i);
    if SqlOutcome(trace, i) == Popped(r) {
      var j := StoredIsPending(trace, i, s);
    }
    forall j | Pending(trace, i, s, j) && SavedAt(trace, j) == r && now < r.expiresAt
      ensures SqlOutcome(trace, i) == Popped(r)
    {
      PendingBefore(trace, i, s, j);
      PendingIsStored(trace, i, s, j, now);
    }
  }

  /** Two pops of one slot never return the same save: between them there is another. */
  lemma EachSavePopsOnce(trace: Trace, a: nat, b: nat, s: Slot)
    requires Nondecreasing(trace) && a < b && PopsAt(trace, a, s) && PopsAt(trace, b, s)
    ensures exists j: nat | a < j < b :: SavesAt(trace, j, s) && SavedAt(trace, j) == SqlOutcome(trace, b).record
  {
    hide SqlOutcome, SavedAt;
    PopFromHistory(trace, b, SqlOutcome(trace, b).record);
    var j: nat :| Pending(trace, b, s, j) && SavedAt(trace, j) == SqlOutcome(trace, b).record;
    assert j != a;
    assert j < a ==> !PopsAt(trace, a, s);
  }
}
