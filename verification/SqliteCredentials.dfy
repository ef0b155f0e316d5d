/**
  The SQLite credential store: rows keyed by unpadded base64url text, instants kept as text, a
  unique index on the user handle and a foreign key from credentials to users.  Every run of
  operations gives the outcomes of the in-memory store, except that the in-memory store does not
  find a user whose id is the empty string by handle.
*/
module SqliteCredentials {
  import opened Wrappers
  import opened Base64Url
  import opened Timestamps
  import opened PasskeyModels
  import opened CredentialStore

  datatype UserRow = UserRow(userId: string, userHandle: string, name: string, displayName: Option<string>)

  datatype CredentialRow = CredentialRow(
    credentialId: string,
    userId: string,
    publicKey: Bytes,
    signCount: int,
    transports: Option<seq<string>>,
    deviceType: Option<string>,
    backedUp: Option<int>,
    labelText: Option<string>,
    createdAt: string)

  /** The two tables under their primary keys, and the unique index on passkey_users.user_handle. */
  datatype Db = Db(users: map<string, UserRow>, handleIndex: map<string, string>,
                   credentials: map<string, CredentialRow>)

  const EMPTY_DB := Db(map[], map[], map[])

  // ---- Row converters ----

  function SqliteBool(b: Option<bool>): Option<int> {
    match b case None => None case Some(v) => Some(if v then 1 else 0)
  }

  function UserValues(u: User): UserRow {
    UserRow(u.userId, BytesToB64url(u.handle), u.name, u.displayName)
  }

  function CredentialValues(c: Credential): CredentialRow {
    CredentialRow(BytesToB64url(c.credentialId), c.userId, c.publicKey, c.signCount, Some(c.transports),
                  c.deviceType, SqliteBool(c.backedUp), c.labelText, IsoText(c.createdAt))
  }

  function SqliteUser(row: UserRow): Option<User> {
    match B64urlToBytes(row.userHandle)
    case Success(handle) => Some(User(row.userId, handle, row.name, row.displayName))
    case Failure(_) => None
  }

  function SqliteCredential(row: CredentialRow): Option<Credential> {
    match (B64urlToBytes(row.credentialId), ParseIso(row.createdAt))
    case (Success(id), Some(t)) =>
      if 0 <= t < MAX_INSTANT then
        Some(Credential(id, row.userId, row.publicKey, row.signCount,
                        if row.transports.Some? then row.transports.value else [], row.deviceType,
                        if row.backedUp.Some? then Some(row.backedUp.value != 0) else None, row.labelText, t))
      else None
    case _ => None
  }

  // ---- Statements ----

  function InsertUser(db: Db, row: UserRow): Result<Db, StoreError> {
    if row.userId in db.users || row.userHandle in db.handleIndex then Failure(IntegrityError)
    else Success(db.(users := db.users[row.userId := row], handleIndex := db.handleIndex[row.userHandle := row.userId]))
  }

  function InsertCredential(db: Db, row: CredentialRow): Result<Db, StoreError> {
    if row.credentialId in db.credentials || row.userId !in db.users then Failure(IntegrityError)
    else Success(db.(credentials := db.credentials[row.credentialId := row]))
  }

  function SelectUserByHandle(db: Db, handle: string): Option<UserRow> {
    match Lookup(db.handleIndex, handle)
    case Some(id) => Lookup(db.users, id)
    case None => None
  }

  function CredentialsOf(db: Db, user: string): set<string> {
    set t | t in db.credentials && db.credentials[t].userId == user
  }

  function UpdateCredential(db: Db, key: string, row: CredentialRow): Db {
    db.(credentials := db.credentials[key := row])
  }

  // ---- Operations; a raised error rolls back to the tables the operation started from ----

  function FoundUser(row: Option<UserRow>): Outcome {
    match row
    case None => UserFound(None)
    case Some(r) => match SqliteUser(r) case Some(u) => UserFound(Some(u)) case None => Refused(CorruptRow)
  }

  function FoundCredential(row: CredentialRow): Outcome {
    match SqliteCredential(row) case Some(c) => CredentialFound(Some(c)) case None => Refused(CorruptRow)
  }

  function SqlSave(db: Db, u: User, c: Credential): (Db, Outcome) {
    if c.userId != u.userId then (db, Refused(CredentialConflict))
    else
      var stored := Lookup(db.users, u.userId);
      var handle := SelectUserByHandle(db, BytesToB64url(u.handle));
      if stored.Some? && SqliteUser(stored.value).None? then (db, Refused(CorruptRow))
      else if || (stored.Some? && SqliteUser(stored.value) != Some(u))
              || (handle.Some? && handle.value.userId != u.userId) then
        (db, Refused(UserConflict))
      else match Lookup(db.credentials, BytesToB64url(c.credentialId))
        case Some(existing) =>
          (match SqliteCredential(existing)
           case None => (db, Refused(CorruptRow))
           case Some(current) =>
             if current.userId != c.userId || current.publicKey != c.publicKey then (db, Refused(CredentialConflict))
             else (db, Done))
        case None =>
          match if stored.None? then InsertUser(db, UserValues(u)) else Success(db)
          case Failure(e) => (db, Refused(e))
          case Success(db1) =>
            match InsertCredential(db1, CredentialValues(c))
            case Failure(e) => (db, Refused(e))
            case Success(db2) => (db2, Done)
  }

  function SqlList(db: Db, user: string): Outcome {
    if forall t | t in CredentialsOf(db, user) :: SqliteCredential(db.credentials[t]).Some? then
      Listed(set t | t in CredentialsOf(db, user) :: SqliteCredential(db.credentials[t]).value)
    else Refused(CorruptRow)
  }

  function SqlCompareAndSet(db: Db, id: Bytes, expected: int, count: int,
                            deviceType: Option<string>, backedUp: Option<bool>): (Db, Outcome)
  {
    var key := BytesToB64url(id);
    match Lookup(db.credentials, key)
    case None => (db, Refused(CredentialNotFound))
    case Some(row) =>
      match SqliteCredential(row)
      case None => (db, Refused(CorruptRow))
      case Some(current) =>
        if (expected != 0 && current.signCount != expected) || count < current.signCount then
            (db, Refused(CounterConflict))
        else
          var max := if current.signCount < count then count else current.signCount;
          // UPDATE ... WHERE credential_id=? AND (sign_count=? OR ?=0)
          if !(row.signCount == current.signCount || expected == 0) then (db, Refused(CounterConflict))
          else
            var row' := row.(signCount := max, deviceType := deviceType, backedUp := SqliteBool(backedUp));
            match FoundCredential(row')
            case Refused(e) => (db, Refused(e))
            case found => (UpdateCredential(db, key, row'), found)
  }

  function SqlRelabel(db: Db, id: Bytes, user: string, labelText: Option<string>): (Db, Outcome) {
    var key := BytesToB64url(id);
    match Lookup(db.credentials, key)
    case None => (db, CredentialFound(None))
    case Some(row) =>
      if row.userId != user then (db, CredentialFound(None))
      else
        var row' := row.(labelText := labelText);
        match FoundCredential(row')
        case Refused(e) => (db, Refused(e))
        case found => (UpdateCredential(db, key, row'), found)
  }

  /** The row a guarded or unguarded delete selects. */
  function SelectOwner(db: Db, key: string, owner: Option<string>): Option<string> {
    match Lookup(db.credentials, key)
    case Some(row) => if owner.Some? && row.userId != owner.value then None else Some(row.userId)
    case None => None
  }

  function SqlDelete(db: Db, id: Bytes, owner: Option<string>, requireRemaining: bool): (Db, Outcome) {
    var key := BytesToB64url(id);
    match SelectOwner(db, key, owner)
    case None => (db, Deleted(false))
    case Some(user) =>
      if requireRemaining && |CredentialsOf(db, user)| <= 1 then (db, Deleted(false))
      else (db.(credentials := db.credentials - {key}), Deleted(true))
  }

  function SqlStep(db: Db, op: Op): (Db, Outcome) {
    match op
    case Save(u, c) => SqlSave(db, u, c)
    case GetUser(id) => (db, FoundUser(Lookup(db.users, id)))
    case GetUserByHandle(h) => (db, FoundUser(SelectUserByHandle(db, BytesToB64url(h))))
    case ListForUser(id) => (db, SqlList(db, id))
    case GetCredential(id) =>
      (match Lookup(db.credentials, BytesToB64url(id))
       case None => (db, CredentialFound(None))
       case Some(row) => (db, FoundCredential(row)))
    case CompareAndSet(id, expected, count, deviceType, backedUp) =>
      SqlCompareAndSet(db, id, expected, count, deviceType, backedUp)
    case Relabel(id, user, labelText) => SqlRelabel(db, id, user, labelText)
    case Delete(id, owner, requireRemaining) => SqlDelete(db, id, owner, requireRemaining)
  }

  // ---- What the statements do to stored rows ----

  ghost predicate RowsKept(db: Db, db': Db) {
    forall k | k in db.credentials ::
      && k in db'.credentials && db'.credentials[k].userId == db.credentials[k].userId
      && db.credentials[k].signCount <= db'.credentials[k].signCount
  }

  lemma CounterDecoded(row: CredentialRow)
    ensures SqliteCredential(row).Some? ==> SqliteCredential(row).value.signCount == row.signCount
  {
    hide B64urlToBytes;
  }

  lemma InsertUserRows(db: Db, row: UserRow)
    ensures InsertUser(db, row).Success? ==> InsertUser(db, row).value.credentials == db.credentials
  {
  }

  lemma InsertCredentialRows(db: Db, row: CredentialRow)
    ensures InsertCredential(db, row).Success? ==> RowsKept(db, InsertCredential(db, row).value)
  {
  }

  lemma SaveRows(db: Db, u: User, c: Credential)
    ensures RowsKept(db, SqlSave(db, u, c).0)
  {
    hide BytesToB64url, SqliteUser, SqliteCredential, UserValues, CredentialValues, InsertUser, InsertCredential,
        SelectUserByHandle;
    var row := CredentialValues(c);
    InsertUserRows(db, UserValues(u));
    InsertCredentialRows(db, row);
    if InsertUser(db, UserValues(u)).Success? { InsertCredentialRows(InsertUser(db, UserValues(u)).value, row); }
  }

  /** A compare-and-set changes one row if it finds it, and leaves the greater of the two counters there. */
  lemma SetRow(db: Db, id: Bytes, expected: int, count: int, deviceType: Option<string>, backedUp: Option<bool>)
    ensures var key := BytesToB64url(id);
            var (db', o) := SqlCompareAndSet(db, id, expected, count, deviceType, backedUp);
            && RowsKept(db, db')
            && (o.CredentialFound? ==>
                  && key in db.credentials && (expected == 0 || db.credentials[key].signCount == expected)
                  && count <= db'.credentials[key].signCount)
  {
    hide BytesToB64url, SqliteCredential;
    var key := BytesToB64url(id);
    if key in db.credentials { CounterDecoded(db.credentials[key]); }
  }

  lemma RelabelRows(db: Db, id: Bytes, user: string, labelText: Option<string>)
    ensures RowsKept(db, SqlRelabel(db, id, user, labelText).0)
  {
    hide BytesToB64url, SqliteCredential;
  }

  /** Every operation but a delete keeps every credential's row and owner and lowers no counter. */
  lemma MutationRows(db: Db, op: Op)
    requires !op.Delete?
    ensures RowsKept(db, SqlStep(db, op).0)
  {
    hide BytesToB64url, SqlSave, SqlCompareAndSet, SqlRelabel, SqlList;
    match op
    case Save(u, c) => SaveRows(db, u, c);
    case CompareAndSet(id, expected, count, deviceType, backedUp) =>
        SetRow(db, id, expected, count, deviceType, backedUp);
    case Relabel(id, user, labelText) => RelabelRows(db, id, user, labelText);
    case _ =>
  }

  // ---- Refinement ----

  /** `n` is `m` under the encodings of its keys. */
  ghost predicate Rekeyed<V>(m: map<Bytes, V>, n: map<string, V>) {
    && (forall k | k in m :: BytesToB64url(k) in n && n[BytesToB64url(k)] == m[k])
    && n.Keys == set k | k in m :: BytesToB64url(k)
  }

  lemma AllRoundTrips()
    ensures forall b: Bytes :: B64urlToBytes(BytesToB64url(b)) == Success(b)
  {
    forall b: Bytes { RoundTrip(b); }
  }

  lemma RekeyedLookup<V>(m: map<Bytes, V>, n: map<string, V>, k: Bytes)
    requires Rekeyed(m, n)
    ensures Lookup(n, BytesToB64url(k)) == Lookup(m, k)
  {
    hide BytesToB64url, B64urlToBytes;
    AllRoundTrips();
  }

  lemma RekeyedUpdate<V>(m: map<Bytes, V>, n: map<string, V>, k: Bytes, v: V)
    requires Rekeyed(m, n)
    ensures Rekeyed(m[k := v], n[BytesToB64url(k) := v])
  {
    hide BytesToB64url, B64urlToBytes;
    AllRoundTrips();
    var m', n' := m[k := v], n[BytesToB64url(k) := v];
    assert n'.Keys == n.Keys + {BytesToB64url(k)};
    assert (set x | x in m' :: BytesToB64url(x)) == (set x | x in m :: BytesToB64url(x)) + {BytesToB64url(k)} by {
      assert forall x | x in m' :: x in m || x == k;
    }
  }

  lemma RekeyedRemove<V>(m: map<Bytes, V>, n: map<string, V>, k: Bytes)
    requires Rekeyed(m, n)
    ensures Rekeyed(m - {k}, n - {BytesToB64url(k)})
  {
    hide BytesToB64url, B64urlToBytes;
    AllRoundTrips();
  }

  lemma {:induction false} EncodedCount(ks: set<Bytes>)
    ensures |set k | k in ks :: BytesToB64url(k)| == |ks|
  {
    hide BytesToB64url, B64urlToBytes;
    var ts := set k | k in ks :: BytesToB64url(k);
    if ks != {} {
      var x :| x in ks;
      EncodedCount(ks - {x});
      AllRoundTrips();
      var rest := set k | k in ks - {x} :: BytesToB64url(k);
      assert BytesToB64url(x) !in rest;
      assert ts == rest + {BytesToB64url(x)};
    }
  }

  function CredentialRows(cs: map<Bytes, Credential>): map<Bytes, CredentialRow> {
    map k | k in cs :: CredentialValues(cs[k])
  }

  /** The tables hold exactly the rows of the state, under their encoded keys. */
  ghost predicate Related(s: State, db: Db) {
    && db.users == (map id | id in s.users :: UserValues(s.users[id]))
    && Rekeyed(s.byHandle, db.handleIndex)
    && Rekeyed(CredentialRows(s.credentials), db.credentials)
  }

  lemma UserRowBack(u: User)
    ensures SqliteUser(UserValues(u)) == Some(u)
  {
    hide BytesToB64url, B64urlToBytes;
    RoundTrip(u.handle);
  }

  lemma CredentialRowBack(c: Credential)
    ensures SqliteCredential(CredentialValues(c)) == Some(c)
  {
    hide BytesToB64url, B64urlToBytes, IsoText, ParseIso;
    RoundTrip(c.credentialId);
    ParseBack(c.createdAt);
  }

  lemma SelectedUser(s: State, db: Db, id: string)
    requires Related(s, db)
    ensures match Lookup(s.users, id)
            case None => Lookup(db.users, id) == None
            case Some(u) => Lookup(db.users, id) == Some(UserValues(u)) && SqliteUser(UserValues(u)) == Some(u)
  {
    hide BytesToB64url, B64urlToBytes, Rekeyed;
    if id in s.users { UserRowBack(s.users[id]); }
  }

  lemma SelectedHandle(s: State, db: Db, h: Bytes)
    requires Related(s, db) && Consistent(s)
    ensures match Lookup(s.byHandle, h)
            case None => SelectUserByHandle(db, BytesToB64url(h)) == None
            case Some(id) => id in s.users && SelectUserByHandle(db, BytesToB64url(h)) == Some(UserValues(s.users[id]))
  {
    hide BytesToB64url, B64urlToBytes, Rekeyed;
    RekeyedLookup(s.byHandle, db.handleIndex, h);
  }

  lemma SelectedCredential(s: State, db: Db, k: Bytes)
    requires Related(s, db)
    ensures match Lookup(s.credentials, k)
            case None => Lookup(db.credentials, BytesToB64url(k)) == None
            case Some(c) => && Lookup(db.credentials, BytesToB64url(k)) == Some(CredentialValues(c))
                            && SqliteCredential(CredentialValues(c)) == Some(c)
  {
    hide BytesToB64url, B64urlToBytes, Rekeyed;
    RekeyedLookup(CredentialRows(s.credentials), db.credentials, k);
    if k in s.credentials { CredentialRowBack(s.credentials[k]); }
  }

  /** The two lookups by primary key, as the store answers them. */
  lemma LookupAnswers(s: State, db: Db, user: string, k: Bytes)
    requires Related(s, db)
    ensures SqlStep(db, GetUser(user)) == (db, UserFound(Lookup(s.users, user)))
    ensures SqlStep(db, GetCredential(k)) == (db, CredentialFound(Lookup(s.credentials, k)))
  {
    hide BytesToB64url, SqliteUser, SqliteCredential, Related, UserValues, CredentialValues;
    SelectedUser(s, db, user);
    SelectedCredential(s, db, k);
  }

  /** Writing one credential's row keeps the tables in step. */
  lemma RelatedWrite(s: State, db: Db, c: Credential)
    requires Related(s, db)
    ensures Related(s.(credentials := s.credentials[c.credentialId := c]),
                    UpdateCredential(db, BytesToB64url(c.credentialId), CredentialValues(c)))
  {
    hide BytesToB64url, B64urlToBytes, Rekeyed, IsoText;
    RekeyedUpdate(CredentialRows(s.credentials), db.credentials, c.credentialId, CredentialValues(c));
    assert CredentialRows(s.credentials[c.credentialId := c])
        == CredentialRows(s.credentials)[c.credentialId := CredentialValues(c)];
  }

  lemma RelatedUser(s: State, db: Db, u: User)
    requires Related(s, db) && u.userId !in s.users && u.handle !in s.byHandle
    ensures InsertUser(db, UserValues(u)).Success?
    ensures Related(s.(users := s.users[u.userId := u], byHandle := s.byHandle[u.handle := u.userId]),
                    InsertUser(db, UserValues(u)).value)
  {
    hide BytesToB64url, B64urlToBytes, Rekeyed;
    RekeyedLookup(s.byHandle, db.handleIndex, u.handle);
    RekeyedUpdate(s.byHandle, db.handleIndex, u.handle, u.userId);
  }

  /** COUNT(*) over the rows is the count over the dictionary. */
  lemma CountsAgree(s: State, db: Db, user: string)
    requires Related(s, db)
    ensures CredentialsOf(db, user) == set k | k in OwnedBy(s, user) :: BytesToB64url(k)
    ensures |CredentialsOf(db, user)| == |OwnedBy(s, user)|
  {
    hide BytesToB64url, B64urlToBytes, IsoText;
    var rows := CredentialRows(s.credentials);
    forall t | t in CredentialsOf(db, user)
      ensures exists k :: k in OwnedBy(s, user) && BytesToB64url(k) == t
    {
      var k :| k in rows && BytesToB64url(k) == t;
      assert k in OwnedBy(s, user);
    }
    EncodedCount(OwnedBy(s, user));
  }

  /**
    Saving agrees.  When the credential is stored already the SQL path skips the user insert; that is
    right only because a stored credential's user is stored, so the in-memory writes change nothing.
  */
  lemma RefineSave(s: State, db: Db, u: User, c: Credential)
    requires Related(s, db) && Consistent(s)
    ensures Related(SaveStep(s, u, c).0, SqlSave(db, u, c).0)
    ensures SaveStep(s, u, c).1 == SqlSave(db, u, c).1
  {
    hide BytesToB64url, B64urlToBytes, IsoText, ParseIso, Rekeyed, SqliteCredential, SqliteUser;
    SelectedUser(s, db, u.userId);
    SelectedHandle(s, db, u.handle);
    SelectedCredential(s, db, c.credentialId);
    if SaveStep(s, u, c).1 == Done {
      if c.credentialId in s.credentials {
        assert SaveStep(s, u, c).0 == s by {
          assert s.users[u.userId := u] == s.users && s.byHandle[u.handle := u.userId] == s.byHandle;
        }
      } else if u.userId in s.users {
        assert s.users[u.userId := u] == s.users && s.byHandle[u.handle := u.userId] == s.byHandle;
        RelatedWrite(s, db, c);
      } else {
        RelatedUser(s, db, u);
        var s1 := s.(users := s.users[u.userId := u], byHandle := s.byHandle[u.handle := u.userId]);
        RelatedWrite(s1, InsertUser(db, UserValues(u)).value, c);
      }
    }
  }

  lemma RefineCompareAndSet(s: State, db: Db, id: Bytes, expected: int, count: int,
                            deviceType: Option<string>, backedUp: Option<bool>)
    requires Related(s, db) && Consistent(s)
    ensures var (s', o) := CompareAndSetStep(s, id, expected, count, deviceType, backedUp);
            var (db', p) := SqlCompareAndSet(db, id, expected, count, deviceType, backedUp);
            Related(s', db') && o == p
  {
    hide BytesToB64url, B64urlToBytes, IsoText, ParseIso, Rekeyed, SqliteCredential, Related;
    SelectedCredential(s, db, id);
    if id in s.credentials {
      var c' := AfterLogin(s.credentials[id], count, deviceType, backedUp);
      CredentialRowBack(c');
      RelatedWrite(s, db, c');
    }
  }

  lemma RefineRelabel(s: State, db: Db, id: Bytes, user: string, labelText: Option<string>)
    requires Related(s, db) && Consistent(s)
    ensures var (s', o) := RelabelStep(s, id, user, labelText);
            var (db', p) := SqlRelabel(db, id, user, labelText);
            Related(s', db') && o == p
  {
    hide BytesToB64url, B64urlToBytes, IsoText, ParseIso, Rekeyed, SqliteCredential, Related;
    SelectedCredential(s, db, id);
    if id in s.credentials {
      var c' := s.credentials[id].(labelText := labelText);
      CredentialRowBack(c');
      RelatedWrite(s, db, c');
    }
  }

  lemma RefineDelete(s: State, db: Db, id: Bytes, owner: Option<string>, requireRemaining: bool)
    requires Related(s, db)
    ensures var (s', o) := DeleteStep(s, id, owner, requireRemaining);
            var (db', p) := SqlDelete(db, id, owner, requireRemaining);
            Related(s', db') && o == p
  {
    hide BytesToB64url, B64urlToBytes, IsoText, ParseIso, Rekeyed, SqliteCredential;
    SelectedCredential(s, db, id);
    if id in s.credentials {
      CountsAgree(s, db, s.credentials[id].userId);
      RekeyedRemove(CredentialRows(s.credentials), db.credentials, id);
      assert CredentialRows(s.credentials - {id}) == CredentialRows(s.credentials) - {id};
    }
  }

  lemma RefineList(s: State, db: Db, user: string)
    requires Related(s, db)
    ensures Step(s, ListForUser(user)).1 == SqlList(db, user)
  {
    hide BytesToB64url, B64urlToBytes, IsoText, ParseIso, Rekeyed, SqliteCredential, Related;
    CountsAgree(s, db, user);
    forall k | k in OwnedBy(s, user)
      ensures BytesToB64url(k) in db.credentials
      ensures SqliteCredential(db.credentials[BytesToB64url(k)]) == Some(s.credentials[k])
    {
      SelectedCredential(s, db, k);
    }
  }

  /** The in-memory lookup by handle misses a user whose id is the empty string. */
  predicate EmptyIdLookup(s: State, op: Op) {
    op.GetUserByHandle? && Lookup(s.byHandle, op.handle) == Some("")
  }

  /** Every operation keeps the stores related, and gives the same outcome unless it is such a lookup. */
  lemma RefineStep(s: State, db: Db, op: Op)
    requires Related(s, db) && Consistent(s)
    ensures Related(Step(s, op).0, SqlStep(db, op).0)
    ensures Step(s, op).1 == SqlStep(db, op).1 <==> !EmptyIdLookup(s, op)
  {
    hide BytesToB64url, B64urlToBytes, Rekeyed, SqliteCredential, SqliteUser, Related,
      SaveStep, SqlSave, CompareAndSetStep, SqlCompareAndSet, RelabelStep, SqlRelabel, DeleteStep, SqlDelete, SqlList;
    match op
    case Save(u, c) => RefineSave(s, db, u, c);
    case GetUser(id) => SelectedUser(s, db, id);
    case GetUserByHandle(h) =>
      SelectedHandle(s, db, h);
      if h in s.byHandle { SelectedUser(s, db, s.byHandle[h]); }
    case ListForUser(id) => RefineList(s, db, id);
    case GetCredential(id) => SelectedCredential(s, db, id);
    case CompareAndSet(id, expected, count, deviceType, backedUp) =>
      RefineCompareAndSet(s, db, id, expected, count, deviceType, backedUp);
    case Relabel(id, user, labelText) => RefineRelabel(s, db, id, user, labelText);
    case Delete(id, owner, requireRemaining) => RefineDelete(s, db, id, owner, requireRemaining);
  }

  // ---- Whole runs ----

  function Outcomes(s: State, ops: seq<Op>): seq<Outcome>
    decreases |ops|
  {
    if |ops| == 0 then [] else [Step(s, ops[0]).1] + Outcomes(Step(s, ops[0]).0, ops[1..])
  }

  function SqlOutcomes(db: Db, ops: seq<Op>): seq<Outcome>
    decreases |ops|
  {
    if |ops| == 0 then [] else [SqlStep(db, ops[0]).1] + SqlOutcomes(SqlStep(db, ops[0]).0, ops[1..])
  }

  function SqlAfter(db: Db, ops: seq<Op>): Db
    decreases |ops|
  {
    if |ops| == 0 then db else SqlAfter(SqlStep(db, ops[0]).0, ops[1..])
  }

  predicate EmptyIdLookupIn(s: State, ops: seq<Op>)
    decreases |ops|
  {
    |ops| > 0 && (EmptyIdLookup(s, ops[0]) || EmptyIdLookupIn(Step(s, ops[0]).0, ops[1..]))
  }

  /** The SQLite store refines the in-memory one over every run: results, errors and final contents. */
  lemma {:induction false} RefineRun(s: State, db: Db, ops: seq<Op>)
    requires Related(s, db) && Consistent(s)
    ensures Related(After(s, ops), SqlAfter(db, ops))
    ensures Outcomes(s, ops) == SqlOutcomes(db, ops) <==> !EmptyIdLookupIn(s, ops)
    decreases |ops|
  {
    hide Related, Consistent, Step, SqlStep;
    if |ops| > 0 {
      RefineStep(s, db, ops[0]);
      StepKeepsConsistent(s, ops[0]);
      RefineRun(Step(s, ops[0]).0, SqlStep(db, ops[0]).0, ops[1..]);
      var x, y := Step(s, ops[0]).1, SqlStep(db, ops[0]).1;
      var xs, ys := Outcomes(Step(s, ops[0]).0, ops[1..]), SqlOutcomes(SqlStep(db, ops[0]).0, ops[1..]);
      assert [x] + xs == [y] + ys <==> x == y && xs == ys by {
        assert ([x] + xs)[0] == x && ([y] + ys)[0] == y && ([x] + xs)[1..] == xs && ([y] + ys)[1..] == ys;
      }
    }
  }

  /** From fresh stores: a user registered under the empty id is found by its handle in SQLite only. */
  lemma EmptyIdDiffers(u: User, c: Credential)
    requires u.userId == "" && c.userId == ""
    ensures Outcomes(EMPTY, [Save(u, c), GetUserByHandle(u.handle)]) == [Done, UserFound(None)]
    ensures Outcomes(EMPTY, [Save(u, c), GetUserByHandle(u.handle)]) != SqlOutcomes(EMPTY_DB,
              [Save(u, c), GetUserByHandle(u.handle)])
  {
    hide SqlStep;
    var first, second := Save(u, c), GetUserByHandle(u.handle);
    var s1 := Step(EMPTY, first).0;
    assert [first, second][1..] == [second] && [second][1..] == [];
    assert Outcomes(s1, [second]) == [UserFound(None)];
    assert EmptyIdLookup(s1, second) && EmptyIdLookupIn(s1, [second]);
    EmptyRelated();
    RefineRun(EMPTY, EMPTY_DB, [first, second]);
  }

  /** A fresh database stands for the empty store, so the agreement holds from the start. */
  lemma EmptyRelated()
    ensures Related(EMPTY, EMPTY_DB) && Consistent(EMPTY)
  {
  }
}
