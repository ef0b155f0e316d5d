/**
  What the one-shot migration makes of a database: the 0.1 layout (flow_key) is copied row by row
  into fresh tables, version 2 is altered in place, and everything else is left to ensure.
*/
module SchemaMigration {
  import opened Wrappers
  import opened Base64Url
  import opened SchemaTables
  import opened SchemaDrops
  import opened SchemaInspection

  const USERS_V2 := "passkey_users_v2"
  const CREDENTIALS_V2 := "passkey_credentials_v2"
  const CHALLENGES_V2 := "passkey_challenges_v2"

  function B64(c: Cell): Cell {
    match c case Blob(b) => Text(BytesToB64url(b)) case _ => c
  }

  /** The bytes a stored key stands for, in either layout. */
  function Decoded(c: Cell): Cell {
    match c
    case Text(s) => (match B64urlToBytes(s) case Success(b) => Blob(b) case Failure(_) => c)
    case _ => c
  }

  lemma DecodedB64(c: Cell)
    ensures Decoded(B64(c)) == Decoded(c)
  {
    hide BytesToB64url, B64urlToBytes;
    if c.Blob? { RoundTrip(c.bytes); }
  }

  /** Re-encoding merges two keys only if one is a blob and the other already the blob's own encoding. */
  lemma B64Merges(a: Cell, b: Cell)
    ensures B64(a) == B64(b) <==>
              || a == b || (a.Blob? && b == Text(BytesToB64url(a.bytes)))
                  || (b.Blob? && a == Text(BytesToB64url(b.bytes)))
  {
    hide BytesToB64url;
    if a.Blob? && b.Blob? && B64(a) == B64(b) { Injective(a.bytes, b.bytes); }
  }

  // ---- Row copies ----

  function CopyUser(row: Row): Row {
    map["user_id" := At(row, "user_id"), "user_handle" := B64(At(row, "user_handle")),
        "name" := At(row, "name"), "display_name" := At(row, "display_name")]
  }

  /** A column the legacy table may lack reads as NULL. */
  function Optional(t: Table, row: Row, name: string): Cell {
    if HasColumn(t, name) then At(row, name) else Null
  }

  function CopyCredential(t: Table, row: Row): Row {
    map["credential_id" := B64(At(row, "credential_id")), "user_id" := At(row, "user_id"),
        "public_key" := At(row, "public_key"), "sign_count" := At(row, "sign_count"),
        "transports" := Optional(t, row, "transports"), "device_type" := Optional(t, row, "device_type"),
        "backed_up" := Optional(t, row, "backed_up"), "label" := Optional(t, row, "label"),
        "created_at" := At(row, "created_at")]
  }

  function CopyChallenge(row: Row): Row {
    map["key" := At(row, "flow_key"), "kind" := At(row, "kind"), "challenge" := At(row, "challenge"),
        "expires_at" := At(row, "expires_at"), "user_id" := At(row, "user_id"),
            "user_handle" := B64(At(row, "user_handle")),
        "user_name" := At(row, "user_name"), "user_display_name" := At(row, "user_display_name"),
        "registration_kind" := Null, "capability_id" := Null]
  }

  function NewUsers(t: Table): seq<Row> {
    seq(|t.rows|, i requires 0 <= i < |t.rows| => CopyUser(t.rows[i]))
  }

  function NewCredentials(t: Table): seq<Row> {
    seq(|t.rows|, i requires 0 <= i < |t.rows| => CopyCredential(t, t.rows[i]))
  }

  function NewChallenges(t: Table): seq<Row> {
    seq(|t.rows|, i requires 0 <= i < |t.rows| => CopyChallenge(t.rows[i]))
  }

  // ---- The result ----

  predicate Complete(db: Db) {
    USERS in db && CREDENTIALS in db && CHALLENGES in db
  }

  function VersionRow(): Row {
    map["schema_version" := Int(CURRENT_SCHEMA_VERSION)]
  }

  const TEMPORARY := {USERS_V2, CREDENTIALS_V2, CHALLENGES_V2}

  /** The copies beside the tables they were made from. */
  function Staged(db: Db): (r: Db)
    requires Complete(db)
    ensures Droppable(r, DROPS)
  {
    db[USERS_V2 := UsersTable(NewUsers(db[USERS]))]
      [CREDENTIALS_V2 := CredentialsTable(USERS_V2, NewCredentials(db[CREDENTIALS]))]
      [CHALLENGES_V2 := ChallengesTable(NewChallenges(db[CHALLENGES]))]
  }

  const DROPS := [CREDENTIALS, CHALLENGES, USERS]

  function AfterDrops(db: Db): Option<Db>
    requires Complete(db)
  {
    DropAll(Staged(db), DROPS)
  }

  function RedirectAll(db: Db, a: string, b: string): Db {
    map t | t in db :: Redirected(db[t], a, b)
  }

  /** The three renames, as they affect other tables. */
  function Relinked(db: Db): Db {
    RedirectAll(RedirectAll(RedirectAll(db, USERS_V2, USERS), CREDENTIALS_V2, CREDENTIALS), CHALLENGES_V2, CHALLENGES)
  }

  /** The tables the migration does not name, as its drops and renames leave them. */
  function Remaining(db: Db): Db
    requires Complete(db) && AfterDrops(db).Some?
  {
    Relinked(AfterDrops(db).value - TEMPORARY)
  }

  /** The three tables rebuilt and the metadata added. */
  function Rebuilt(db: Db): Db
    requires Complete(db) && AfterDrops(db).Some?
  {
    Remaining(db)[USERS := UsersTable(NewUsers(db[USERS]))]
                 [CREDENTIALS := WithIndex(CredentialsTable(USERS, NewCredentials(db[CREDENTIALS])), OWNER_INDEX,
                                           "user_id")]
                 [CHALLENGES := WithIndex(ChallengesTable(NewChallenges(db[CHALLENGES])), EXPIRY_INDEX, "expires_at")]
                 [METADATA := MetadataTable([VersionRow()])]
  }

  function Others(db: Db): Db {
    db - {USERS, CREDENTIALS, CHALLENGES}
  }

  /** No statement of the 0.1 migration raises. */
  predicate Migratable(db: Db)
    requires Complete(db)
  {
    var users := NewUsers(db[USERS]);
    && TEMPORARY !! db.Keys
    && AllFit(db, UsersTable([]), users)
    && AllFit(db[USERS_V2 := UsersTable(users)], CredentialsTable(USERS_V2, []), NewCredentials(db[CREDENTIALS]))
    && AllFit(db, ChallengesTable([]), NewChallenges(db[CHALLENGES]))
    && AfterDrops(db).Some?
    && !IndexTaken(Others(db), OWNER_INDEX) && !IndexTaken(Others(db), EXPIRY_INDEX)
    && ApplyEnrollment(Rebuilt(db)).Some? && ForeignKeysHold(ApplyEnrollment(Rebuilt(db)).value)
  }

  /** Version 2 gets two more challenge columns, NULL in every row. */
  function WithContextColumns(t: Table): Table {
    t.(columns := t.columns + [TextColumn("registration_kind"), TextColumn("capability_id")],
       rows := seq(|t.rows|, i requires 0 <= i < |t.rows| =>
                   t.rows[i]["registration_kind" := Null]["capability_id" := Null]))
  }

  function Restamped(t: Table): Table {
    t.(rows := seq(|t.rows|, i requires 0 <= i < |t.rows| =>
                   t.rows[i]["schema_version" := Int(CURRENT_SCHEMA_VERSION)]))
  }

  function UpgradedV2(db: Db): Option<Db>
    requires CHALLENGES in db && METADATA in db
  {
    match ApplyEnrollment(db[CHALLENGES := WithContextColumns(db[CHALLENGES])])
    case None => None
    case Some(d) => Some(d[METADATA := Restamped(db[METADATA])])
  }

  /** What migrate_sqlite_schema leaves, or None where it raises. */
  function Migrated(db: Db): Option<Db> {
    match Inspect(db)
    case Current => Some(db)
    case Empty => Ensured(db)
    case CanonicalUnversioned => Ensured(db)
    case LegacyV2 => UpgradedV2(db)
    case LegacyFlowKey => if Migratable(db) then ApplyEnrollment(Rebuilt(db)) else None
    case Unsupported => None
  }

  // ---- When another connection commits before the write lock is held ----

  /** The column the stamp is written to, which a row that holds a version has. */
  predicate VersionColumn(t: Table) {
    HasColumn(t, "schema_version") || exists k | 0 <= k < |t.rows| :: At(t.rows[k], "schema_version") != Null
  }

  /** The version 2 statements on any database: they raise on a duplicate column or a missing table. */
  function V2Statements(db: Db): Option<Db> {
    if && CHALLENGES in db && METADATA in db && VersionColumn(db[METADATA])
       && !HasColumn(db[CHALLENGES], "registration_kind") && !HasColumn(db[CHALLENGES], "capability_id")
    then UpgradedV2(db)
    else None
  }

  /** The tables and columns the 0.1 statements read, and the metadata table that they create. */
  predicate ReadsFlowKey(db: Db) {
    && Complete(db) && LegacyColumns(db) && !HasColumn(db[CHALLENGES], "key") && METADATA !in db
  }

  function FlowKeyStatements(db: Db): Option<Db> {
    if ReadsFlowKey(db) && Migratable(db) then ApplyEnrollment(Rebuilt(db)) else None
  }

  /** What ensure leaves when it saw one database, and finds another under the write lock. */
  function EnsuredAfter(seen: Db, locked: Db): Option<Db> {
    match Inspect(seen)
    case Current => ApplyEnrollment(locked)
    case Empty => Ensured(locked)
    case CanonicalUnversioned => Ensured(locked)
    case _ => None
  }

  /** The same for the migration, which does not look again at a legacy database. */
  function MigratedAfter(seen: Db, locked: Db): Option<Db> {
    match Inspect(seen)
    case Current => Some(locked)
    case Empty => Ensured(locked)
    case CanonicalUnversioned => Ensured(locked)
    case LegacyV2 => V2Statements(locked)
    case LegacyFlowKey => FlowKeyStatements(locked)
    case Unsupported => None
  }

  lemma ReadsExactly(db: Db)
    ensures ReadsFlowKey(db) <==> Inspect(db) == LegacyFlowKey
  {
    hide CanonicalLayout, SharedLayout, Version, LegacyColumns, HasColumn;
    if Complete(db) && LegacyColumns(db) { ReadsItsKey(db); }
  }

  lemma ReadsItsKey(db: Db)
    requires Complete(db) && LegacyColumns(db)
    ensures HasColumn(db[CHALLENGES], "flow_key")
  {
    hide HasColumn;
  }

  lemma V2StatementsShape(db: Db)
    ensures Inspect(db) == LegacyV2 ==> V2Statements(db) == Migrated(db)
    ensures V2Statements(db).Some? ==> Inspect(db) == LegacyV2 || Inspect(db) == Unsupported
  {
    hide UpgradedV2, HasColumn;
    if Inspect(db) == LegacyV2 {
      V2Shape(db);
      V2Columns(db[CHALLENGES]);
    }
    if Inspect(db) == Current { ContextColumns(db[CHALLENGES]); }
  }

  lemma ContextColumns(t: Table)
    requires t.columns == CHALLENGES_COLUMNS
    ensures HasColumn(t, "registration_kind") && HasColumn(t, "capability_id")
  {
    assert t.columns[8].name == "registration_kind" && t.columns[9].name == "capability_id";
  }

  /**
    A legacy database found under the lock as it was seen, or in the same state, is migrated; any other
    makes the statements raise, except that the version 2 ones can alter an unsupported database.
  */
  lemma MigratedAfterExactly(seen: Db, locked: Db)
    requires Inspect(seen) == LegacyV2 || Inspect(seen) == LegacyFlowKey
    ensures Inspect(locked) == Inspect(seen) ==> MigratedAfter(seen, locked) == Migrated(locked)
    ensures Inspect(locked) != Inspect(seen) && MigratedAfter(seen, locked).Some? ==>
              Inspect(seen) == LegacyV2 && Inspect(locked) == Unsupported
  {
    hide Inspect, UpgradedV2, Ensured, Migratable, ApplyEnrollment, Rebuilt, ReadsFlowKey, V2Statements;
    ReadsExactly(locked);
    V2StatementsShape(locked);
  }

  /** Nobody committed: that is the ensured, or the migrated, database. */
  lemma EnsuredUndisturbed(db: Db)
    ensures EnsuredAfter(db, db) == Ensured(db)
  {
    hide Inspect, ApplyEnrollment, ApplySchema;
  }

  lemma MigratedUndisturbed(db: Db)
    ensures MigratedAfter(db, db) == Migrated(db)
  {
    hide Inspect, UpgradedV2, Ensured, Migratable, ApplyEnrollment, Rebuilt, ReadsFlowKey, V2Statements;
    if Inspect(db) == LegacyV2 || Inspect(db) == LegacyFlowKey { MigratedAfterExactly(db, db); }
  }

  /** Of two connections that both saw a legacy database, the second to get the lock raises and changes nothing. */
  lemma SecondMigrationRaises(db: Db)
    requires Inspect(db) == LegacyV2 || Inspect(db) == LegacyFlowKey
    requires Migrated(db).Some?
    ensures MigratedAfter(db, Migrated(db).value) == None
  {
    hide Inspect, Ensured, Migratable, ApplyEnrollment, Rebuilt, ReadsFlowKey, UpgradedV2, HasColumn;
    var d := Migrated(db).value;
    ReadsExactly(d);
    MigrateAgain(db);
    if Inspect(db) == LegacyV2 {
      V2Shape(db);
      UpgradedColumns(db);
    }
  }

  lemma UpgradedColumns(db: Db)
    requires CHALLENGES in db && METADATA in db && UpgradedV2(db).Some?
    ensures CHALLENGES in UpgradedV2(db).value && HasColumn(UpgradedV2(db).value[CHALLENGES], "registration_kind")
  {
    hide ApplyEnrollment, EnrollmentCanonical, EnrollmentWillDo;
    var t := WithContextColumns(db[CHALLENGES]);
    EnrollmentApplied(db[CHALLENGES := t]);
    assert t.columns[|db[CHALLENGES].columns|].name == "registration_kind";
  }

  // ---- Nothing is lost ----

  datatype UserData = UserData(userId: Cell, handle: Cell, name: Cell, displayName: Cell)

  datatype CredentialData = CredentialData(credentialId: Cell, userId: Cell, publicKey: Cell, signCount: Cell,
                                           transports: Cell, deviceType: Cell, backedUp: Cell, labelText: Cell,
                                           createdAt: Cell)

  datatype ChallengeData = ChallengeData(key: Cell, kind: Cell, challenge: Cell, expiresAt: Cell, userId: Cell,
                                         handle: Cell, userName: Cell, userDisplayName: Cell,
                                         registrationKind: Cell, capabilityId: Cell)

  function Users(t: Table): seq<UserData> {
    seq(|t.rows|, i requires 0 <= i < |t.rows| =>
      var r := t.rows[i]; UserData(At(r, "user_id"), Decoded(At(r, "user_handle")), At(r, "name"),
                                   At(r, "display_name")))
  }

  function CredentialOf(t: Table, r: Row): CredentialData {
    CredentialData(Decoded(At(r, "credential_id")), At(r, "user_id"), At(r, "public_key"), At(r, "sign_count"),
                   Optional(t, r, "transports"), Optional(t, r, "device_type"), Optional(t, r, "backed_up"),
                   Optional(t, r, "label"), At(r, "created_at"))
  }

  function Credentials(t: Table): seq<CredentialData> {
    seq(|t.rows|, i requires 0 <= i < |t.rows| => CredentialOf(t, t.rows[i]))
  }

  function ChallengeOf(t: Table, key: string, r: Row): ChallengeData {
    ChallengeData(At(r, key), At(r, "kind"), At(r, "challenge"), At(r, "expires_at"), At(r, "user_id"),
                  Decoded(At(r, "user_handle")),
                  At(r, "user_name"), At(r, "user_display_name"), Optional(t, r, "registration_kind"),
                      Optional(t, r, "capability_id"))
  }

  function Challenges(t: Table, key: string): seq<ChallengeData> {
    seq(|t.rows|, i requires 0 <= i < |t.rows| => ChallengeOf(t, key, t.rows[i]))
  }

  lemma UsersKept(t: Table)
    ensures Users(UsersTable(NewUsers(t))) == Users(t)
  {
    hide Decoded, B64;
    var t' := UsersTable(NewUsers(t));
    forall i | 0 <= i < |t.rows|
      ensures Users(t')[i] == Users(t)[i]
    {
      DecodedB64(At(t.rows[i], "user_handle"));
    }
  }

  /** Whichever of the four optional columns the old table had. */
  lemma CredentialsKept(t: Table)
    ensures Credentials(WithIndex(CredentialsTable(USERS, NewCredentials(t)), OWNER_INDEX, "user_id")) == Credentials(t)
  {
    hide Decoded, B64, HasColumn;
    var t' := WithIndex(CredentialsTable(USERS, NewCredentials(t)), OWNER_INDEX, "user_id");
    CredentialColumns(t');
    forall i | 0 <= i < |t.rows|
      ensures Credentials(t')[i] == Credentials(t)[i]
    {
      DecodedB64(At(t.rows[i], "credential_id"));
    }
  }

  lemma CredentialColumns(t: Table)
    requires t.columns == CREDENTIALS_COLUMNS
    ensures HasColumn(t, "transports") && HasColumn(t, "device_type") && HasColumn(t, "backed_up")
              && HasColumn(t, "label")
  {
    var cs := t.columns;
    assert cs[4].name == "transports" && cs[5].name == "device_type" && cs[6].name == "backed_up"
        && cs[7].name == "label";
  }

  predicate NoContext(t: Table) {
    forall i | 0 <= i < |t.rows| ::
        Optional(t, t.rows[i], "registration_kind") == Null && Optional(t, t.rows[i], "capability_id") == Null
  }

  lemma ChallengeKept(t: Table, t': Table, r: Row)
    ensures ChallengeOf(t', "key", CopyChallenge(r)) ==
            ChallengeOf(t, "flow_key", r).(registrationKind := Null, capabilityId := Null)
  {
    hide Decoded, B64, HasColumn;
    DecodedB64(At(r, "user_handle"));
  }

  /**
    flow_key becomes key; a context value is lost if the old table had a column for it, which the 0.1
    layout did not.
  */
  lemma ChallengesKept(t: Table)
    ensures var before, after := Challenges(t, "flow_key"),
              Challenges(WithIndex(ChallengesTable(NewChallenges(t)), EXPIRY_INDEX, "expires_at"), "key");
            && |after| == |before|
            && (forall i | 0 <= i < |after| :: after[i] == before[i].(registrationKind := Null, capabilityId := Null))
            && (after == before <==> NoContext(t))
  {
    hide ChallengeOf, CopyChallenge, HasColumn, Optional;
    var t' := WithIndex(ChallengesTable(NewChallenges(t)), EXPIRY_INDEX, "expires_at");
    var before, after := Challenges(t, "flow_key"), Challenges(t', "key");
    forall i | 0 <= i < |t.rows|
      ensures after[i] == before[i].(registrationKind := Null, capabilityId := Null)
      ensures before[i].registrationKind == Optional(t, t.rows[i], "registration_kind")
      ensures before[i].capabilityId == Optional(t, t.rows[i], "capability_id")
    {
      ChallengeKept(t, t', t.rows[i]);
      ContextOf(t, t.rows[i]);
    }
    if after == before {
      assert forall i | 0 <= i < |t.rows| :: after[i] == before[i];
    }
  }

  lemma ContextOf(t: Table, r: Row)
    ensures ChallengeOf(t, "flow_key", r).registrationKind == Optional(t, r, "registration_kind")
    ensures ChallengeOf(t, "flow_key", r).capabilityId == Optional(t, r, "capability_id")
  {
  }

  predicate Touched(name: string) {
    name in {METADATA, USERS, CREDENTIALS, CHALLENGES, ENROLLMENT}
  }

  // ---- What the drops and renames do to the other tables ----

  /** Some key of the table names one of the temporary tables. */
  predicate NamesTemporary(t: Table) {
    exists i | 0 <= i < |t.foreignKeys| :: t.foreignKeys[i].table in TEMPORARY
  }

  function RelinkedTable(t: Table): Table {
    Redirected(Redirected(Redirected(t, USERS_V2, USERS), CREDENTIALS_V2, CREDENTIALS), CHALLENGES_V2, CHALLENGES)
  }

  lemma RelinkedExactly(t: Table)
    ensures var t' := RelinkedTable(t);
            && t'.rows == t.rows && t'.columns == t.columns && t'.indexes == t.indexes
            && (t' == t <==> !NamesTemporary(t))
  {
    var t' := RelinkedTable(t);
    assert |t'.foreignKeys| == |t.foreignKeys|;
    forall i | 0 <= i < |t.foreignKeys|
      ensures t'.foreignKeys[i] == t.foreignKeys[i] <==> t.foreignKeys[i].table !in TEMPORARY
    {
    }
    if !NamesTemporary(t) { assert t'.foreignKeys == t.foreignKeys; }
  }

  /** No drop takes or overwrites a row of the table, and no key of it names a temporary table. */
  predicate LeftAlone(db: Db, t: string)
    requires Complete(db) && AfterDrops(db).Some? && t in db && t !in DROPS
  {
    !Disturbed(Staged(db), DROPS, t) && !NamesTemporary(db[t])
  }

  /** The tables that remain, each with its columns and indexes, and the same exactly if it is left alone. */
  lemma RemainingExactly(db: Db)
    requires Complete(db) && AfterDrops(db).Some? && TEMPORARY !! db.Keys
    ensures Remaining(db).Keys == Others(db).Keys
    ensures forall t | t in Others(db) ::
              && Remaining(db)[t].columns == db[t].columns && Remaining(db)[t].indexes == db[t].indexes
              && (Remaining(db)[t] == db[t] <==> LeftAlone(db, t))
  {
    hide DropAll, Disturbed, Redirected, NamesTemporary, NewUsers, NewCredentials, NewChallenges;
    forall t | t in Others(db)
      ensures Remaining(db)[t].columns == db[t].columns && Remaining(db)[t].indexes == db[t].indexes
      ensures Remaining(db)[t] == db[t] <==> LeftAlone(db, t)
    {
      RemainingTable(db, t);
    }
  }

  lemma RemainingTable(db: Db, t: string)
    requires Complete(db) && AfterDrops(db).Some? && TEMPORARY !! db.Keys && t in Others(db)
    ensures t in Remaining(db)
    ensures var r := Remaining(db)[t];
            r.columns == db[t].columns && r.indexes == db[t].indexes && (r == db[t] <==> LeftAlone(db, t))
    ensures t in AfterDrops(db).value && Remaining(db)[t].rows == AfterDrops(db).value[t].rows
    ensures |Remaining(db)[t].rows| <= |db[t].rows|
    ensures !NamesTemporary(db[t]) ==> Remaining(db)[t].foreignKeys == db[t].foreignKeys
  {
    hide DropAll, Disturbed, Redirected, NamesTemporary, NewUsers, NewCredentials, NewChallenges;
    var d := AfterDrops(db).value;
    DropAllExactly(Staged(db), DROPS, t);
    RelinkedExactly(d[t]);
    Itself(db[t]);
    assert NamesTemporary(d[t]) == NamesTemporary(db[t]) by { SameKeysNamed(d[t], db[t]); }
  }

  lemma SameKeysNamed(a: Table, b: Table)
    requires a.foreignKeys == b.foreignKeys
    ensures NamesTemporary(a) == NamesTemporary(b)
  {
  }

  lemma FlowKeyResult(db: Db, d: Db)
    requires Inspect(db) == LegacyFlowKey && Migrated(db) == Some(d)
    ensures Complete(db) && METADATA !in db && TEMPORARY !! db.Keys && AfterDrops(db).Some?
    ensures ApplyEnrollment(Rebuilt(db)) == Some(d)
  {
    hide ApplyEnrollment, Inspect, AfterDrops, Rebuilt, AllFit, IndexTaken, ForeignKeysHold;
    FlowKeyShape(db);
  }

  /** Migrating the 0.1 layout keeps every decoded row, in order. */
  lemma FlowKeyKeepsRows(db: Db, d: Db)
    requires Inspect(db) == LegacyFlowKey && Migrated(db) == Some(d)
    ensures Complete(db) && Complete(d)
    ensures Users(d[USERS]) == Users(db[USERS]) && Credentials(d[CREDENTIALS]) == Credentials(db[CREDENTIALS])
    ensures Challenges(d[CHALLENGES], "key") == Challenges(db[CHALLENGES], "flow_key") <==> NoContext(db[CHALLENGES])
  {
    hide ApplyEnrollment, Users, Credentials, Challenges, WithIndex, NewUsers, NewCredentials, NewChallenges, Inspect,
        NoContext;
    hide EnrollmentCanonical, EnrollmentWillDo, Remaining, AfterDrops, Migrated;
    FlowKeyResult(db, d);
    EnrollmentApplied(Rebuilt(db));
    UsersKept(db[USERS]);
    CredentialsKept(db[CREDENTIALS]);
    ChallengesKept(db[CHALLENGES]);
  }

  predicate NoBlob(t: Table, column: string) {
    forall i | 0 <= i < |t.rows| :: !At(t.rows[i], column).Blob?
  }

  /** Its handles and credential ids are texts like a new database's, and no row refers to a missing one. */
  lemma FlowKeyLeavesTexts(db: Db, d: Db)
    requires Inspect(db) == LegacyFlowKey && Migrated(db) == Some(d)
    ensures Complete(d) && NoBlob(d[USERS], "user_handle") && NoBlob(d[CREDENTIALS], "credential_id")
    ensures NoBlob(d[CHALLENGES], "user_handle") && ForeignKeysHold(d)
  {
    hide ApplyEnrollment, Inspect, EnrollmentCanonical, EnrollmentWillDo, Remaining, AfterDrops, AllFit, IndexTaken,
        ForeignKeysHold, NewUsers, NewCredentials, NewChallenges, NoBlob;
    FlowKeyResult(db, d);
    FlowKeyShape(db);
    EnrollmentApplied(Rebuilt(db));
    NewKeysAreTexts(db[USERS], db[CREDENTIALS], db[CHALLENGES]);
  }

  lemma NewKeysAreTexts(users: Table, credentials: Table, challenges: Table)
    ensures NoBlob(UsersTable(NewUsers(users)), "user_handle")
    ensures NoBlob(WithIndex(CredentialsTable(USERS, NewCredentials(credentials)), OWNER_INDEX, "user_id"),
                   "credential_id")
    ensures NoBlob(WithIndex(ChallengesTable(NewChallenges(challenges)), EXPIRY_INDEX, "expires_at"), "user_handle")
  {
  }

  lemma UsersParentKey(rows: seq<Row>, column: string)
    ensures ParentKey(UsersTable(rows), column) <==> column == "user_id" || column == "user_handle"
  {
    var t := UsersTable(rows);
    assert Auto(["user_id"]) in t.indexes && Auto(["user_handle"]) in t.indexes;
    assert ["user_id"][0] == "user_id" && ["user_handle"][0] == "user_handle" && [column][0] == column;
    assert forall i | 0 <= i < |t.columns| :: t.columns[i].kind != "INTEGER";
  }

  /** A host table with a key on the users that names neither their id nor their handle makes the migration raise. */
  lemma MismatchedKeyRaises(db: Db, t: string, i: nat)
    requires Inspect(db) == LegacyFlowKey && t in db && !Touched(t) && i < |db[t].foreignKeys|
    requires db[t].foreignKeys[i].table == USERS
    requires db[t].foreignKeys[i].toColumn != "user_id" && db[t].foreignKeys[i].toColumn != "user_handle"
    ensures Migrated(db) == None
  {
    hide Inspect, Migrated, ApplyEnrollment, AfterDrops, Remaining, Users, WithIndex, EnrollmentCanonical,
        EnrollmentWillDo, NewUsers, NewCredentials, NewChallenges, NamesTemporary, LeftAlone, ForeignKeysHold;
    if Migrated(db).Some? {
      var d := Migrated(db).value;
      FlowKeyResult(db, d);
      FlowKeyLeavesTexts(db, d);
      EnrollmentApplied(Rebuilt(db));
      RemainingTable(db, t);
      RemainingExactly(db);
      KeptKey(db, t, i);
      UsersParentKey(NewUsers(db[USERS]), db[t].foreignKeys[i].toColumn);
      assert d[USERS] == UsersTable(NewUsers(db[USERS])) && d[t] == Remaining(db)[t];
      assert Mismatch(d, d[t].foreignKeys[i]) by { hide ParentKey, UsersTable; }
      MismatchFails(d, t, i);
    }
  }

  lemma MismatchFails(d: Db, t: string, i: nat)
    requires t in d && i < |d[t].foreignKeys| && Mismatch(d, d[t].foreignKeys[i])
    ensures !ForeignKeysHold(d)
  {
    hide Mismatch;
  }

  /** The renames leave a key that names no temporary table as it is. */
  lemma KeptKey(db: Db, t: string, i: nat)
    requires Complete(db) && AfterDrops(db).Some? && TEMPORARY !! db.Keys && t in Others(db)
    requires i < |db[t].foreignKeys| && db[t].foreignKeys[i].table !in TEMPORARY
    ensures t in Remaining(db) && i < |Remaining(db)[t].foreignKeys|
    ensures Remaining(db)[t].foreignKeys[i] == db[t].foreignKeys[i]
  {
    hide DropAll, Disturbed, NewUsers, NewCredentials, NewChallenges;
    DropAllExactly(Staged(db), DROPS, t);
  }

  /**
    It leaves every other table, with its columns and indexes, and changes one exactly if a drop takes or
    overwrites one of its rows or a key of it names a temporary table.
  */
  lemma FlowKeyOtherTables(db: Db, d: Db, t: string)
    requires Inspect(db) == LegacyFlowKey && Migrated(db) == Some(d) && !Touched(t)
    ensures Complete(db) && AfterDrops(db).Some? && (t in d <==> t in db)
    ensures t in db ==>
              && d[t].columns == db[t].columns && d[t].indexes == db[t].indexes && (d[t] == db[t] <==> LeftAlone(db, t))
  {
    hide ApplyEnrollment, WithIndex, NewUsers, NewCredentials, NewChallenges, Inspect;
    hide EnrollmentCanonical, EnrollmentWillDo, Remaining, AfterDrops, LeftAlone, Migrated;
    FlowKeyResult(db, d);
    EnrollmentApplied(Rebuilt(db));
    RemainingExactly(db);
  }

  /** Where no key of another table acts on the drops, or names a temporary table, all of them are left alone. */
  lemma OthersUntouched(db: Db, d: Db, t: string)
    requires Inspect(db) == LegacyFlowKey && Migrated(db) == Some(d) && t in db && !Touched(t)
    requires NoActingKeys(db, {USERS, CREDENTIALS, CHALLENGES}) && !NamesTemporary(db[t])
    ensures t in d && d[t] == db[t]
  {
    hide Inspect, Migrated, Disturbed, DropAll, NoActingKeys, NamesTemporary, ApplyEnrollment, Rebuilt, Staged;
    FlowKeyResult(db, d);
    FlowKeyOtherTables(db, d, t);
    StagedKeys(db);
    Undisturbed(Staged(db), DROPS, {USERS, CREDENTIALS, CHALLENGES}, t);
  }

  lemma StagedKeys(db: Db)
    requires Complete(db) && TEMPORARY !! db.Keys && NoActingKeys(db, {USERS, CREDENTIALS, CHALLENGES})
    ensures Droppable(Staged(db), DROPS) && db.Keys <= Staged(db).Keys
    ensures NoActingKeys(Staged(db), {USERS, CREDENTIALS, CHALLENGES})
  {
    hide NewUsers, NewCredentials, NewChallenges;
  }

  /** Altering version 2 keeps every decoded row and touches no other table. */
  lemma V2KeepsRows(db: Db)
    requires Inspect(db) == LegacyV2 && Migrated(db).Some?
    ensures var d := Migrated(db).value;
            && Complete(d) && Users(d[USERS]) == Users(db[USERS])
                && Credentials(d[CREDENTIALS]) == Credentials(db[CREDENTIALS])
            && Challenges(d[CHALLENGES], "key") == Challenges(db[CHALLENGES], "key")
            && forall t | !Touched(t) :: (t in d <==> t in db) && (t in db ==> d[t] == db[t])
  {
    hide ApplyEnrollment, Users, Credentials, Challenges, WithContextColumns, Restamped, Inspect;
    hide EnrollmentCanonical, EnrollmentWillDo;
    V2Shape(db);
    EnrollmentApplied(db[CHALLENGES := WithContextColumns(db[CHALLENGES])]);
    ContextColumnsKeep(db[CHALLENGES]);
  }

  lemma ContextColumnsKeep(t: Table)
    requires t.columns == V2_CHALLENGES_COLUMNS
    ensures Challenges(WithContextColumns(t), "key") == Challenges(t, "key")
  {
    hide Decoded, HasColumn;
    V2Columns(t);
    forall i | 0 <= i < |t.rows|
      ensures Challenges(WithContextColumns(t), "key")[i] == Challenges(t, "key")[i]
    {
    }
  }

  lemma V2Columns(t: Table)
    requires t.columns == V2_CHALLENGES_COLUMNS
    ensures !HasColumn(t, "registration_kind") && !HasColumn(t, "capability_id") && !HasColumn(t, "flow_key")
  {
  }

  // ---- What the migrated database inspects as ----

  lemma StampedState(d: Db)
    requires Complete(d) && METADATA in d && Version(d) == Some(CURRENT_SCHEMA_VERSION)
    requires d[CHALLENGES].columns == CHALLENGES_COLUMNS
    ensures Inspect(d) == if d[METADATA].columns == METADATA_COLUMNS && CanonicalLayout(d) then Current else Unsupported
  {
    hide CanonicalLayout;
    assert d[CHALLENGES].columns[0].name == "key" && HasColumn(d[CHALLENGES], "key");
    assert !HasColumn(d[CHALLENGES], "flow_key");
  }

  lemma FreshTables(users: seq<Row>, credentials: seq<Row>, challenges: seq<Row>)
    ensures UniqueOn(UsersTable(users), "user_handle")
    ensures HasIndex(WithIndex(CredentialsTable(USERS, credentials), OWNER_INDEX, "user_id"), OWNER_INDEX)
    ensures HasIndex(WithIndex(ChallengesTable(challenges), EXPIRY_INDEX, "expires_at"), EXPIRY_INDEX)
  {
    assert Auto(["user_handle"]) in UsersTable(users).indexes;
    WithIndexKeeps(CredentialsTable(USERS, credentials), OWNER_INDEX, "user_id");
    WithIndexKeeps(ChallengesTable(challenges), EXPIRY_INDEX, "expires_at");
  }

  /** The rebuilt tables do not hold the enrollment index, and the old ones are gone. */
  lemma EnrollmentUnderRebuilt(db: Db)
    requires Complete(db) && METADATA !in db && TEMPORARY !! db.Keys && AfterDrops(db).Some?
    ensures EnrollmentWillDo(Rebuilt(db)) <==> EnrollmentWillDo(Others(db))
  {
    hide Remaining, NewUsers, NewCredentials, NewChallenges, AfterDrops, LeftAlone, EnrollmentWillDo;
    var d, o := Rebuilt(db), Others(db);
    RemainingExactly(db);
    NewTableIndexes(USERS, NewUsers(db[USERS]), ENROLLMENT_INDEX);
    NewTableIndexes(USERS, NewCredentials(db[CREDENTIALS]), ENROLLMENT_INDEX);
    NewTableIndexes(USERS, NewChallenges(db[CHALLENGES]), ENROLLMENT_INDEX);
    NewTableIndexes(USERS, [VersionRow()], ENROLLMENT_INDEX);
    SameEnrollment(d, o);
  }

  /** Whether the enrollment table will do depends on its shape and on the index names of the others. */
  lemma SameEnrollment(d: Db, o: Db)
    requires o.Keys <= d.Keys && (ENROLLMENT in d ==> ENROLLMENT in o)
    requires forall t | t in o :: d[t].columns == o[t].columns && d[t].indexes == o[t].indexes
    requires forall t | t in d && t !in o :: !IndexNamed(d[t], ENROLLMENT_INDEX)
    ensures EnrollmentWillDo(d) <==> EnrollmentWillDo(o)
  {
    assert IndexTaken(d, ENROLLMENT_INDEX) <==> IndexTaken(o, ENROLLMENT_INDEX) by {
      if t :| t in o && IndexNamed(o[t], ENROLLMENT_INDEX) { assert IndexNamed(d[t], ENROLLMENT_INDEX); }
      if t :| t in d && IndexNamed(d[t], ENROLLMENT_INDEX) { assert t in o && IndexNamed(o[t], ENROLLMENT_INDEX); }
    }
    if ENROLLMENT in o {
      assert forall c :: UniqueOn(d[ENROLLMENT], c) <==> UniqueOn(o[ENROLLMENT], c);
      assert HasIndex(d[ENROLLMENT], ENROLLMENT_INDEX) <==> HasIndex(o[ENROLLMENT], ENROLLMENT_INDEX);
    }
  }

  /** A migrated 0.1 database is current exactly when its enrollment table is absent, or canonical up to its index. */
  lemma FlowKeyState(db: Db, d: Db)
    requires Inspect(db) == LegacyFlowKey && Migrated(db) == Some(d)
    ensures Inspect(d) == if EnrollmentWillDo(Others(db)) then Current else Unsupported
  {
    hide ApplyEnrollment, WithIndex, EnrollmentWillDo, EnrollmentCanonical, NewUsers, NewCredentials, NewChallenges,
        HasIndex, UniqueOn, Inspect, Remaining, AfterDrops, Migrated;
    FlowKeyResult(db, d);
    EnrollmentApplied(Rebuilt(db));
    EnrollmentUnderRebuilt(db);
    FreshTables(NewUsers(db[USERS]), NewCredentials(db[CREDENTIALS]), NewChallenges(db[CHALLENGES]));
    WithIndexShape(CredentialsTable(USERS, NewCredentials(db[CREDENTIALS])), OWNER_INDEX, "user_id");
    WithIndexShape(ChallengesTable(NewChallenges(db[CHALLENGES])), EXPIRY_INDEX, "expires_at");
    assert Version(d) == Some(CURRENT_SCHEMA_VERSION);
    StampedState(d);
  }

  lemma FlowKeyShape(db: Db)
    requires Inspect(db) == LegacyFlowKey
    ensures Complete(db) && METADATA !in db
    ensures Migratable(db) ==> Migrated(db) == ApplyEnrollment(Rebuilt(db))
  {
    hide ApplyEnrollment, Rebuilt, CanonicalLayout, LegacyColumns, SharedLayout, HasColumn;
  }

  lemma WithIndexShape(t: Table, name: string, column: string)
    ensures WithIndex(t, name, column).columns == t.columns && WithIndex(t, name, column).foreignKeys == t.foreignKeys
    ensures WithIndex(t, name, column).rows == t.rows
  {
  }

  /** A migrated version 2 is current exactly when what its inspection did not compare is canonical too. */
  lemma V2State(db: Db)
    requires Inspect(db) == LegacyV2 && Migrated(db).Some?
    ensures Inspect(Migrated(db).value) ==
            if && db[METADATA].columns == METADATA_COLUMNS && db[USERS].columns == USERS_COLUMNS
               && db[CREDENTIALS].columns == CREDENTIALS_COLUMNS && UniqueOn(db[USERS], "user_handle")
                   && EnrollmentWillDo(db)
            then Current else Unsupported
  {
    hide ApplyEnrollment, EnrollmentWillDo, EnrollmentCanonical, HasIndex, UniqueOn, HasColumn, Inspect;
    assert Complete(db) && METADATA in db && SharedLayout(db) && db[CHALLENGES].columns == V2_CHALLENGES_COLUMNS
           && Version(db).Some? && Migrated(db) == UpgradedV2(db) by { V2Shape(db); }
    var d1 := db[CHALLENGES := WithContextColumns(db[CHALLENGES])];
    var d := UpgradedV2(db).value;
    EnrollmentApplied(d1);
    EnrollmentUnderContext(db);
    assert d[CHALLENGES] == d1[CHALLENGES] && d[USERS] == db[USERS] && d[CREDENTIALS] == db[CREDENTIALS];
    assert Version(d) == Some(CURRENT_SCHEMA_VERSION);
    assert HasIndex(d[CHALLENGES], EXPIRY_INDEX) by { SameIndexes(db[CHALLENGES], d[CHALLENGES], EXPIRY_INDEX); }
    StampedState(d);
  }

  lemma V2Shape(db: Db)
    requires Inspect(db) == LegacyV2
    ensures Complete(db) && METADATA in db && SharedLayout(db) && db[CHALLENGES].columns == V2_CHALLENGES_COLUMNS
    ensures Version(db).Some? && Migrated(db) == UpgradedV2(db)
  {
    hide UpgradedV2, CanonicalLayout, LegacyColumns, HasColumn;
  }

  lemma SameIndexes(t: Table, t': Table, name: string)
    requires t.indexes == t'.indexes
    ensures HasIndex(t, name) == HasIndex(t', name)
  {
  }

  // ---- Ensuring, and migrating again ----

  /** The empty schema in place, before the enrollment table and the stamp. */
  function Base(db: Db): Db {
    db[METADATA := MetadataTable([])][USERS := UsersTable([])]
      [CREDENTIALS := if IndexTaken(db, OWNER_INDEX) then CredentialsTable(USERS, [])
                      else WithIndex(CredentialsTable(USERS, []), OWNER_INDEX, "user_id")]
      [CHALLENGES := if IndexTaken(db, EXPIRY_INDEX) then ChallengesTable([])
                     else WithIndex(ChallengesTable([]), EXPIRY_INDEX, "expires_at")]
  }

  lemma TakenElsewhere(db: Db, d: Db, name: string)
    requires forall t | t in db :: t in d && d[t] == db[t]
    requires forall t | t in d && t !in db :: !IndexNamed(d[t], name)
    ensures IndexTaken(d, name) == IndexTaken(db, name)
  {
    if t :| t in db && IndexNamed(db[t], name) { assert t in d && IndexNamed(d[t], name); }
  }

  lemma NewTableIndexes(users: string, rows: seq<Row>, name: string)
    ensures !IndexNamed(MetadataTable(rows), name) && !IndexNamed(UsersTable(rows), name)
    ensures !IndexNamed(CredentialsTable(users, rows), name) && !IndexNamed(ChallengesTable(rows), name)
    ensures name != OWNER_INDEX ==> !IndexNamed(WithIndex(CredentialsTable(users, rows), OWNER_INDEX, "user_id"), name)
    ensures name != EXPIRY_INDEX ==> !IndexNamed(WithIndex(ChallengesTable(rows), EXPIRY_INDEX, "expires_at"), name)
  {
  }

  lemma NewTableColumns(users: string, rows: seq<Row>)
    ensures HasColumn(CredentialsTable(users, rows), "user_id") && HasColumn(ChallengesTable(rows), "expires_at")
  {
    assert CREDENTIALS_COLUMNS[1].name == "user_id" && CHALLENGES_COLUMNS[3].name == "expires_at";
  }

  lemma EmptySchema(db: Db)
    requires USERS !in db && CREDENTIALS !in db && CHALLENGES !in db && METADATA !in db
    ensures ApplySchema(db) == ApplyEnrollment(Base(db))
  {
    hide ApplyEnrollment, WithIndex, HasColumn, IndexNamed, IndexTaken, MetadataTable, UsersTable, CredentialsTable,
        ChallengesTable;
    var d1 := db[METADATA := MetadataTable([])][USERS := UsersTable([])][CREDENTIALS := CredentialsTable(USERS, [])];
    NewTableIndexes(USERS, [], OWNER_INDEX);
    NewTableIndexes(USERS, [], EXPIRY_INDEX);
    NewTableColumns(USERS, []);
    TakenElsewhere(db, d1, OWNER_INDEX);
    var d2 := CreateIndexIfAbsent(d1, CREDENTIALS, OWNER_INDEX, "user_id").value;
    var d3 := d2[CHALLENGES := ChallengesTable([])];
    TakenElsewhere(db, d3, EXPIRY_INDEX);
    var d4 := CreateIndexIfAbsent(d3, CHALLENGES, EXPIRY_INDEX, "expires_at").value;
    assert d4 == Base(db);
  }

  lemma BaseLayout(db: Db)
    requires USERS !in db && CREDENTIALS !in db && CHALLENGES !in db && METADATA !in db
    ensures var d := Base(db);
            && d[USERS].columns == USERS_COLUMNS && UniqueOn(d[USERS], "user_handle")
            && d[CREDENTIALS].columns == CREDENTIALS_COLUMNS && d[CREDENTIALS].foreignKeys == [OWNER_KEY]
            && d[CHALLENGES].columns == CHALLENGES_COLUMNS
            && (HasIndex(d[CREDENTIALS], OWNER_INDEX) <==> !IndexTaken(db, OWNER_INDEX))
            && (HasIndex(d[CHALLENGES], EXPIRY_INDEX) <==> !IndexTaken(db, EXPIRY_INDEX))
            && (EnrollmentWillDo(d) <==> EnrollmentWillDo(db))
  {
    hide IndexTaken, UniqueOn, EnrollmentTable;
    FreshTables([], [], []);
    assert !HasIndex(CredentialsTable(USERS, []), OWNER_INDEX) && !HasIndex(ChallengesTable([]), EXPIRY_INDEX);
    NewTableIndexes(USERS, [], ENROLLMENT_INDEX);
    TakenElsewhere(db, Base(db), ENROLLMENT_INDEX);
  }

  /**
    An ensured database is current exactly when no foreign table holds one of the index names and its
    enrollment table will do.
  */
  lemma EnsuredState(db: Db)
    requires Ensured(db).Some?
    ensures Inspect(Ensured(db).value) ==
            if && EnrollmentWillDo(db)
               && (Inspect(db) == Empty ==> !IndexTaken(db, OWNER_INDEX) && !IndexTaken(db, EXPIRY_INDEX))
            then Current else Unsupported
  {
    hide ApplyEnrollment, ApplySchema, Base, EnrollmentWillDo, EnrollmentCanonical, HasIndex, UniqueOn, IndexTaken,
        HasColumn;
    match Inspect(db)
    case Empty =>
      EmptySchema(db);
      BaseLayout(db);
      assert METADATA in Base(db) && Complete(Base(db))
          && Base(db)[METADATA] == MetadataTable([]) by { BaseTables(db); }
      EnrollmentApplied(Base(db));
      StampedApplied(Base(db), Ensured(db).value);
    case CanonicalUnversioned =>
      var d1 := db[METADATA := MetadataTable([])];
      UnversionedEnrollment(db);
      EnrollmentApplied(d1);
      StampedApplied(d1, Ensured(db).value);
    case Current =>
      EnrollmentApplied(db);
      StampedState(Ensured(db).value);
    case _ =>
  }

  /** The version 3 tables without a stamp are stamped, by a migration as by ensuring, and become current. */
  lemma UnversionedBecomesCurrent(db: Db)
    requires Inspect(db) == CanonicalUnversioned
    ensures Migrated(db).Some? && Migrated(db) == Ensured(db)
    ensures Inspect(Migrated(db).value) == if ENROLLMENT in db || !IndexTaken(db, ENROLLMENT_INDEX) then Current
                                           else Unsupported
  {
    hide ApplyEnrollment, Inspect, Migratable, Rebuilt, UpgradedV2, IndexTaken, HasColumn;
    var d1 := db[METADATA := MetadataTable([])];
    assert METADATA !in db && (ENROLLMENT in db ==> EnrollmentCanonical(db[ENROLLMENT])) by { UnversionedShape(db); }
    ApplyEnrollmentExactly(d1);
    if ENROLLMENT in db { EnrollmentHasExpiry(db[ENROLLMENT]); }
    EnsuredState(db);
  }

  lemma UnversionedShape(db: Db)
    requires Inspect(db) == CanonicalUnversioned
    ensures METADATA !in db && (ENROLLMENT in db ==> EnrollmentCanonical(db[ENROLLMENT]))
  {
    hide EnrollmentCanonical, SharedLayout, HasColumn, UniqueOn;
  }

  lemma EnrollmentHasExpiry(t: Table)
    requires EnrollmentCanonical(t)
    ensures HasColumn(t, "expires_at")
  {
    hide HasIndex, UniqueOn;
    assert t.columns[4].name == "expires_at";
  }

  /** Ensuring never loses a row or a column of any table. */
  lemma EnsuredKeepsRows(db: Db, t: string)
    requires Ensured(db).Some? && t in db
    ensures var d := Ensured(db).value;
            t in d && d[t].rows == db[t].rows && d[t].columns == db[t].columns
  {
    hide ApplyEnrollment, ApplySchema, EnrollmentWillDo, EnrollmentCanonical;
    match Inspect(db)
    case Empty =>
      EmptySchema(db);
      EnrollmentKeeps(Base(db), t);
    case CanonicalUnversioned => EnrollmentKeeps(db[METADATA := MetadataTable([])], t);
    case Current => EnrollmentKeeps(db, t);
    case _ =>
  }

  lemma EnrollmentKeeps(db: Db, t: string)
    requires ApplyEnrollment(db).Some? && t in db
    ensures var d := ApplyEnrollment(db).value;
            t in d && d[t].rows == db[t].rows && d[t].columns == db[t].columns
  {
    ApplyEnrollmentExactly(db);
  }

  lemma BaseTables(db: Db)
    ensures METADATA in Base(db) && Complete(Base(db)) && Base(db)[METADATA] == MetadataTable([])
  {
  }

  lemma UnversionedEnrollment(db: Db)
    requires METADATA !in db
    ensures EnrollmentWillDo(db[METADATA := MetadataTable([])]) <==> EnrollmentWillDo(db)
  {
    NewTableIndexes(USERS, [], ENROLLMENT_INDEX);
    TakenElsewhere(db, db[METADATA := MetadataTable([])], ENROLLMENT_INDEX);
  }

  /** Applying the enrollment schema and stamping: current exactly when the rest was canonical. */
  lemma StampedApplied(d1: Db, d: Db)
    requires METADATA in d1 && Complete(d1) && d1[METADATA] == MetadataTable([]) && ApplyEnrollment(d1).Some?
    requires METADATA in ApplyEnrollment(d1).value && d == Stamped(ApplyEnrollment(d1).value)
    requires d1[USERS].columns == USERS_COLUMNS && UniqueOn(d1[USERS], "user_handle")
    requires d1[CREDENTIALS].columns == CREDENTIALS_COLUMNS && d1[CREDENTIALS].foreignKeys == [OWNER_KEY]
    requires d1[CHALLENGES].columns == CHALLENGES_COLUMNS
    ensures Inspect(d) == if && EnrollmentWillDo(d1) && HasIndex(d1[CREDENTIALS], OWNER_INDEX)
              && HasIndex(d1[CHALLENGES], EXPIRY_INDEX)
                          then Current else Unsupported
  {
    hide ApplyEnrollment, EnrollmentWillDo, EnrollmentCanonical, HasIndex, UniqueOn, Inspect;
    EnrollmentApplied(d1);
    StampedState(d);
  }

  /** A migration ends current or unsupported, never legacy again, and running it once more changes nothing. */
  lemma MigrateAgain(db: Db)
    requires Migrated(db).Some?
    ensures var d := Migrated(db).value;
            && (Inspect(d) == Current || Inspect(d) == Unsupported)
            && Migrated(d) == if Inspect(d) == Current then Some(d) else None
  {
    hide Ensured, UpgradedV2, Migratable, ApplyEnrollment, Rebuilt, EnrollmentWillDo, CanonicalLayout, SharedLayout,
        UniqueOn, HasColumn;
    match Inspect(db)
    case Empty => EnsuredState(db);
    case CanonicalUnversioned => EnsuredState(db);
    case LegacyV2 => V2State(db);
    case LegacyFlowKey => FlowKeyState(db, Migrated(db).value);
    case Current =>
    case Unsupported =>
  }

  lemma EnrollmentUnderContext(db: Db)
    requires CHALLENGES in db
    ensures EnrollmentWillDo(db[CHALLENGES := WithContextColumns(db[CHALLENGES])]) <==> EnrollmentWillDo(db)
  {
    hide HasIndex, UniqueOn;
    var d := db[CHALLENGES := WithContextColumns(db[CHALLENGES])];
    assert forall t | t in db :: IndexNamed(d[t], ENROLLMENT_INDEX) <==> IndexNamed(db[t], ENROLLMENT_INDEX);
  }
}
