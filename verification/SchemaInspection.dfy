/**
  The canonical schema and the classification of a database's layout, from tables, columns,
  indexes, foreign keys and the stamped version.  Diagnostic texts are not part of the model.
*/
module SchemaInspection {
  import opened Wrappers
  import opened SchemaTables

  const METADATA := "my_auth_schema"
  const USERS := "passkey_users"
  const CREDENTIALS := "passkey_credentials"
  const CHALLENGES := "passkey_challenges"
  const ENROLLMENT := "passkey_enrollment_capabilities"

  const OWNER_INDEX := "idx_passkey_credentials_user_id"
  const EXPIRY_INDEX := "idx_passkey_challenges_expires_at"
  const ENROLLMENT_INDEX := "idx_passkey_enrollment_capabilities_expires_at"

  const CURRENT_SCHEMA_VERSION := 3

  /** A column that may be NULL and is no part of the primary key. */
  function TextColumn(name: string): Column {
    Column(name, "TEXT", false, 0, None)
  }

  function Required(name: string, kind: string): Column {
    Column(name, kind, true, 0, None)
  }

  const METADATA_COLUMNS := [Required("schema_version", "INTEGER")]

  const USERS_COLUMNS := [
    Column("user_id", "TEXT", false, 1, None), Required("user_handle", "TEXT"), Required("name", "TEXT"),
        TextColumn("display_name")]

  const CREDENTIALS_COLUMNS := [
    Column("credential_id", "TEXT", false, 1, None), Required("user_id", "TEXT"), Required("public_key", "BLOB"),
    Column("sign_count", "INTEGER", true, 0, Some("0")), TextColumn("transports"), TextColumn("device_type"),
    Column("backed_up", "INTEGER", false, 0, None), TextColumn("label"), Required("created_at", "TEXT")]

  /** The challenge columns of schema version 2, and the two that version 3 adds. */
  const V2_CHALLENGES_COLUMNS := [
    Column("key", "TEXT", true, 1, None), Column("kind", "TEXT", true, 2, None), Required("challenge", "BLOB"),
    Required("expires_at", "TEXT"), TextColumn("user_id"), TextColumn("user_handle"), TextColumn("user_name"),
    TextColumn("user_display_name")]

  const CHALLENGES_COLUMNS := V2_CHALLENGES_COLUMNS + [TextColumn("registration_kind"), TextColumn("capability_id")]

  const ENROLLMENT_COLUMNS := [
    Column("capability_id", "TEXT", false, 1, None), Required("token_hash", "TEXT"), Required("purpose", "TEXT"),
    Required("subject", "TEXT"), Required("expires_at", "TEXT"), TextColumn("issued_by"), TextColumn("claimed_flow_id"),
    TextColumn("claimed_at"), TextColumn("consumed_at"), TextColumn("revoked_at")]

  const OWNER_KEY := ForeignKey(USERS, "user_id", "user_id", "NO ACTION", "CASCADE")

  // ---- The tables as created ----

  function MetadataTable(rows: seq<Row>): Table {
    Table(METADATA_COLUMNS, {}, [], rows)
  }

  function UsersTable(rows: seq<Row>): Table {
    Table(USERS_COLUMNS, {Auto(["user_id"]), Auto(["user_handle"])}, [], rows)
  }

  function CredentialsTable(users: string, rows: seq<Row>): Table {
    Table(CREDENTIALS_COLUMNS, {Auto(["credential_id"])}, [OWNER_KEY.(table := users)], rows)
  }

  function ChallengesTable(rows: seq<Row>): Table {
    Table(CHALLENGES_COLUMNS, {Auto(["key", "kind"])}, [], rows)
  }

  function EnrollmentTable(): Table {
    Table(ENROLLMENT_COLUMNS, {Auto(["capability_id"]), Auto(["token_hash"]), Auto(["claimed_flow_id"])}, [], [])
  }

  // ---- Inspection ----

  datatype State = Empty | CanonicalUnversioned | LegacyFlowKey | LegacyV2 | Current | Unsupported

  predicate HasIndex(t: Table, name: string) {
    exists i | i in t.indexes :: i.Named? && i.name == name && !i.unique
  }

  predicate HasColumns(t: Table, names: set<string>) {
    forall n | n in names :: HasColumn(t, n)
  }

  predicate EnrollmentCanonical(t: Table) {
    t.columns == ENROLLMENT_COLUMNS && HasIndex(t, ENROLLMENT_INDEX) && UniqueOn(t, "token_hash")
        && UniqueOn(t, "claimed_flow_id")
  }

  /** Version 2 compares less: the two named indexes and the owner's foreign key. */
  predicate SharedLayout(db: Db)
    requires CREDENTIALS in db && CHALLENGES in db
  {
    && HasIndex(db[CREDENTIALS], OWNER_INDEX) && HasIndex(db[CHALLENGES], EXPIRY_INDEX)
    && db[CREDENTIALS].foreignKeys == [OWNER_KEY]
  }

  predicate CanonicalLayout(db: Db)
    requires USERS in db && CREDENTIALS in db && CHALLENGES in db
  {
    && db[USERS].columns == USERS_COLUMNS && db[CREDENTIALS].columns == CREDENTIALS_COLUMNS
    && db[CHALLENGES].columns == CHALLENGES_COLUMNS
    && SharedLayout(db) && UniqueOn(db[USERS], "user_handle")
    && (ENROLLMENT in db ==> EnrollmentCanonical(db[ENROLLMENT]))
  }

  function Version(db: Db): Option<int>
    requires METADATA in db
  {
    var rows := db[METADATA].rows;
    if |rows| == 1 && At(rows[0], "schema_version").Int? then Some(At(rows[0], "schema_version").value) else None
  }

  predicate LegacyColumns(db: Db)
    requires USERS in db && CREDENTIALS in db && CHALLENGES in db
  {
    && HasColumns(db[USERS], {"user_id", "user_handle", "name", "display_name"})
    && HasColumns(db[CREDENTIALS], {"credential_id", "user_id", "public_key", "sign_count", "created_at"})
    && HasColumns(db[CHALLENGES],
                  {"flow_key", "kind", "challenge", "expires_at", "user_id", "user_handle", "user_name",
                   "user_display_name"})
  }

  function Inspect(db: Db): State {
    if USERS !in db && CREDENTIALS !in db && CHALLENGES !in db && METADATA !in db then Empty
    else if USERS !in db || CREDENTIALS !in db || CHALLENGES !in db then Unsupported
    else
      var hasFlowKey, hasKey := HasColumn(db[CHALLENGES], "flow_key"), HasColumn(db[CHALLENGES], "key");
      if hasFlowKey && hasKey then Unsupported
      else if hasFlowKey then
        if LegacyColumns(db) && METADATA !in db then LegacyFlowKey else Unsupported
      else if METADATA !in db then
        if CanonicalLayout(db) then CanonicalUnversioned else Unsupported
      else if Version(db) == Some(CURRENT_SCHEMA_VERSION) then
        if db[METADATA].columns == METADATA_COLUMNS && CanonicalLayout(db) then Current else Unsupported
      else if Version(db) == Some(2) && db[CHALLENGES].columns == V2_CHALLENGES_COLUMNS && SharedLayout(db) then
          LegacyV2
      else Unsupported
  }

  // ---- Creating the schema ----

  function CreateIfAbsent(db: Db, name: string, t: Table): Db {
    if name in db then db else db[name := t]
  }

  /** The enrollment table and its index, where they are not there yet. */
  function ApplyEnrollment(db: Db): (r: Option<Db>)
    ensures r.Some? ==> r.value.Keys == db.Keys + {ENROLLMENT}
  {
    CreateIndexIfAbsent(CreateIfAbsent(db, ENROLLMENT, EnrollmentTable()), ENROLLMENT, ENROLLMENT_INDEX, "expires_at")
  }

  /** Fails only when an enrollment table of another shape has no column to index. */
  lemma ApplyEnrollmentExactly(db: Db)
    ensures ApplyEnrollment(db) ==
            if ENROLLMENT !in db then
              Some(db[ENROLLMENT := if IndexTaken(db, ENROLLMENT_INDEX) then EnrollmentTable()
                      else WithIndex(EnrollmentTable(), ENROLLMENT_INDEX, "expires_at")])
            else if IndexTaken(db, ENROLLMENT_INDEX) then Some(db)
            else if HasColumn(db[ENROLLMENT], "expires_at") then
              Some(db[ENROLLMENT := WithIndex(db[ENROLLMENT], ENROLLMENT_INDEX, "expires_at")])
            else None
  {
    var d := CreateIfAbsent(db, ENROLLMENT, EnrollmentTable());
    assert EnrollmentTable().columns[4].name == "expires_at";
    if ENROLLMENT !in db {
      assert IndexTaken(d, ENROLLMENT_INDEX) <==> IndexTaken(db, ENROLLMENT_INDEX) by {
        assert !IndexNamed(EnrollmentTable(), ENROLLMENT_INDEX);
        if t :| t in db && IndexNamed(db[t], ENROLLMENT_INDEX) { assert d[t] == db[t]; }
      }
      var indexed := WithIndex(EnrollmentTable(), ENROLLMENT_INDEX, "expires_at");
      assert d[ENROLLMENT := indexed] == db[ENROLLMENT := indexed];
      assert d[ENROLLMENT] == EnrollmentTable() && HasColumn(d[ENROLLMENT], "expires_at");
    }
  }

  /** The stamp ensure writes over whatever the metadata table held. */
  function Stamped(db: Db): Db
    requires METADATA in db
  {
    db[METADATA := db[METADATA].(rows := [map["schema_version" := Int(CURRENT_SCHEMA_VERSION)]])]
  }

  /** All tables and indexes, statement by statement, each only if absent. */
  function ApplySchema(db: Db): (r: Option<Db>)
    ensures r.Some? ==> METADATA in r.value
  {
    var d1 := CreateIfAbsent(CreateIfAbsent(CreateIfAbsent(db, METADATA, MetadataTable([])), USERS, UsersTable([])),
                             CREDENTIALS, CredentialsTable(USERS, []));
    match CreateIndexIfAbsent(d1, CREDENTIALS, OWNER_INDEX, "user_id")
    case None => None
    case Some(d2) =>
      match CreateIndexIfAbsent(CreateIfAbsent(d2, CHALLENGES, ChallengesTable([])), CHALLENGES, EXPIRY_INDEX,
                                "expires_at")
      case None => None
      case Some(d3) => ApplyEnrollment(d3)
  }

  /** What ensure_sqlite_schema leaves, or None where it raises. */
  function Ensured(db: Db): Option<Db> {
    match Inspect(db)
    case Current => ApplyEnrollment(db)
    case Empty =>
      (match ApplySchema(db) case Some(d) => Some(Stamped(d)) case None => None)
    case CanonicalUnversioned =>
      (match ApplyEnrollment(db[METADATA := MetadataTable([])]) case Some(d) => Some(Stamped(d)) case None => None)
    case _ => None
  }

  // ---- What ensuring achieves ----

  /**
    The enrollment table passes inspection after being applied exactly when it was absent, with its
    index name free, or canonical up to that index.
  */
  predicate EnrollmentWillDo(db: Db) {
    if ENROLLMENT !in db then !IndexTaken(db, ENROLLMENT_INDEX)
    else
      && db[ENROLLMENT].columns == ENROLLMENT_COLUMNS && UniqueOn(db[ENROLLMENT], "token_hash")
          && UniqueOn(db[ENROLLMENT], "claimed_flow_id")
      && (HasIndex(db[ENROLLMENT], ENROLLMENT_INDEX) || !IndexTaken(db, ENROLLMENT_INDEX))
  }

  lemma WithIndexKeeps(t: Table, name: string, column: string)
    ensures HasIndex(WithIndex(t, name, column), name)
    ensures forall c :: UniqueOn(t, c) <==> UniqueOn(WithIndex(t, name, column), c)
    ensures forall n :: n != name ==> (HasIndex(t, n) <==> HasIndex(WithIndex(t, name, column), n))
  {
    var t' := WithIndex(t, name, column);
    assert Named(name, false, [column]) in t'.indexes;
    forall c
      ensures UniqueOn(t, c) <==> UniqueOn(t', c)
    {
      if UniqueOn(t, c) {
        var i :| i in t.indexes && (i.Auto? || i.unique) && i.columns == [c];
        assert i in t'.indexes;
      }
    }
    forall n | n != name
      ensures HasIndex(t, n) <==> HasIndex(t', n)
    {
      if HasIndex(t, n) {
        var i :| i in t.indexes && i.Named? && i.name == n && !i.unique;
        assert i in t'.indexes;
      }
    }
  }

  lemma EnrollmentApplied(db: Db)
    requires ApplyEnrollment(db).Some?
    ensures var d := ApplyEnrollment(db).value;
            && ENROLLMENT in d && (EnrollmentCanonical(d[ENROLLMENT]) <==> EnrollmentWillDo(db))
            && (forall t | t != ENROLLMENT :: (t in d <==> t in db) && (t in db ==> d[t] == db[t]))
  {
    hide HasIndex, UniqueOn, WithIndex;
    ApplyEnrollmentExactly(db);
    var e := if ENROLLMENT in db then db[ENROLLMENT] else EnrollmentTable();
    WithIndexKeeps(e, ENROLLMENT_INDEX, "expires_at");
    assert WithIndex(e, ENROLLMENT_INDEX, "expires_at").columns == e.columns by { WithIndexColumns(e); }
    NewEnrollment();
  }

  lemma WithIndexColumns(t: Table)
    ensures WithIndex(t, ENROLLMENT_INDEX, "expires_at").columns == t.columns
  {
  }

  lemma NewEnrollment()
    ensures UniqueOn(EnrollmentTable(), "token_hash") && UniqueOn(EnrollmentTable(), "claimed_flow_id")
    ensures !HasIndex(EnrollmentTable(), ENROLLMENT_INDEX) && HasColumn(EnrollmentTable(), "expires_at")
  {
    var t := EnrollmentTable();
    assert Auto(["token_hash"]) in t.indexes && Auto(["claimed_flow_id"]) in t.indexes
        && t.columns[4].name == "expires_at";
  }

  // ---- The layouts by name ----

  function Nullable(name: string): Column {
    Column(name, "TEXT", false, 0, None)
  }

  function NotNullText(name: string): Column {
    Column(name, "TEXT", true, 0, None)
  }

  /** The columns of the users' and the credentials' table, one by one. */
  predicate CurrentAccounts(users: Table, credentials: Table) {
    && users.columns == [Column("user_id", "TEXT", false, 1, None), NotNullText("user_handle"), NotNullText("name"),
                         Nullable("display_name")]
    && credentials.columns == [Column("credential_id", "TEXT", false, 1, None), NotNullText("user_id"),
                               Column("public_key", "BLOB", true, 0, None),
                               Column("sign_count", "INTEGER", true, 0, Some("0")), Nullable("transports"),
                               Nullable("device_type"), Column("backed_up", "INTEGER", false, 0, None),
                               Nullable("label"), NotNullText("created_at")]
  }

  /** The columns of a version 2 challenges' table; version 3 adds two. */
  function ChallengeColumns(): seq<Column> {
    [Column("key", "TEXT", true, 1, None), Column("kind", "TEXT", true, 2, None),
     Column("challenge", "BLOB", true, 0, None), NotNullText("expires_at"), Nullable("user_id"),
     Nullable("user_handle"), Nullable("user_name"), Nullable("user_display_name")]
  }

  /** Credentials go with their user, and the two lookups by owner and by expiry have their plain indexes. */
  predicate LinkedAndIndexed(credentials: Table, challenges: Table) {
    && credentials.foreignKeys == [ForeignKey("passkey_users", "user_id", "user_id", "NO ACTION", "CASCADE")]
    && (exists i | i in credentials.indexes :: i.Named? && i.name == "idx_passkey_credentials_user_id" && !i.unique)
    && (exists i | i in challenges.indexes :: i.Named? && i.name == "idx_passkey_challenges_expires_at" && !i.unique)
  }

  predicate CurrentEnrollment(t: Table) {
    && t.columns == [Column("capability_id", "TEXT", false, 1, None), NotNullText("token_hash"),
                     NotNullText("purpose"), NotNullText("subject"), NotNullText("expires_at"), Nullable("issued_by"),
                     Nullable("claimed_flow_id"), Nullable("claimed_at"), Nullable("consumed_at"),
                     Nullable("revoked_at")]
    && (exists i | i in t.indexes ::
          i.Named? && i.name == "idx_passkey_enrollment_capabilities_expires_at" && !i.unique)
    && UniqueOn(t, "token_hash") && UniqueOn(t, "claimed_flow_id")
  }

  /** The tables of version 3; the enrollment table may be missing, and the version is stamped apart. */
  predicate Version3Tables(db: Db) {
    && "passkey_users" in db && "passkey_credentials" in db && "passkey_challenges" in db
    && CurrentAccounts(db["passkey_users"], db["passkey_credentials"]) && UniqueOn(db["passkey_users"], "user_handle")
    && db["passkey_challenges"].columns
       == ChallengeColumns() + [Nullable("registration_kind"), Nullable("capability_id")]
    && LinkedAndIndexed(db["passkey_credentials"], db["passkey_challenges"])
    && ("passkey_enrollment_capabilities" in db ==> CurrentEnrollment(db["passkey_enrollment_capabilities"]))
  }

  /** The one row of the metadata table holds that version. */
  predicate StampedWith(db: Db, version: int) {
    && "my_auth_schema" in db && |db["my_auth_schema"].rows| == 1
    && At(db["my_auth_schema"].rows[0], "schema_version") == Int(version)
  }

  lemma LayoutByName(db: Db)
    requires USERS in db && CREDENTIALS in db && CHALLENGES in db
    ensures CanonicalLayout(db) <==> Version3Tables(db)
    ensures SharedLayout(db) <==> LinkedAndIndexed(db[CREDENTIALS], db[CHALLENGES])
  {
    hide UniqueOn;
    if ENROLLMENT in db { EnrollmentByName(db[ENROLLMENT]); }
  }

  lemma EnrollmentByName(t: Table)
    ensures EnrollmentCanonical(t) <==> CurrentEnrollment(t)
  {
    hide UniqueOn;
  }

  lemma CurrentHasKey(db: Db)
    requires Version3Tables(db)
    ensures HasColumn(db[CHALLENGES], "key") && !HasColumn(db[CHALLENGES], "flow_key")
  {
    assert db[CHALLENGES].columns[0].name == "key";
  }

  lemma OldHasKey(t: Table)
    requires t.columns == ChallengeColumns()
    ensures HasColumn(t, "key") && !HasColumn(t, "flow_key")
  {
    assert t.columns[0].name == "key";
  }

  /** What each state means, by the names of tables, columns and indexes. */
  lemma InspectByName(db: Db)
    ensures Inspect(db) == Empty <==>
              "passkey_users" !in db && "passkey_credentials" !in db && "passkey_challenges" !in db
              && "my_auth_schema" !in db
    ensures Inspect(db) == Current <==>
              && Version3Tables(db) && StampedWith(db, 3)
              && db["my_auth_schema"].columns == [Column("schema_version", "INTEGER", true, 0, None)]
    ensures Inspect(db) == CanonicalUnversioned <==> Version3Tables(db) && "my_auth_schema" !in db
    ensures Inspect(db) == LegacyV2 <==>
              && "passkey_users" in db && "passkey_credentials" in db && "passkey_challenges" in db
              && StampedWith(db, 2) && db["passkey_challenges"].columns == ChallengeColumns()
              && LinkedAndIndexed(db["passkey_credentials"], db["passkey_challenges"])
  {
    hide CanonicalLayout, SharedLayout, Version3Tables, LinkedAndIndexed, LegacyColumns, HasColumn;
    if USERS in db && CREDENTIALS in db && CHALLENGES in db {
      LayoutByName(db);
      if Version3Tables(db) { CurrentHasKey(db); }
      if db[CHALLENGES].columns == ChallengeColumns() { OldHasKey(db[CHALLENGES]); }
      VersionByName(db);
    }
    HasTables(db);
  }

  lemma HasTables(db: Db)
    ensures Version3Tables(db) ==> USERS in db && CREDENTIALS in db && CHALLENGES in db
  {
  }

  lemma VersionByName(db: Db)
    ensures METADATA in db ==> forall v :: Version(db) == Some(v) <==> StampedWith(db, v)
  {
  }

  /** A 0.1 database has these columns, perhaps among others, and neither a key column nor a version. */
  lemma FlowKeyByName(db: Db)
    ensures Inspect(db) == LegacyFlowKey <==>
              && "passkey_users" in db && "passkey_credentials" in db && "passkey_challenges" in db
              && "my_auth_schema" !in db && !HasColumn(db["passkey_challenges"], "key")
              && (forall n | n in ["user_id", "user_handle", "name", "display_name"] ::
                    HasColumn(db["passkey_users"], n))
              && (forall n | n in ["credential_id", "user_id", "public_key", "sign_count", "created_at"] ::
                    HasColumn(db["passkey_credentials"], n))
              && (forall n | n in ["flow_key", "kind", "challenge", "expires_at", "user_id", "user_handle", "user_name",
                                   "user_display_name"] :: HasColumn(db["passkey_challenges"], n))
  {
    hide CanonicalLayout, SharedLayout, HasColumn, Version;
  }
}
