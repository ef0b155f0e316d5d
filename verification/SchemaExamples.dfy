/** Legacy databases that migrate and are left unsupported, and one that becomes current. */
module SchemaExamples {
  import opened Wrappers
  import opened SchemaTables
  import opened SchemaDrops
  import opened SchemaInspection
  import opened SchemaMigration

  function Plain(names: seq<string>): Table {
    Table(seq(|names|, i requires 0 <= i < |names| => TextColumn(names[i])), {}, [], [])
  }

  lemma PlainColumns(names: seq<string>)
    ensures forall n :: HasColumn(Plain(names), n) <==> n in names
  {
    forall n
      ensures HasColumn(Plain(names), n) <==> n in names
    {
      if n in names {
        var i :| 0 <= i < |names| && names[i] == n;
        assert Plain(names).columns[i].name == n;
      }
    }
  }

  // ---- The schema a new database gets ----

  lemma NoIndexYet(name: string)
    ensures !IndexTaken(map[], name)
  {
  }

  lemma FreshEnsured()
    ensures Ensured(map[]).Some? && Inspect(Ensured(map[]).value) == Current
  {
    hide ApplySchema, ApplyEnrollment, IndexTaken;
    EmptySchema(map[]);
    ApplyEnrollmentExactly(Base(map[]));
    NoIndexYet(ENROLLMENT_INDEX);
    NoIndexYet(OWNER_INDEX);
    NoIndexYet(EXPIRY_INDEX);
    EnsuredState(map[]);
  }

  /**
    An empty database becomes current: five tables, stamped with version 3 and otherwise empty, with the
    keys and unique columns the stores rely on.
  */
  lemma FreshSchema()
    ensures Ensured(map[]).Some? && Migrated(map[]) == Ensured(map[])
    ensures var d := Ensured(map[]).value;
            && Inspect(d) == Current && StampedWith(d, 3)
            && d.Keys == {"my_auth_schema", "passkey_users", "passkey_credentials", "passkey_challenges",
                          "passkey_enrollment_capabilities"}
            && (forall t | t in d && t != "my_auth_schema" :: d[t].rows == [])
            && UniqueOn(d["passkey_users"], "user_id") && UniqueOn(d["passkey_credentials"], "credential_id")
            && UniqueOn(d["passkey_enrollment_capabilities"], "capability_id")
            && (exists i | i in d["passkey_challenges"].indexes :: i.Auto? && i.columns == ["key", "kind"])
  {
    hide ApplySchema, ApplyEnrollment, IndexTaken, Inspect, UniqueOn, HasColumn;
    FreshEnsured();
    InspectByName(Ensured(map[]).value);
    EmptySchema(map[]);
    ApplyEnrollmentExactly(Base(map[]));
    FreshKeys();
    NoIndexYet(OWNER_INDEX);
    NoIndexYet(EXPIRY_INDEX);
  }

  lemma FreshKeys()
    ensures UniqueOn(UsersTable([]), "user_id")
    ensures UniqueOn(WithIndex(CredentialsTable(USERS, []), OWNER_INDEX, "user_id"), "credential_id")
    ensures UniqueOn(WithIndex(EnrollmentTable(), ENROLLMENT_INDEX, "expires_at"), "capability_id")
    ensures UniqueOn(EnrollmentTable(), "capability_id")
    ensures Auto(["key", "kind"]) in WithIndex(ChallengesTable([]), EXPIRY_INDEX, "expires_at").indexes
  {
    assert Auto(["user_id"]) in UsersTable([]).indexes && Auto(["capability_id"]) in EnrollmentTable().indexes;
    assert Auto(["credential_id"]) in WithIndex(CredentialsTable(USERS, []), OWNER_INDEX, "user_id").indexes;
    assert Auto(["capability_id"]) in WithIndex(EnrollmentTable(), ENROLLMENT_INDEX, "expires_at").indexes;
  }

  const USER_NAMES := ["user_id", "user_handle", "name", "display_name"]
  const CREDENTIAL_NAMES := ["credential_id", "user_id", "public_key", "sign_count", "created_at"]
  const CHALLENGE_NAMES :=
    ["flow_key", "kind", "challenge", "expires_at", "user_id", "user_handle", "user_name", "user_display_name"]

  /** The 0.1 layout without its optional columns, and no rows. */
  function FlowKeyDb(): Db {
    map[USERS := Plain(USER_NAMES), CREDENTIALS := Plain(CREDENTIAL_NAMES), CHALLENGES := Plain(CHALLENGE_NAMES)]
  }

  /** An enrollment table with nothing but an expiry. */
  function OtherEnrollment(): Table {
    Plain(["expires_at"])
  }

  lemma FlowKeyLayout(db: Db)
    requires forall t | t in FlowKeyDb() :: t in db && db[t].columns == FlowKeyDb()[t].columns
    requires METADATA !in db
    ensures Inspect(db) == LegacyFlowKey
  {
    assert FlowKeyDb()[USERS].columns == db[USERS].columns
        && FlowKeyDb()[CREDENTIALS].columns == db[CREDENTIALS].columns
        && FlowKeyDb()[CHALLENGES].columns == db[CHALLENGES].columns;
    SameColumns(db[USERS], USER_NAMES);
    SameColumns(db[CREDENTIALS], CREDENTIAL_NAMES);
    SameColumns(db[CHALLENGES], CHALLENGE_NAMES);
    hide HasColumn;
  }

  lemma SameColumns(t: Table, names: seq<string>)
    requires t.columns == Plain(names).columns
    ensures forall n :: HasColumn(t, n) <==> n in names
  {
    PlainColumns(names);
    assert forall n :: HasColumn(t, n) <==> HasColumn(Plain(names), n);
  }

  // ---- When a small database migrates ----

  /** The credentials' and challenges' tables are empty, and the copied users fit. */
  predicate FewRows(db: Db)
    requires Complete(db)
  {
    db[CREDENTIALS].rows == db[CHALLENGES].rows == [] && AllFit(db, UsersTable([]), NewUsers(db[USERS]))
  }

  /** What remains has no rows, no indexes, and at most keys like the credentials' one. */
  predicate Bare(o: Db) {
    && (forall t | t in o :: o[t].rows == [] && o[t].indexes == {})
    && (forall t | t in o :: forall i | 0 <= i < |o[t].foreignKeys| :: o[t].foreignKeys[i] == OWNER_KEY)
    && (ENROLLMENT in o ==> HasColumn(o[ENROLLMENT], "expires_at"))
  }

  /** Every table of a rebuilt bare database has no rows or no keys, and no key but the credentials' one. */
  predicate Holdable(d: Db) {
    && (forall t | t in d :: d[t].rows == [] || d[t].foreignKeys == [])
    && (forall t | t in d :: forall i | 0 <= i < |d[t].foreignKeys| :: d[t].foreignKeys[i] == OWNER_KEY)
  }

  lemma BareRebuilt(db: Db)
    requires Complete(db) && AfterDrops(db).Some? && Bare(Remaining(db)) && FewRows(db)
    ensures Holdable(Rebuilt(db)) && USERS in Rebuilt(db) && Rebuilt(db)[USERS] == UsersTable(NewUsers(db[USERS]))
    ensures ENROLLMENT in Rebuilt(db) ==>
              HasColumn(Rebuilt(db)[ENROLLMENT], "expires_at") && Rebuilt(db)[ENROLLMENT].rows == []
  {
    hide NewUsers, NewChallenges, Remaining, AfterDrops, AllFit, HasColumn;
    assert NewCredentials(db[CREDENTIALS]) == [];
  }

  lemma BareHolds(db: Db)
    requires Complete(db) && AfterDrops(db).Some? && Bare(Remaining(db)) && FewRows(db)
    ensures ApplyEnrollment(Rebuilt(db)).Some? && ForeignKeysHold(ApplyEnrollment(Rebuilt(db)).value)
  {
    hide Rebuilt, Bare, FewRows, AfterDrops, ForeignKeysHold, IndexTaken, ApplyEnrollment, HasColumn;
    BareRebuilt(db);
    ApplyEnrollmentExactly(Rebuilt(db));
    UsersKey(NewUsers(db[USERS]));
    BareKeysHold(ApplyEnrollment(Rebuilt(db)).value);
  }

  lemma UsersKey(rows: seq<Row>)
    ensures UniqueOn(UsersTable(rows), "user_id")
  {
    assert Auto(["user_id"]) in UsersTable(rows).indexes;
  }

  lemma BareKeysHold(d: Db)
    requires USERS in d && UniqueOn(d[USERS], "user_id")
    requires Holdable(d)
    ensures ForeignKeysHold(d)
  {
    hide UniqueOn;
  }

  lemma BareMigrates(db: Db)
    requires Complete(db) && TEMPORARY !! db.Keys && AfterDrops(db).Some? && Bare(Remaining(db)) && FewRows(db)
    ensures Migratable(db)
  {
    hide NewUsers, NewChallenges, ForeignKeysHold, ApplyEnrollment, Rebuilt, AllFit, AfterDrops, Remaining, LeftAlone;
    BareHolds(db);
    assert NewCredentials(db[CREDENTIALS]) == [];
    assert NewChallenges(db[CHALLENGES]) == [] by { NoChallenges(db[CHALLENGES]); }
    NothingToCopy(db);
    NothingToCopy(db[USERS_V2 := UsersTable(NewUsers(db[USERS]))]);
    RemainingExactly(db);
  }

  lemma NoChallenges(t: Table)
    requires t.rows == []
    ensures NewChallenges(t) == []
  {
  }

  lemma NothingToCopy(db: Db)
    ensures AllFit(db, CredentialsTable(USERS_V2, []), []) && AllFit(db, ChallengesTable([]), [])
  {
  }

  /** Dropping the empty tables first leaves the drop of the users' table. */
  lemma LastDrop(db: Db)
    requires CREDENTIALS in db && CHALLENGES in db && Droppable(db, DROPS)
    requires db[CREDENTIALS].rows == db[CHALLENGES].rows == []
    ensures USERS in db - {CREDENTIALS} - {CHALLENGES}
    ensures DropAll(db, DROPS) == Drop(db - {CREDENTIALS} - {CHALLENGES}, USERS)
  {
    hide Drop;
    assert DROPS[0] == CREDENTIALS && DROPS[1] == CHALLENGES && DROPS[2] == USERS;
    DropEmpty(db, CREDENTIALS);
    var d1 := db - {CREDENTIALS};
    DropEmpty(d1, CHALLENGES);
    var d2 := d1 - {CHALLENGES};
    assert DROPS[1..] == [CHALLENGES, USERS] && DROPS[1..][1..] == [USERS] && DROPS[1..][1..][1..] == [];
    assert DropAll(d2, [USERS]) == Drop(d2, USERS) by { LastOfAll(d2, USERS); }
    assert DropAll(d1, [CHALLENGES, USERS]) == DropAll(d2, [USERS]);
  }

  lemma LastOfAll(db: Db, name: string)
    requires name in db
    ensures DropAll(db, [name]) == Drop(db, name)
  {
    hide Drop;
    assert [name][1..] == [];
  }

  // ---- Two that hold no rows ----

  /** Nothing stops the migration of an empty 0.1 database whose other tables are empty and refer to nothing. */
  lemma EmptyMigrates(db: Db)
    requires Complete(db) && db[USERS].rows == db[CREDENTIALS].rows == db[CHALLENGES].rows == []
    requires db.Keys <= {USERS, CREDENTIALS, CHALLENGES, ENROLLMENT}
    requires ENROLLMENT in db ==> db[ENROLLMENT] == OtherEnrollment()
    ensures Migratable(db)
  {
    hide NewCredentials, NewChallenges, ForeignKeysHold, ApplyEnrollment, Rebuilt, Drop, DropAll, Remaining,
        LeftAlone, Migratable;
    var d := Staged(db);
    LastDrop(d);
    DropEmpty(d - {CREDENTIALS} - {CHALLENGES}, USERS);
    if ENROLLMENT in db {
      RemainingTable(db, ENROLLMENT);
      SameColumns(Remaining(db)[ENROLLMENT], ["expires_at"]);
    }
    RemainingExactly(db);
    BareMigrates(db);
  }

  /** A 0.1 database without an enrollment table becomes current. */
  lemma FlowKeyBecomesCurrent()
    ensures Inspect(FlowKeyDb()) == LegacyFlowKey && Migrated(FlowKeyDb()).Some?
    ensures Inspect(Migrated(FlowKeyDb()).value) == Current
  {
    hide Inspect, Migratable, ApplyEnrollment, Rebuilt, Plain, AfterDrops;
    var db := FlowKeyDb();
    FlowKeyLayout(db);
    assert Migratable(db) by { EmptyRows(); EmptyMigrates(db); }
    FlowKeyShape(db);
    MigratableMigrates(db);
    assert Others(db) == map[];
    FlowKeyState(db, Migrated(db).value);
  }

  lemma EmptyRows()
    ensures FlowKeyDb()[USERS].rows == FlowKeyDb()[CREDENTIALS].rows == FlowKeyDb()[CHALLENGES].rows == []
  {
  }

  lemma MigratableMigrates(db: Db)
    requires Inspect(db) == LegacyFlowKey && Complete(db) && Migratable(db)
    ensures Migrated(db).Some?
  {
    hide Inspect, ApplyEnrollment, Rebuilt, AfterDrops, AllFit, IndexTaken, ForeignKeysHold;
  }

  lemma OtherWillNotDo(db: Db)
    requires ENROLLMENT in db && db[ENROLLMENT] == OtherEnrollment()
    ensures !EnrollmentWillDo(db)
  {
    assert |OtherEnrollment().columns| == 1 && |ENROLLMENT_COLUMNS| == 10;
  }

  /** With an enrollment table of another shape it migrates, and no store accepts the result. */
  lemma FlowKeyLeftUnsupported()
    ensures var db := FlowKeyDb()[ENROLLMENT := OtherEnrollment()];
            Inspect(db) == LegacyFlowKey && Migrated(db).Some? && Inspect(Migrated(db).value) == Unsupported
  {
    hide Inspect, Migratable, ApplyEnrollment, Rebuilt, Plain, OtherEnrollment, EnrollmentWillDo, AfterDrops;
    var db := FlowKeyDb()[ENROLLMENT := OtherEnrollment()];
    FlowKeyLayout(db);
    assert Migratable(db) by { EmptyRows(); EmptyMigrates(db); }
    MigratableMigrates(db);
    OtherWillNotDo(Others(db));
    FlowKeyState(db, Migrated(db).value);
  }

  // ---- One whose host table refers to the users ----

  const SESSIONS := "sessions"

  function OneUser(): Row {
    map["user_id" := Text("ann"), "user_handle" := Text("YW5u"), "name" := Text("ann")]
  }

  function OneSession(): Row {
    map["user_id" := Text("ann")]
  }

  /** A table of the host, each row of which goes with its user. */
  function HostSessions(): Table {
    Plain(["user_id"]).(foreignKeys := [OWNER_KEY], rows := [OneSession()])
  }

  function HostDb(): Db {
    FlowKeyDb()[USERS := Plain(USER_NAMES).(indexes := {Auto(["user_id"])}, rows := [OneUser()])]
               [SESSIONS := HostSessions()]
  }

  /** The last drop takes the session with the old users' table. */
  lemma SessionDropped(d: Db)
    requires USERS in d && SESSIONS in d && d[SESSIONS] == HostSessions()
    requires d[USERS].rows == [OneUser()] && UniqueOn(d[USERS], "user_id")
    requires forall t | t in d :: forall i | 0 <= i < |d[t].foreignKeys| :: d[t].foreignKeys[i].onDelete == "CASCADE"
    ensures Drop(d, USERS).Some? && Drop(d, USERS).value[SESSIONS].rows == []
  {
    hide Doomed, Survivors, SweepFails, UniqueOn;
    var gone := Doomed(d, USERS);
    var user, session := RowId(USERS, 0), RowId(SESSIONS, 0);
    DoomedLeast(d, USERS, {});
    assert user in RowsOf(d, USERS);
    assert RowAt(d, user) == OneUser() && At(OneUser(), "user_id") == Text("ann");
    assert d[SESSIONS].foreignKeys[0] == OWNER_KEY;
    assert Hits(d, gone, OWNER_KEY, OneSession());
    AllRowsExactly(d, session);
    assert RowAt(d, session) == OneSession() && Dragged(d, gone, d[SESSIONS], OneSession());
    assert session in gone;
    SurvivorCount(d, gone, SESSIONS, d[SESSIONS], 1);
    CascadesNeverFail(d, gone);
  }

  lemma HostTables()
    ensures Complete(HostDb()) && TEMPORARY !! HostDb().Keys && METADATA !in HostDb()
    ensures HostDb()[CREDENTIALS].rows == HostDb()[CHALLENGES].rows == [] && HostDb()[USERS].rows == [OneUser()]
    ensures UniqueOn(HostDb()[USERS], "user_id") && SESSIONS in HostDb() && HostDb()[SESSIONS] == HostSessions()
  {
    assert Auto(["user_id"]) in HostDb()[USERS].indexes;
  }

  lemma HostKeys()
    ensures Complete(HostDb())
    ensures forall t | t in Staged(HostDb()) :: forall i | 0 <= i < |Staged(HostDb())[t].foreignKeys| ::
                Staged(HostDb())[t].foreignKeys[i].onDelete == "CASCADE"
  {
    hide Plain, NewUsers, NewCredentials, NewChallenges;
    PlainKeys();
  }

  lemma HostDrops()
    ensures Complete(HostDb()) && AfterDrops(HostDb()).Some?
    ensures SESSIONS in AfterDrops(HostDb()).value && AfterDrops(HostDb()).value[SESSIONS].rows == []
  {
    hide Drop, DropAll, HostDb, HostSessions, OneUser, NewUsers, NewCredentials, NewChallenges, UniqueOn;
    HostTables();
    HostKeys();
    LastDrop(Staged(HostDb()));
    SessionDropped(Staged(HostDb()) - {CREDENTIALS} - {CHALLENGES});
  }

  lemma PlainKeys()
    ensures forall names :: Plain(names).foreignKeys == []
  {
  }

  lemma HostUserFits()
    ensures AllFit(HostDb(), UsersTable([]), NewUsers(HostDb()[USERS]))
  {
    hide Plain;
    var row := CopyUser(OneUser());
    assert NewUsers(HostDb()[USERS]) == [row];
    assert NotNulls(UsersTable([]), row);
  }

  lemma HostLayout()
    ensures Inspect(HostDb()) == LegacyFlowKey
  {
    hide Inspect, Plain;
    FlowKeyLayout(HostDb());
  }

  lemma HostRemains()
    ensures Complete(HostDb()) && AfterDrops(HostDb()).Some?
    ensures var o := Remaining(HostDb()); Bare(o) && SESSIONS in o && o[SESSIONS].rows == []
  {
    hide Plain, AfterDrops, Remaining, LeftAlone, HasColumn;
    var db := HostDb();
    HostTables();
    HostDrops();
    RemainingTable(db, SESSIONS);
    RemainingExactly(db);
    PlainIndexes(["user_id"]);
  }

  lemma HostMigrates()
    ensures Complete(HostDb()) && Migratable(HostDb())
  {
    hide HostDb, Migratable, AfterDrops, Remaining, AllFit, NewUsers, Bare;
    HostTables();
    HostRemains();
    HostUserFits();
    BareMigrates(HostDb());
  }

  lemma PlainIndexes(names: seq<string>)
    ensures Plain(names).indexes == {}
  {
  }

  lemma HostEnrollment()
    ensures EnrollmentWillDo(Others(HostDb()))
  {
    hide Plain;
    assert Others(HostDb()).Keys == {SESSIONS} && Others(HostDb())[SESSIONS] == HostSessions();
    PlainIndexes(["user_id"]);
  }

  lemma HostResult(d: Db)
    requires Migrated(HostDb()) == Some(d)
    ensures Inspect(d) == Current && Complete(HostDb()) && Complete(d)
    ensures Users(d[USERS]) == Users(HostDb()[USERS]) && SESSIONS in d && d[SESSIONS].rows == []
  {
    hide Inspect, Migrated, ApplyEnrollment, AfterDrops, Remaining, HostDb, Users, WithIndex, EnrollmentCanonical,
        EnrollmentWillDo, Bare, NewUsers;
    HostLayout();
    HostRemains();
    FlowKeyResult(HostDb(), d);
    EnrollmentApplied(Rebuilt(HostDb()));
    FlowKeyKeepsRows(HostDb(), d);
    HostEnrollment();
    FlowKeyState(HostDb(), d);
  }

  /** Migrating such a database keeps the user and loses the user's session. */
  lemma HostRowsLost()
    ensures var db, m := HostDb(), Migrated(HostDb());
            && Inspect(db) == LegacyFlowKey && m.Some? && Inspect(m.value) == Current
            && Complete(db) && Complete(m.value) && Users(m.value[USERS]) == Users(db[USERS])
            && SESSIONS in db && db[SESSIONS].rows == [OneSession()]
            && SESSIONS in m.value && m.value[SESSIONS].rows == []
  {
    hide Inspect, Migrated, Migratable, HostDb, Users;
    HostLayout();
    HostTables();
    HostMigrates();
    MigratableMigrates(HostDb());
    HostResult(Migrated(HostDb()).value);
  }

  /** Version 2 with a users table whose handles are not unique, which its inspection does not look at. */
  function V2Db(): Db {
    map[METADATA := MetadataTable([map["schema_version" := Int(2)]]),
        USERS := Table(USERS_COLUMNS, {Auto(["user_id"])}, [], []),
        CREDENTIALS := WithIndex(CredentialsTable(USERS, []), OWNER_INDEX, "user_id"),
        CHALLENGES := WithIndex(Table(V2_CHALLENGES_COLUMNS, {Auto(["key", "kind"])}, [], []), EXPIRY_INDEX,
                                "expires_at")]
  }

  lemma V2Layout()
    ensures Inspect(V2Db()) == LegacyV2
  {
    WithIndexKeeps(CredentialsTable(USERS, []), OWNER_INDEX, "user_id");
    WithIndexKeeps(Table(V2_CHALLENGES_COLUMNS, {Auto(["key", "kind"])}, [], []), EXPIRY_INDEX, "expires_at");
    V2Columns(V2Db()[CHALLENGES]);
    hide HasIndex, HasColumn, CanonicalLayout;
  }

  lemma V2LeftUnsupported()
    ensures Inspect(V2Db()) == LegacyV2 && Migrated(V2Db()).Some? && Inspect(Migrated(V2Db()).value) == Unsupported
  {
    var db := V2Db();
    V2Layout();
    assert !UniqueOn(db[USERS], "user_handle");
    V2Shape(db);
    hide Inspect, UpgradedV2;
    assert Migrated(db).Some? by { V2Applies(db); }
    V2State(db);
  }

  lemma V2Applies(db: Db)
    requires CHALLENGES in db && METADATA in db && ENROLLMENT !in db
    ensures UpgradedV2(db).Some?
  {
    ApplyEnrollmentExactly(db[CHALLENGES := WithContextColumns(db[CHALLENGES])]);
  }

  /** A database of some later version, which inspection refuses. */
  function LaterDb(): Db {
    V2Db()[METADATA := MetadataTable([map["schema_version" := Int(4)]])]
  }

  /** Committed after the inspection, it is altered and stamped with version 3 all the same. */
  lemma LaterVersionAltered()
    ensures Inspect(V2Db()) == LegacyV2 && Inspect(LaterDb()) == Unsupported
    ensures MigratedAfter(V2Db(), LaterDb()).Some?
  {
    V2Layout();
    assert Inspect(LaterDb()) == Unsupported by {
      V2Columns(LaterDb()[CHALLENGES]);
      hide HasColumn;
    }
    hide Inspect, UpgradedV2;
    V2Columns(LaterDb()[CHALLENGES]);
    V2Applies(LaterDb());
  }
}
