/**
  ensure_sqlite_schema and migrate_sqlite_schema, statement by statement on a connection, with their
  row-copy loops, proved to leave what SchemaMigration says or, in standalone mode, nothing at all.
*/
module SchemaRun {
  import opened Wrappers
  import opened SchemaTables
  import opened SchemaDrops
  import opened SchemaInspection
  import opened SchemaMigration
  import opened Transactions

  datatype SchemaError = NoTransaction | ForeignKeysOff | PendingTransaction | UnsupportedSchema | StatementFailed

  // ---- Copying the rows ----

  /** One INSERT of a copy loop: the rows before it are in, and it fits or the loop stops. */
  method InsertRow(conn: Connection<Db>, name: string, row: Row, ghost start: Db, ghost rows: seq<Row>, ghost i: nat)
    returns (ok: bool)
    requires name in start && i < |rows| && rows[i] == row && InsertAll(start, name, rows[..i]) == Some(conn.working)
    modifies conn`working
    ensures ok ==> InsertAll(start, name, rows[..i + 1]) == Some(conn.working)
    ensures !ok ==> InsertAll(start, name, rows) == None
  {
    hide Insert;
    assert rows[..i + 1][..i] == rows[..i] && rows[..i + 1][i] == row;
    var inserted := Insert(conn.working, name, row);
    if inserted.None? {
      StoppedCopy(start, name, rows, i + 1);
      return false;
    }
    conn.working := inserted.value;
    return true;
  }

  method CopyUsers(conn: Connection<Db>, source: Table) returns (ok: bool)
    requires USERS_V2 in conn.working && conn.working[USERS_V2] == UsersTable([])
    modifies conn`working
    ensures ok == AllFit(old(conn.working), UsersTable([]), NewUsers(source))
    ensures ok ==> conn.working == old(conn.working)[USERS_V2 := UsersTable(NewUsers(source))]
  {
    hide AllFit, InsertAll, CopyUser;
    ghost var start, rows := conn.working, NewUsers(source);
    InsertAllExactly(start, USERS_V2, rows);
    NothingInserted(start, USERS_V2, rows);
    var i := 0;
    while i < |source.rows|
      invariant 0 <= i <= |source.rows| == |rows| && InsertAll(start, USERS_V2, rows[..i]) == Some(conn.working)
    {
      ok := InsertRow(conn, USERS_V2, CopyUser(source.rows[i]), start, rows, i);
      if !ok {
        return;
      }
      i := i + 1;
    }
    assert rows[..i] == rows;
    return true;
  }

  lemma NothingInserted(db: Db, name: string, rows: seq<Row>)
    requires name in db
    ensures InsertAll(db, name, rows[..0]) == Some(db)
  {
  }

  method CopyCredentials(conn: Connection<Db>, source: Table) returns (ok: bool)
    requires CREDENTIALS_V2 in conn.working && conn.working[CREDENTIALS_V2] == CredentialsTable(USERS_V2, [])
    modifies conn`working
    ensures ok == AllFit(old(conn.working), CredentialsTable(USERS_V2, []), NewCredentials(source))
    ensures ok ==>
              conn.working == old(conn.working)[CREDENTIALS_V2 := CredentialsTable(USERS_V2, NewCredentials(source))]
  {
    hide AllFit, InsertAll, CopyCredential;
    ghost var start, rows := conn.working, NewCredentials(source);
    InsertAllExactly(start, CREDENTIALS_V2, rows);
    NothingInserted(start, CREDENTIALS_V2, rows);
    var i := 0;
    while i < |source.rows|
      invariant 0 <= i <= |source.rows| == |rows| && InsertAll(start, CREDENTIALS_V2, rows[..i]) == Some(conn.working)
    {
      ok := InsertRow(conn, CREDENTIALS_V2, CopyCredential(source, source.rows[i]), start, rows, i);
      if !ok {
        return;
      }
      i := i + 1;
    }
    assert rows[..i] == rows;
    return true;
  }

  method CopyChallenges(conn: Connection<Db>, source: Table) returns (ok: bool)
    requires CHALLENGES_V2 in conn.working && conn.working[CHALLENGES_V2] == ChallengesTable([])
    modifies conn`working
    ensures ok == AllFit(old(conn.working), ChallengesTable([]), NewChallenges(source))
    ensures ok ==> conn.working == old(conn.working)[CHALLENGES_V2 := ChallengesTable(NewChallenges(source))]
  {
    hide AllFit, InsertAll, CopyChallenge;
    ghost var start, rows := conn.working, NewChallenges(source);
    InsertAllExactly(start, CHALLENGES_V2, rows);
    NothingInserted(start, CHALLENGES_V2, rows);
    var i := 0;
    while i < |source.rows|
      invariant 0 <= i <= |source.rows| == |rows| && InsertAll(start, CHALLENGES_V2, rows[..i]) == Some(conn.working)
    {
      ok := InsertRow(conn, CHALLENGES_V2, CopyChallenge(source.rows[i]), start, rows, i);
      if !ok {
        return;
      }
      i := i + 1;
    }
    assert rows[..i] == rows;
    return true;
  }

  // ---- Swapping the tables ----

  lemma NextDrop(db: Db, names: seq<string>, i: nat)
    requires i < |names| && Droppable(db, names[i..])
    ensures names[i] in db
    ensures Drop(db, names[i]).None? ==> DropAll(db, names[i..]).None?
    ensures Drop(db, names[i]).Some? ==>
              var d := Drop(db, names[i]).value;
              Droppable(d, names[i + 1..]) && DropAll(db, names[i..]) == DropAll(d, names[i + 1..])
  {
    hide Drop;
    assert names[i..][0] == names[i] && names[i..][1..] == names[i + 1..];
  }

  method DropTables(conn: Connection<Db>, names: seq<string>) returns (ok: bool)
    requires Droppable(conn.working, names)
    modifies conn`working
    ensures ok == DropAll(old(conn.working), names).Some?
    ensures ok ==> conn.working == DropAll(old(conn.working), names).value
  {
    hide Drop, Droppable;
    var i := 0;
    assert names[i..] == names;
    while i < |names|
      invariant 0 <= i <= |names| && Droppable(conn.working, names[i..])
      invariant DropAll(conn.working, names[i..]) == DropAll(old(conn.working), names)
    {
      hide DropAll;
      NextDrop(conn.working, names, i);
      var dropped := Drop(conn.working, names[i]);
      if dropped.None? {
        return false;
      }
      conn.working := dropped.value;
      i := i + 1;
    }
    return true;
  }

  /** The copies in place of the tables they were made from, beside the tables that remain. */
  function Swapped(o: Db, users: seq<Row>, credentials: seq<Row>, challenges: seq<Row>): Db {
    o[USERS := UsersTable(users)][CREDENTIALS := CredentialsTable(USERS, credentials)]
     [CHALLENGES := ChallengesTable(challenges)]
  }

  /** The drops leave the copies alone, and the renames put them in place and take every key along. */
  method SwapTables(conn: Connection<Db>, ghost db: Db) returns (ok: bool)
    requires Complete(db) && TEMPORARY !! db.Keys && conn.working == Staged(db)
    modifies conn`working
    ensures ok == AfterDrops(db).Some?
    ensures ok ==>
              conn.working == Swapped(Remaining(db), NewUsers(db[USERS]), NewCredentials(db[CREDENTIALS]),
                                      NewChallenges(db[CHALLENGES]))
  {
    hide Rename, UsersTable, CredentialsTable, ChallengesTable, DropAll, NewUsers, NewCredentials, NewChallenges,
        RedirectAll, Redirected;
    ok := DropTables(conn, DROPS);
    if !ok {
      return;
    }
    ghost var d := conn.working;
    CopiesStay(db);
    RenamesExactly(d);
    CopiesRelinked(NewUsers(db[USERS]), NewCredentials(db[CREDENTIALS]), NewChallenges(db[CHALLENGES]));
    conn.working := Rename(conn.working, USERS_V2, USERS);
    conn.working := Rename(conn.working, CREDENTIALS_V2, CREDENTIALS);
    conn.working := Rename(conn.working, CHALLENGES_V2, CHALLENGES);
  }

  /** The copies refer only to one another. */
  lemma CopiesStay(db: Db)
    requires Complete(db) && TEMPORARY !! db.Keys && AfterDrops(db).Some?
    ensures TEMPORARY <= AfterDrops(db).value.Keys && {USERS, CREDENTIALS, CHALLENGES} !! AfterDrops(db).value.Keys
    ensures forall t | t in TEMPORARY :: AfterDrops(db).value[t] == Staged(db)[t]
  {
    hide DropAll, NewUsers, NewCredentials, NewChallenges;
    EnclosedStay(Staged(db), DROPS, TEMPORARY);
  }

  lemma RenamesExactly(d: Db)
    requires TEMPORARY <= d.Keys && {USERS, CREDENTIALS, CHALLENGES} !! d.Keys
    ensures Rename(Rename(Rename(d, USERS_V2, USERS), CREDENTIALS_V2, CREDENTIALS), CHALLENGES_V2, CHALLENGES)
         == Relinked(d - TEMPORARY)[USERS := RelinkedTable(d[USERS_V2])]
              [CREDENTIALS := RelinkedTable(d[CREDENTIALS_V2])]
              [CHALLENGES := RelinkedTable(d[CHALLENGES_V2])]
  {
    hide Redirected;
  }

  lemma CopiesRelinked(users: seq<Row>, credentials: seq<Row>, challenges: seq<Row>)
    ensures RelinkedTable(UsersTable(users)) == UsersTable(users)
    ensures RelinkedTable(CredentialsTable(USERS_V2, credentials)) == CredentialsTable(USERS, credentials)
    ensures RelinkedTable(ChallengesTable(challenges)) == ChallengesTable(challenges)
  {
    assert Redirected(CredentialsTable(USERS_V2, credentials), USERS_V2, USERS).foreignKeys == [OWNER_KEY];
  }

  // ---- The 0.1 migration ----

  /** The statements on whatever database is found; what they do not find makes them raise. */
  method MigrateFlowKey(conn: Connection<Db>) returns (ok: bool)
    modifies conn`working
    ensures ok == FlowKeyStatements(old(conn.working)).Some?
    ensures ok ==> conn.working == FlowKeyStatements(old(conn.working)).value
  {
    hide Migratable, Rebuilt, LegacyColumns, HasColumn, ApplyEnrollment;
    if !ReadsFlowKey(conn.working) {
      return false;
    }
    ok := RebuildTables(conn);
  }

  method RebuildTables(conn: Connection<Db>) returns (ok: bool)
    requires Complete(conn.working) && METADATA !in conn.working
    modifies conn`working
    ensures ok == Migratable(old(conn.working))
    ensures ok ==> ApplyEnrollment(Rebuilt(old(conn.working))) == Some(conn.working)
  {
    hide AllFit, UsersTable, CredentialsTable, ChallengesTable, NewUsers, NewCredentials, NewChallenges,
        ForeignKeysHold, Inspect;
    hide ApplyEnrollment, Rebuilt, WithIndex, IndexTaken, HasColumn, IndexNamed, AfterDrops, Remaining;
    ghost var db := conn.working;
    var users, credentials, challenges := conn.working[USERS], conn.working[CREDENTIALS], conn.working[CHALLENGES];
    if USERS_V2 in conn.working || CREDENTIALS_V2 in conn.working || CHALLENGES_V2 in conn.working {
      return false;
    }
    conn.working := conn.working[USERS_V2 := UsersTable([])];
    conn.working := conn.working[CREDENTIALS_V2 := CredentialsTable(USERS_V2, [])];
    conn.working := conn.working[CHALLENGES_V2 := ChallengesTable([])];
    ghost var created := conn.working;
    FitAnywhere(db, created, NewUsers(users), NewChallenges(challenges));
    ok := CopyUsers(conn, users);
    if !ok {
      return;
    }
    ghost var copied := conn.working;
    FitWithUsers(db, copied, NewUsers(users), NewCredentials(credentials));
    ok := CopyCredentials(conn, credentials);
    if !ok {
      return;
    }
    FitAnywhere(db, conn.working, NewUsers(users), NewChallenges(challenges));
    ok := CopyChallenges(conn, challenges);
    if !ok {
      return;
    }
    // The row counts are compared here, and cannot differ.
    assert |NewUsers(users)| == |users.rows| && |NewCredentials(credentials)| == |credentials.rows|
        && |NewChallenges(challenges)| == |challenges.rows| by { SameCounts(users, credentials, challenges); }
    assert conn.working == Staged(db);
    ok := SwapTables(conn, db);
    if !ok {
      return;
    }
    ok := Finish(conn, db);
  }

  lemma SameCounts(users: Table, credentials: Table, challenges: Table)
    ensures |NewUsers(users)| == |users.rows| && |NewCredentials(credentials)| == |credentials.rows|
    ensures |NewChallenges(challenges)| == |challenges.rows|
  {
  }

  /** Users and challenges have no parents, so they fit into one database exactly when they fit into another. */
  lemma FitAnywhere(a: Db, b: Db, users: seq<Row>, challenges: seq<Row>)
    ensures AllFit(a, UsersTable([]), users) == AllFit(b, UsersTable([]), users)
    ensures AllFit(a, ChallengesTable([]), challenges) == AllFit(b, ChallengesTable([]), challenges)
  {
  }

  lemma FitWithUsers(db: Db, d: Db, users: seq<Row>, credentials: seq<Row>)
    requires USERS_V2 in d && d[USERS_V2] == UsersTable(users)
    ensures AllFit(db[USERS_V2 := UsersTable(users)], CredentialsTable(USERS_V2, []), credentials)
         == AllFit(d, CredentialsTable(USERS_V2, []), credentials)
  {
    hide Apart, NotNulls, UsersTable;
    var e := db[USERS_V2 := UsersTable(users)];
    forall row
      ensures ParentsFound(e, CredentialsTable(USERS_V2, []), row)
                == ParentsFound(d, CredentialsTable(USERS_V2, []), row)
    {
      assert ParentFound(e, OWNER_KEY.(table := USERS_V2), row) == ParentFound(d, OWNER_KEY.(table := USERS_V2), row);
    }
  }

  /** The two named indexes, which only a table the migration does not touch can already hold. */
  method IndexTables(conn: Connection<Db>, ghost o: Db, ghost users: seq<Row>, ghost credentials: seq<Row>,
                     ghost challenges: seq<Row>)
    returns (ok: bool)
    requires USERS !in o && CREDENTIALS !in o && CHALLENGES !in o
    requires conn.working == Swapped(o, users, credentials, challenges)
    modifies conn`working
    ensures ok == (!IndexTaken(o, OWNER_INDEX) && !IndexTaken(o, EXPIRY_INDEX))
    ensures ok ==> conn.working ==
                   o[USERS := UsersTable(users)]
                    [CREDENTIALS := WithIndex(CredentialsTable(USERS, credentials), OWNER_INDEX, "user_id")]
                    [CHALLENGES := WithIndex(ChallengesTable(challenges), EXPIRY_INDEX, "expires_at")]
  {
    hide UsersTable, CredentialsTable, ChallengesTable, WithIndex, IndexTaken, HasColumn, IndexNamed;
    NewTableIndexes(USERS, users, OWNER_INDEX);
    NewTableIndexes(USERS, credentials, OWNER_INDEX);
    NewTableIndexes(USERS, challenges, OWNER_INDEX);
    TakenElsewhere(o, conn.working, OWNER_INDEX);
    NewTableColumns(USERS, credentials);
    NewTableColumns(USERS, challenges);
    var owned := CreateIndex(conn.working, CREDENTIALS, OWNER_INDEX, "user_id");
    if owned.None? {
      return false;
    }
    conn.working := owned.value;
    NewTableIndexes(USERS, users, EXPIRY_INDEX);
    NewTableIndexes(USERS, credentials, EXPIRY_INDEX);
    NewTableIndexes(USERS, challenges, EXPIRY_INDEX);
    TakenElsewhere(o, conn.working, EXPIRY_INDEX);
    var indexed := CreateIndex(conn.working, CHALLENGES, EXPIRY_INDEX, "expires_at");
    if indexed.None? {
      return false;
    }
    conn.working := indexed.value;
    return true;
  }

  lemma RebuiltFromRemaining(db: Db)
    requires Complete(db) && AfterDrops(db).Some?
    ensures Remaining(db)[USERS := UsersTable(NewUsers(db[USERS]))]
                         [CREDENTIALS := WithIndex(CredentialsTable(USERS, NewCredentials(db[CREDENTIALS])),
                                                   OWNER_INDEX, "user_id")]
                         [CHALLENGES := WithIndex(ChallengesTable(NewChallenges(db[CHALLENGES])), EXPIRY_INDEX,
                                                  "expires_at")]
                         [METADATA := MetadataTable([])][METADATA := MetadataTable([VersionRow()])]
         == Rebuilt(db)
  {
    hide UsersTable, CredentialsTable, ChallengesTable, WithIndex, NewUsers, NewCredentials, NewChallenges,
        MetadataTable, Remaining, AfterDrops;
  }

  /** The remaining tables hold the index names the others held before. */
  lemma RemainingIndexes(db: Db, name: string)
    requires Complete(db) && AfterDrops(db).Some? && TEMPORARY !! db.Keys
    ensures IndexTaken(Remaining(db), name) == IndexTaken(Others(db), name)
  {
    hide Remaining, AfterDrops, LeftAlone;
    RemainingExactly(db);
    var r, o := Remaining(db), Others(db);
    forall t | t in o
      ensures IndexNamed(r[t], name) == IndexNamed(o[t], name)
    {
    }
    if IndexTaken(o, name) {
      var t :| t in o && IndexNamed(o[t], name);
      assert IndexNamed(r[t], name);
    }
    if IndexTaken(r, name) {
      var t :| t in r && IndexNamed(r[t], name);
      assert t in o && IndexNamed(o[t], name);
    }
  }

  /** The two indexes, the metadata, the enrollment table and the foreign key check. */
  method Finish(conn: Connection<Db>, ghost db: Db) returns (ok: bool)
    requires Complete(db) && METADATA !in db && TEMPORARY !! db.Keys && AfterDrops(db).Some?
    requires conn.working
               == Swapped(Remaining(db), NewUsers(db[USERS]), NewCredentials(db[CREDENTIALS]),
                          NewChallenges(db[CHALLENGES]))
    modifies conn`working
    ensures ok == (&& !IndexTaken(Others(db), OWNER_INDEX) && !IndexTaken(Others(db), EXPIRY_INDEX)
                   && ApplyEnrollment(Rebuilt(db)).Some? && ForeignKeysHold(ApplyEnrollment(Rebuilt(db)).value))
    ensures ok ==> ApplyEnrollment(Rebuilt(db)) == Some(conn.working)
  {
    hide UsersTable, CredentialsTable, ChallengesTable, NewUsers, NewCredentials, NewChallenges, ForeignKeysHold;
    hide ApplyEnrollment, WithIndex, IndexTaken, MetadataTable, Rebuilt, Remaining, AfterDrops, LeftAlone;
    RemainingExactly(db);
    RemainingIndexes(db, OWNER_INDEX);
    RemainingIndexes(db, EXPIRY_INDEX);
    ok := IndexTables(conn, Remaining(db), NewUsers(db[USERS]), NewCredentials(db[CREDENTIALS]),
                      NewChallenges(db[CHALLENGES]));
    if !ok {
      return;
    }
    conn.working := conn.working[METADATA := MetadataTable([])];
    conn.working := conn.working[METADATA := MetadataTable([VersionRow()])];
    RebuiltFromRemaining(db);
    var applied := ApplyEnrollment(conn.working);
    if applied.None? {
      return false;
    }
    conn.working := applied.value;
    return ForeignKeysHold(conn.working);
  }

  // ---- Version 2 ----

  method MigrateV2(conn: Connection<Db>) returns (ok: bool)
    modifies conn`working
    ensures ok == V2Statements(old(conn.working)).Some?
    ensures ok ==> conn.working == V2Statements(old(conn.working)).value
  {
    hide ApplyEnrollment, HasColumn, Restamped, VersionColumn;
    ghost var db := conn.working;
    if CHALLENGES !in conn.working {
      return false;
    }
    var kinded := AddColumn(conn.working, CHALLENGES, TextColumn("registration_kind"));
    if kinded.None? {
      return false;
    }
    conn.working := kinded.value;
    assert HasColumn(conn.working[CHALLENGES], "capability_id") == HasColumn(db[CHALLENGES], "capability_id") by {
      OneMoreColumn(db[CHALLENGES]);
    }
    var bound := AddColumn(conn.working, CHALLENGES, TextColumn("capability_id"));
    if bound.None? {
      return false;
    }
    conn.working := bound.value;
    assert conn.working == db[CHALLENGES := WithContextColumns(db[CHALLENGES])] by {
      assert conn.working[CHALLENGES].columns == WithContextColumns(db[CHALLENGES]).columns;
      assert conn.working[CHALLENGES].rows == WithContextColumns(db[CHALLENGES]).rows;
    }
    EnrollmentStays(conn.working);
    var applied := ApplyEnrollment(conn.working);
    if applied.None? {
      return false;
    }
    conn.working := applied.value;
    if METADATA !in conn.working || !VersionColumn(conn.working[METADATA]) {
      return false;
    }
    conn.working := conn.working[METADATA := Restamped(conn.working[METADATA])];
    return true;
  }

  lemma OneMoreColumn(t: Table)
    ensures forall rows ::
              HasColumn(t.(columns := t.columns + [TextColumn("registration_kind")], rows := rows), "capability_id")
                == HasColumn(t, "capability_id")
  {
    forall rows
      ensures HasColumn(t.(columns := t.columns + [TextColumn("registration_kind")], rows := rows), "capability_id")
                == HasColumn(t, "capability_id")
    {
      var t' := t.(columns := t.columns + [TextColumn("registration_kind")], rows := rows);
      if HasColumn(t, "capability_id") {
        var i :| 0 <= i < |t.columns| && t.columns[i].name == "capability_id";
        assert t'.columns[i].name == "capability_id";
      }
    }
  }

  lemma EnrollmentStays(db: Db)
    ensures ApplyEnrollment(db).Some? ==>
              && (METADATA in ApplyEnrollment(db).value <==> METADATA in db)
              && (METADATA in db ==> ApplyEnrollment(db).value[METADATA] == db[METADATA])
  {
    hide ApplyEnrollment, EnrollmentCanonical, EnrollmentWillDo;
    if ApplyEnrollment(db).Some? { EnrollmentApplied(db); }
  }

  // ---- The two entry points ----

  /** Whether the connection is in the mode the caller named; standalone mode turns foreign keys on. */
  method CheckMode(conn: Connection<Db>, external: bool) returns (refusal: Option<SchemaError>)
    requires conn.Valid()
    modifies conn`foreignKeys
    ensures conn.Valid()
    ensures refusal == if external then
                         (if !conn.inTransaction then Some(SchemaError.NoTransaction)
                          else if !old(conn.foreignKeys) then Some(SchemaError.ForeignKeysOff) else None)
                       else if conn.inTransaction then Some(PendingTransaction) else None
    ensures external ==> conn.foreignKeys == old(conn.foreignKeys)
  {
    if external {
      return
        if !conn.inTransaction then Some(SchemaError.NoTransaction)
        else if !conn.foreignKeys then Some(SchemaError.ForeignKeysOff)
        else None;
    }
    if conn.inTransaction {
      return Some(PendingTransaction);
    }
    conn.foreignKeys := true;
    return None;
  }

  /** Standalone runs end with a commit or a rollback; external ones leave the transaction to the caller. */
  method Close(conn: Connection<Db>, external: bool, ok: bool)
    requires conn.Valid() && conn.inTransaction
    modifies conn`committed, conn`working, conn`inTransaction, conn`savepoints
    ensures conn.Valid() && conn.inTransaction == external
    ensures external ==>
              && conn.working == old(conn.working) && conn.committed == old(conn.committed)
              && conn.savepoints == old(conn.savepoints)
    ensures !external ==> conn.committed == if ok then old(conn.working) else old(conn.committed)
  {
    if !external {
      if ok {
        conn.Commit();
      } else {
        conn.Rollback();
      }
    }
  }

  /**
    What a schema function does to its connection when its statements turn the database into `after`,
    or raise (None): standalone, the committed database changes completely or not at all; external,
    the caller's transaction goes on, and after a failure only its rollback is safe.
  */
  twostate predicate Applied(conn: Connection<Db>, external: bool, new after: Option<Db>, new ok: bool)
    reads conn
  {
    && ok == after.Some?
    && conn.inTransaction == old(conn.inTransaction) && conn.savepoints == old(conn.savepoints)
    && (ok ==> conn.working == after.value)
    && conn.committed == if !external && ok then after.value else old(conn.committed)
  }

  /** Another connection commits while this one holds no transaction. */
  method OthersCommit(conn: Connection<Db>, db: Db)
    requires conn.Valid() && !conn.inTransaction
    modifies conn`committed, conn`working
    ensures conn.Valid() && conn.working == conn.committed == db
  {
    conn.committed, conn.working := db, db;
  }

  /**
    In standalone mode `meanwhile` is the database other connections have committed by the time this
    one has the write lock.  A database first seen as current is not inspected again.
  */
  method Ensure(conn: Connection<Db>, external: bool, meanwhile: Db) returns (r: Result<(), SchemaError>)
    requires conn.Valid()
    modifies conn
    ensures conn.Valid()
    ensures var refused := if external then !old(conn.inTransaction) || !old(conn.foreignKeys)
              else old(conn.inTransaction);
            && (refused ==> r.Failure? && conn.working == old(conn.working) && conn.committed == old(conn.committed)
                            && conn.inTransaction == old(conn.inTransaction))
            && (!refused && external ==> Applied(conn, external, Ensured(old(conn.working)), r.Success?))
            && (!refused && !external ==>
                  && !conn.inTransaction
                  && if r == Failure(UnsupportedSchema) && !Ensurable(Inspect(old(conn.working))) then
                      conn.committed == old(conn.committed)
                     else
                       var after := EnsuredAfter(old(conn.working), meanwhile);
                       r.Success? == after.Some? && conn.committed == if after.Some? then after.value else meanwhile)
  {
    hide ApplyEnrollment, ApplySchema, Inspect, Ensured;
    var refusal := CheckMode(conn, external);
    if refusal.Some? {
      return Failure(refusal.value);
    }
    var state := Inspect(conn.working);
    if !Ensurable(state) {
      NotEnsured(conn.working);
      return Failure(UnsupportedSchema);
    }
    if !external {
      OthersCommit(conn, meanwhile);
      var _ := conn.Begin();
    }
    var done;
    if state == Current {
      if external {
        EnsuredCurrent(conn.working);
      }
      done := ApplyEnrollmentTo(conn);
    } else {
      done := ApplyEnsured(conn, Inspect(conn.working));
    }
    Close(conn, external, done);
    return if done then Success(()) else Failure(StatementFailed);
  }

  predicate Ensurable(state: State) {
    state == Current || state == Empty || state == CanonicalUnversioned
  }

  lemma NotEnsured(db: Db)
    requires !Ensurable(Inspect(db))
    ensures Ensured(db) == None
  {
    hide Inspect, ApplyEnrollment, ApplySchema;
  }

  lemma EnsuredCurrent(db: Db)
    requires Inspect(db) == Current
    ensures Ensured(db) == ApplyEnrollment(db)
  {
    hide Inspect, ApplyEnrollment, ApplySchema;
  }

  method ApplyEnrollmentTo(conn: Connection<Db>) returns (ok: bool)
    requires conn.Valid() && conn.inTransaction
    modifies conn`working
    ensures conn.Valid() && ok == ApplyEnrollment(old(conn.working)).Some?
    ensures ok ==> conn.working == ApplyEnrollment(old(conn.working)).value
  {
    hide ApplyEnrollment;
    var applied := ApplyEnrollment(conn.working);
    ok := applied.Some?;
    if ok {
      conn.working := applied.value;
    }
  }

  /** The statements for the state found under the lock; a state that cannot be ensured raises. */
  method ApplyEnsured(conn: Connection<Db>, state: State) returns (ok: bool)
    requires conn.Valid() && conn.inTransaction && state == Inspect(conn.working)
    modifies conn`working
    ensures conn.Valid() && ok == Ensured(old(conn.working)).Some?
    ensures ok ==> conn.working == Ensured(old(conn.working)).value
  {
    hide ApplyEnrollment, ApplySchema, Inspect;
    if !Ensurable(state) {
      return false;
    }
    if state == Empty {
      var applied := ApplySchema(conn.working);
      if applied.None? {
        return false;
      }
      conn.working := applied.value;
    } else {
      if state == CanonicalUnversioned {
        conn.working := conn.working[METADATA := MetadataTable([])];
      }
      var applied := ApplyEnrollmentTo(conn);
      if !applied {
        return false;
      }
      if state == Current {
        return true;
      }
    }
    conn.working := Stamped(conn.working);
    return true;
  }

  /**
    In standalone mode `meanwhile` is the database other connections have committed by the time this
    one has the write lock; a legacy database is not inspected again.
  */
  method Migrate(conn: Connection<Db>, external: bool, meanwhile: Db) returns (r: Result<State, SchemaError>)
    requires conn.Valid()
    modifies conn
    ensures conn.Valid()
    ensures var refused := if external then !old(conn.inTransaction) || !old(conn.foreignKeys)
              else old(conn.inTransaction);
            && (refused ==> r.Failure? && conn.working == old(conn.working) && conn.committed == old(conn.committed)
                            && conn.inTransaction == old(conn.inTransaction))
            && (!refused && external ==> Applied(conn, external, Migrated(old(conn.working)), r.Success?))
            && (!refused && !external ==>
                  && !conn.inTransaction
                  && if Settled(Inspect(old(conn.working))) then
                       && conn.committed == old(conn.committed)
                       && r.Success? == Migrated(old(conn.working)).Some?
                     else
                       var after := MigratedAfter(old(conn.working), meanwhile);
                       r.Success? == after.Some? && conn.committed == if after.Some? then after.value else meanwhile)
    ensures r.Success? ==> r.value == Inspect(conn.working)
  {
    hide Inspect, Migratable, UpgradedV2, Ensured, ApplyEnrollment, Rebuilt, V2Statements, FlowKeyStatements;
    var refusal := CheckMode(conn, external);
    if refusal.Some? {
      return Failure(refusal.value);
    }
    MigratedUndisturbed(conn.working);
    var state := Inspect(conn.working);
    if state == Current {
      return Success(state);
    }
    if state == Empty || state == CanonicalUnversioned {
      var ensured := Ensure(conn, external, meanwhile);
      return match ensured case Success(_) => Success(Inspect(conn.working)) case Failure(e) => Failure(e);
    }
    if state == Unsupported {
      return Failure(UnsupportedSchema);
    }
    if !external {
      OthersCommit(conn, meanwhile);
      var _ := conn.Begin();
    }
    var ok;
    if state == LegacyV2 {
      ok := MigrateV2(conn);
    } else {
      ok := MigrateFlowKey(conn);
    }
    Close(conn, external, ok);
    return if ok then Success(Inspect(conn.working)) else Failure(StatementFailed);
  }

  /** The states on which no statement runs. */
  predicate Settled(state: State) {
    state == Current || state == Unsupported
  }
}
