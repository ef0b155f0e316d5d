/** Which rows the three new tables of the 0.1 migration accept, column by column. */
module SchemaRows {
  import opened Wrappers
  import opened SchemaTables
  import opened SchemaInspection
  import opened SchemaMigration

  /** Users need a handle and a name; ids, where there are any, and handles are distinct. */
  lemma UsersFitExactly(db: Db, rows: seq<Row>)
    ensures AllFit(db, UsersTable([]), rows) <==>
              && (forall k | 0 <= k < |rows| :: At(rows[k], "user_handle") != Null && At(rows[k], "name") != Null)
              && (forall j, k | 0 <= j < k < |rows| ::
                    && At(rows[j], "user_handle") != At(rows[k], "user_handle")
                    && (At(rows[j], "user_id") == At(rows[k], "user_id") ==> At(rows[j], "user_id") == Null))
  {
    hide Apart, NotNulls;
    var t := UsersTable([]);
    forall k | 0 <= k < |rows|
      ensures NotNulls(t, rows[k]) <==> At(rows[k], "user_handle") != Null && At(rows[k], "name") != Null
    {
      UserNotNulls(rows[k]);
    }
    forall j, k | 0 <= j < k < |rows|
      ensures Apart(t, rows[j], rows[k]) <==>
                && (At(rows[j], "user_handle") == At(rows[k], "user_handle") ==> At(rows[j], "user_handle") == Null)
                && (At(rows[j], "user_id") == At(rows[k], "user_id") ==> At(rows[j], "user_id") == Null)
    {
      UsersApart(rows[j], rows[k]);
    }
  }

  lemma UserNotNulls(row: Row)
    ensures NotNulls(UsersTable([]), row) <==> At(row, "user_handle") != Null && At(row, "name") != Null
  {
    var cs := UsersTable([]).columns;
    assert cs[1].notNull && cs[1].name == "user_handle" && cs[2].notNull && cs[2].name == "name";
  }

  lemma OneKey(column: string, a: Row, b: Row)
    ensures SameKey([column], a, b) <==> At(a, column) != Null && At(a, column) == At(b, column)
  {
    assert [column][0] == column;
  }

  lemma UsersApart(a: Row, b: Row)
    ensures Apart(UsersTable([]), a, b) <==> !SameKey(["user_id"], a, b) && !SameKey(["user_handle"], a, b)
    ensures SameKey(["user_id"], a, b) <==> At(a, "user_id") != Null && At(a, "user_id") == At(b, "user_id")
    ensures SameKey(["user_handle"], a, b) <==>
              At(a, "user_handle") != Null && At(a, "user_handle") == At(b, "user_handle")
  {
    OneKey("user_id", a, b);
    OneKey("user_handle", a, b);
    hide SameKey;
    assert Auto(["user_id"]) in UsersTable([]).indexes && Auto(["user_handle"]) in UsersTable([]).indexes;
  }

  /** Credentials need a stored user, a key, a counter and a date; ids, where there are any, are distinct. */
  lemma CredentialsFitExactly(db: Db, rows: seq<Row>)
    requires USERS_V2 in db
    ensures AllFit(db, CredentialsTable(USERS_V2, []), rows) <==>
              && (forall k | 0 <= k < |rows| ::
                    && At(rows[k], "user_id") != Null && At(rows[k], "public_key") != Null
                    && At(rows[k], "sign_count") != Null && At(rows[k], "created_at") != Null
                    && exists u | 0 <= u < |db[USERS_V2].rows| ::
                         At(db[USERS_V2].rows[u], "user_id") == At(rows[k], "user_id"))
              && (forall j, k | 0 <= j < k < |rows| ::
                    At(rows[j], "credential_id") == At(rows[k], "credential_id") ==>
                      At(rows[j], "credential_id") == Null)
  {
    hide Apart, NotNulls, ParentsFound;
    var t := CredentialsTable(USERS_V2, []);
    forall k | 0 <= k < |rows|
      ensures NotNulls(t, rows[k]) && ParentsFound(db, t, rows[k]) <==>
                && At(rows[k], "user_id") != Null && At(rows[k], "public_key") != Null
                && At(rows[k], "sign_count") != Null && At(rows[k], "created_at") != Null
                && exists u | 0 <= u < |db[USERS_V2].rows| ::
                     At(db[USERS_V2].rows[u], "user_id") == At(rows[k], "user_id")
    {
      CredentialNotNulls(rows[k]);
      CredentialParent(db, rows[k]);
    }
    forall j, k | 0 <= j < k < |rows|
      ensures Apart(t, rows[j], rows[k]) <==>
                (At(rows[j], "credential_id") == At(rows[k], "credential_id") ==> At(rows[j], "credential_id") == Null)
    {
      CredentialsApart(rows[j], rows[k]);
    }
  }

  lemma CredentialNotNulls(row: Row)
    ensures NotNulls(CredentialsTable(USERS_V2, []), row) <==>
              && At(row, "user_id") != Null && At(row, "public_key") != Null && At(row, "sign_count") != Null
              && At(row, "created_at") != Null
  {
    var cs := CredentialsTable(USERS_V2, []).columns;
    assert cs[1].notNull && cs[1].name == "user_id" && cs[2].notNull && cs[2].name == "public_key";
    assert cs[3].notNull && cs[3].name == "sign_count" && cs[8].notNull && cs[8].name == "created_at";
  }

  lemma CredentialParent(db: Db, row: Row)
    requires USERS_V2 in db
    ensures ParentsFound(db, CredentialsTable(USERS_V2, []), row) <==>
              || At(row, "user_id") == Null
              || exists u | 0 <= u < |db[USERS_V2].rows| :: At(db[USERS_V2].rows[u], "user_id") == At(row, "user_id")
  {
    var keys := CredentialsTable(USERS_V2, []).foreignKeys;
    assert |keys| == 1 && keys[0] == ForeignKey(USERS_V2, "user_id", "user_id", "NO ACTION", "CASCADE");
  }

  lemma CredentialsApart(a: Row, b: Row)
    ensures Apart(CredentialsTable(USERS_V2, []), a, b) <==>
              (At(a, "credential_id") == At(b, "credential_id") ==> At(a, "credential_id") == Null)
  {
    OneKey("credential_id", a, b);
    hide SameKey;
    assert Auto(["credential_id"]) in CredentialsTable(USERS_V2, []).indexes;
  }

  /** Challenges need key, kind, challenge and expiry, and no two share key and kind. */
  lemma ChallengesFitExactly(db: Db, rows: seq<Row>)
    ensures AllFit(db, ChallengesTable([]), rows) <==>
              && (forall k | 0 <= k < |rows| ::
                    && At(rows[k], "key") != Null && At(rows[k], "kind") != Null && At(rows[k], "challenge") != Null
                    && At(rows[k], "expires_at") != Null)
              && (forall j, k | 0 <= j < k < |rows| ::
                    At(rows[j], "key") != At(rows[k], "key") || At(rows[j], "kind") != At(rows[k], "kind"))
  {
    hide Apart, NotNulls;
    var t := ChallengesTable([]);
    forall k | 0 <= k < |rows|
      ensures NotNulls(t, rows[k]) <==>
                && At(rows[k], "key") != Null && At(rows[k], "kind") != Null && At(rows[k], "challenge") != Null
                && At(rows[k], "expires_at") != Null
    {
      ChallengeNotNulls(rows[k]);
    }
    forall j, k | 0 <= j < k < |rows|
      ensures Apart(t, rows[j], rows[k]) <==>
                || At(rows[j], "key") == Null || At(rows[j], "kind") == Null
                || At(rows[j], "key") != At(rows[k], "key") || At(rows[j], "kind") != At(rows[k], "kind")
    {
      ChallengesApart(rows[j], rows[k]);
    }
  }

  lemma ChallengeNotNulls(row: Row)
    ensures NotNulls(ChallengesTable([]), row) <==>
              && At(row, "key") != Null && At(row, "kind") != Null && At(row, "challenge") != Null
              && At(row, "expires_at") != Null
  {
    var cs := ChallengesTable([]).columns;
    assert cs[0].notNull && cs[0].name == "key" && cs[1].notNull && cs[1].name == "kind";
    assert cs[2].notNull && cs[2].name == "challenge" && cs[3].notNull && cs[3].name == "expires_at";
  }

  lemma ChallengesApart(a: Row, b: Row)
    ensures Apart(ChallengesTable([]), a, b) <==>
              || At(a, "key") == Null || At(a, "kind") == Null || At(a, "key") != At(b, "key")
              || At(a, "kind") != At(b, "kind")
  {
    var columns := ["key", "kind"];
    assert columns[0] == "key" && columns[1] == "kind";
    assert SameKey(columns, a, b) <==>
             && At(a, "key") != Null && At(a, "key") == At(b, "key") && At(a, "kind") != Null
             && At(a, "kind") == At(b, "kind");
    hide SameKey;
    assert Auto(columns) in ChallengesTable([]).indexes;
  }

  /** After a successful 0.1 migration every row of every table, a host's too, has the parents its keys name. */
  lemma MigratedHasParents(db: Db, d: Db, t: string, i: nat, k: nat)
    requires Inspect(db) == LegacyFlowKey && Migrated(db) == Some(d)
    requires t in d && i < |d[t].foreignKeys| && k < |d[t].rows|
    ensures var fk, row := d[t].foreignKeys[i], d[t].rows[k];
            || At(row, fk.fromColumn) == Null
            || (fk.table in d && exists u | 0 <= u < |d[fk.table].rows| ::
                  At(d[fk.table].rows[u], fk.toColumn) == At(row, fk.fromColumn))
  {
    hide Inspect, Migrated, Mismatch;
    FlowKeyLeavesTexts(db, d);
  }
}
