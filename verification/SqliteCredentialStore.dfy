/**
  SQLiteCredentialStore itself: each operation runs its statements one at a time on a connection,
  inside the bracket its transaction mode calls for; an exception undoes the statements before it.
*/
module SqliteCredentialStore {
  import opened Wrappers
  import opened Base64Url
  import opened PasskeyModels
  import opened CredentialStore
  import opened SqliteCredentials
  import opened Transactions

  class SqliteCredentialStore {
    const conn: Connection<Db>
    const external: bool

    constructor (conn: Connection<Db>, external: bool)
      ensures this.conn == conn && this.external == external
    {
      this.conn, this.external := conn, external;
    }

    /** A mutation moves the connection by the operation's step and answers with its outcome. */
    twostate predicate Performed(op: Op, new r: Result<Outcome, Completion>)
      reads conn
    {
      var (db, outcome) := SqlStep(old(conn.Visible(external)), op);
      && conn.Moved(external, if r.Success? then Completed else r.error, db)
      && (r.Success? ==> r.value == outcome)
    }

    /** The statements of save_registration; a failing insert leaves the earlier one behind for the bracket to undo. */
    method SaveStatements(user: User, credential: Credential) returns (r: Outcome)
      requires credential.userId == user.userId
      modifies conn`working
      ensures r == SqlSave(old(conn.working), user, credential).1
      ensures !r.Refused? ==> conn.working == SqlSave(old(conn.working), user, credential).0
    {
      var stored := Lookup(conn.working.users, user.userId);
      var handle := SelectUserByHandle(conn.working, BytesToB64url(user.handle));
      if stored.Some? && SqliteUser(stored.value).None? {
        return Refused(CorruptRow);
      }
      if || (stored.Some? && SqliteUser(stored.value) != Some(user))
         || (handle.Some? && handle.value.userId != user.userId) {
        return Refused(UserConflict);
      }
      var existing := Lookup(conn.working.credentials, BytesToB64url(credential.credentialId));
      if existing.Some? {
        var current := SqliteCredential(existing.value);
        if current.None? {
          return Refused(CorruptRow);
        }
        if current.value.userId != credential.userId || current.value.publicKey != credential.publicKey {
          return Refused(CredentialConflict);
        }
        return Done;
      }
      if stored.None? {
        var inserted := InsertUser(conn.working, UserValues(user));
        if inserted.Failure? {
          return Refused(inserted.error);
        }
        conn.working := inserted.value;
      }
      var inserted := InsertCredential(conn.working, CredentialValues(credential));
      if inserted.Failure? {
        return Refused(inserted.error);
      }
      conn.working := inserted.value;
      return Done;
    }

    method SaveRegistration(marker: string, user: User, credential: Credential) returns (r: Result<Outcome, Completion>)
      requires conn.Valid()
      modifies conn
      ensures conn.Valid() && conn.foreignKeys == old(conn.foreignKeys)
      ensures if credential.userId != user.userId then unchanged(conn) && r == Success(Refused(CredentialConflict))
              else Performed(Save(user, credential), r)
    {
      hide SqlSave;
      if credential.userId != user.userId {
        return Success(Refused(CredentialConflict));
      }
      ghost var frames, start := conn.savepoints, conn.Visible(external);
      var entered := conn.Enter(external, marker);
      if entered != Completed {
        return Failure(entered);
      }
      var outcome := SaveStatements(user, credential);
      RefusedSave(start, user, credential);
      conn.Leave(external, marker, outcome.Refused?, frames, start);
      return Success(outcome);
    }

    static lemma RefusedSave(db: Db, user: User, credential: Credential)
      ensures SqlSave(db, user, credential).1.Refused? ==> SqlSave(db, user, credential).0 == db
    {
    }

    method CompareAndSetStatements(id: Bytes, expected: int, count: int, deviceType: Option<string>,
                                   backedUp: Option<bool>)
      returns (r: Outcome)
      modifies conn`working
      ensures r == SqlCompareAndSet(old(conn.working), id, expected, count, deviceType, backedUp).1
      ensures !r.Refused? ==>
                conn.working == SqlCompareAndSet(old(conn.working), id, expected, count, deviceType, backedUp).0
    {
      hide BytesToB64url, SqliteCredential;
      var key := BytesToB64url(id);
      var row := Lookup(conn.working.credentials, key);
      if row.None? {
        return Refused(CredentialNotFound);
      }
      var current := SqliteCredential(row.value);
      if current.None? {
        return Refused(CorruptRow);
      }
      if (expected != 0 && current.value.signCount != expected) || count < current.value.signCount {
        return Refused(CounterConflict);
      }
      var max := if current.value.signCount < count then count else current.value.signCount;
      if !(row.value.signCount == current.value.signCount || expected == 0) {
        return Refused(CounterConflict);
      }
      var updated := row.value.(signCount := max, deviceType := deviceType, backedUp := SqliteBool(backedUp));
      conn.working := UpdateCredential(conn.working, key, updated);
      return FoundCredential(updated);
    }

    method CompareAndSetAfterLogin(marker: string, id: Bytes, expected: int, count: int,
                                   deviceType: Option<string>, backedUp: Option<bool>)
      returns (r: Result<Outcome, Completion>)
      requires conn.Valid()
      modifies conn
      ensures conn.Valid() && conn.foreignKeys == old(conn.foreignKeys)
      ensures Performed(CompareAndSet(id, expected, count, deviceType, backedUp), r)
    {
      hide BytesToB64url, SqliteCredential;
      ghost var frames, start := conn.savepoints, conn.Visible(external);
      var entered := conn.Enter(external, marker);
      if entered != Completed {
        return Failure(entered);
      }
      var outcome := CompareAndSetStatements(id, expected, count, deviceType, backedUp);
      conn.Leave(external, marker, outcome.Refused?, frames, start);
      return Success(outcome);
    }

    method UpdateCredentialLabel(marker: string, id: Bytes, userId: string, labelText: Option<string>)
      returns (r: Result<Outcome, Completion>)
      requires conn.Valid()
      modifies conn
      ensures conn.Valid() && conn.foreignKeys == old(conn.foreignKeys)
      ensures Performed(Relabel(id, userId, labelText), r)
    {
      hide BytesToB64url, SqliteCredential;
      ghost var frames, start := conn.savepoints, conn.Visible(external);
      var entered := conn.Enter(external, marker);
      if entered != Completed {
        return Failure(entered);
      }
      var outcome := CredentialFound(None);
      var key := BytesToB64url(id);
      var row := Lookup(conn.working.credentials, key);
      if row.Some? && row.value.userId == userId {
        var updated := row.value.(labelText := labelText);
        conn.working := UpdateCredential(conn.working, key, updated);
        outcome := FoundCredential(updated);
      }
      conn.Leave(external, marker, outcome.Refused?, frames, start);
      return Success(outcome);
    }

    method DeleteCredential(marker: string, id: Bytes, userId: Option<string>, requireRemaining: bool)
      returns (r: Result<Outcome, Completion>)
      requires conn.Valid()
      modifies conn
      ensures conn.Valid() && conn.foreignKeys == old(conn.foreignKeys)
      ensures Performed(Delete(id, userId, requireRemaining), r)
    {
      hide BytesToB64url;
      ghost var frames, start := conn.savepoints, conn.Visible(external);
      var entered := conn.Enter(external, marker);
      if entered != Completed {
        return Failure(entered);
      }
      var key := BytesToB64url(id);
      var removed := false;
      var owner := SelectOwner(conn.working, key, userId);
      if owner.Some? && !(requireRemaining && |CredentialsOf(conn.working, owner.value)| <= 1) {
        conn.working := conn.working.(credentials := conn.working.credentials - {key});
        removed := true;
      }
      conn.Leave(external, marker, false, frames, start);
      return Success(Deleted(removed));
    }

    /** Queries read the connection's own view and open no transaction. */
    method Query(op: Op) returns (r: Outcome)
      requires op.GetUser? || op.GetUserByHandle? || op.ListForUser? || op.GetCredential?
      ensures r == SqlStep(conn.working, op).1 && SqlStep(conn.working, op).0 == conn.working
    {
      match op
      case GetUser(id) => r := FoundUser(Lookup(conn.working.users, id));
      case GetUserByHandle(h) => r := FoundUser(SelectUserByHandle(conn.working, BytesToB64url(h)));
      case ListForUser(id) => r := SqlList(conn.working, id);
      case GetCredential(id) =>
        var row := Lookup(conn.working.credentials, BytesToB64url(id));
        r := if row.None? then CredentialFound(None) else FoundCredential(row.value);
    }
  }
}
