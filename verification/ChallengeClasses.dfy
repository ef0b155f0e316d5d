/** The two challenge store classes, each proved to take its store's step. */
module ChallengeClasses {
  import opened Wrappers
  import opened Base64Url
  import opened Timestamps
  import opened ChallengeStore
  import opened Transactions

  class MemoryChallengeStore {
    var records: Records

    constructor ()
      ensures records == map[]
    {
      records := map[];
    }

    method Save(op: Op, now: Instant) returns (r: Outcome)
      requires op.Save?
      modifies this
      ensures (records, r) == MemoryStep(old(records), op, now)
    {
      var record := NewRecord(op, now);
      if record.Failure? {
        return Refused(record.error);
      }
      records := records[(op.key, op.kind) := record.value];
      return Saved(record.value);
    }

    /** The record is taken out before its expiry is looked at. */
    method Pop(key: string, kind: ChallengeKind, now: Instant) returns (r: Outcome)
      modifies this
      ensures (records, r) == MemoryStep(old(records), Op.Pop(key, kind), now)
    {
      var slot := (key, kind);
      var found := if slot in records then Some(records[slot]) else None;
      records := records - {slot};
      if found.None? || found.value.expiresAt <= now {
        return Refused(ChallengeNotFound);
      }
      return Popped(found.value);
    }

    method CleanupExpired(now: Instant)
      modifies this
      ensures records == MemoryStep(old(records), Cleanup, now).0
    {
      var expired := set s | s in records && records[s].expiresAt <= now;
      while expired != {}
        invariant expired == set s | s in records && records[s].expiresAt <= now
        invariant forall s | s in records :: s in old(records) && records[s] == old(records)[s]
        invariant forall s | s in old(records) && now < old(records)[s].expiresAt :: s in records
        decreases expired
      {
        var slot :| slot in expired;
        records := records - {slot};
        expired := expired - {slot};
      }
      assert forall s | s in records :: now < records[s].expiresAt by {
        forall s | s in records
          ensures now < records[s].expiresAt
        {
          assert s !in expired;
        }
      }
      assert records == MemoryStep(old(records), Cleanup, now).0;
    }
  }

  class SqliteChallengeStore {
    const conn: Connection<Rows>
    const external: bool

    constructor (conn: Connection<Rows>, external: bool)
      ensures this.conn == conn && this.external == external
    {
      this.conn, this.external := conn, external;
    }

    twostate predicate Performed(op: Op, now: Instant, new r: Result<Outcome, Completion>)
      reads conn
    {
      var (rows, outcome) := SqlStep(old(conn.Visible(external)), op, now);
      && conn.Moved(external, if r.Success? then Completed else r.error, rows)
      && (r.Success? ==> r.value == outcome)
    }

    /** A save whose record cannot be built raises before the connection is touched. */
    method Save(marker: string, op: Op, now: Instant) returns (r: Result<Outcome, Completion>)
      requires conn.Valid() && op.Save?
      modifies conn
      ensures conn.Valid()
      ensures match NewRecord(op, now)
              case Failure(e) => unchanged(conn) && r == Success(Refused(e))
              case Success(_) => Performed(op, now, r)
    {
      hide NewRecord, ChallengeValues;
      var record := NewRecord(op, now);
      if record.Failure? {
        return Success(Refused(record.error));
      }
      ghost var frames, start := conn.savepoints, conn.Visible(external);
      var entered := conn.Enter(external, marker);
      if entered != Completed {
        return Failure(entered);
      }
      conn.working := conn.working[(op.key, op.kind) := ChallengeValues(record.value)];
      conn.Leave(external, marker, false, frames, start);
      return Success(Saved(record.value));
    }

    /** The row is deleted first; not finding one, or not being able to read it, raises and rolls back. */
    method Pop(marker: string, key: string, kind: ChallengeKind, now: Instant) returns (r: Result<Outcome, Completion>)
      requires conn.Valid()
      modifies conn
      ensures conn.Valid() && Performed(Op.Pop(key, kind), now, r)
    {
      hide TextLess, IsoText, SqliteChallenge;
      ghost var frames, start := conn.savepoints, conn.Visible(external);
      var entered := conn.Enter(external, marker);
      if entered != Completed {
        return Failure(entered);
      }
      var slot := (key, kind);
      var outcome := Refused(ChallengeNotFound);
      if slot in conn.working && TextLess(IsoText(now), conn.working[slot].expiresAt) {
        var row := conn.working[slot];
        conn.working := conn.working - {slot};
        var record := SqliteChallenge(row);
        outcome := match record case Success(c) => Popped(c) case Failure(e) => Refused(e);
      }
      conn.Leave(external, marker, outcome.Refused?, frames, start);
      return Success(outcome);
    }

    method CleanupExpired(marker: string, now: Instant) returns (r: Result<Outcome, Completion>)
      requires conn.Valid()
      modifies conn
      ensures conn.Valid() && Performed(Cleanup, now, r)
    {
      hide TextLess, IsoText;
      ghost var frames, start := conn.savepoints, conn.Visible(external);
      var entered := conn.Enter(external, marker);
      if entered != Completed {
        return Failure(entered);
      }
      conn.working := map s | s in conn.working && TextLess(IsoText(now), conn.working[s].expiresAt) :: conn.working[s];
      conn.Leave(external, marker, false, frames, start);
      return Success(Cleaned);
    }
  }
}
