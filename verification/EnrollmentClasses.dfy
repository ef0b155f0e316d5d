/** The two enrollment capability store classes, each proved to take its store's step. */
module EnrollmentClasses {
  import opened Wrappers
  import opened Timestamps
  import opened Enrollment
  import opened Transactions

  class MemoryEnrollmentCapabilityStore {
    const digest: Digest
    var records: Records

    constructor (digest: Digest)
      ensures this.digest == digest && records == []
    {
      this.digest, records := digest, [];
    }

    /** The first stored entry of that kind, in insertion order. */
    method Next(p: Entry -> bool) returns (i: int)
      ensures i == First(records, p)
    {
      var k := 0;
      while k < |records|
        invariant 0 <= k <= |records|
        invariant forall j | 0 <= j < k :: !p(records[j])
      {
        if p(records[k]) {
          return k;
        }
        k := k + 1;
      }
      return -1;
    }

    method Write(i: nat, cap: Capability)
      requires i < |records|
      modifies this
      ensures records == old(records)[i := Entry(old(records)[i].digest, cap)]
    {
      records := records[i := Entry(records[i].digest, cap)];
    }

    method Issue(op: Op, now: Instant) returns (r: Outcome)
      requires op.Issue?
      modifies this
      ensures (records, r) == MemoryStep(digest, old(records), op, now)
    {
      hide NewCapability;
      var cap := NewCapability(op, now);
      if cap.Failure? {
        return Refused(cap.error);
      }
      var i := First(records, WithId(op.id));
      var entry := Entry(digest(op.token), cap.value);
      records := if i < 0 then records + [entry] else records[i := entry];
      return Issued(cap.value);
    }

    method Claim(token: string, flow: string, purpose: Purpose, now: Instant) returns (r: Outcome)
      modifies this
      ensures (records, r) == MemoryStep(digest, old(records), Op.Claim(token, flow, purpose), now)
    {
      if token == "" || flow == "" {
        return Refused(Unavailable);
      }
      var i := Next(WithDigest(digest(token)));
      if i < 0 {
        return Refused(Unavailable);
      }
      var record := records[i].cap;
      if || record.purpose != purpose || record.expiresAt <= now || record.consumedAt.Some? || record.revokedAt.Some?
         || (record.claimedFlow.Some? && record.claimedFlow.value != flow) {
        return Refused(Unavailable);
      }
      if record.claimedFlow.None? {
        record := record.(claimedFlow := Some(flow), claimedAt := Some(now));
        Write(i, record);
      }
      return Claimed(record);
    }

    method Consume(flow: string, now: Instant) returns (r: Outcome)
      modifies this
      ensures (records, r) == MemoryStep(digest, old(records), Op.Consume(flow), now)
    {
      var i := Next(HeldBy(flow));
      if i < 0 {
        return Refused(Unavailable);
      }
      var record := records[i].cap;
      if record.expiresAt <= now || record.consumedAt.Some? || record.revokedAt.Some? {
        return Refused(Unavailable);
      }
      record := record.(consumedAt := Some(now));
      Write(i, record);
      return Consumed(record);
    }

    method Release(flow: string, now: Instant) returns (r: Outcome)
      modifies this
      ensures (records, r) == MemoryStep(digest, old(records), Op.Release(flow), now)
    {
      var i := Next(HeldBy(flow));
      if i < 0 {
        return Changed(false);
      }
      var record := records[i].cap;
      if record.consumedAt.Some? || record.revokedAt.Some? {
        return Changed(false);
      }
      Write(i, record.(claimedFlow := None, claimedAt := None));
      return Changed(true);
    }

    method Revoke(id: string, now: Instant) returns (r: Outcome)
      modifies this
      ensures (records, r) == MemoryStep(digest, old(records), Op.Revoke(id), now)
    {
      var i := First(records, WithId(id));
      if i < 0 {
        return Changed(false);
      }
      var record := records[i].cap;
      if record.consumedAt.Some? || record.revokedAt.Some? {
        return Changed(false);
      }
      Write(i, record.(revokedAt := Some(now)));
      return Changed(true);
    }
  }

  /**
    This store's own context manager: a mutation opens and commits a transaction only if none is open,
    and otherwise is one more statement of the caller's, without a savepoint.
  */
  class SqliteEnrollmentCapabilityStore {
    const digest: Digest
    const conn: Connection<Table>

    constructor (digest: Digest, conn: Connection<Table>)
      ensures this.digest == digest && this.conn == conn
    {
      this.digest, this.conn := digest, conn;
    }

    /** The step is committed at once, or is left to the caller's open transaction. */
    twostate predicate Performed(op: Op, now: Instant, new r: Outcome)
      reads conn
    {
      && (conn.working, r) == SqlStep(digest, old(conn.working), op, now)
      && conn.inTransaction == old(conn.inTransaction) && conn.savepoints == old(conn.savepoints)
      && conn.committed == if old(conn.inTransaction) then old(conn.committed) else conn.working
    }

    method Enter() returns (owns: bool)
      requires conn.Valid()
      modifies conn`inTransaction
      ensures conn.Valid() && conn.inTransaction && owns == !old(conn.inTransaction)
    {
      owns := !conn.inTransaction;
      if owns {
        var _ := conn.Begin();
      }
    }

    method Leave(owns: bool, raised: bool, ghost start: Table, ghost frames: seq<Frame<Table>>)
      requires conn.Valid() && conn.inTransaction && conn.savepoints == frames
      requires owns ==> conn.committed == start && frames == []
      requires raised ==> conn.working == start
      modifies conn
      ensures conn.Valid() && conn.inTransaction == !owns && conn.working == old(conn.working)
                && conn.savepoints == frames
      ensures conn.committed == if owns then conn.working else old(conn.committed)
    {
      if owns {
        if raised {
          conn.Rollback();
        } else {
          conn.Commit();
        }
      }
    }

    method Issue(op: Op, now: Instant) returns (r: Outcome)
      requires conn.Valid() && op.Issue?
      modifies conn
      ensures conn.Valid() && Performed(op, now, r)
    {
      hide NewCapability, RowOf;
      var cap := NewCapability(op, now);
      if cap.Failure? {
        return Refused(cap.error);
      }
      var owns := Enter();
      ghost var start := conn.working;
      var hash := digest(op.token);
      if exists i | 0 <= i < |conn.working| ::
          conn.working[i].capabilityId == op.id || conn.working[i].tokenHash == hash {
        r := Refused(IntegrityError);
      } else {
        conn.working := conn.working + [RowOf(Entry(hash, cap.value))];
        r := Issued(cap.value);
      }
      Leave(owns, r.Refused?, start, conn.savepoints);
    }

    /** The row comes back from the statement before the commit and is decoded after it. */
    method Claim(token: string, flow: string, purpose: Purpose, now: Instant) returns (r: Outcome)
      requires conn.Valid()
      modifies conn
      ensures conn.Valid() && Performed(Op.Claim(token, flow, purpose), now, r)
    {
      hide IsoText, TextLess, CapabilityFromRow, Update, First;
      if token == "" || flow == "" {
        return Refused(Unavailable);
      }
      var owns := Enter();
      ghost var start := conn.working;
      var where := ClaimWhere(digest(token), flow, purpose, IsoText(now));
      var updated := Update(conn.working, where, ClaimSet(flow, IsoText(now)));
      var i := First(conn.working, where);
      if !FlowsUnique(updated) {
        r := Refused(IntegrityError);
        Leave(owns, true, start, conn.savepoints);
        return;
      }
      SameLength(conn.working, where, ClaimSet(flow, IsoText(now)));
      conn.working := updated;
      Leave(owns, false, start, conn.savepoints);
      if i < 0 {
        return Refused(Unavailable);
      }
      return Returned(updated[i], c => Claimed(c));
    }

    static lemma SameLength(t: Table, where: Row -> bool, change: Row -> Row)
      ensures |Update(t, where, change)| == |t|
    {
    }

    method Consume(flow: string, now: Instant) returns (r: Outcome)
      requires conn.Valid()
      modifies conn
      ensures conn.Valid() && Performed(Op.Consume(flow), now, r)
    {
      hide IsoText, TextLess, CapabilityFromRow, Update, First;
      var owns := Enter();
      ghost var start := conn.working;
      var where := ConsumeWhere(flow, IsoText(now));
      var i := First(conn.working, where);
      SameLength(conn.working, where, ConsumeSet(IsoText(now)));
      var updated := Update(conn.working, where, ConsumeSet(IsoText(now)));
      conn.working := updated;
      Leave(owns, false, start, conn.savepoints);
      if i < 0 {
        return Refused(Unavailable);
      }
      return Returned(updated[i], c => Consumed(c));
    }

    method Release(flow: string, now: Instant) returns (r: Outcome)
      requires conn.Valid()
      modifies conn
      ensures conn.Valid() && Performed(Op.Release(flow), now, r)
    {
      hide Update, Matches;
      var owns := Enter();
      ghost var start := conn.working;
      var step := SqlRelease(conn.working, flow);
      conn.working := step.0;
      Leave(owns, false, start, conn.savepoints);
      return step.1;
    }

    method Revoke(id: string, now: Instant) returns (r: Outcome)
      requires conn.Valid()
      modifies conn
      ensures conn.Valid() && Performed(Op.Revoke(id), now, r)
    {
      hide Update, Matches, IsoText;
      var owns := Enter();
      ghost var start := conn.working;
      var step := SqlRevoke(conn.working, id, now);
      conn.working := step.0;
      Leave(owns, false, start, conn.savepoints);
      return step.1;
    }
  }
}
