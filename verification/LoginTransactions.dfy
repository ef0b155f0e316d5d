/**
  Logins inside the transactions of GuardedDeletion: snapshots, busy and stale locks, savepoints and
  rollbacks.  A session that read counter `n` and verified a greater one finishes with a
  compare-and-set that expects `n`, on any connection.  A ledger follows the database through every
  commit and rollback and records the logins of one credential, by its life and the counter expected.
*/
module LoginTransactions {
  import opened Wrappers
  import opened Base64Url
  import opened PasskeyModels
  import opened CredentialStore
  import opened SqliteCredentials
  import G = GuardedDeletion

  /** The logins one database state holds, and how often the credential was removed on the way to it. */
  datatype Ledger = Ledger(won: multiset<(nat, int)>, life: nat)

  datatype Book = Book(current: Ledger, saves: seq<Ledger>)

  datatype Tracked = Tracked(sys: G.System, committed: Ledger, books: map<nat, Book>)

  ghost predicate Fits(x: Tracked) {
    x.books.Keys == x.sys.txns.Keys && forall c | c in x.books :: |x.books[c].saves| == |x.sys.txns[c].saves|
  }

  /** The operation completes a login of `id` that had read a non-zero counter. */
  predicate Wins(db: Db, op: Op, id: Bytes) {
    && op.CompareAndSet? && op.credentialId == id && op.expected != 0 && op.expected < op.count
    && SqlStep(db, op).1.CredentialFound?
  }

  predicate TakesAway(db: Db, op: Op, id: Bytes) {
    op.Delete? && op.credentialId == id && SqlStep(db, op).1 == Deleted(true)
  }

  function Record(l: Ledger, db: Db, op: Op, id: Bytes): Ledger {
    if Wins(db, op, id) then l.(won := l.won + multiset{(l.life, op.expected)})
    else if TakesAway(db, op, id) then l.(life := l.life + 1)
    else l
  }

  /** The ledgers when the transaction takes its snapshot. */
  function Snapshot(x: Tracked, t: G.Txn, b: Book): Book {
    if t.snapshot.Some? then b else Book(x.committed, seq(|b.saves|, _ => x.committed))
  }

  function FollowIdle(x: Tracked, t: G.Txn, b: Book, a: G.Action, id: Bytes): Book
    requires |b.saves| == |t.saves|
  {
    match a
    case Query => Snapshot(x, t, b)
    case Mutate(op) =>
      (match G.WithLock(x.sys, t)
       case None => b
       case Some(t') =>
         var b' := Snapshot(x, t, b);
         b'.(current := Record(b'.current, t'.working, op, id)))
    case TakeLock(_, _) => if G.WithLock(x.sys, t).Some? then Snapshot(x, t, b) else b
    case SetSavepoint => b.(saves := b.saves + [b.current])
    case RollbackToSavepoint(i) => if i < |t.saves| then Book(b.saves[i], b.saves[..i + 1]) else b
    case ReleaseSavepoint(i) => if i < |t.saves| then b.(saves := b.saves[..i]) else b
    case _ => b
  }

  /** The ledgers after one action, each following its database state. */
  function Follow(x: Tracked, c: nat, a: G.Action, id: Bytes): Tracked
    requires Fits(x)
  {
    var sys := G.Next(x.sys, c, a);
    if c !in x.sys.txns then
      Tracked(sys, x.committed, if c in sys.txns then x.books[c := Book(x.committed, [])] else x.books)
    else
      var t, b := x.sys.txns[c], x.books[c];
      if a.Rollback? then Tracked(sys, x.committed, x.books - {c})
      else match t.phase
        case Idle =>
          if a.Commit? then Tracked(sys, if t.locked then b.current else x.committed, x.books - {c})
          else if a.BeginDeferred? || a.BeginImmediate? then x
          else Tracked(sys, x.committed, x.books[c := FollowIdle(x, t, b, a, id)])
        case Removing(key, _) =>
          if a.RemoveRow? && key == BytesToB64url(id) then
            Tracked(sys, x.committed, x.books[c := b.(current := b.current.(life := b.current.life + 1))])
          else Tracked(sys, x.committed, x.books)
        case Selecting(_, _) => Tracked(sys, x.committed, x.books)
  }

  // ---- What a ledger says of its database state ----

  /** No login is recorded twice, and the counter has passed every one of the present life. */
  ghost predicate Sound(l: Ledger, db: Db, id: Bytes) {
    forall k: nat, n: int | (k, n) in l.won ::
      && l.won[(k, n)] == 1 && k <= l.life
      && (k == l.life ==> BytesToB64url(id) in db.credentials && n < db.credentials[BytesToB64url(id)].signCount)
  }

  ghost predicate BookSound(x: Tracked, t: G.Txn, b: Book, id: Bytes) {
    && |b.saves| == |t.saves|
    && (t.locked ==> Sound(b.current, t.working, id) && forall i | 0 <= i < |t.saves| ::
          Sound(b.saves[i], t.saves[i], id))
    && (!t.locked && t.snapshot == Some(x.sys.version) ==>
          b.current == x.committed && forall i | 0 <= i < |b.saves| :: b.saves[i] == x.committed)
  }

  ghost predicate Invariant(x: Tracked, id: Bytes) {
    && G.Invariant(x.sys) && Fits(x) && Sound(x.committed, x.sys.committed, id)
    && forall c | c in x.books :: BookSound(x, x.sys.txns[c], x.books[c], id)
  }

  /**
    Statements other than deletes keep the row and never lower its counter; a login raises it past what
    it expected.
  */
  lemma CounterRises(db: Db, op: Op, id: Bytes)
    requires !op.Delete?
    ensures var key := BytesToB64url(id);
            var db' := SqlStep(db, op).0;
            && (key in db.credentials ==>
                  key in db'.credentials && db.credentials[key].signCount <= db'.credentials[key].signCount)
            && (Wins(db, op, id) ==>
                  && key in db.credentials && db.credentials[key].signCount == op.expected
                  && op.expected < db'.credentials[key].signCount)
  {
    hide BytesToB64url, SqlSave, SqlCompareAndSet, SqlRelabel, SqlDelete, SqlList;
    MutationRows(db, op);
    if op.CompareAndSet? {
      SetRow(db, op.credentialId, op.expected, op.count, op.deviceType, op.backedUp);
    }
  }

  /** A delete takes the one row it names, or none. */
  lemma DeleteTakes(db: Db, op: Op)
    requires op.Delete?
    ensures var (db', o) := SqlStep(db, op);
            && (o == Deleted(true) ==> db' == G.RemovedKey(db, BytesToB64url(op.credentialId)))
            && (o != Deleted(true) ==> db' == db)
  {
    hide BytesToB64url;
  }

  lemma RecordSound(l: Ledger, db: Db, op: Op, id: Bytes)
    requires Sound(l, db, id)
    ensures Sound(Record(l, db, op, id), SqlStep(db, op).0, id)
  {
    hide SqlStep, BytesToB64url;
    if op.Delete? {
      DeleteTakes(db, op);
      RemovalSound(l, db, BytesToB64url(op.credentialId), id);
      if op.credentialId != id { Injective(op.credentialId, id); }
    } else {
      CounterRises(db, op, id);
      if Wins(db, op, id) {
        assert (l.life, op.expected) !in l.won;
      }
    }
  }

  lemma RemovalSound(l: Ledger, db: Db, key: string, id: Bytes)
    requires Sound(l, db, id)
    ensures Sound(if key == BytesToB64url(id) then l.(life := l.life + 1) else l, G.RemovedKey(db, key), id)
  {
    hide BytesToB64url;
  }

  // ---- Every step ----

  /** One transaction and its book change; the rest of the system stays. */
  lemma PutSound(x: Tracked, c: nat, t: G.Txn, b: Book, id: Bytes)
    requires Invariant(x, id) && BookSound(x, t, b, id) && G.Invariant(G.Put(x.sys, c, t))
    ensures Invariant(Tracked(G.Put(x.sys, c, t), x.committed, x.books[c := b]), id)
  {
    hide Sound, G.Invariant;
    var x' := Tracked(G.Put(x.sys, c, t), x.committed, x.books[c := b]);
    forall d | d in x'.books
      ensures BookSound(x', x'.sys.txns[d], x'.books[d], id)
    {
      assert BookSound(x, x'.sys.txns[d], x'.books[d], id);
    }
  }

  lemma DropSound(x: Tracked, c: nat, id: Bytes)
    requires Invariant(x, id)
    ensures Invariant(Tracked(x.sys.(txns := x.sys.txns - {c}), x.committed, x.books - {c}), id)
  {
    hide Sound;
    var x' := Tracked(x.sys.(txns := x.sys.txns - {c}), x.committed, x.books - {c});
    G.Dropped(x.sys, c);
    hide G.Invariant;
    assert forall d | d in x'.books ::
        BookSound(x, x.sys.txns[d], x.books[d], id) && BookSound(x', x'.sys.txns[d], x'.books[d], id);
  }

  /** A commit publishes its ledger with its state; every other snapshot becomes stale. */
  lemma CommitSound(x: Tracked, c: nat, id: Bytes)
    requires Invariant(x, id) && c in x.books && x.sys.txns[c].locked
    ensures Invariant(Tracked(G.System(x.sys.txns[c].working, x.sys.version + 1, x.sys.txns - {c}),
                              x.books[c].current, x.books - {c}), id)
  {
    hide Sound;
    var x' := Tracked(G.System(x.sys.txns[c].working, x.sys.version + 1, x.sys.txns - {c}), x.books[c].current,
                      x.books - {c});
    G.CommitInvariant(x.sys, c);
    assert BookSound(x, x.sys.txns[c], x.books[c], id);
    forall d | d in x'.books
      ensures BookSound(x', x'.sys.txns[d], x'.books[d], id)
    {
      assert BookSound(x, x.sys.txns[d], x.books[d], id) && G.TxnInvariant(x.sys, x.sys.txns[d]);
      assert !x.sys.txns[d].locked;
    }
  }

  lemma LockedSound(x: Tracked, t: G.Txn, b: Book, id: Bytes)
    requires Sound(x.committed, x.sys.committed, id) && BookSound(x, t, b, id) && G.TxnInvariant(x.sys, t)
    requires G.WithLock(x.sys, t).Some?
    ensures BookSound(x, G.WithLock(x.sys, t).value, Snapshot(x, t, b), id)
  {
    hide Sound;
  }

  lemma IdleSound(x: Tracked, c: nat, a: G.Action, id: Bytes)
    requires Invariant(x, id) && c in x.sys.txns && x.sys.txns[c].phase == G.Idle
    requires !a.Rollback? && !a.Commit? && !a.BeginDeferred? && !a.BeginImmediate?
    ensures Invariant(Follow(x, c, a, id), id)
  {
    hide Sound, G.Invariant, SqlStep, Record, G.WithLock, G.WithSnapshot, BytesToB64url;
    var t, b := x.sys.txns[c], x.books[c];
    G.NextInvariant(x.sys, c, a);
    G.OwnInvariant(x.sys, c);
    assert BookSound(x, t, b, id);
    if a.Mutate? || a.TakeLock? {
      if G.WithLock(x.sys, t).Some? {
        LockedSound(x, t, b, id);
        var t', b' := G.WithLock(x.sys, t).value, Snapshot(x, t, b);
        assert t'.locked by { LockIsHeld(x.sys, t); }
        if a.Mutate? {
          RecordSound(b'.current, t'.working, a.op, id);
        }
      }
    } else if a.Query? {
      QuerySound(x, t, b, id);
    }
    var sys := G.Next(x.sys, c, a);
    assert sys == x.sys || sys == G.Put(x.sys, c, sys.txns[c]);
    if sys == x.sys {
      assert G.Put(x.sys, c, t) == x.sys;
    }
    PutSound(x, c, sys.txns[c], FollowIdle(x, t, b, a, id), id);
  }

  lemma LockIsHeld(sys: G.System, t: G.Txn)
    ensures G.WithLock(sys, t).Some? ==> G.WithLock(sys, t).value.locked
  {
  }

  lemma QuerySound(x: Tracked, t: G.Txn, b: Book, id: Bytes)
    requires BookSound(x, t, b, id) && G.TxnInvariant(x.sys, t)
    ensures BookSound(x, G.WithSnapshot(x.sys, t), Snapshot(x, t, b), id)
  {
    hide Sound;
  }

  lemma FollowKeeps(x: Tracked, c: nat, a: G.Action, id: Bytes)
    requires Invariant(x, id)
    ensures Invariant(Follow(x, c, a, id), id)
  {
    hide Sound, G.Invariant, SqlStep, BytesToB64url, FollowIdle, G.WithLock;
    G.NextInvariant(x.sys, c, a);
    if c !in x.sys.txns {
      if a.BeginDeferred? {
        BeginSound(x, c, id);
      } else if a.BeginImmediate? && G.WithLock(x.sys, G.Fresh(x.sys)).Some? {
        ImmediateSound(x, c, id);
      }
    } else if a.Rollback? {
      DropSound(x, c, id);
    } else {
      var t, b := x.sys.txns[c], x.books[c];
      G.OwnInvariant(x.sys, c);
      assert BookSound(x, t, b, id);
      match t.phase
      case Idle =>
        if a.Commit? {
          if t.locked { CommitSound(x, c, id); } else { DropSound(x, c, id); }
        } else if !a.BeginDeferred? && !a.BeginImmediate? {
          IdleSound(x, c, a, id);
        }
      case Selecting(key, owner) =>
        if a.CountRemaining? {
          PutSound(x, c, t.(phase := G.CountedPhase(t.working, key, owner)), b, id);
          assert x.books[c := b] == x.books;
        }
      case Removing(key, user) =>
        if a.RemoveRow? {
          RemovalSound(b.current, t.working, key, id);
          var b' := b.(current := if key == BytesToB64url(id) then b.current.(life := b.current.life + 1)
                       else b.current);
          PutSound(x, c, t.(working := G.RemovedKey(t.working, key), phase := G.Idle), b', id);
          assert key != BytesToB64url(id) ==> x.books[c := b'] == x.books;
        }
    }
  }

  lemma BeginSound(x: Tracked, c: nat, id: Bytes)
    requires Invariant(x, id) && c !in x.sys.txns && G.Invariant(G.Put(x.sys, c, G.Fresh(x.sys)))
    ensures Invariant(Tracked(G.Put(x.sys, c, G.Fresh(x.sys)), x.committed, x.books[c := Book(x.committed, [])]), id)
  {
    hide Sound, G.Invariant;
    PutSound(x, c, G.Fresh(x.sys), Book(x.committed, []), id);
  }

  lemma ImmediateSound(x: Tracked, c: nat, id: Bytes)
    requires Invariant(x, id) && c !in x.sys.txns && G.WithLock(x.sys, G.Fresh(x.sys)).Some?
    requires G.Invariant(G.Put(x.sys, c, G.WithLock(x.sys, G.Fresh(x.sys)).value))
    ensures Invariant(Tracked(G.Put(x.sys, c, G.WithLock(x.sys, G.Fresh(x.sys)).value), x.committed,
                              x.books[c := Book(x.committed, [])]), id)
  {
    hide Sound, G.Invariant;
    PutSound(x, c, G.WithLock(x.sys, G.Fresh(x.sys)).value, Book(x.committed, []), id);
  }

  function FollowAll(x: Tracked, trace: seq<(nat, G.Action)>, id: Bytes): Tracked
    requires Invariant(x, id)
    decreases |trace|
  {
    if |trace| == 0 then x
    else
      FollowKeeps(x, trace[0].0, trace[0].1, id);
      FollowAll(Follow(x, trace[0].0, trace[0].1, id), trace[1..], id)
  }

  function Quiet(db: Db): Tracked {
    Tracked(G.System(db, 0, map[]), Ledger(multiset{}, 0), map[])
  }

  lemma QuietSound(db: Db, id: Bytes)
    ensures Invariant(Quiet(db), id)
  {
  }

  lemma FollowsNext(x: Tracked, c: nat, a: G.Action, id: Bytes)
    requires Fits(x)
    ensures Follow(x, c, a, id).sys == G.Next(x.sys, c, a)
  {
    hide G.WithLock, SqlStep, FollowIdle;
  }

  /** The ledgers follow the real system, and stay sound. */
  lemma {:induction false} AllSound(x: Tracked, trace: seq<(nat, G.Action)>, id: Bytes)
    requires Invariant(x, id)
    ensures Invariant(FollowAll(x, trace, id), id)
    ensures FollowAll(x, trace, id).sys == G.Reach(x.sys, trace)
    decreases |trace|
  {
    hide Sound, G.Invariant, Follow, G.Next;
    if |trace| > 0 {
      FollowsNext(x, trace[0].0, trace[0].1, id);
      FollowKeeps(x, trace[0].0, trace[0].1, id);
      AllSound(Follow(x, trace[0].0, trace[0].1, id), trace[1..], id);
    }
  }

  /** The ledgers of a run that starts from a database nobody works on. */
  function Followed(db: Db, trace: seq<(nat, G.Action)>, id: Bytes): Tracked {
    QuietSound(db, id);
    FollowAll(Quiet(db), trace, id)
  }

  /**
    However transactions interleave, commit, roll back, lose the lock or go stale: of the logins that
    read counter `n` in one life of the credential, at most one is ever committed.
  */
  lemma OneCommittedLogin(db: Db, trace: seq<(nat, G.Action)>, id: Bytes, life: nat, n: int)
    ensures Followed(db, trace, id).sys == G.Reach(G.System(db, 0, map[]), trace)
    ensures Followed(db, trace, id).committed.won[(life, n)] <= 1
  {
    hide Follow, FollowAll;
    QuietSound(db, id);
    AllSound(Quiet(db), trace, id);
  }
}
