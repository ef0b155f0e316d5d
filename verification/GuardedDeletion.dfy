/**
  Deleting credentials while other connections work on the same database.  Connections follow
  SQLite's snapshot rules: a transaction reads from the committed state its first statement saw, one
  connection at a time may hold the write lock, and the lock is refused to a transaction whose
  snapshot is no longer the committed state.  A guarded delete takes the lock first (BEGIN IMMEDIATE,
  or the no-op UPDATE inside a caller's transaction), then counts, then removes, and other
  connections may step in between.
*/
module GuardedDeletion {
  import opened Wrappers
  import opened Base64Url
  import opened CredentialStore
  import opened SqliteCredentials

  /** Where a connection is inside a guarded delete. */
  datatype Phase = Idle | Selecting(key: string, owner: Option<string>) | Removing(key: string, user: string)

  /** An open transaction: the version its snapshot shows, if any statement has run yet, and its savepoint images. */
  datatype Txn = Txn(snapshot: Option<nat>, working: Db, locked: bool, saves: seq<Db>, phase: Phase)

  datatype System = System(committed: Db, version: nat, txns: map<nat, Txn>)

  datatype Action =
    | BeginDeferred
    | BeginImmediate
    | Query
    | Mutate(op: Op)
    | SetSavepoint
    | RollbackToSavepoint(index: nat)
    | ReleaseSavepoint(index: nat)
    | TakeLock(id: Bytes, owner: Option<string>)
    | CountRemaining
    | RemoveRow
    | Commit
    | Rollback

  predicate LockHeld(sys: System) {
    exists c :: c in sys.txns && sys.txns[c].locked
  }

  /** The transaction with a snapshot: the first statement takes the committed state. */
  function WithSnapshot(sys: System, t: Txn): Txn {
    if t.snapshot.Some? then t
    else t.(snapshot := Some(sys.version), working := sys.committed, saves := seq(|t.saves|, _ => sys.committed))
  }

  /** The transaction with the write lock, or None when SQLite answers that the database is busy. */
  function WithLock(sys: System, t: Txn): Option<Txn> {
    if t.locked then Some(t)
    else if LockHeld(sys) then None
    else
      var t' := WithSnapshot(sys, t);
      if t'.snapshot == Some(sys.version) then Some(t'.(locked := true)) else None
  }

  function Put(sys: System, c: nat, t: Txn): System {
    sys.(txns := sys.txns[c := t])
  }

  function Fresh(sys: System): Txn {
    Txn(None, sys.committed, false, [], Idle)
  }

  function CountedPhase(db: Db, key: string, owner: Option<string>): Phase {
    match SelectOwner(db, key, owner)
    case None => Idle
    case Some(user) => if |CredentialsOf(db, user)| <= 1 then Idle else Removing(key, user)
  }

  function RemovedKey(db: Db, key: string): Db {
    db.(credentials := db.credentials - {key})
  }

  /** One action of connection `c`; an action that does not apply, or meets a busy database, changes nothing. */
  function Next(sys: System, c: nat, a: Action): System {
    if a.BeginDeferred? then
      if c in sys.txns then sys else Put(sys, c, Fresh(sys))
    else if a.BeginImmediate? then
      if c in sys.txns then sys
      else match WithLock(sys, Fresh(sys)) case Some(t) => Put(sys, c, t) case None => sys
    else if c !in sys.txns then sys
    else
      var t := sys.txns[c];
      if a.Rollback? then sys.(txns := sys.txns - {c})
      else match t.phase
        case Selecting(key, owner) =>
          if a.CountRemaining? then Put(sys, c, t.(phase := CountedPhase(t.working, key, owner))) else sys
        case Removing(key, _) =>
          if a.RemoveRow? then Put(sys, c, t.(working := RemovedKey(t.working, key), phase := Idle)) else sys
        case Idle =>
          match a
          case Query => Put(sys, c, WithSnapshot(sys, t))
          case Mutate(op) =>
            (match WithLock(sys, t)
             case None => sys
             case Some(t') => Put(sys, c, t'.(working := SqlStep(t'.working, op).0)))
          case SetSavepoint => Put(sys, c, t.(saves := t.saves + [t.working]))
          case RollbackToSavepoint(i) =>
            if i < |t.saves| then Put(sys, c, t.(working := t.saves[i], saves := t.saves[..i + 1])) else sys
          case ReleaseSavepoint(i) =>
            if i < |t.saves| then Put(sys, c, t.(saves := t.saves[..i])) else sys
          case TakeLock(id, owner) =>
            (match WithLock(sys, t)
             case None => sys
             case Some(t') => Put(sys, c, t'.(phase := Selecting(BytesToB64url(id), owner))))
          case Commit =>
            if t.locked then System(t.working, sys.version + 1, sys.txns - {c})
            else sys.(txns := sys.txns - {c})
          case _ => sys
  }

  function Reach(sys: System, trace: seq<(nat, Action)>): System
    decreases |trace|
  {
    if |trace| == 0 then sys else Reach(Next(sys, trace[0].0, trace[0].1), trace[1..])
  }

  /** Every user with a credential in `before` has one in `after`. */
  ghost predicate Keeps(before: Db, after: Db) {
    forall user: string :: CredentialsOf(before, user) != {} ==> CredentialsOf(after, user) != {}
  }

  /** The rules of snapshots and of the write lock; a counted key is still counted. */
  ghost predicate TxnInvariant(sys: System, t: Txn) {
    && (t.snapshot.Some? ==> t.snapshot.value <= sys.version)
    && (t.locked ==> t.snapshot.Some?)
    && (!t.locked && t.snapshot == Some(sys.version) ==>
          t.working == sys.committed && (forall i | 0 <= i < |t.saves| :: t.saves[i] == sys.committed))
    && (t.phase != Idle ==> t.locked)
    && (t.phase.Removing? ==> && 2 <= |CredentialsOf(t.working, t.phase.user)|
                              && t.phase.key in CredentialsOf(t.working, t.phase.user))
  }

  ghost predicate Invariant(sys: System) {
    && (forall c | c in sys.txns :: TxnInvariant(sys, sys.txns[c]))
    && (forall c, d | c in sys.txns && d in sys.txns && sys.txns[c].locked && sys.txns[d].locked :: c == d)
  }

  /** What the lock holder may publish takes no user's last credential. */
  ghost predicate TxnKeeps(committed: Db, t: Txn) {
    t.locked ==> Keeps(committed, t.working) && forall i | 0 <= i < |t.saves| :: Keeps(committed, t.saves[i])
  }

  ghost predicate AllKeep(sys: System) {
    forall c | c in sys.txns :: TxnKeeps(sys.committed, sys.txns[c])
  }

  /** A whole store operation, if it is a delete, is a guarded one. */
  predicate Guarded(a: Action) {
    a.Mutate? && a.op.Delete? ==> a.op.requireRemaining
  }

  // ---- What one statement does to the owners ----

  /** Registrations, counter updates and labels never take a user's last credential away. */
  lemma MutationKeeps(db: Db, op: Op)
    requires !op.Delete?
    ensures Keeps(db, SqlStep(db, op).0)
  {
    hide SqlStep;
    var db' := SqlStep(db, op).0;
    MutationRows(db, op);
    forall user: string | CredentialsOf(db, user) != {}
      ensures CredentialsOf(db', user) != {}
    {
      var t :| t in CredentialsOf(db, user);
      assert t in CredentialsOf(db', user);
    }
  }

  /** Removing a row counted among at least two leaves each owner one. */
  lemma RemovalKeeps(db: Db, key: string, user: string)
    requires key in CredentialsOf(db, user) && 2 <= |CredentialsOf(db, user)|
    ensures Keeps(db, RemovedKey(db, key))
  {
    var db' := RemovedKey(db, key);
    forall u: string | CredentialsOf(db, u) != {}
      ensures CredentialsOf(db', u) != {}
    {
      if u == user {
        assert CredentialsOf(db', u) == CredentialsOf(db, u) - {key};
        assert |CredentialsOf(db', u)| == |CredentialsOf(db, u)| - 1;
      } else {
        var t :| t in CredentialsOf(db, u);
        assert t in CredentialsOf(db', u);
      }
    }
  }

  /** Lock, count and remove are together the store's guarded delete. */
  lemma GuardedDeleteInSteps(db: Db, id: Bytes, owner: Option<string>)
    ensures SqlDelete(db, id, owner, true)
         == (match CountedPhase(db, BytesToB64url(id), owner)
             case Removing(key, _) => (RemovedKey(db, key), Deleted(true))
             case _ => (db, Deleted(false)))
  {
  }

  lemma GuardedDeleteKeeps(db: Db, id: Bytes, owner: Option<string>)
    ensures Keeps(db, SqlDelete(db, id, owner, true).0)
  {
    hide Keeps, BytesToB64url;
    GuardedDeleteInSteps(db, id, owner);
    var p := CountedPhase(db, BytesToB64url(id), owner);
    if p.Removing? {
      RemovalKeeps(db, p.key, p.user);
    } else {
      KeepsItself(db);
    }
  }

  lemma GuardedKeeps(db: Db, op: Op)
    requires Guarded(Mutate(op))
    ensures Keeps(db, SqlStep(db, op).0)
  {
    hide Keeps, SqlDelete, SqlSave, SqlCompareAndSet, SqlRelabel, SqlList;
    if op.Delete? {
      GuardedDeleteKeeps(db, op.credentialId, op.owner);
    } else {
      MutationKeeps(db, op);
    }
  }

  lemma KeepsItself(db: Db)
    ensures Keeps(db, db)
  {
  }

  lemma KeepsThrough(a: Db, b: Db, c: Db)
    requires Keeps(a, b) && Keeps(b, c)
    ensures Keeps(a, c)
  {
  }

  // ---- Snapshots and the lock, whatever the operations are ----

  lemma PutInvariant(sys: System, c: nat, t: Txn)
    requires Invariant(sys) && TxnInvariant(sys, t)
    requires t.locked ==> forall d | d in sys.txns && d != c :: !sys.txns[d].locked
    ensures Invariant(Put(sys, c, t))
  {
    hide CredentialsOf;
    var sys' := Put(sys, c, t);
    forall d | d in sys'.txns
      ensures TxnInvariant(sys', sys'.txns[d])
    {
      assert TxnInvariant(sys, sys'.txns[d]);
    }
  }

  /** A transaction of the system, or one just begun. */
  ghost predicate Belongs(sys: System, c: nat, t: Txn) {
    if c in sys.txns then sys.txns[c] == t else t == Fresh(sys)
  }

  /** The lock comes with the committed state in view, or is held already. */
  lemma LockedView(sys: System, c: nat, t: Txn)
    requires Invariant(sys) && Belongs(sys, c, t) && t.phase == Idle && WithLock(sys, t).Some?
    ensures var t' := WithLock(sys, t).value;
            && t'.locked && t'.phase == Idle && TxnInvariant(sys, t')
            && forall d | d in sys.txns && d != c :: !sys.txns[d].locked
  {
    hide CredentialsOf;
    if !t.locked {
      assert forall d | d in sys.txns :: !sys.txns[d].locked;
    }
  }

  /** Publishing the lock holder's state makes every other snapshot stale. */
  lemma CommitInvariant(sys: System, c: nat)
    requires Invariant(sys) && c in sys.txns && sys.txns[c].locked
    ensures Invariant(System(sys.txns[c].working, sys.version + 1, sys.txns - {c}))
  {
    hide CredentialsOf;
    var sys' := System(sys.txns[c].working, sys.version + 1, sys.txns - {c});
    forall d | d in sys'.txns
      ensures TxnInvariant(sys', sys'.txns[d])
    {
      assert TxnInvariant(sys, sys.txns[d]) && !sys.txns[d].locked;
    }
  }

  lemma OwnInvariant(sys: System, c: nat)
    requires Invariant(sys) && c in sys.txns
    ensures TxnInvariant(sys, sys.txns[c])
    ensures sys.txns[c].locked ==> forall d | d in sys.txns && d != c :: !sys.txns[d].locked
  {
  }

  lemma Dropped(sys: System, c: nat)
    requires Invariant(sys)
    ensures Invariant(sys.(txns := sys.txns - {c}))
  {
    hide CredentialsOf;
    var sys' := sys.(txns := sys.txns - {c});
    assert forall d | d in sys'.txns :: TxnInvariant(sys, sys'.txns[d]) && TxnInvariant(sys', sys'.txns[d]);
  }

  /** A statement of a connection between operations. */
  lemma IdleInvariant(sys: System, c: nat, a: Action)
    requires Invariant(sys) && c in sys.txns && sys.txns[c].phase == Idle && !a.Rollback?
    ensures Invariant(Next(sys, c, a))
  {
    hide SqlStep, CredentialsOf, BytesToB64url, Invariant;
    var t := sys.txns[c];
    assert TxnInvariant(sys, t) && (t.locked ==> forall d | d in sys.txns && d != c :: !sys.txns[d].locked) by {
      OwnInvariant(sys, c);
    }
    if a.Mutate? || a.TakeLock? {
      if WithLock(sys, t).Some? {
        LockedView(sys, c, t);
        var t' := WithLock(sys, t).value;
        if a.Mutate? {
          PutInvariant(sys, c, t'.(working := SqlStep(t'.working, a.op).0));
        } else {
          PutInvariant(sys, c, t'.(phase := Selecting(BytesToB64url(a.id), a.owner)));
        }
      }
    } else if a.Commit? {
      if t.locked { CommitInvariant(sys, c); } else { Dropped(sys, c); }
    } else if Next(sys, c, a) != sys {
      PutInvariant(sys, c, Next(sys, c, a).txns[c]);
    }
  }

  /** Every action of every connection keeps the rules, unguarded deletes included. */
  lemma NextInvariant(sys: System, c: nat, a: Action)
    requires Invariant(sys)
    ensures Invariant(Next(sys, c, a))
  {
    hide SqlStep, BytesToB64url, Invariant;
    if c !in sys.txns {
      if a.BeginDeferred? {
        PutInvariant(sys, c, Fresh(sys));
      } else if a.BeginImmediate? && WithLock(sys, Fresh(sys)).Some? {
        LockedView(sys, c, Fresh(sys));
        PutInvariant(sys, c, WithLock(sys, Fresh(sys)).value);
      }
    } else if a.Rollback? {
      Dropped(sys, c);
    } else if sys.txns[c].phase == Idle {
      IdleInvariant(sys, c, a);
    } else {
      var t := sys.txns[c];
      OwnInvariant(sys, c);
      if t.phase.Selecting? && a.CountRemaining? {
        PutInvariant(sys, c, t.(phase := CountedPhase(t.working, t.phase.key, t.phase.owner)));
      } else if t.phase.Removing? && a.RemoveRow? {
        PutInvariant(sys, c, t.(working := RemovedKey(t.working, t.phase.key), phase := Idle));
      }
    }
  }

  // ---- The last credential, if the deletes are guarded ----

  lemma PutKeeps(sys: System, c: nat, t: Txn)
    requires AllKeep(sys) && TxnKeeps(sys.committed, t)
    ensures AllKeep(Put(sys, c, t))
  {
    hide Keeps;
  }

  lemma LockedKeeps(sys: System, t: Txn)
    requires TxnInvariant(sys, t) && TxnKeeps(sys.committed, t) && WithLock(sys, t).Some?
    ensures TxnKeeps(sys.committed, WithLock(sys, t).value) && WithLock(sys, t).value.locked
  {
    hide Keeps, CredentialsOf;
    KeepsItself(sys.committed);
  }

  /** A commit publishes what keeps, and leaves no other transaction with anything to publish. */
  lemma CommitKeeps(sys: System, c: nat)
    requires Invariant(sys) && AllKeep(sys) && c in sys.txns && sys.txns[c].locked
    ensures Keeps(sys.committed, sys.txns[c].working)
    ensures AllKeep(System(sys.txns[c].working, sys.version + 1, sys.txns - {c}))
  {
    hide Keeps, CredentialsOf;
    assert TxnKeeps(sys.committed, sys.txns[c]);
  }

  lemma IdleKeeps(sys: System, c: nat, a: Action)
    requires Invariant(sys) && AllKeep(sys) && Guarded(a)
    requires c in sys.txns && sys.txns[c].phase == Idle && !a.Rollback?
    ensures AllKeep(Next(sys, c, a)) && Keeps(sys.committed, Next(sys, c, a).committed)
  {
    hide Keeps, SqlStep, CredentialsOf, BytesToB64url, Invariant;
    var t := sys.txns[c];
    KeepsItself(sys.committed);
    OwnInvariant(sys, c);
    assert TxnKeeps(sys.committed, t);
    if a.Mutate? || a.TakeLock? {
      if WithLock(sys, t).Some? {
        LockedKeeps(sys, t);
        var t' := WithLock(sys, t).value;
        if a.Mutate? {
          GuardedKeeps(t'.working, a.op);
          KeepsThrough(sys.committed, t'.working, SqlStep(t'.working, a.op).0);
          PutKeeps(sys, c, t'.(working := SqlStep(t'.working, a.op).0));
        } else {
          PutKeeps(sys, c, t'.(phase := Selecting(BytesToB64url(a.id), a.owner)));
        }
      }
    } else if a.Commit? {
      if t.locked { CommitKeeps(sys, c); }
    } else if Next(sys, c, a) != sys {
      PutKeeps(sys, c, Next(sys, c, a).txns[c]);
    }
  }

  lemma NextKeeps(sys: System, c: nat, a: Action)
    requires Invariant(sys) && AllKeep(sys) && Guarded(a)
    ensures AllKeep(Next(sys, c, a)) && Keeps(sys.committed, Next(sys, c, a).committed)
  {
    hide Keeps, SqlStep, BytesToB64url, Invariant;
    KeepsItself(sys.committed);
    if c !in sys.txns {
      if a.BeginDeferred? {
        PutKeeps(sys, c, Fresh(sys));
      } else if a.BeginImmediate? && WithLock(sys, Fresh(sys)).Some? {
        PutKeeps(sys, c, WithLock(sys, Fresh(sys)).value);
      }
    } else if a.Rollback? {
      assert AllKeep(sys.(txns := sys.txns - {c}));
    } else if sys.txns[c].phase == Idle {
      IdleKeeps(sys, c, a);
    } else {
      var t := sys.txns[c];
      OwnInvariant(sys, c);
      assert TxnKeeps(sys.committed, t);
      if t.phase.Selecting? && a.CountRemaining? {
        PutKeeps(sys, c, t.(phase := CountedPhase(t.working, t.phase.key, t.phase.owner)));
      } else if t.phase.Removing? && a.RemoveRow? {
        RemovalKeeps(t.working, t.phase.key, t.phase.user);
        KeepsThrough(sys.committed, t.working, RemovedKey(t.working, t.phase.key));
        PutKeeps(sys, c, t.(working := RemovedKey(t.working, t.phase.key), phase := Idle));
      }
    }
  }

  /**
    However many transactions interleave, whatever they do besides, and whichever of them commit or
    roll back: if all their deletes are guarded, a user with a committed credential keeps one.
  */
  lemma {:induction false} LastCredentialStays(sys: System, trace: seq<(nat, Action)>)
    requires Invariant(sys) && AllKeep(sys) && forall k | 0 <= k < |trace| :: Guarded(trace[k].1)
    ensures Invariant(Reach(sys, trace)) && AllKeep(Reach(sys, trace))
    ensures Keeps(sys.committed, Reach(sys, trace).committed)
    decreases |trace|
  {
    hide Keeps, Invariant, AllKeep, Next, Guarded;
    KeepsItself(sys.committed);
    if |trace| > 0 {
      var sys1 := Next(sys, trace[0].0, trace[0].1);
      NextInvariant(sys, trace[0].0, trace[0].1);
      NextKeeps(sys, trace[0].0, trace[0].1);
      LastCredentialStays(sys1, trace[1..]);
      KeepsThrough(sys.committed, sys1.committed, Reach(sys, trace).committed);
    }
  }

  /** A database with no open transaction is a possible start. */
  lemma QuietDatabase(db: Db)
    ensures Invariant(System(db, 0, map[])) && AllKeep(System(db, 0, map[]))
  {
  }

  /**
    The guard is what keeps it: an unguarded delete takes a user's only credential, a guarded one
    refuses.
  */
  lemma UnguardedDeleteTakesLast(db: Db, id: Bytes, user: string)
    requires CredentialsOf(db, user) == {BytesToB64url(id)}
    ensures SqlDelete(db, id, Some(user), true) == (db, Deleted(false))
    ensures CredentialsOf(SqlDelete(db, id, Some(user), false).0, user) == {}
  {
    assert BytesToB64url(id) in CredentialsOf(db, user);
  }

  /** And so does a run: one transaction with one unguarded delete commits a user's last credential away. */
  lemma UnguardedRunTakesLast(db: Db, id: Bytes, user: string)
    requires CredentialsOf(db, user) == {BytesToB64url(id)}
    ensures var trace := [(0, BeginDeferred), (0, Mutate(Delete(id, Some(user), false))), (0, Commit)];
            CredentialsOf(Reach(System(db, 0, map[]), trace).committed, user) == {}
  {
    hide BytesToB64url, SqlDelete, CredentialsOf;
    var delete := Mutate(Delete(id, Some(user), false));
    var sys0 := System(db, 0, map[]);
    var sys1 := Next(sys0, 0, BeginDeferred);
    var sys2 := Next(sys1, 0, delete);
    UnguardedDeleteTakesLast(db, id, user);
    assert sys2.txns[0].working == SqlDelete(db, id, Some(user), false).0;
    var trace := [(0, BeginDeferred), (0, delete), (0, Commit)];
    assert trace[1..] == [(0, delete), (0, Commit)] && trace[1..][1..] == [(0, Commit)] && [(0, Commit)][1..] == [];
    assert Reach(sys2, [(0, Commit)]) == Next(sys2, 0, Commit);
  }

  // ---- What one connection alone achieves ----

  function Alone(db: Db, version: nat, t: Txn): System {
    System(db, version, map[0 := t])
  }

  function Holding(db: Db, version: nat, phase: Phase): Txn {
    Txn(Some(version), db, true, [], phase)
  }

  lemma AloneLocks(db: Db, version: nat)
    ensures Next(System(db, version, map[]), 0, BeginImmediate) == Alone(db, version, Holding(db, version, Idle))
  {
    var none: seq<Db> := [];
    assert seq(|none|, _ => db) == none;
    assert !LockHeld(System(db, version, map[]));
  }

  lemma AloneTakes(db: Db, version: nat, id: Bytes, owner: Option<string>)
    ensures Next(Alone(db, version, Holding(db, version, Idle)), 0, TakeLock(id, owner))
         == Alone(db, version, Holding(db, version, Selecting(BytesToB64url(id), owner)))
  {
    hide BytesToB64url, SqlStep;
    assert map[0 := Holding(db, version, Idle)][0 := Holding(db, version, Selecting(BytesToB64url(id), owner))]
        == map[0 := Holding(db, version, Selecting(BytesToB64url(id), owner))];
  }

  lemma AloneCounts(db: Db, version: nat, key: string, owner: Option<string>)
    ensures Next(Alone(db, version, Holding(db, version, Selecting(key, owner))), 0, CountRemaining)
         == Alone(db, version, Holding(db, version, CountedPhase(db, key, owner)))
  {
    hide SqlStep, CountedPhase;
    var t := Holding(db, version, Selecting(key, owner));
    var t' := Holding(db, version, CountedPhase(db, key, owner));
    assert map[0 := t][0 := t'] == map[0 := t'];
  }

  lemma AloneRemoves(db: Db, version: nat, p: Phase)
    requires !p.Selecting?
    ensures Next(Alone(db, version, Holding(db, version, p)), 0, RemoveRow) ==
            var left := if p.Removing? then RemovedKey(db, p.key) else db;
            Alone(db, version, Holding(left, version, Idle))
  {
    hide SqlStep;
    var left := if p.Removing? then RemovedKey(db, p.key) else db;
    assert map[0 := Holding(db, version, p)][0 := Holding(left, version, Idle)]
        == map[0 := Holding(left, version, Idle)];
  }

  lemma AloneCommits(db: Db, version: nat, left: Db)
    ensures Next(Alone(db, version, Holding(left, version, Idle)), 0, Commit) == System(left, version + 1, map[])
  {
    hide SqlStep;
    var t := Holding(left, version, Idle);
    var sys := Alone(db, version, t);
    assert sys.txns[0] == t && sys.txns.Keys == {0};
    assert Next(sys, 0, Commit) == System(left, version + 1, sys.txns - {0});
    var none: map<nat, Txn> := map[];
    assert (sys.txns - {0}).Keys == none.Keys;
    assert sys.txns - {0} == none;
  }

  lemma ReachFirst(sys: System, a: Action, rest: seq<(nat, Action)>)
    ensures Reach(sys, [(0, a)] + rest) == Reach(Next(sys, 0, a), rest)
  {
    hide Next;
    assert ([(0, a)] + rest)[1..] == rest;
  }

  lemma Reach5(sys: System, a: Action, b: Action, c: Action, d: Action, e: Action)
    ensures Reach(sys, [(0, a), (0, b), (0, c), (0, d), (0, e)])
         == Next(Next(Next(Next(Next(sys, 0, a), 0, b), 0, c), 0, d), 0, e)
  {
    var s1 := Next(sys, 0, a);
    var s2 := Next(s1, 0, b);
    var s3 := Next(s2, 0, c);
    var s4 := Next(s3, 0, d);
    var none: seq<(nat, Action)> := [];
    assert Reach(Next(s4, 0, e), none) == Next(s4, 0, e);
    hide Next, Reach;
    ReachFirst(s4, e, none);
    ReachFirst(s3, d, [(0, e)]);
    ReachFirst(s2, c, [(0, d), (0, e)]);
    ReachFirst(s1, b, [(0, c), (0, d), (0, e)]);
    ReachFirst(sys, a, [(0, b), (0, c), (0, d), (0, e)]);
    assert [(0, a)] + [(0, b), (0, c), (0, d), (0, e)] == [(0, a), (0, b), (0, c), (0, d), (0, e)];
    assert [(0, b)] + [(0, c), (0, d), (0, e)] == [(0, b), (0, c), (0, d), (0, e)];
    assert [(0, c)] + [(0, d), (0, e)] == [(0, c), (0, d), (0, e)] && [(0, d)] + [(0, e)] == [(0, d), (0, e)];
    assert [(0, e)] + none == [(0, e)];
  }

  /** On a database nobody else uses, lock, count, remove and commit publish exactly the store's guarded delete. */
  lemma AloneGuardedDelete(db: Db, version: nat, id: Bytes, owner: Option<string>)
    ensures var trace := [(0, BeginImmediate), (0, TakeLock(id, owner)), (0, CountRemaining), (0, RemoveRow),
                          (0, Commit)];
            Reach(System(db, version, map[]), trace)
              == System(SqlDelete(db, id, owner, true).0, version + 1, map[])
  {
    hide BytesToB64url, SqlDelete, CountedPhase, Next, Reach, Alone, Holding;
    GuardedDeleteInSteps(db, id, owner);
    var p := CountedPhase(db, BytesToB64url(id), owner);
    assert !p.Selecting? by { CountedAnswer(db, BytesToB64url(id), owner); }
    Reach5(System(db, version, map[]), BeginImmediate, TakeLock(id, owner), CountRemaining, RemoveRow, Commit);
    AloneLocks(db, version);
    AloneTakes(db, version, id, owner);
    AloneCounts(db, version, BytesToB64url(id), owner);
    AloneRemoves(db, version, p);
    AloneCommits(db, version, if p.Removing? then RemovedKey(db, p.key) else db);
  }

  lemma CountedAnswer(db: Db, key: string, owner: Option<string>)
    ensures !CountedPhase(db, key, owner).Selecting?
  {
  }
}
