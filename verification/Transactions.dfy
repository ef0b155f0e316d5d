/**
  A SQLite connection and the context manager every store operation runs in.  In external mode an
  operation is bracketed by a savepoint inside the caller's transaction; in operation mode it owns a
  whole transaction.  SQLite looks savepoints up by name, most recent first, so the proofs do not
  rely on the names being distinct.
*/
module Transactions {
  import opened Wrappers

  datatype Frame<T> = Frame(name: string, image: T)

  /** Index of the most recent savepoint of that name, or -1. */
  function LastNamed<T>(frames: seq<Frame<T>>, name: string): (i: int)
    ensures -1 <= i < |frames|
    ensures 0 <= i ==> frames[i].name == name
    ensures forall k | i < k < |frames| :: frames[k].name != name
  {
    if |frames| == 0 then -1
    else if frames[|frames| - 1].name == name then |frames| - 1
    else LastNamed(frames[..|frames| - 1], name)
  }

  /** The savepoint just set is the one its name finds, whatever the earlier names are. */
  lemma TopFrame<T>(frames: seq<Frame<T>>, top: Frame<T>)
    ensures LastNamed(frames + [top], top.name) == |frames|
    ensures (frames + [top])[..|frames|] == frames && (frames + [top])[..|frames| + 1] == frames + [top]
  {
    var all := frames + [top];
    assert |all| == |frames| + 1 && all[|all| - 1] == top;
    hide LastNamed;
  }

  /**
    What a caller does inside its transaction: SQL statements (None is a statement error), raising,
    sequencing, a store operation around a body, and catching whatever a part raised.
  */
  datatype Program<!T> =
    | Skip
    | Raise
    | Statement(update: T -> Option<T>)
    | Then(first: Program<T>, second: Program<T>)
    | Operation(marker: string, body: Program<T>)
    | Attempt(body: Program<T>)

  /**
    The meaning of a program: the data it leaves and whether it completed; a failed operation leaves its
    data alone.
  */
  function Denote<T>(p: Program<T>, db: T): (T, bool) {
    match p
    case Skip => (db, true)
    case Raise => (db, false)
    case Statement(update) =>
      (match update(db) case Some(db') => (db', true) case None => (db, false))
    case Then(first, second) =>
      var (db1, ok) := Denote(first, db);
      if ok then Denote(second, db1) else (db1, false)
    case Operation(_, body) =>
      var (db1, ok) := Denote(body, db);
      if ok then (db1, true) else (db, false)
    case Attempt(body) => (Denote(body, db).0, true)
  }

  datatype Completion = Completed | Raised | NoTransaction | ForeignKeysOff | NestedBegin

  class Connection<T> {
    var committed: T
    var working: T
    var inTransaction: bool
    var foreignKeys: bool
    var savepoints: seq<Frame<T>>

    ghost predicate Valid()
      reads this
    {
      !inTransaction ==> working == committed && savepoints == []
    }

    constructor (data: T, foreignKeys: bool)
      ensures Valid() && !inTransaction && committed == data && this.foreignKeys == foreignKeys
    {
      committed, working, inTransaction, savepoints := data, data, false, [];
      this.foreignKeys := foreignKeys;
    }

    method Begin() returns (ok: bool)
      requires Valid()
      modifies this`inTransaction
      ensures Valid() && inTransaction && ok == !old(inTransaction)
    {
      ok := !inTransaction;
      inTransaction := true;
    }

    method Commit()
      requires Valid()
      modifies this`committed, this`inTransaction, this`savepoints
      ensures Valid() && !inTransaction && committed == old(working)
    {
      committed, inTransaction, savepoints := working, false, [];
    }

    method Rollback()
      requires Valid()
      modifies this`working, this`inTransaction, this`savepoints
      ensures Valid() && !inTransaction
    {
      working, inTransaction, savepoints := committed, false, [];
    }

    method Savepoint(name: string)
      requires Valid() && inTransaction
      modifies this`savepoints
      ensures Valid() && savepoints == old(savepoints) + [Frame(name, working)]
    {
      savepoints := savepoints + [Frame(name, working)];
    }

    method Release(name: string) returns (ok: bool)
      requires Valid() && inTransaction
      modifies this`savepoints
      ensures Valid()
      ensures var i := LastNamed(old(savepoints), name);
              ok == (0 <= i) && savepoints == if 0 <= i then old(savepoints)[..i] else old(savepoints)
    {
      var i := LastNamed(savepoints, name);
      ok := 0 <= i;
      if ok {
        savepoints := savepoints[..i];
      }
    }

    method RollbackTo(name: string) returns (ok: bool)
      requires Valid() && inTransaction
      modifies this`working, this`savepoints
      ensures Valid()
      ensures var i := LastNamed(old(savepoints), name);
              && ok == (0 <= i)
              && savepoints == (if 0 <= i then old(savepoints)[..i + 1] else old(savepoints))
              && working == if 0 <= i then old(savepoints)[i].image else old(working)
    {
      var i := LastNamed(savepoints, name);
      ok := 0 <= i;
      if ok {
        working, savepoints := savepoints[i].image, savepoints[..i + 1];
      }
    }

    /** The data an operation of that mode starts from. */
    function Visible(external: bool): T
      reads this
    {
      if external then working else committed
    }

    /**
      What one store operation does to the connection when its statements leave `after`.  External
      mode moves the working state and leaves the rest to the caller; operation mode commits, or
      discards a transaction the caller had open.
    */
    twostate predicate Moved(external: bool, c: Completion, new after: T)
      reads this
    {
      && foreignKeys == old(foreignKeys)
      && if external then
        && c == (if !inTransaction then NoTransaction else if !foreignKeys then ForeignKeysOff else Completed)
        && working == (if c == Completed then after else old(working))
        && committed == old(committed) && savepoints == old(savepoints) && inTransaction == old(inTransaction)
      else
        && !inTransaction
        && c == (if old(inTransaction) then NestedBegin else Completed)
        && committed == if c == Completed then after else old(committed)
    }

    /** Entering the context manager around a store's own statements. */
    method Enter(external: bool, marker: string) returns (c: Completion)
      requires Valid()
      modifies this`inTransaction, this`savepoints, this`working
      ensures Valid()
      ensures external ==>
                && c == (if !inTransaction then NoTransaction else if !foreignKeys then ForeignKeysOff else Completed)
                && inTransaction == old(inTransaction) && working == old(working)
                && savepoints == old(savepoints) + if c == Completed then [Frame(marker, working)] else []
      ensures !external ==>
                && c == (if old(inTransaction) then NestedBegin else Completed)
                && inTransaction == (c == Completed) && working == committed && savepoints == []
    {
      if external {
        if !inTransaction {
          return NoTransaction;
        }
        if !foreignKeys {
          return ForeignKeysOff;
        }
        Savepoint(marker);
        return Completed;
      }
      var begun := Begin();
      if !begun {
        Rollback();
        return NestedBegin;
      }
      return Completed;
    }

    /** Leaving it, normally or because the body raised. */
    method Leave(external: bool, marker: string, raised: bool, ghost frames: seq<Frame<T>>, ghost start: T)
      requires Valid() && inTransaction
      requires external ==> savepoints == frames + [Frame(marker, start)]
      requires !external ==> committed == start
      modifies this`committed, this`working, this`inTransaction, this`savepoints
      ensures Valid() && inTransaction == external
      ensures working == if raised then start else old(working)
      ensures external ==> committed == old(committed) && savepoints == frames
      ensures !external ==> committed == working
    {
      if external {
        TopFrame(frames, Frame(marker, start));
        if raised {
          var _ := RollbackTo(marker);
        }
        var _ := Release(marker);
      } else if raised {
        Rollback();
      } else {
        Commit();
      }
    }

    /** Runs a program in the caller's transaction: savepoints implement its meaning and come back as they were. */
    method Run(p: Program<T>) returns (ok: bool)
      requires Valid() && inTransaction && foreignKeys
      modifies this`working, this`savepoints
      ensures Valid() && savepoints == old(savepoints)
      ensures (working, ok) == Denote(p, old(working))
      decreases p, 0
    {
      match p
      case Skip => ok := true;
      case Raise => ok := false;
      case Statement(update) =>
        match update(working) {
          case Some(data) =>
            working, ok := data, true;
          case None =>
            ok := false;
        }
      case Then(first, second) =>
        ok := Run(first);
        if ok {
          ok := Run(second);
        }
      case Operation(marker, body) =>
        var c := ExternalOperation(marker, body);
        ok := c == Completed;
      case Attempt(body) =>
        var _ := Run(body);
        ok := true;
    }

    /**
      The context manager in external mode.  It never touches the committed state, it restores the
      caller's savepoints, and a body that raises leaves the caller's working state exactly as it was.
    */
    method ExternalOperation(marker: string, body: Program<T>) returns (c: Completion)
      requires Valid()
      modifies this`working, this`savepoints
      ensures Valid() && savepoints == old(savepoints)
      ensures c == if !inTransaction then NoTransaction
                   else if !foreignKeys then ForeignKeysOff
                   else if Denote(body, old(working)).1 then Completed else Raised
      ensures working == if c == Completed then Denote(body, old(working)).0 else old(working)
      decreases body, 1
    {
      if !inTransaction {
        return NoTransaction;
      }
      if !foreignKeys {
        return ForeignKeysOff;
      }
      ghost var caller := savepoints;
      Savepoint(marker);
      TopFrame(caller, Frame(marker, working));
      var ok := Run(body);
      if ok {
        var _ := Release(marker);
        return Completed;
      }
      var _ := RollbackTo(marker);
      var _ := Release(marker);
      return Raised;
    }

    /**
      The context manager in operation mode: one transaction per operation.  On a connection whose
      caller already has a transaction open, BEGIN raises, and the handler's rollback discards that
      transaction, savepoints included.
    */
    method OwnedOperation(body: Program<T>) returns (c: Completion)
      requires Valid() && foreignKeys
      modifies this`committed, this`working, this`inTransaction, this`savepoints
      ensures Valid() && !inTransaction
      ensures c == if old(inTransaction) then NestedBegin
                   else if Denote(body, old(committed)).1 then Completed else Raised
      ensures committed == if c == Completed then Denote(body, old(committed)).0 else old(committed)
    {
      var begun := Begin();
      if !begun {
        Rollback();
        return NestedBegin;
      }
      var ok := Run(body);
      if ok {
        Commit();
        return Completed;
      }
      Rollback();
      return Raised;
    }

    /** The caller's own transaction: its commit publishes every surviving change and its rollback none. */
    method CallerTransaction(script: Program<T>, commit: bool) returns (ok: bool)
      requires Valid() && !inTransaction && foreignKeys
      modifies this`committed, this`working, this`inTransaction, this`savepoints
      ensures Valid() && !inTransaction
      ensures ok == Denote(script, old(committed)).1
      ensures committed == if commit then Denote(script, old(committed)).0 else old(committed)
    {
      var _ := Begin();
      ok := Run(script);
      if commit {
        Commit();
      } else {
        Rollback();
      }
    }
  }

  // ---- What survives ----

  /** A script of store operations, each of which the caller survives. */
  function Script<T>(steps: seq<(string, Program<T>)>): Program<T> {
    if |steps| == 0 then Skip else Then(Attempt(Operation(steps[0].0, steps[0].1)), Script(steps[1..]))
  }

  /** The data after applying, in order, exactly the bodies that complete. */
  function Surviving<T>(steps: seq<(string, Program<T>)>, db: T): T {
    if |steps| == 0 then db
    else
      var (db1, ok) := Denote(steps[0].1, db);
      Surviving(steps[1..], if ok then db1 else db)
  }

  lemma {:induction false} ScriptKeepsSurvivors<T>(steps: seq<(string, Program<T>)>, db: T)
    ensures Denote(Script(steps), db) == (Surviving(steps, db), true)
  {
    if |steps| > 0 {
      var (db1, ok) := Denote(steps[0].1, db);
      var first := Attempt(Operation(steps[0].0, steps[0].1));
      assert Denote(first, db) == (if ok then db1 else db, true);
      assert Denote(Script(steps), db) == Denote(Script(steps[1..]), Denote(first, db).0);
      ScriptKeepsSurvivors(steps[1..], if ok then db1 else db);
    }
  }

  /** The program with every savepoint given the same name. */
  function Renamed<T>(p: Program<T>, name: string): Program<T> {
    match p
    case Then(first, second) => Then(Renamed(first, name), Renamed(second, name))
    case Operation(_, body) => Operation(name, Renamed(body, name))
    case Attempt(body) => Attempt(Renamed(body, name))
    case _ => p
  }

  /** Clashing savepoint names, even one name for all, change nothing. */
  lemma {:induction false} NamesDoNotMatter<T>(p: Program<T>, name: string, db: T)
    ensures Denote(Renamed(p, name), db) == Denote(p, db)
  {
    match p
    case Then(first, second) =>
      NamesDoNotMatter(first, name, db);
      NamesDoNotMatter(second, name, Denote(first, db).0);
      assert Denote(Then(first, second), db)
          == var (db1, ok) := Denote(first, db); if ok then Denote(second, db1) else (db1, false);
    case Operation(_, body) => NamesDoNotMatter(body, name, db);
    case Attempt(body) => NamesDoNotMatter(body, name, db);
    case Skip =>
    case Raise =>
    case Statement(_) =>
  }

  /** So two connections running one script under different savepoint names, repeated ones included, end alike. */
  method RunsWithAnyNames<T>(a: Connection<T>, b: Connection<T>, p: Program<T>, name: string) returns (x: bool, y: bool)
    requires a != b && a.Valid() && b.Valid() && a.inTransaction && b.inTransaction && a.foreignKeys && b.foreignKeys
    requires a.working == b.working
    modifies a`working, a`savepoints, b`working, b`savepoints
    ensures x == y && a.working == b.working
    ensures a.savepoints == old(a.savepoints) && b.savepoints == old(b.savepoints)
  {
    NamesDoNotMatter(p, name, a.working);
    x := a.Run(p);
    y := b.Run(Renamed(p, name));
  }
}
