/**
  A SQLite database as a map of tables, and the statements the schema functions run on it.  None is
  a statement that raises.  Values keep the storage class they are inserted with.
*/
module SchemaTables {
  import opened Wrappers

  datatype Cell = Null | Int(value: int) | Text(text: string) | Blob(bytes: Bytes)

  /** A row of PRAGMA table_info. */
  datatype Column = Column(name: string, kind: string, notNull: bool, pk: nat, defaultText: Option<string>)

  /** An index the table's own constraints imply, or one that was created by name. */
  datatype Index = Auto(columns: seq<string>) | Named(name: string, unique: bool, columns: seq<string>)

  datatype ForeignKey = ForeignKey(table: string, fromColumn: string, toColumn: string, onUpdate: string,
                                   onDelete: string)

  type Row = map<string, Cell>

  datatype Table = Table(columns: seq<Column>, indexes: set<Index>, foreignKeys: seq<ForeignKey>, rows: seq<Row>)

  type Db = map<string, Table>

  function At(row: Row, name: string): Cell {
    if name in row then row[name] else Null
  }

  predicate HasColumn(t: Table, name: string) {
    exists i | 0 <= i < |t.columns| :: t.columns[i].name == name
  }

  predicate IndexNamed(t: Table, name: string) {
    exists i | i in t.indexes :: i.Named? && i.name == name
  }

  predicate UniqueOn(t: Table, column: string) {
    exists i | i in t.indexes :: (i.Auto? || i.unique) && i.columns == [column]
  }

  /** Index names are shared by the whole database. */
  predicate IndexTaken(db: Db, name: string) {
    exists t | t in db :: IndexNamed(db[t], name)
  }

  function WithIndex(t: Table, name: string, column: string): Table {
    t.(indexes := t.indexes + {Named(name, false, [column])})
  }

  function CreateIndex(db: Db, table: string, name: string, column: string): (r: Option<Db>)
    requires table in db
    ensures r.Some? ==> r.value.Keys == db.Keys
  {
    if IndexTaken(db, name) || !HasColumn(db[table], column) then None
    else Some(db[table := WithIndex(db[table], name, column)])
  }

  function CreateIndexIfAbsent(db: Db, table: string, name: string, column: string): (r: Option<Db>)
    requires table in db
    ensures r.Some? ==> r.value.Keys == db.Keys
  {
    if IndexTaken(db, name) then Some(db) else CreateIndex(db, table, name, column)
  }

  function AddColumn(db: Db, table: string, column: Column): Option<Db>
    requires table in db
  {
    var t := db[table];
    if HasColumn(t, column.name) then None
    else
      Some(db[table := t.(columns := t.columns + [column],
                          rows := seq(|t.rows|, i requires 0 <= i < |t.rows| => t.rows[i][column.name := Null]))])
  }

  function Redirected(t: Table, a: string, b: string): Table {
    t.(foreignKeys := seq(|t.foreignKeys|, i requires 0 <= i < |t.foreignKeys| =>
         if t.foreignKeys[i].table == a then t.foreignKeys[i].(table := b) else t.foreignKeys[i]))
  }

  /** Renaming a table takes the foreign keys that refer to it along. */
  function Rename(db: Db, a: string, b: string): (r: Db)
    requires a in db && b !in db
    ensures r.Keys == db.Keys - {a} + {b}
  {
    map t | t in db.Keys - {a} + {b} :: if t == b then Redirected(db[a], a, b) else Redirected(db[t], a, b)
  }

  // ---- Inserting under constraints ----

  /** Equal under a key none of whose columns is NULL. */
  predicate SameKey(columns: seq<string>, a: Row, b: Row) {
    forall i | 0 <= i < |columns| :: At(a, columns[i]) != Null && At(a, columns[i]) == At(b, columns[i])
  }

  predicate Apart(t: Table, a: Row, b: Row) {
    forall i | i in t.indexes && (i.Auto? || i.unique) :: !SameKey(i.columns, a, b)
  }

  predicate NotNulls(t: Table, row: Row) {
    forall i | 0 <= i < |t.columns| :: t.columns[i].notNull ==> At(row, t.columns[i].name) != Null
  }

  predicate ParentFound(db: Db, fk: ForeignKey, row: Row) {
    At(row, fk.fromColumn) == Null
    || (fk.table in db && exists k | 0 <= k < |db[fk.table].rows| ::
          At(db[fk.table].rows[k], fk.toColumn) == At(row, fk.fromColumn))
  }

  predicate ParentsFound(db: Db, t: Table, row: Row) {
    forall i | 0 <= i < |t.foreignKeys| :: ParentFound(db, t.foreignKeys[i], row)
  }

  function Insert(db: Db, name: string, row: Row): Option<Db>
    requires name in db
  {
    var t := db[name];
    if NotNulls(t, row) && ParentsFound(db, t, row) && forall k | 0 <= k < |t.rows| :: Apart(t, t.rows[k], row) then
      Some(db[name := t.(rows := t.rows + [row])])
    else None
  }

  function InsertAll(db: Db, name: string, rows: seq<Row>): (r: Option<Db>)
    requires name in db
    ensures r.Some? ==> name in r.value
  {
    if |rows| == 0 then Some(db)
    else
      match InsertAll(db, name, rows[..|rows| - 1])
      case None => None
      case Some(d) => Insert(d, name, rows[|rows| - 1])
  }

  /** An insert that raises stops the whole copy. */
  lemma {:induction false} StoppedCopy(db: Db, name: string, rows: seq<Row>, n: nat)
    requires name in db && n <= |rows| && InsertAll(db, name, rows[..n]) == None
    ensures InsertAll(db, name, rows) == None
  {
    if n < |rows| {
      assert rows[..|rows| - 1][..n] == rows[..n];
      StoppedCopy(db, name, rows[..|rows| - 1], n);
    } else {
      assert rows[..n] == rows;
    }
  }

  /** What a table that starts empty must find in the rows it is given. */
  predicate AllFit(db: Db, t: Table, rows: seq<Row>) {
    && (forall k | 0 <= k < |rows| :: NotNulls(t, rows[k]) && ParentsFound(db, t, rows[k]))
    && (forall j, k | 0 <= j < k < |rows| :: Apart(t, rows[j], rows[k]))
  }

  lemma AllFitStep(db: Db, t: Table, front: seq<Row>, last: Row)
    ensures AllFit(db, t, front + [last]) <==>
              && AllFit(db, t, front) && NotNulls(t, last) && ParentsFound(db, t, last)
              && forall k | 0 <= k < |front| :: Apart(t, front[k], last)
  {
    hide Apart, NotNulls, ParentsFound;
    var rows := front + [last];
    var n := |front|;
    assert rows[n] == last && forall k | 0 <= k < n :: rows[k] == front[k];
    if AllFit(db, t, rows) {
      forall j, k | 0 <= j < k < n
        ensures Apart(t, front[j], front[k])
      {
        assert Apart(t, rows[j], rows[k]);
      }
      forall k | 0 <= k < n
        ensures NotNulls(t, front[k]) && ParentsFound(db, t, front[k]) && Apart(t, front[k], last)
      {
        assert NotNulls(t, rows[k]) && Apart(t, rows[k], rows[n]);
      }
    }
    if && AllFit(db, t, front) && NotNulls(t, last) && ParentsFound(db, t, last)
       && forall k | 0 <= k < n :: Apart(t, front[k], last)
    {
      forall j, k | 0 <= j < k < |rows|
        ensures Apart(t, rows[j], rows[k])
      {
        if k < n { assert Apart(t, front[j], front[k]); }
      }
    }
  }

  /** Copying into an empty table succeeds exactly when all rows fit, and then keeps every row in order. */
  lemma {:induction false} InsertAllExactly(db: Db, name: string, rows: seq<Row>)
    requires name in db && db[name].rows == []
    requires forall i | 0 <= i < |db[name].foreignKeys| :: db[name].foreignKeys[i].table != name
    ensures InsertAll(db, name, rows) == if AllFit(db, db[name], rows) then Some(db[name := db[name].(rows := rows)])
              else None
  {
    hide Apart, NotNulls, AllFit, ParentsFound;
    var t := db[name];
    if |rows| == 0 {
      assert db[name := t.(rows := rows)] == db;
      NothingToFit(db, t);
    } else {
      var front, last := rows[..|rows| - 1], rows[|rows| - 1];
      assert front + [last] == rows;
      InsertAllExactly(db, name, front);
      AllFitStep(db, t, front, last);
      if AllFit(db, t, front) {
        hide InsertAll;
        LastInsert(db, name, t, front, last);
      }
    }
  }

  lemma NothingToFit(db: Db, t: Table)
    ensures AllFit(db, t, [])
  {
  }

  lemma LastInsert(db: Db, name: string, t: Table, front: seq<Row>, last: Row)
    requires name in db && t == db[name]
    requires forall i | 0 <= i < |t.foreignKeys| :: t.foreignKeys[i].table != name
    ensures Insert(db[name := t.(rows := front)], name, last) ==
            if NotNulls(t, last) && ParentsFound(db, t, last)
                && (forall k | 0 <= k < |front| :: Apart(t, front[k], last))
            then Some(db[name := t.(rows := front + [last])]) else None
  {
    hide ParentsFound;
    var t1 := t.(rows := front);
    var d := db[name := t1];
    SameParents(db, d, name, t, last);
    SameRules(d, t, t1, last);
    assert d[name := t1.(rows := front + [last])] == db[name := t.(rows := front + [last])];
  }

  /** The constraints on a row do not depend on the rows already there. */
  lemma SameRules(d: Db, t: Table, t1: Table, row: Row)
    requires t1.(rows := t.rows) == t
    ensures ParentsFound(d, t, row) == ParentsFound(d, t1, row) && NotNulls(t, row) == NotNulls(t1, row)
    ensures forall a :: Apart(t, a, row) == Apart(t1, a, row)
  {
  }

  lemma SameParents(db: Db, d: Db, name: string, t: Table, row: Row)
    requires forall i | 0 <= i < |t.foreignKeys| :: t.foreignKeys[i].table != name
    requires forall u | u != name :: (u in db <==> u in d) && (u in db ==> db[u] == d[u])
    ensures ParentsFound(db, t, row) <==> ParentsFound(d, t, row)
  {
    forall i | 0 <= i < |t.foreignKeys|
      ensures ParentFound(db, t.foreignKeys[i], row) <==> ParentFound(d, t.foreignKeys[i], row)
    {
    }
  }

  /** What a foreign key may name: a column that is unique on its own, or the integer primary key. */
  predicate ParentKey(t: Table, column: string) {
    || UniqueOn(t, column)
    || exists i | 0 <= i < |t.columns| :: t.columns[i].name == column && t.columns[i].kind == "INTEGER"
                                           && OnlyKey(t, i)
  }

  predicate OnlyKey(t: Table, i: nat)
    requires i < |t.columns|
  {
    forall j | 0 <= j < |t.columns| :: t.columns[j].pk != 0 <==> j == i
  }

  /** A foreign key that names no parent key of an existing table is a mismatch, which the check raises. */
  predicate Mismatch(db: Db, fk: ForeignKey) {
    fk.table in db && !ParentKey(db[fk.table], fk.toColumn)
  }

  /** PRAGMA foreign_key_check runs and finds nothing. */
  predicate ForeignKeysHold(db: Db) {
    forall t | t in db ::
      && (forall i | 0 <= i < |db[t].foreignKeys| :: !Mismatch(db, db[t].foreignKeys[i]))
      && (forall k | 0 <= k < |db[t].rows| :: ParentsFound(db, db[t], db[t].rows[k]))
  }
}
