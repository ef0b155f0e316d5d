/**
  DROP TABLE with foreign keys enforced: SQLite first deletes the table's rows, and the foreign keys
  that refer to them act: a cascading key deletes its row too, a resetting key overwrites its column,
  and any other key forbids the drop.
*/
module SchemaDrops {
  import opened Wrappers
  import opened SchemaTables

  /** A row, by its table and position. */
  datatype RowId = RowId(table: string, index: nat)

  predicate IsRow(db: Db, r: RowId) {
    r.table in db && r.index < |db[r.table].rows|
  }

  function RowAt(db: Db, r: RowId): Row
    requires IsRow(db, r)
  {
    db[r.table].rows[r.index]
  }

  function RowsOf(db: Db, name: string): set<RowId>
    requires name in db
  {
    set k | 0 <= k < |db[name].rows| :: RowId(name, k)
  }

  function AllRows(db: Db): set<RowId> {
    set t, r | t in db && r in RowsOf(db, t) :: r
  }

  lemma AllRowsExactly(db: Db, r: RowId)
    ensures r in AllRows(db) <==> IsRow(db, r)
  {
    if IsRow(db, r) { assert r in RowsOf(db, r.table); }
  }

  // ---- Which rows go ----

  /** The key refers to one of the rows that go; a mismatched key is ignored by a drop. */
  predicate Hits(db: Db, gone: set<RowId>, fk: ForeignKey, row: Row) {
    && At(row, fk.fromColumn) != Null && !Mismatch(db, fk)
    && exists r | r in gone ::
         r.table == fk.table && IsRow(db, r) && At(RowAt(db, r), fk.toColumn) == At(row, fk.fromColumn)
  }

  predicate Dragged(db: Db, gone: set<RowId>, t: Table, row: Row) {
    exists i | 0 <= i < |t.foreignKeys| ::
      t.foreignKeys[i].onDelete == "CASCADE" && Hits(db, gone, t.foreignKeys[i], row)
  }

  function Grown(db: Db, gone: set<RowId>): (r: set<RowId>)
    ensures gone <= r && (gone <= AllRows(db) ==> r <= AllRows(db))
  {
    gone + set r | r in AllRows(db) && IsRow(db, r) && Dragged(db, gone, db[r.table], RowAt(db, r))
  }

  lemma Fewer(all: set<RowId>, a: set<RowId>, b: set<RowId>)
    requires a < b <= all
    ensures |all - b| < |all - a|
  {
    var x :| x in b && x !in a;
    SubsetSize(all - b, all - a - {x});
    assert |all - a - {x}| == |all - a| - 1;
  }

  lemma {:induction false} SubsetSize(a: set<RowId>, b: set<RowId>)
    requires a <= b
    ensures |a| <= |b|
  {
    if a != {} {
      var x :| x in a;
      SubsetSize(a - {x}, b - {x});
    }
  }

  function Closure(db: Db, gone: set<RowId>): set<RowId>
    requires gone <= AllRows(db)
    decreases |AllRows(db) - gone|
  {
    var more := Grown(db, gone);
    if more == gone then gone
    else
      Fewer(AllRows(db), gone, more);
      Closure(db, more)
  }

  /** All rows the drop deletes, in whatever table. */
  function Doomed(db: Db, name: string): set<RowId>
    requires name in db
  {
    RowsIn(db, name);
    Closure(db, RowsOf(db, name))
  }

  lemma RowsIn(db: Db, name: string)
    requires name in db
    ensures RowsOf(db, name) <= AllRows(db)
  {
  }

  // ---- What happens to the others ----

  /** A default is known by its text. */
  function DefaultOf(columns: seq<Column>, name: string): Cell {
    if |columns| == 0 then Null
    else if columns[0].name == name then
      match columns[0].defaultText case None => Null case Some(s) => if s == "NULL" then Null else Text(s)
    else DefaultOf(columns[1..], name)
  }

  predicate Resets(fk: ForeignKey) {
    fk.onDelete == "SET NULL" || fk.onDelete == "SET DEFAULT"
  }

  function ResetValue(t: Table, fk: ForeignKey): Cell {
    if fk.onDelete == "SET DEFAULT" then DefaultOf(t.columns, fk.fromColumn) else Null
  }

  /** The row after the first n keys of its table have acted. */
  function Reset(db: Db, gone: set<RowId>, t: Table, row: Row, n: nat): Row
    requires n <= |t.foreignKeys|
  {
    if n == 0 then row
    else
      var r, fk := Reset(db, gone, t, row, n - 1), t.foreignKeys[n - 1];
      if Resets(fk) && Hits(db, gone, fk, row) then r[fk.fromColumn := ResetValue(t, fk)] else r
  }

  function After(db: Db, gone: set<RowId>, t: Table, row: Row): Row {
    Reset(db, gone, t, row, |t.foreignKeys|)
  }

  /** The first n rows of the table without those that go, the others as their keys leave them. */
  function Survivors(db: Db, gone: set<RowId>, name: string, t: Table, n: nat): seq<Row>
    requires n <= |t.rows|
  {
    if n == 0 then []
    else
      Survivors(db, gone, name, t, n - 1)
      + if RowId(name, n - 1) in gone then [] else [After(db, gone, t, t.rows[n - 1])]
  }

  function SweptTable(db: Db, gone: set<RowId>, name: string, t: Table): Table {
    t.(rows := Survivors(db, gone, name, t, |t.rows|))
  }

  function Swept(db: Db, gone: set<RowId>): Db {
    map t | t in db :: SweptTable(db, gone, t, db[t])
  }

  // ---- What forbids the drop ----

  /**
    The key acts neither way, or would reset the column to the very value whose row goes, or its new
    value has no parent.
  */
  predicate Forbids(db: Db, gone: set<RowId>, swept: Db, t: Table, fk: ForeignKey, row: Row) {
    || (Hits(db, gone, fk, row) && fk.onDelete != "CASCADE"
        && (Resets(fk) ==> ResetValue(t, fk) == At(row, fk.fromColumn)))
    || (At(After(db, gone, t, row), fk.fromColumn) != At(row, fk.fromColumn)
        && !ParentFound(swept, fk, After(db, gone, t, row)))
  }

  predicate RowFails(db: Db, gone: set<RowId>, swept: Db, t: Table, row: Row) {
    || (exists i | 0 <= i < |t.foreignKeys| :: Forbids(db, gone, swept, t, t.foreignKeys[i], row))
    || (After(db, gone, t, row) != row && !NotNulls(t, After(db, gone, t, row)))
  }

  /** A row that was reset has to stay apart from the others. */
  predicate Collide(db: Db, gone: set<RowId>, t: Table, a: Row, b: Row) {
    var a', b' := After(db, gone, t, a), After(db, gone, t, b);
    (a' != a || b' != b) && !Apart(t, a', b')
  }

  predicate TableFails(db: Db, gone: set<RowId>, swept: Db, name: string, t: Table) {
    || (exists k | 0 <= k < |t.rows| :: RowId(name, k) !in gone && RowFails(db, gone, swept, t, t.rows[k]))
    || (exists j, k | 0 <= j < k < |t.rows| ::
          RowId(name, j) !in gone && RowId(name, k) !in gone && Collide(db, gone, t, t.rows[j], t.rows[k]))
  }

  predicate SweepFails(db: Db, gone: set<RowId>) {
    exists t | t in db :: TableFails(db, gone, Swept(db, gone), t, db[t])
  }

  function Drop(db: Db, name: string): (r: Option<Db>)
    requires name in db
    ensures r.Some? ==> r.value.Keys == db.Keys - {name}
  {
    if SweepFails(db, Doomed(db, name)) then None else Some(Swept(db, Doomed(db, name)) - {name})
  }

  // ---- The doomed rows are the least set that cascades take ----

  predicate Closed(db: Db, gone: set<RowId>) {
    forall r | r in AllRows(db) && IsRow(db, r) && Dragged(db, gone, db[r.table], RowAt(db, r)) :: r in gone
  }

  /** The doomed rows are the table's own and, for each key that cascades, those that refer to doomed ones. */
  lemma DoomedLeast(db: Db, name: string, all: set<RowId>)
    requires name in db
    ensures RowsOf(db, name) <= Doomed(db, name) && Closed(db, Doomed(db, name))
    ensures RowsOf(db, name) <= all && Closed(db, all) ==> Doomed(db, name) <= all
  {
    hide Closed, Closure;
    RowsIn(db, name);
    ClosureLeast(db, RowsOf(db, name), all);
  }

  lemma {:induction false} ClosureLeast(db: Db, gone: set<RowId>, all: set<RowId>)
    requires gone <= AllRows(db)
    ensures gone <= Closure(db, gone) <= AllRows(db) && Closed(db, Closure(db, gone))
    ensures gone <= all && Closed(db, all) ==> Closure(db, gone) <= all
    decreases |AllRows(db) - gone|
  {
    hide Dragged;
    var more := Grown(db, gone);
    if more != gone {
      Fewer(AllRows(db), gone, more);
      ClosureLeast(db, more, all);
      if gone <= all && Closed(db, all) {
        forall r | r in more
          ensures r in all
        {
          if r !in gone { DraggedMore(db, gone, all, db[r.table], RowAt(db, r)); }
        }
      }
    }
  }

  lemma DraggedMore(db: Db, gone: set<RowId>, all: set<RowId>, t: Table, row: Row)
    requires gone <= all && Dragged(db, gone, t, row)
    ensures Dragged(db, all, t, row)
  {
    hide Mismatch;
    var i :| 0 <= i < |t.foreignKeys| && t.foreignKeys[i].onDelete == "CASCADE"
             && Hits(db, gone, t.foreignKeys[i], row);
    assert Hits(db, all, t.foreignKeys[i], row);
  }

  // ---- Which tables a drop changes ----

  predicate Overwritten(db: Db, gone: set<RowId>, t: Table, row: Row) {
    exists i | 0 <= i < |t.foreignKeys| :: Resets(t.foreignKeys[i]) && Hits(db, gone, t.foreignKeys[i], row)
  }

  /** Some row of the table goes, or a resetting key of it acts. */
  predicate Reached(db: Db, gone: set<RowId>, name: string, t: Table) {
    exists k | 0 <= k < |t.rows| :: RowId(name, k) in gone || Overwritten(db, gone, t, t.rows[k])
  }

  /** A cell that drops made of another: the cell itself, or NULL or the default in its place. */
  predicate CellBelow(preset: Cell, a: Cell, b: Cell) {
    a == b || (b != Null && (a == Null || a == preset))
  }

  ghost predicate SameCells(a: seq<Row>, b: seq<Row>) {
    |a| == |b| && forall k, c | 0 <= k < |b| :: At(a[k], c) == At(b[k], c)
  }

  /** What drops can make of a table: fewer rows, or as many with some cells reset. */
  ghost predicate Below(a: Table, b: Table) {
    && a.columns == b.columns
    && (|a.rows| < |b.rows|
        || (|a.rows| == |b.rows| && forall k, c | 0 <= k < |b.rows| ::
              CellBelow(DefaultOf(b.columns, c), At(a.rows[k], c), At(b.rows[k], c))))
  }

  lemma BelowTransitive(a: Table, b: Table, c: Table)
    requires Below(a, b) && Below(b, c)
    ensures Below(a, c)
  {
    hide DefaultOf;
  }

  /** Drops never bring a row or a cell back. */
  lemma BelowBetween(a: Table, b: Table, c: Table)
    requires Below(a, b) && Below(b, c) && SameCells(a.rows, c.rows)
    ensures SameCells(a.rows, b.rows) && SameCells(b.rows, c.rows)
  {
    hide DefaultOf;
    forall k, n | 0 <= k < |c.rows|
      ensures At(b.rows[k], n) == At(c.rows[k], n)
    {
      assert CellBelow(DefaultOf(c.columns, n), At(b.rows[k], n), At(c.rows[k], n));
      assert CellBelow(DefaultOf(b.columns, n), At(a.rows[k], n), At(b.rows[k], n));
    }
  }

  lemma {:induction false} SurvivorCount(db: Db, gone: set<RowId>, name: string, t: Table, n: nat)
    requires n <= |t.rows|
    ensures var s := Survivors(db, gone, name, t, n);
            && |s| <= n && (|s| == n <==> forall k | 0 <= k < n :: RowId(name, k) !in gone)
            && (|s| == n ==> forall k | 0 <= k < n :: s[k] == After(db, gone, t, t.rows[k]))
  {
    hide After;
    if n > 0 { SurvivorCount(db, gone, name, t, n - 1); }
  }

  lemma {:induction false} ResetBelow(db: Db, gone: set<RowId>, t: Table, row: Row, n: nat, c: string)
    requires n <= |t.foreignKeys|
    ensures CellBelow(DefaultOf(t.columns, c), At(Reset(db, gone, t, row, n), c), At(row, c))
  {
    hide DefaultOf, Mismatch;
    if n > 0 { ResetBelow(db, gone, t, row, n - 1, c); }
  }

  lemma {:induction false} ResetNothing(db: Db, gone: set<RowId>, t: Table, row: Row, n: nat)
    requires n <= |t.foreignKeys| && !Overwritten(db, gone, t, row)
    ensures Reset(db, gone, t, row, n) == row
  {
    hide Hits, Resets, ResetValue;
    if n > 0 { ResetNothing(db, gone, t, row, n - 1); }
  }

  /** If no key would reset a column to the value it has, what one overwrites stays overwritten. */
  lemma {:induction false} ResetChanges(db: Db, gone: set<RowId>, t: Table, row: Row, n: nat, i: nat)
    requires i < n <= |t.foreignKeys| && Resets(t.foreignKeys[i]) && Hits(db, gone, t.foreignKeys[i], row)
    requires forall j | 0 <= j < |t.foreignKeys| ::
               Resets(t.foreignKeys[j]) && Hits(db, gone, t.foreignKeys[j], row) ==>
                 ResetValue(t, t.foreignKeys[j]) != At(row, t.foreignKeys[j].fromColumn)
    ensures var c := t.foreignKeys[i].fromColumn; At(Reset(db, gone, t, row, n), c) != At(row, c)
  {
    hide Hits, Resets, ResetValue;
    if i < n - 1 { ResetChanges(db, gone, t, row, n - 1, i); }
  }

  /** A drop that succeeds changes exactly the tables it reaches, and only downwards. */
  lemma SweptExactly(db: Db, gone: set<RowId>, name: string)
    requires name in db && !SweepFails(db, gone)
    ensures var t, t' := db[name], SweptTable(db, gone, name, db[name]);
            && Below(t', t) && (Reached(db, gone, name, t) <==> !SameCells(t'.rows, t.rows))
            && (!Reached(db, gone, name, t) ==> t' == t)
  {
    hide Survivors, Overwritten, TableFails, Swept, CellBelow;
    var t, t' := db[name], SweptTable(db, gone, name, db[name]);
    SurvivorCount(db, gone, name, t, |t.rows|);
    assert !TableFails(db, gone, Swept(db, gone), name, t);
    forall k | 0 <= k < |t.rows| && RowId(name, k) !in gone
      ensures Overwritten(db, gone, t, t.rows[k]) ==>
                exists c :: At(After(db, gone, t, t.rows[k]), c) != At(t.rows[k], c)
      ensures !Overwritten(db, gone, t, t.rows[k]) ==> After(db, gone, t, t.rows[k]) == t.rows[k]
      ensures forall c ::
                CellBelow(DefaultOf(t.columns, c), At(After(db, gone, t, t.rows[k]), c), At(t.rows[k], c))
    {
      RowExactly(db, gone, name, k);
    }
    if !Reached(db, gone, name, t) { assert t'.rows == t.rows; }
  }

  lemma RowExactly(db: Db, gone: set<RowId>, name: string, k: nat)
    requires name in db && k < |db[name].rows| && RowId(name, k) !in gone
    requires !TableFails(db, gone, Swept(db, gone), name, db[name])
    ensures var t, row := db[name], db[name].rows[k];
            && (Overwritten(db, gone, t, row) ==> exists c :: At(After(db, gone, t, row), c) != At(row, c))
            && (!Overwritten(db, gone, t, row) ==> After(db, gone, t, row) == row)
            && forall c :: CellBelow(DefaultOf(t.columns, c), At(After(db, gone, t, row), c), At(row, c))
  {
    hide Swept, CellBelow, Hits, Resets, ResetValue, Reset, ParentFound, Collide;
    var t, row := db[name], db[name].rows[k];
    forall c
      ensures CellBelow(DefaultOf(t.columns, c), At(After(db, gone, t, row), c), At(row, c))
    {
      ResetBelow(db, gone, t, row, |t.foreignKeys|, c);
    }
    if Overwritten(db, gone, t, row) {
      var i :| 0 <= i < |t.foreignKeys| && Resets(t.foreignKeys[i]) && Hits(db, gone, t.foreignKeys[i], row);
      assert !RowFails(db, gone, Swept(db, gone), t, row);
      forall j | 0 <= j < |t.foreignKeys| && Resets(t.foreignKeys[j]) && Hits(db, gone, t.foreignKeys[j], row)
        ensures ResetValue(t, t.foreignKeys[j]) != At(row, t.foreignKeys[j].fromColumn)
      {
        assert !Forbids(db, gone, Swept(db, gone), t, t.foreignKeys[j], row);
        NotCascade(t.foreignKeys[j]);
      }
      ResetChanges(db, gone, t, row, |t.foreignKeys|, i);
    } else {
      ResetNothing(db, gone, t, row, |t.foreignKeys|);
    }
  }

  lemma NotCascade(fk: ForeignKey)
    requires Resets(fk)
    ensures fk.onDelete != "CASCADE"
  {
  }

  /** A surviving row that refers to a doomed one by a key that neither cascades nor resets forbids the drop. */
  lemma DropForbidden(db: Db, name: string, t: string, k: nat, i: nat)
    requires name in db && t in db && k < |db[t].rows| && i < |db[t].foreignKeys|
    requires RowId(t, k) !in Doomed(db, name) && Hits(db, Doomed(db, name), db[t].foreignKeys[i], db[t].rows[k])
    requires db[t].foreignKeys[i].onDelete !in {"CASCADE", "SET NULL", "SET DEFAULT"}
    ensures Drop(db, name) == None
  {
    hide Doomed, Hits, Swept, After, ParentFound;
    var gone := Doomed(db, name);
    assert Forbids(db, gone, Swept(db, gone), db[t], db[t].foreignKeys[i], db[t].rows[k]);
    assert RowFails(db, gone, Swept(db, gone), db[t], db[t].rows[k]);
    assert TableFails(db, gone, Swept(db, gone), t, db[t]);
  }

  /** A column with one key to start from becomes NULL or its default exactly if that key hits and says so. */
  lemma {:induction false} ResetExactly(db: Db, gone: set<RowId>, t: Table, row: Row, n: nat, i: nat)
    requires i < |t.foreignKeys| && n <= |t.foreignKeys|
    requires forall j | 0 <= j < |t.foreignKeys| && j != i ::
               t.foreignKeys[j].fromColumn != t.foreignKeys[i].fromColumn
    ensures var fk := t.foreignKeys[i];
            At(Reset(db, gone, t, row, n), fk.fromColumn) ==
            if i >= n || !Hits(db, gone, fk, row) then At(row, fk.fromColumn)
            else if fk.onDelete == "SET NULL" then Null
            else if fk.onDelete == "SET DEFAULT" then DefaultOf(t.columns, fk.fromColumn)
            else At(row, fk.fromColumn)
  {
    hide Hits, DefaultOf;
    if n > 0 { ResetExactly(db, gone, t, row, n - 1, i); }
  }

  // ---- Tables a drop cannot reach ----

  /** Every key of these tables names one of them. */
  predicate Enclosed(db: Db, names: set<string>) {
    forall t | t in names && t in db ::
      forall i | 0 <= i < |db[t].foreignKeys| :: db[t].foreignKeys[i].table in names
  }

  function Within(db: Db, names: set<string>): set<RowId> {
    set r | r in AllRows(db) && r.table in names
  }

  /** Tables that refer only to one another are left as they are by the drop of any other table. */
  lemma EnclosedStays(db: Db, name: string, names: set<string>)
    requires name in db && name !in names && Enclosed(db, names) && Drop(db, name).Some?
    ensures forall t | t in names && t in db :: Drop(db, name).value[t] == db[t]
  {
    hide Doomed, SweepFails, Reached, SweptTable, AllRows, Closed;
    var gone, rest := Doomed(db, name), AllRows(db) - Within(db, names);
    RowsIn(db, name);
    assert Closed(db, rest) by { EnclosedClosed(db, names); }
    DoomedLeast(db, name, rest);
    forall t | t in names && t in db
      ensures Drop(db, name).value[t] == db[t]
    {
      EnclosedUnreached(db, gone, names, t);
      SweptExactly(db, gone, t);
    }
  }

  lemma NoHit(db: Db, gone: set<RowId>, fk: ForeignKey, row: Row)
    requires forall r | r in gone :: r.table != fk.table
    ensures !Hits(db, gone, fk, row)
  {
  }

  lemma EnclosedClosed(db: Db, names: set<string>)
    requires Enclosed(db, names)
    ensures Closed(db, AllRows(db) - Within(db, names))
  {
    hide Hits;
    var rest := AllRows(db) - Within(db, names);
    forall r | r in AllRows(db) && IsRow(db, r) && Dragged(db, rest, db[r.table], RowAt(db, r))
      ensures r in rest
    {
      if r.table in names {
        forall i | 0 <= i < |db[r.table].foreignKeys|
          ensures !Hits(db, rest, db[r.table].foreignKeys[i], RowAt(db, r))
        {
          NoHit(db, rest, db[r.table].foreignKeys[i], RowAt(db, r));
        }
      }
    }
  }

  lemma EnclosedUnreached(db: Db, gone: set<RowId>, names: set<string>, t: string)
    requires t in names && t in db && Enclosed(db, names)
    requires forall r | r in gone :: r.table !in names
    ensures !Reached(db, gone, t, db[t])
  {
    hide Hits;
    forall i, k | 0 <= i < |db[t].foreignKeys| && 0 <= k < |db[t].rows|
      ensures !Hits(db, gone, db[t].foreignKeys[i], db[t].rows[k])
    {
      NoHit(db, gone, db[t].foreignKeys[i], db[t].rows[k]);
    }
  }

  /** Where the rows that go lie in some tables that no acting key of another table names, the others stay. */
  lemma UnnamedStay(db: Db, name: string, names: set<string>, t: string)
    requires name in db && t in db && name in names && t !in names
    requires NoActingKeys(db, names)
    ensures !Reached(db, Doomed(db, name), t, db[t])
  {
    hide Doomed, SweepFails, Reached, SweptTable, AllRows, Closed, Resets;
    var gone := Doomed(db, name);
    RowsIn(db, name);
    assert Closed(db, Within(db, names)) by { UnnamedClosed(db, names); }
    DoomedLeast(db, name, Within(db, names));
    UnnamedUnreached(db, gone, names, t);
  }

  lemma UnnamedClosed(db: Db, names: set<string>)
    requires forall u | u in db && u !in names :: forall i | 0 <= i < |db[u].foreignKeys| ::
               db[u].foreignKeys[i].onDelete == "CASCADE" ==> db[u].foreignKeys[i].table !in names
    ensures Closed(db, Within(db, names))
  {
    hide Hits;
    var all := Within(db, names);
    forall r | r in AllRows(db) && IsRow(db, r) && Dragged(db, all, db[r.table], RowAt(db, r))
      ensures r in all
    {
      if r.table !in names {
        forall i | 0 <= i < |db[r.table].foreignKeys| && db[r.table].foreignKeys[i].onDelete == "CASCADE"
          ensures !Hits(db, all, db[r.table].foreignKeys[i], RowAt(db, r))
        {
          NoHit(db, all, db[r.table].foreignKeys[i], RowAt(db, r));
        }
      }
    }
  }

  lemma UnnamedUnreached(db: Db, gone: set<RowId>, names: set<string>, t: string)
    requires t in db && t !in names && forall r | r in gone :: r.table in names
    requires forall i | 0 <= i < |db[t].foreignKeys| ::
               Resets(db[t].foreignKeys[i]) ==> db[t].foreignKeys[i].table !in names
    ensures !Reached(db, gone, t, db[t])
  {
    hide Hits, Resets;
    forall i, k | 0 <= i < |db[t].foreignKeys| && 0 <= k < |db[t].rows| && Resets(db[t].foreignKeys[i])
      ensures !Hits(db, gone, db[t].foreignKeys[i], db[t].rows[k])
    {
      NoHit(db, gone, db[t].foreignKeys[i], db[t].rows[k]);
    }
  }

  // ---- Drops that cannot fail ----

  /** Dropping an empty table does only that. */
  lemma DropEmpty(db: Db, name: string)
    requires name in db && db[name].rows == []
    ensures Drop(db, name) == Some(db - {name})
  {
    hide Doomed, SweptTable, AllRows, Closed, SweepFails, Reached;
    assert RowsOf(db, name) == {};
    assert Closed(db, {}) by { NothingDragged(db); }
    DoomedLeast(db, name, {});
    assert Doomed(db, name) == {};
    NothingFails(db);
    forall t | t in db
      ensures SweptTable(db, {}, t, db[t]) == db[t]
    {
      NothingReached(db, t);
      SweptExactly(db, {}, t);
    }
    assert Swept(db, {}) == db;
  }

  lemma NothingDragged(db: Db)
    ensures Closed(db, {})
  {
  }

  lemma NothingReached(db: Db, t: string)
    requires t in db
    ensures !Reached(db, {}, t, db[t])
  {
  }

  lemma NothingFails(db: Db)
    ensures !SweepFails(db, {})
  {
    CascadesNeverFail(db, {});
  }

  /** Only a key that hits and does not cascade can make a drop fail. */
  lemma CascadesNeverFail(db: Db, gone: set<RowId>)
    requires forall t | t in db :: forall i, k | 0 <= i < |db[t].foreignKeys| && 0 <= k < |db[t].rows| ::
               Hits(db, gone, db[t].foreignKeys[i], db[t].rows[k]) ==> db[t].foreignKeys[i].onDelete == "CASCADE"
    ensures !SweepFails(db, gone)
  {
    hide Hits, Swept, ParentFound, Apart, NotNulls;
    forall t, k | t in db && 0 <= k < |db[t].rows|
      ensures After(db, gone, db[t], db[t].rows[k]) == db[t].rows[k]
    {
      assert !Overwritten(db, gone, db[t], db[t].rows[k]);
      ResetNothing(db, gone, db[t], db[t].rows[k], |db[t].foreignKeys|);
    }
    hide After;
  }

  // ---- One drop after another ----

  predicate Droppable(db: Db, names: seq<string>) {
    && (forall i | 0 <= i < |names| :: names[i] in db)
    && (forall i, j | 0 <= i < j < |names| :: names[i] != names[j])
  }

  function DropAll(db: Db, names: seq<string>): (r: Option<Db>)
    requires Droppable(db, names)
    ensures r.Some? ==> forall t :: t in r.value <==> t in db && t !in names
  {
    if |names| == 0 then Some(db)
    else
      match Drop(db, names[0])
      case None => None
      case Some(d) => DropAll(d, names[1..])
  }

  /** One of the drops takes or overwrites a row of the table. */
  predicate Disturbed(db: Db, names: seq<string>, t: string)
    requires Droppable(db, names) && DropAll(db, names).Some? && t in db && t !in names
  {
    |names| > 0
    && (Reached(db, Doomed(db, names[0]), t, db[t]) || Disturbed(Drop(db, names[0]).value, names[1..], t))
  }

  /** All but the rows. */
  predicate SameShape(a: Table, b: Table) {
    a.(rows := []) == b.(rows := [])
  }

  lemma DropExactly(db: Db, name: string, t: string)
    requires name in db && t in db && t != name && Drop(db, name).Some?
    ensures var d := Drop(db, name).value;
            && SameShape(d[t], db[t]) && Below(d[t], db[t])
            && (Reached(db, Doomed(db, name), t, db[t]) <==> !SameCells(d[t].rows, db[t].rows))
            && (!Reached(db, Doomed(db, name), t, db[t]) ==> d[t] == db[t])
  {
    hide Doomed, Reached, SweepFails, Survivors, SameCells, Below;
    SweptExactly(db, Doomed(db, name), t);
  }

  lemma Itself(t: Table)
    ensures Below(t, t) && SameCells(t.rows, t.rows)
  {
  }

  /** The drops together change exactly the tables one of them reaches: what one changes no later one restores. */
  lemma {:induction false} DropAllExactly(db: Db, names: seq<string>, t: string)
    requires Droppable(db, names) && DropAll(db, names).Some? && t in db && t !in names
    ensures var d := DropAll(db, names).value;
            && SameShape(d[t], db[t]) && Below(d[t], db[t])
            && (Disturbed(db, names, t) <==> !SameCells(d[t].rows, db[t].rows))
            && (!Disturbed(db, names, t) ==> d[t] == db[t])
  {
    hide Drop, Doomed, Reached, SameCells, Below;
    if |names| == 0 {
      Itself(db[t]);
    } else {
      var d1 := Drop(db, names[0]).value;
      DropExactly(db, names[0], t);
      DropAllExactly(d1, names[1..], t);
      var d := DropAll(db, names).value;
      BelowTransitive(d[t], d1[t], db[t]);
      Itself(db[t]);
      if SameCells(d[t].rows, db[t].rows) { BelowBetween(d[t], d1[t], db[t]); }
    }
  }

  /** Tables that refer only to one another come through as they were. */
  lemma {:induction false} EnclosedStay(db: Db, names: seq<string>, kept: set<string>)
    requires Droppable(db, names) && DropAll(db, names).Some?
    requires Enclosed(db, kept) && forall n | n in names :: n !in kept
    ensures forall t | t in kept && t in db :: DropAll(db, names).value[t] == db[t]
  {
    hide Drop;
    if |names| > 0 {
      EnclosedStays(db, names[0], kept);
      EnclosedStay(Drop(db, names[0]).value, names[1..], kept);
    }
  }

  /** No key of a table outside `dropped` that acts names a table in it. */
  predicate NoActingKeys(db: Db, dropped: set<string>) {
    forall u | u in db && u !in dropped :: forall i | 0 <= i < |db[u].foreignKeys| ::
        db[u].foreignKeys[i].onDelete == "CASCADE" || Resets(db[u].foreignKeys[i]) ==>
          db[u].foreignKeys[i].table !in dropped
  }

  /** Then the drops disturb no other table, whatever it holds. */
  lemma {:induction false} Undisturbed(db: Db, names: seq<string>, dropped: set<string>, t: string)
    requires Droppable(db, names) && DropAll(db, names).Some? && NoActingKeys(db, dropped)
    requires t in db && t !in dropped && forall n | n in names :: n in dropped
    ensures !Disturbed(db, names, t)
  {
    hide Drop, Doomed, Reached, Resets, Below, SameCells;
    if |names| > 0 {
      var d1 := Drop(db, names[0]).value;
      forall u | u in d1
        ensures d1[u].foreignKeys == db[u].foreignKeys
      {
        DropExactly(db, names[0], u);
      }
      UnnamedStay(db, names[0], dropped, t);
      Undisturbed(d1, names[1..], dropped, t);
    }
  }
}
