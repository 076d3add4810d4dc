/** `JdbcTable`: the generic repository over one table. The database is an
    in-memory store of records keyed by their `Long` primary key; executing a
    statement against it is given by the `Exec…` functions, the database's
    side of each prepared statement. */
module JdbcTables {

  import opened Wrappers
  import opened JavaValues
  import opened JavaLists
  import opened Columns
  import opened DatabaseToFieldMappers
  import opened FieldToDatabaseMappers
  import opened Statements
  import opened JdbcRows

  /** A stored row: one value per field of the entity, in declaration order,
      in the form the to-storage converters produced. */
  type Record = seq<Value>

  /** The table's contents, keyed by primary key. */
  type Store = map<int, Record>

  /** What `SELECT *` or `RETURNING *` yields for a record: one column per
      field, labelled with its column name. */
  function ResultOf(fields: seq<Field>, rec: Record): (r: ResultRow)
    requires |rec| == |fields|
    ensures |r.cells| == |fields|
    ensures forall i :: 0 <= i < |fields| ==> r.cells[i] == Cell(fields[i].column.name, rec[i])
  {
    ResultRow(seq(|fields|, i requires 0 <= i < |fields| => Cell(fields[i].column.name, rec[i])))
  }

  /** No two fields share a column name. */
  predicate DistinctColumns(fields: seq<Field>)
  {
    forall i, j :: 0 <= i < j < |fields| ==> fields[i].column.name != fields[j].column.name
  }

  predicate NotNullHolds(fields: seq<Field>, rec: Record)
    requires |rec| == |fields|
  {
    forall i :: 0 <= i < |fields| && fields[i].column.notNull ==> rec[i] != Null
  }

  /** The record an `INSERT (cols) VALUES (params)` stores: a listed column
      takes its parameter, any other column is null. */
  function InsertedRecord(fields: seq<Field>, cols: seq<string>, params: seq<Value>): (r: Record)
    requires |cols| == |params|
    ensures |r| == |fields|
    ensures forall i :: 0 <= i < |fields| ==>
              r[i] == (if IndexOf(cols, fields[i].column.name) >= 0
                       then params[IndexOf(cols, fields[i].column.name)] else Null)
  {
    seq(|fields|, i requires 0 <= i < |fields| =>
      var k := IndexOf(cols, fields[i].column.name);
      if k >= 0 then params[k] else Null)
  }

  /** An insert whose record meets the constraints and has a `Long` key
      fails only on a key already taken. */
  lemma ExecInsertOfRecord(fields: seq<Field>, pk: nat, store: Store, st: Stmt)
    requires pk < |fields| && st.Insert? && |st.columns| == |st.params|
    requires var rec := InsertedRecord(fields, st.columns, st.params);
             NotNullHolds(fields, rec) && rec[pk].Long?
    ensures var rec := InsertedRecord(fields, st.columns, st.params);
            ExecInsert(fields, pk, store, st)
            == if rec[pk].n in store then Err("UNIQUE constraint failed") else Ok((store[rec[pk].n := rec], rec))
  {
  }

  /** The record an `UPDATE … SET c = ?, …` leaves: a listed column takes its
      parameter, any other keeps its value. */
  function UpdatedRecord(fields: seq<Field>, rec: Record, cols: seq<string>, params: seq<Value>): (r: Record)
    requires |rec| == |fields| && |cols| <= |params|
    ensures |r| == |fields|
    ensures forall i :: 0 <= i < |fields| ==>
              r[i] == (if IndexOf(cols, fields[i].column.name) >= 0
                       then params[IndexOf(cols, fields[i].column.name)] else rec[i])
  {
    seq(|fields|, i requires 0 <= i < |fields| =>
      var k := IndexOf(cols, fields[i].column.name);
      if k >= 0 then params[k] else rec[i])
  }

  /** Executing an insert: the new record must satisfy the not-null
      constraints and carry a `Long` key not yet in the table; it is stored
      and returned. */
  function ExecInsert(fields: seq<Field>, pk: nat, store: Store, st: Stmt): Result<(Store, Record)>
    requires pk < |fields|
    requires st.Insert? && |st.columns| == |st.params|
  {
    var rec := InsertedRecord(fields, st.columns, st.params);
    if !NotNullHolds(fields, rec) then Err("NOT NULL constraint failed")
    else if !rec[pk].Long? then Err("datatype mismatch")
    else if rec[pk].n in store then Err("UNIQUE constraint failed")
    else Ok((store[rec[pk].n := rec], rec))
  }

  /** Executing an update: the key parameter selects at most one record; no
      match changes nothing; a match is rewritten, and moved if its key was
      set, subject to the same constraints as an insert. */
  function ExecUpdate(fields: seq<Field>, pk: nat, store: Store, st: Stmt): Result<Store>
    requires pk < |fields|
    requires st.Update? && |st.params| == |st.setColumns| + 1
    requires forall k :: k in store ==> |store[k]| == |fields|
  {
    var key := st.params[|st.setColumns|];
    if !key.Long? || key.n !in store then Ok(store)
    else
      var rec := UpdatedRecord(fields, store[key.n], st.setColumns, st.params);
      if !NotNullHolds(fields, rec) then Err("NOT NULL constraint failed")
      else if !rec[pk].Long? then Err("datatype mismatch")
      else if rec[pk].n != key.n && rec[pk].n in store then Err("UNIQUE constraint failed")
      else Ok((store - {key.n})[rec[pk].n := rec])
  }

  /** Executing a delete: the record with the key parameter goes, if any. */
  function ExecDelete(store: Store, st: Stmt): (r: Store)
    requires st.Delete? && |st.params| == 1
    ensures st.params[0].Long? ==> r.Keys == store.Keys - {st.params[0].n}
    ensures forall k :: k in r ==> k in store && r[k] == store[k]
  {
    if st.params[0].Long? then store - {st.params[0].n} else store
  }

  /** A row without a primary key builds no delete. A row with one builds
      `DELETE FROM t WHERE pk = ?`, and when its key field holds `Long(k)`
      and binds it unconverted, executing that statement removes the record
      keyed `k` and nothing else. */
  lemma DeleteEffect(e: Entity, values: seq<Value>, store: Store, k: int)
    requires |values| == |e.fields|
    ensures PrimaryKeyIndex(e.fields).None? <==> DeleteStatement(e, values).Err?
    ensures PrimaryKeyIndex(e.fields).Some? ==>
              var pk := PrimaryKeyIndex(e.fields).value;
              var st := DeleteStatement(e, values).value;
              && st.Delete? && |st.params| == 1
              && Sql(st) == "DELETE FROM " + e.table + " WHERE " + e.fields[pk].column.name + " = ?"
              && (values[pk] == Long(k) && e.fields[pk].column.fieldToResultSet == ToIdentity ==>
                    ExecDelete(store, st) == store - {k})
  {
  }

  // ---- the key order of `ORDER BY` ----

  lemma HasElement(s: set<int>)
    requires s != {}
    ensures exists y :: y in s
  {
    if forall y :: y !in s {
      assert false;
    }
  }

  lemma {:induction false} MinExists(s: set<int>)
    requires s != {}
    ensures exists m :: m in s && forall x :: x in s ==> m <= x
    decreases |s|
  {
    HasElement(s);
    var y :| y in s;
    if s != {y} {
      MinExists(s - {y});
      var m :| m in s - {y} && forall x :: x in s - {y} ==> m <= x;
      var least := if y < m then y else m;
      forall x | x in s
        ensures least <= x
      {
        if x != y {
          assert x in s - {y};
        }
      }
      assert least in s;
    } else {
      assert forall x :: x in s ==> y <= x;
    }
  }

  ghost function Min(s: set<int>): (m: int)
    requires s != {}
    ensures m in s && forall x :: x in s ==> m <= x
  {
    MinExists(s);
    var m :| m in s && forall x :: x in s ==> m <= x;
    m
  }

  /** The keys in ascending order. */
  ghost function SortedKeys(s: set<int>): (r: seq<int>)
    ensures |r| == |s|
    ensures forall x :: x in r <==> x in s
    ensures forall i :: 0 <= i < |r| ==> r[i] in s
    ensures forall a, b :: 0 <= a < b < |r| ==> r[a] < r[b]
    decreases |s|
  {
    if s == {} then []
    else
      var m := Min(s);
      var rest := SortedKeys(s - {m});
      PrependMin(s, m, rest);
      [m] + rest
  }

  /** The least key followed by the others in ascending order is all the
      keys in ascending order. */
  lemma PrependMin(s: set<int>, m: int, rest: seq<int>)
    requires m in s && forall x :: x in s ==> m <= x
    requires |rest| == |s - {m}|
    requires forall x :: x in rest <==> x in s - {m}
    requires forall a, b :: 0 <= a < b < |rest| ==> rest[a] < rest[b]
    ensures |[m] + rest| == |s|
    ensures forall x :: x in [m] + rest <==> x in s
    ensures forall i :: 0 <= i < |[m] + rest| ==> ([m] + rest)[i] in s
    ensures forall a, b :: 0 <= a < b < |[m] + rest| ==> ([m] + rest)[a] < ([m] + rest)[b]
  {
    var r := [m] + rest;
    forall a, b | 0 <= a < b < |r|
      ensures r[a] < r[b]
    {
      if a == 0 {
        assert r[b] == rest[b - 1] && rest[b - 1] in s - {m};
      } else {
        assert r[a] == rest[a - 1] && r[b] == rest[b - 1];
      }
    }
    forall i | 0 <= i < |r|
      ensures r[i] in s
    {
      if i > 0 {
        assert r[i] == rest[i - 1] && rest[i - 1] in rest;
      }
    }
  }

  lemma SeqAssoc(a: seq<int>, b: seq<int>, c: seq<int>)
    ensures a + (b + c) == (a + b) + c
  {
  }

  /** The result rows of the records with the given keys, in that order. */
  function ResultsOf(fields: seq<Field>, store: Store, keys: seq<int>): (r: seq<ResultRow>)
    requires forall i :: 0 <= i < |keys| ==> keys[i] in store && |store[keys[i]]| == |fields|
    ensures |r| == |keys|
    ensures forall i :: 0 <= i < |keys| ==> r[i] == ResultOf(fields, store[keys[i]])
  {
    seq(|keys|, i requires 0 <= i < |keys| => ResultOf(fields, store[keys[i]]))
  }

  /** `SELECT * … ORDER BY` the key column: every record, by ascending
      key. */
  ghost function InKeyOrder(fields: seq<Field>, store: Store): (r: seq<ResultRow>)
    requires forall k :: k in store ==> |store[k]| == |fields|
    ensures |r| == |store|
  {
    ResultsOf(fields, store, SortedKeys(store.Keys))
  }

  /** The database's `ORDER BY` on the key column: take the least remaining
      key until none is left. */
  method KeysInOrder(s: set<int>) returns (keys: seq<int>)
    ensures keys == SortedKeys(s)
  {
    var remaining := s;
    keys := [];
    while remaining != {}
      invariant keys + SortedKeys(remaining) == SortedKeys(s)
      decreases |remaining|
    {
      MinExists(remaining);
      var m :| m in remaining && forall x :: x in remaining ==> m <= x;
      assert m == Min(remaining);
      var rest := SortedKeys(remaining - {m});
      assert SortedKeys(remaining) == [m] + rest;
      SeqAssoc(keys, [m], rest);
      keys := keys + [m];
      remaining := remaining - {m};
    }
  }

  class Table {
    const entity: Entity
    const tableName: string
    const primaryKeyName: string
    const schemaResourcePath: string
    const pkIndex: nat
    /** `Timestamp.valueOf`, for columns hydrated through `TIMESTAMP`. */
    const parse: TimestampParser
    var store: Store
    /** Whether `createSchema` has run since the table was last dropped. */
    ghost var schemaApplied: bool

    /** The table's own names agree with its row class, and every record has
      one value per field and its key in the primary-key column. */
    ghost predicate Valid()
      reads this
    {
      && PrimaryKeyIndex(entity.fields) == Some(pkIndex)
      && entity.fields[pkIndex].column.name == primaryKeyName
      && entity.table == tableName
      && forall k :: k in store ==> |store[k]| == |entity.fields| && store[k][pkIndex] == Long(k)
    }

    constructor (e: Entity, tableName: string, primaryKeyName: string, schemaResourcePath: string, parse: TimestampParser)
      requires PrimaryKeyIndex(e.fields).Some?
      requires e.fields[PrimaryKeyIndex(e.fields).value].column.name == primaryKeyName
      requires e.table == tableName
      ensures Valid() && store == map[] && !schemaApplied
      ensures entity == e && this.tableName == tableName && this.primaryKeyName == primaryKeyName
      ensures this.schemaResourcePath == schemaResourcePath && this.parse == parse
    {
      entity := e;
      this.tableName := tableName;
      this.primaryKeyName := primaryKeyName;
      this.schemaResourcePath := schemaResourcePath;
      pkIndex := PrimaryKeyIndex(e.fields).value;
      this.parse := parse;
      store := map[];
      schemaApplied := false;
    }

    /** `createSchema`: run the schema script, which leaves existing rows
      alone. */
    method CreateSchema()
      modifies this
      ensures schemaApplied && store == old(store)
    {
      schemaApplied := true;
    }

    /** `destroySchema`: `DROP TABLE IF EXISTS`. */
    method DestroySchema()
      modifies this
      ensures store == map[] && !schemaApplied
    {
      store := map[];
      schemaApplied := false;
    }

    /** `createFromResultSet`: one fresh, clean row per result row, in result
      order. */
    method CreateFromResultSet(result: seq<ResultRow>) returns (rows: seq<Row>)
      ensures |rows| == |result|
      ensures forall i :: 0 <= i < |rows| ==>
                fresh(rows[i]) && rows[i].Valid() && rows[i].entity == entity && rows[i].dirty == {}
                && rows[i].values == Hydrate(entity.fields, result[i], parse)
    {
      rows := [];
      var i := 0;
      while i < |result|
        invariant 0 <= i <= |result| && |rows| == i
        invariant forall j :: 0 <= j < i ==>
                    fresh(rows[j]) && rows[j].Valid() && rows[j].entity == entity && rows[j].dirty == {}
                    && rows[j].values == Hydrate(entity.fields, result[j], parse)
      {
        var row := new Row.FromResult(entity, result[i], parse);
        rows := rows + [row];
        i := i + 1;
      }
    }

    /** `getByPrimaryKey`: the row with this key, or empty. */
    method GetByPrimaryKey(id: int) returns (r: Option<Row>)
      requires Valid()
      modifies this
      ensures Valid() && schemaApplied && store == old(store)
      ensures r.Some? <==> id in store
      ensures r.Some? ==> fresh(r.value) && r.value.entity == entity && r.value.dirty == {}
                          && r.value.values == Hydrate(entity.fields, ResultOf(entity.fields, store[id]), parse)
    {
      CreateSchema();
      if id !in store {
        return None;
      }
      var rows := CreateFromResultSet([ResultOf(entity.fields, store[id])]);
      r := Some(rows[0]);
    }

    /** `getAll`: every row, ordered by primary key. */
    method GetAll() returns (rows: seq<Row>)
      requires Valid()
      modifies this
      ensures Valid() && schemaApplied && store == old(store)
      ensures |rows| == |store|
      ensures forall i :: 0 <= i < |rows| ==>
                fresh(rows[i]) && rows[i].entity == entity && rows[i].dirty == {}
                && rows[i].values == Hydrate(entity.fields, InKeyOrder(entity.fields, store)[i], parse)
    {
      CreateSchema();
      var keys := KeysInOrder(store.Keys);
      rows := CreateFromResultSet(ResultsOf(entity.fields, store, keys));
    }

    /** `getByPreparedStatement`: the rows of a query the caller prepares,
      here any function of the table's contents. */
    method GetByPreparedStatement(query: Store -> seq<ResultRow>) returns (rows: seq<Row>)
      requires Valid()
      modifies this
      ensures Valid() && schemaApplied && store == old(store)
      ensures |rows| == |query(store)|
      ensures forall i :: 0 <= i < |rows| ==>
                fresh(rows[i]) && rows[i].Valid() && rows[i].entity == entity && rows[i].dirty == {}
                && rows[i].values == Hydrate(entity.fields, query(store)[i], parse)
    {
      CreateSchema();
      rows := CreateFromResultSet(query(store));
    }

    /** The row `RETURNING *` hands back for a stored record: fresh, clean
      and hydrated from the record's result row. */
    method NewRowOf(rec: Record) returns (back: Row)
      requires |rec| == |entity.fields|
      ensures fresh(back) && back.entity == entity && back.dirty == {}
      ensures back.values == Hydrate(entity.fields, ResultOf(entity.fields, rec), parse)
    {
      var rows := CreateFromResultSet([ResultOf(entity.fields, rec)]);
      back := rows[0];
    }

    /** Execute an insert statement against the table: the stored record,
      or the constraint it violates with the table unchanged. */
    method StoreInsert(st: Stmt) returns (r: Result<Record>)
      requires Valid() && st.Insert? && |st.columns| == |st.params|
      modifies this
      ensures Valid() && schemaApplied == old(schemaApplied)
      ensures var ex := ExecInsert(entity.fields, pkIndex, old(store), st);
              && (ex.Err? ==> r == Err(ex.error) && store == old(store))
              && (ex.Ok? ==> r == Ok(ex.value.1) && store == ex.value.0 && |r.value| == |entity.fields|)
    {
      var ex := ExecInsert(entity.fields, pkIndex, store, st);
      if ex.Err? {
        return Err(ex.error);
      }
      ExecInsertValid(entity.fields, pkIndex, store, st);
      store := ex.value.0;
      r := Ok(ex.value.1);
    }

    /** `insert`: store the row's insert and return the stored record as a
      fresh row; an insert that cannot be built or violates a constraint is
      an error and changes nothing. */
    method Insert(row: Row) returns (r: Result<Row>)
      requires Valid() && row.Valid() && row.entity == entity
      modifies this
      ensures Valid() && schemaApplied
      ensures var b := Statements.InsertStatement(entity, row.values);
              && (b.Err? ==> r.Err? && store == old(store))
              && (b.Ok? ==>
                    var ex := ExecInsert(entity.fields, pkIndex, old(store), b.value);
                    && (ex.Err? ==> r.Err? && store == old(store))
                    && (ex.Ok? ==> r.Ok? && store == ex.value.0 && fresh(r.value) && r.value.entity == entity
                                   && r.value.dirty == {}
                                   && r.value.values == Hydrate(entity.fields, ResultOf(entity.fields, ex.value.1), parse)))
    {
      CreateSchema();
      var b := row.InsertStatement();
      if b.Err? {
        return Err("Error whilst inserting data into table: " + b.error);
      }
      var stored := StoreInsert(b.value);
      if stored.Err? {
        return Err("Error whilst inserting data into table: " + stored.error);
      }
      var back := NewRowOf(stored.value);
      r := Ok(back);
    }

    /** `update`: nothing to do for a clean row; otherwise execute the row's
      update. A failure to build or execute it is an error, among them a
      dirty row none of whose fields is written, whose empty SET list the
      database refuses to prepare. */
    method Update(row: Row) returns (r: Result<()>)
      requires Valid() && row.Valid() && row.entity == entity
      modifies this
      ensures Valid() && schemaApplied
      ensures row.dirty != {}
              && (forall i :: 0 <= i < |entity.fields| ==>
                    !(entity.fields[i].column.name in row.dirty
                      && !(entity.fields[i].column.notNull && row.values[i] == Null)))
              ==> r.Err? && store == old(store)
      ensures var u := Statements.UpdateStatement(entity, row.values, row.dirty);
              && (u.Err? ==> r.Err? && store == old(store))
              && (u == Ok(None) ==> r.Ok? && store == old(store))
              && (u.Ok? && u.value.Some? ==>
                    var ex := ExecUpdate(entity.fields, pkIndex, old(store), u.value.value);
                    && (ex.Err? ==> r.Err? && store == old(store))
                    && (ex.Ok? ==> r.Ok? && store == ex.value))
    {
      CreateSchema();
      UpdateShape(entity, row.values, row.dirty);
      var u := row.UpdateStatement();
      if u.Err? {
        return Err("Error whilst updating data in table: " + u.error);
      }
      if u.value.None? {
        return Ok(());
      }
      var ex := ExecUpdate(entity.fields, pkIndex, store, u.value.value);
      if ex.Err? {
        return Err("Error whilst updating data in table: " + ex.error);
      }
      ExecUpdateValid(entity.fields, pkIndex, store, u.value.value);
      store := ex.value;
      r := Ok(());
    }

    /** `delete`: remove the record keyed by the row's primary key. */
    method Delete(row: Row) returns (r: Result<()>)
      requires Valid() && row.Valid() && row.entity == entity
      modifies this
      ensures Valid() && schemaApplied
      ensures var d := Statements.DeleteStatement(entity, row.values);
              && (d.Err? ==> r.Err? && store == old(store))
              && (d.Ok? ==> r.Ok? && store == ExecDelete(old(store), d.value))
    {
      CreateSchema();
      var d := row.DeleteStatement();
      if d.Err? {
        return Err("Error whilst deleting data from table: " + d.error);
      }
      store := ExecDelete(store, d.value);
      r := Ok(());
    }
  }

  /** An executed insert keeps every record well-formed and keyed by its
      primary-key value. */
  lemma ExecInsertValid(fields: seq<Field>, pk: nat, store: Store, st: Stmt)
    requires pk < |fields|
    requires st.Insert? && |st.columns| == |st.params|
    requires forall k :: k in store ==> |store[k]| == |fields| && store[k][pk] == Long(k)
    requires ExecInsert(fields, pk, store, st).Ok?
    ensures forall k :: k in ExecInsert(fields, pk, store, st).value.0 ==>
              |ExecInsert(fields, pk, store, st).value.0[k]| == |fields|
              && ExecInsert(fields, pk, store, st).value.0[k][pk] == Long(k)
  {
  }

  /** An executed update keeps every record well-formed and keyed by its
      primary-key value. */
  lemma ExecUpdateValid(fields: seq<Field>, pk: nat, store: Store, st: Stmt)
    requires pk < |fields|
    requires st.Update? && |st.params| == |st.setColumns| + 1
    requires forall k :: k in store ==> |store[k]| == |fields| && store[k][pk] == Long(k)
    requires ExecUpdate(fields, pk, store, st).Ok?
    ensures forall k :: k in ExecUpdate(fields, pk, store, st).value ==>
              |ExecUpdate(fields, pk, store, st).value[k]| == |fields|
              && ExecUpdate(fields, pk, store, st).value[k][pk] == Long(k)
  {
  }

  // ---- properties of the store operations ----

  /** A successful insert adds exactly one record, under a key that was
      free, and that record meets the not-null constraints. */
  lemma InsertAddsOne(fields: seq<Field>, pk: nat, store: Store, st: Stmt)
    requires pk < |fields|
    requires st.Insert? && |st.columns| == |st.params|
    requires ExecInsert(fields, pk, store, st).Ok?
    ensures var (s, rec) := ExecInsert(fields, pk, store, st).value;
            && rec[pk].Long? && rec[pk].n !in store
            && s.Keys == store.Keys + {rec[pk].n}
            && s[rec[pk].n] == rec && NotNullHolds(fields, rec)
            && forall k :: k in store ==> s[k] == store[k]
  {
  }

  /** An update changes at most the selected record: every other record
      stays where it was, unchanged; a key that selects nothing changes
      nothing. */
  lemma UpdateTouchesOnlyKey(fields: seq<Field>, pk: nat, store: Store, st: Stmt)
    requires pk < |fields|
    requires st.Update? && |st.params| == |st.setColumns| + 1
    requires forall k :: k in store ==> |store[k]| == |fields|
    requires ExecUpdate(fields, pk, store, st).Ok?
    ensures var key := st.params[|st.setColumns|];
            var s := ExecUpdate(fields, pk, store, st).value;
            && (!(key.Long? && key.n in store) ==> s == store)
            && (key.Long? && key.n in store ==>
                  |s| == |store|
                  && forall k :: k in store && k != key.n ==> k in s && s[k] == store[k])
  {
    var key := st.params[|st.setColumns|];
    if key.Long? && key.n in store {
      var rec := UpdatedRecord(fields, store[key.n], st.setColumns, st.params);
      var s := ExecUpdate(fields, pk, store, st).value;
      assert s == (store - {key.n})[rec[pk].n := rec];
      if rec[pk].n == key.n {
        assert s.Keys == store.Keys;
      } else {
        assert s.Keys == store.Keys - {key.n} + {rec[pk].n};
        assert |store.Keys - {key.n}| == |store| - 1;
      }
    }
  }

  /** The record of a column-by-column reader: where the SELECT result of a
      record carries distinct labels, hydration reads each field from its own
      column. */
  lemma GetObjectOfResult(fields: seq<Field>, rec: Record, i: nat)
    requires |rec| == |fields| && DistinctColumns(fields) && i < |fields|
    ensures GetObject(ResultOf(fields, rec), fields[i].column.name) == Some(rec[i])
  {
    var rs := ResultOf(fields, rec);
    var name := fields[i].column.name;
    assert rs.cells[i].name == name;
    var r := GetObject(rs, name);
    var k :| 0 <= k < |rs.cells| && rs.cells[k].name == name && rs.cells[k].value == r.value;
    assert k == i;
  }

  /** A stored column read back through the identity converter lands in its
      field when the field's type admits it, and leaves it null otherwise. */
  lemma HydratedIdentity(fields: seq<Field>, rec: Record, parse: TimestampParser, i: nat)
    requires |rec| == |fields| && DistinctColumns(fields) && i < |fields|
    requires fields[i].column.resultSetToField == FromIdentity
    ensures Hydrate(fields, ResultOf(fields, rec), parse)[i]
            == if InstanceOf(rec[i], fields[i].fieldType) then rec[i] else Null
  {
    GetObjectOfResult(fields, rec, i);
  }

  /** The position of a written field's column in the insert's column
      list. */
  lemma InsertColumnPosition(e: Entity, values: seq<Value>, i: nat)
    requires |values| == |e.fields| && DistinctColumns(e.fields) && i < |e.fields|
    requires Writes(ForInsert, e.fields[i], values[i])
    ensures var st := InsertFor(e, values);
            var k := IndexOf(st.columns, e.fields[i].column.name);
            0 <= k < |st.params| && st.params[k] == Param(e.fields[i], values[i])
  {
    var st := InsertFor(e, values);
    var w := Written(ForInsert, e.fields, values, |e.fields|);
    InsertForShape(e, values);
    WrittenSpec(ForInsert, e.fields, values, |e.fields|);
    assert i in w;
    var k :| 0 <= k < |w| && w[k] == i;
    var name := e.fields[i].column.name;
    assert st.columns[k] == name;
    forall j | 0 <= j < k
      ensures st.columns[j] != name
    {
      assert w[j] < w[k];
    }
    assert name !in st.columns[..k];
    IndexOfIsFirst(st.columns, name, k);
  }

  /** The columns of an insert are exactly the written fields' columns. */
  lemma InsertSkipsColumn(e: Entity, values: seq<Value>, i: nat)
    requires |values| == |e.fields| && DistinctColumns(e.fields) && i < |e.fields|
    requires !Writes(ForInsert, e.fields[i], values[i])
    ensures IndexOf(InsertFor(e, values).columns, e.fields[i].column.name) == -1
  {
    var st := InsertFor(e, values);
    var w := Written(ForInsert, e.fields, values, |e.fields|);
    InsertForShape(e, values);
    WrittenSpec(ForInsert, e.fields, values, |e.fields|);
    forall k | 0 <= k < |st.columns|
      ensures st.columns[k] != e.fields[i].column.name
    {
      assert w[k] != i;
    }
  }

  /** The value pairs a column's converters carry through storage
      unchanged. */
  predicate SurvivesStorage(c: Column, v: Value)
  {
    || (c.resultSetToField == FromIdentity && c.fieldToResultSet == ToIdentity)
    || (c.resultSetToField == FromByteData && c.fieldToResultSet == ToByteData && v.ByteData?)
    || (c.resultSetToField == FromTimestamp && c.fieldToResultSet == ToIdentity && v.Timestamp?)
  }

  /** A value its column's converters carry through storage comes back
      unchanged; a null comes back null, whatever the converters. */
  lemma StorageRoundTrip(c: Column, v: Value, parse: TimestampParser)
    ensures SurvivesStorage(c, v) ==> FromStorage(c.resultSetToField, ToStorage(c.fieldToResultSet, v), parse) == Ok(v)
    ensures FromStorage(c.resultSetToField, Null, parse) == Ok(Null)
            || FromStorage(c.resultSetToField, Null, parse).Err?
  {
  }

  /** Hydrating the record an insert stores: a written field whose
      converters carry its value, and whose type admits it, reads back
      equal; a field left out reads back null. */
  lemma InsertedRecordReadsBack(e: Entity, values: seq<Value>, parse: TimestampParser, i: nat)
    requires |values| == |e.fields| && DistinctColumns(e.fields) && i < |e.fields|
    ensures var st := InsertFor(e, values);
            |st.columns| == |st.params|
            && var rec := InsertedRecord(e.fields, st.columns, st.params);
            var back := HydratedValue(e.fields[i], ResultOf(e.fields, rec), parse);
            && (Writes(ForInsert, e.fields[i], values[i]) && SurvivesStorage(e.fields[i].column, values[i])
                && InstanceOf(values[i], e.fields[i].fieldType) ==>
                  back == values[i])
            && (!Writes(ForInsert, e.fields[i], values[i]) ==> back == Null)
  {
    var st := InsertFor(e, values);
    InsertForShape(e, values);
    var rec := InsertedRecord(e.fields, st.columns, st.params);
    GetObjectOfResult(e.fields, rec, i);
    StorageRoundTrip(e.fields[i].column, values[i], parse);
    if Writes(ForInsert, e.fields[i], values[i]) {
      InsertColumnPosition(e, values, i);
      assert rec[i] == Param(e.fields[i], values[i]);
    } else {
      InsertSkipsColumn(e, values, i);
      assert rec[i] == Null;
    }
  }

  /** `insert` returns the row as stored: a written field whose converters
      carry its value through storage, and whose type admits it, reads back
      equal, and a field the insert leaves out reads back as null. */
  lemma InsertReadsBack(e: Entity, pk: nat, store: Store, values: seq<Value>, parse: TimestampParser, i: nat)
    requires |values| == |e.fields| && DistinctColumns(e.fields) && pk < |e.fields| && i < |e.fields|
    requires InsertStatement(e, values).Ok?
    requires ExecInsert(e.fields, pk, store, InsertStatement(e, values).value).Ok?
    ensures var rec := ExecInsert(e.fields, pk, store, InsertStatement(e, values).value).value.1;
            var back := Hydrate(e.fields, ResultOf(e.fields, rec), parse)[i];
            && (Writes(ForInsert, e.fields[i], values[i]) && SurvivesStorage(e.fields[i].column, values[i])
                && InstanceOf(values[i], e.fields[i].fieldType) ==>
                  back == values[i])
            && (!Writes(ForInsert, e.fields[i], values[i]) ==> back == Null)
  {
    InsertShape(e, values);
    var st := InsertFor(e, values);
    assert InsertStatement(e, values).value == st;
    assert ExecInsert(e.fields, pk, store, st).value.1 == InsertedRecord(e.fields, st.columns, st.params);
    InsertedRecordReadsBack(e, values, parse, i);
  }
}
