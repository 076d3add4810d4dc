/** The statements a row builds: which columns they write, which values they
    bind and in which order, and their SQL text. Statement construction is a
    function of the descriptors, the current field values and the dirty set;
    `JdbcRows.Row` computes the same statements with the source's loops. */
module Statements {

  import opened Wrappers
  import opened JavaValues
  import opened JavaStrings
  import opened Columns
  import opened FieldToDatabaseMappers

  /** A prepared statement: its shape and its bound parameters in binding
      order (`params[k]` is bound at JDBC index `k + 1`). */
  datatype Stmt =
    | Insert(table: string, columns: seq<string>, params: seq<Value>)
    | Update(table: string, setColumns: seq<string>, keyColumn: string, params: seq<Value>)
    | Delete(table: string, keyColumn: string, params: seq<Value>)

  /** The selection a statement builder makes over the fields. An update looks
      a field up in the dirty set by its column name; `ForUpdateAsWritten`
      looks it up by its Java field name, as `updateStatement` does. */
  datatype Purpose = ForInsert | ForUpdate(dirty: set<string>) | ForUpdateAsWritten(dirty: set<string>)

  /** Whether a field with value `v` is written: never a not-null field
      holding null; for an insert, only fields included in inserts; for an
      update, only dirty fields. */
  predicate Writes(p: Purpose, f: Field, v: Value)
  {
    && !(f.column.notNull && v == Null)
    && match p
       case ForInsert => f.column.includeInInsert
       case ForUpdate(dirty) => f.column.name in dirty
       case ForUpdateAsWritten(dirty) => f.fieldName in dirty
  }

  /** The indices below `n` of the fields written, in declaration order:
      the `LinkedHashSet` the builders fill. */
  function Written(p: Purpose, fields: seq<Field>, values: seq<Value>, n: nat): (r: seq<nat>)
    requires |fields| == |values| && n <= |fields|
    ensures forall k :: 0 <= k < |r| ==> r[k] < n
  {
    if n == 0 then []
    else Written(p, fields, values, n - 1)
         + (if Writes(p, fields[n - 1], values[n - 1]) then [n - 1] else [])
  }

  /** `Written` selects exactly the written fields, each once, in
      declaration order. */
  lemma {:induction false} WrittenSpec(p: Purpose, fields: seq<Field>, values: seq<Value>, n: nat)
    requires |fields| == |values| && n <= |fields|
    ensures forall i :: 0 <= i < n ==> (i in Written(p, fields, values, n) <==> Writes(p, fields[i], values[i]))
    ensures forall a, b :: 0 <= a < b < |Written(p, fields, values, n)| ==>
              Written(p, fields, values, n)[a] < Written(p, fields, values, n)[b]
  {
    if n > 0 {
      WrittenSpec(p, fields, values, n - 1);
    }
  }

  /** The value bound for a field: its current value through the field's
      to-storage converter. */
  function Param(f: Field, v: Value): Value
  {
    ToStorage(f.column.fieldToResultSet, v)
  }

  function ColumnsOf(fields: seq<Field>, idx: seq<nat>): (r: seq<string>)
    requires forall k :: 0 <= k < |idx| ==> idx[k] < |fields|
    ensures |r| == |idx|
    ensures forall k :: 0 <= k < |idx| ==> r[k] == fields[idx[k]].column.name
  {
    seq(|idx|, k requires 0 <= k < |idx| => fields[idx[k]].column.name)
  }

  function ParamsOf(fields: seq<Field>, values: seq<Value>, idx: seq<nat>): (r: seq<Value>)
    requires |fields| == |values|
    requires forall k :: 0 <= k < |idx| ==> idx[k] < |fields|
    ensures |r| == |idx|
    ensures forall k :: 0 <= k < |idx| ==> r[k] == Param(fields[idx[k]], values[idx[k]])
  {
    seq(|idx|, k requires 0 <= k < |idx| => Param(fields[idx[k]], values[idx[k]]))
  }

  /** The statement `insertStatement` formats: `INSERT INTO t (c1, …)
      VALUES (?, …) RETURNING *` over the written fields, binding their
      converted values in the same order. */
  function InsertFor(e: Entity, values: seq<Value>): (st: Stmt)
    requires |values| == |e.fields|
    ensures st.Insert? && |st.columns| == |st.params|
  {
    var w := Written(ForInsert, e.fields, values, |e.fields|);
    WrittenSpec(ForInsert, e.fields, values, |e.fields|);
    Insert(e.table, ColumnsOf(e.fields, w), ParamsOf(e.fields, values, w))
  }

  /** The failure of preparing `INSERT INTO t () VALUES () RETURNING *`: a
      row none of whose fields is written renders an empty column list,
      which the database rejects as a syntax error. */
  const EMPTY_COLUMN_LIST := "Syntax error in SQL statement: empty column list"

  /** `insertStatement`: the formatted insert, or an error when no field is
      written and the statement cannot be prepared. */
  function InsertStatement(e: Entity, values: seq<Value>): (r: Result<Stmt>)
    requires |values| == |e.fields|
    ensures r.Ok? ==> r.value.Insert? && |r.value.columns| == |r.value.params| > 0
  {
    if Written(ForInsert, e.fields, values, |e.fields|) == [] then Err(EMPTY_COLUMN_LIST)
    else Ok(InsertFor(e, values))
  }

  /** The update a builder with selection `p` produces. */
  function UpdateFor(e: Entity, values: seq<Value>, dirty: set<string>, p: Purpose): Result<Option<Stmt>>
    requires |values| == |e.fields|
    requires p == ForUpdate(dirty) || p == ForUpdateAsWritten(dirty)
  {
    if dirty == {} then Ok(None)
    else match PrimaryKeyIndex(e.fields)
      case None => Err("No primary key field found")
      case Some(pk) =>
        var w := Written(p, e.fields, values, |e.fields|);
        WrittenSpec(p, e.fields, values, |e.fields|);
        if w == [] then Err(EMPTY_SET_LIST)
        else Ok(Some(Update(e.table, ColumnsOf(e.fields, w), e.fields[pk].column.name,
                            ParamsOf(e.fields, values, w) + [Param(e.fields[pk], values[pk])])))
  }

  /** The failure of preparing `UPDATE t SET  WHERE pk = ?`: a dirty row
      none of whose fields is written renders an empty SET list, which the
      database rejects as a syntax error when the statement is prepared. */
  const EMPTY_SET_LIST := "Syntax error in SQL statement: empty SET list"

  /** `updateStatement` with the dirty set consulted by column name, the name
      under which `changeField` records a change: no statement for a clean
      row; otherwise `UPDATE t SET c = ?, … WHERE pk = ?`, binding the written
      values and then the primary key; an error without a primary key, and
      an error when no field is written. */
  function UpdateStatement(e: Entity, values: seq<Value>, dirty: set<string>): Result<Option<Stmt>>
    requires |values| == |e.fields|
  {
    UpdateFor(e, values, dirty, ForUpdate(dirty))
  }

  /** `updateStatement` exactly as the source writes it, consulting the dirty
      set by Java field name. */
  function UpdateStatementAsWritten(e: Entity, values: seq<Value>, dirty: set<string>): Result<Option<Stmt>>
    requires |values| == |e.fields|
  {
    UpdateFor(e, values, dirty, ForUpdateAsWritten(dirty))
  }

  /** `deleteStatement`: `DELETE FROM t WHERE pk = ?` binding the converted
      primary-key value; an error without a primary key. */
  function DeleteStatement(e: Entity, values: seq<Value>): Result<Stmt>
    requires |values| == |e.fields|
  {
    match PrimaryKeyIndex(e.fields)
    case None => Err("No primary key field found")
    case Some(pk) => Ok(Delete(e.table, e.fields[pk].column.name, [Param(e.fields[pk], values[pk])]))
  }

  // ---- properties of the statements ----

  /** A row none of whose fields is written (each one excluded from inserts,
      or a not-null one holding null) has no insert; any other row's insert
      is the statement over its written fields. */
  lemma InsertShape(e: Entity, values: seq<Value>)
    requires |values| == |e.fields|
    ensures InsertStatement(e, values).Err? <==>
            forall i :: 0 <= i < |e.fields| ==>
              !(e.fields[i].column.includeInInsert && !(e.fields[i].column.notNull && values[i] == Null))
    ensures InsertStatement(e, values).Err? ==> InsertStatement(e, values).error == EMPTY_COLUMN_LIST
    ensures InsertStatement(e, values).Ok? ==> InsertStatement(e, values).value == InsertFor(e, values)
  {
    WrittenEmpty(ForInsert, e.fields, values);
  }

  /** The insert names the written fields in declaration order and binds one
      converted value per column, in the same order. */
  lemma InsertForShape(e: Entity, values: seq<Value>)
    requires |values| == |e.fields|
    ensures var st := InsertFor(e, values);
            var w := Written(ForInsert, e.fields, values, |e.fields|);
            && st.table == e.table
            && |st.columns| == |st.params| == |w|
            && (forall k :: 0 <= k < |w| ==>
                  st.columns[k] == e.fields[w[k]].column.name
                  && st.params[k] == Param(e.fields[w[k]], values[w[k]]))
            && (forall i :: 0 <= i < |e.fields| ==>
                  (i in w <==> e.fields[i].column.includeInInsert
                               && !(e.fields[i].column.notNull && values[i] == Null)))
  {
    WrittenSpec(ForInsert, e.fields, values, |e.fields|);
  }

  /** A clean row yields no update; a dirty one without a primary key yields
      an error, and so does a dirty one none of whose fields is written
      (every dirty column unknown or a not-null field holding null).
      Otherwise the SET list names exactly the dirty fields, minus not-null
      fields holding null, in declaration order, and the primary key is
      bound right after them, at JDBC index (number of SET columns + 1). */
  lemma UpdateShape(e: Entity, values: seq<Value>, dirty: set<string>)
    requires |values| == |e.fields|
    ensures dirty == {} ==> UpdateStatement(e, values, dirty) == Ok(None)
    ensures dirty != {} && PrimaryKeyIndex(e.fields).None? ==> UpdateStatement(e, values, dirty).Err?
    ensures dirty != {} && PrimaryKeyIndex(e.fields).Some?
            && (forall i :: 0 <= i < |e.fields| ==>
                  !(e.fields[i].column.name in dirty && !(e.fields[i].column.notNull && values[i] == Null)))
            ==> UpdateStatement(e, values, dirty) == Err(EMPTY_SET_LIST)
    ensures dirty != {} && PrimaryKeyIndex(e.fields).Some?
            && (exists i :: 0 <= i < |e.fields|
                  && e.fields[i].column.name in dirty && !(e.fields[i].column.notNull && values[i] == Null))
            ==>
              var pk := PrimaryKeyIndex(e.fields).value;
              var w := Written(ForUpdate(dirty), e.fields, values, |e.fields|);
              && UpdateStatement(e, values, dirty).Ok?
              && UpdateStatement(e, values, dirty).value.Some?
              && var st := UpdateStatement(e, values, dirty).value.value;
              && st.Update?
              && st.table == e.table
              && st.keyColumn == e.fields[pk].column.name
              && |st.setColumns| == |w| > 0
              && |st.params| == |st.setColumns| + 1
              && st.params[|st.setColumns|] == Param(e.fields[pk], values[pk])
              && (forall k :: 0 <= k < |w| ==>
                    st.setColumns[k] == e.fields[w[k]].column.name
                    && st.params[k] == Param(e.fields[w[k]], values[w[k]]))
              && (forall i :: 0 <= i < |e.fields| ==>
                    (i in w <==> e.fields[i].column.name in dirty
                                 && !(e.fields[i].column.notNull && values[i] == Null)))
  {
    WrittenSpec(ForUpdate(dirty), e.fields, values, |e.fields|);
    WrittenEmpty(ForUpdate(dirty), e.fields, values);
  }

  /** Nothing is selected exactly when no field is written. */
  lemma WrittenEmpty(p: Purpose, fields: seq<Field>, values: seq<Value>)
    requires |fields| == |values|
    ensures Written(p, fields, values, |fields|) == [] <==>
            forall i :: 0 <= i < |fields| ==> !Writes(p, fields[i], values[i])
  {
    var w := Written(p, fields, values, |fields|);
    WrittenSpec(p, fields, values, |fields|);
    if w == [] {
      forall i | 0 <= i < |fields| ensures !Writes(p, fields[i], values[i]) {
        assert i !in w;
      }
    } else {
      var i := w[0];
      assert i in w;
      assert Writes(p, fields[i], values[i]);
    }
  }

  // ---- SQL text ----

  /** `n` question marks. */
  function Marks(n: nat): (r: seq<string>)
    ensures |r| == n && forall k :: 0 <= k < n ==> r[k] == "?"
  {
    seq(n, k => "?")
  }

  /** Each column followed by ` = ?`, as `buildUpdateString` writes it. */
  function Assignments(columns: seq<string>): (r: seq<string>)
    ensures |r| == |columns| && forall k :: 0 <= k < |columns| ==> r[k] == columns[k] + " = ?"
  {
    seq(|columns|, k requires 0 <= k < |columns| => columns[k] + " = ?")
  }

  /** The SQL text the statement is prepared from. */
  function Sql(st: Stmt): string
  {
    match st
    case Insert(t, cols, params) =>
      "INSERT INTO " + t + " " + "(" + Join(cols, ", ") + ")" + " VALUES "
      + "(" + Join(Marks(|cols|), ", ") + ")" + " RETURNING *"
    case Update(t, cols, key, _) =>
      "UPDATE " + t + " SET " + Join(Assignments(cols), ", ") + " WHERE " + key + " = ?"
    case Delete(t, key, _) =>
      "DELETE FROM " + t + " WHERE " + key + " = ?"
  }

  /** No table or column name of the entity contains a question mark. */
  predicate PlainNames(e: Entity)
  {
    && '?' !in e.table
    && forall i :: 0 <= i < |e.fields| ==> '?' !in e.fields[i].column.name
  }

  lemma {:induction false} CountAllPlain(parts: seq<string>)
    requires forall k :: 0 <= k < |parts| ==> '?' !in parts[k]
    ensures CountAll(parts, '?') == 0
  {
    if parts != [] {
      CountAbsent(parts[0], '?');
      CountAllPlain(parts[1..]);
    }
  }

  lemma {:induction false} CountAllMarks(n: nat)
    ensures CountAll(Marks(n), '?') == n
  {
    if n > 0 {
      assert Marks(n)[1..] == Marks(n - 1);
      CountAllMarks(n - 1);
    }
  }

  lemma {:induction false} CountAllAssignments(columns: seq<string>)
    requires forall k :: 0 <= k < |columns| ==> '?' !in columns[k]
    ensures CountAll(Assignments(columns), '?') == |columns|
  {
    if columns != [] {
      assert Assignments(columns)[1..] == Assignments(columns[1..]);
      CountAbsent(columns[0], '?');
      CountConcat(columns[0], " = ?", '?');
      CountAllAssignments(columns[1..]);
    }
  }

  lemma CountAppendPlain(a: string, b: string)
    requires '?' !in b
    ensures Count(a + b, '?') == Count(a, '?')
  {
    CountAbsent(b, '?');
    CountConcat(a, b, '?');
  }

  /** An insert's SQL text has one `?` per column. */
  lemma InsertPlaceholders(t: string, cols: seq<string>, params: seq<Value>)
    requires '?' !in t && forall k :: 0 <= k < |cols| ==> '?' !in cols[k]
    ensures Count(Sql(Insert(t, cols, params)), '?') == |cols|
  {
    var j := Join(cols, ", ");
    var m := Join(Marks(|cols|), ", ");
    CountAllPlain(cols);
    CountJoin(cols, ", ", '?');
    CountAllMarks(|cols|);
    CountJoin(Marks(|cols|), ", ", '?');
    var a := "INSERT INTO " + t + " " + "(";
    CountAbsent(a, '?');
    CountConcat(a, j, '?');
    CountAppendPlain(a + j, ")");
    CountAppendPlain(a + j + ")", " VALUES ");
    CountAppendPlain(a + j + ")" + " VALUES ", "(");
    CountConcat(a + j + ")" + " VALUES " + "(", m, '?');
    CountAppendPlain(a + j + ")" + " VALUES " + "(" + m, ")");
    CountAppendPlain(a + j + ")" + " VALUES " + "(" + m + ")", " RETURNING *");
  }

  /** An update's SQL text has one `?` per SET column and one for the key. */
  lemma UpdatePlaceholders(t: string, cols: seq<string>, key: string, params: seq<Value>)
    requires '?' !in t && '?' !in key && forall k :: 0 <= k < |cols| ==> '?' !in cols[k]
    ensures Count(Sql(Update(t, cols, key, params)), '?') == |cols| + 1
  {
    var j := Join(Assignments(cols), ", ");
    CountAllAssignments(cols);
    CountJoin(Assignments(cols), ", ", '?');
    var a := "UPDATE " + t + " SET ";
    CountAbsent(a, '?');
    CountConcat(a, j, '?');
    CountAppendPlain(a + j, " WHERE ");
    CountAppendPlain(a + j + " WHERE ", key);
    CountConcat(a + j + " WHERE " + key, " = ?", '?');
  }

  /** A delete's SQL text has a single `?`, for the key. */
  lemma DeletePlaceholders(t: string, key: string, params: seq<Value>)
    requires '?' !in t && '?' !in key
    ensures Count(Sql(Delete(t, key, params)), '?') == 1
  {
    var a := "DELETE FROM " + t + " WHERE " + key;
    CountAbsent(a, '?');
    CountConcat(a, " = ?", '?');
  }

  /** The `?` placeholders in a statement's SQL text: one per inserted column,
      one per SET column plus one for the key, and one in a delete. */
  lemma SqlPlaceholders(st: Stmt)
    requires '?' !in st.table
    requires st.Insert? ==> forall k :: 0 <= k < |st.columns| ==> '?' !in st.columns[k]
    requires st.Update? ==> '?' !in st.keyColumn && forall k :: 0 <= k < |st.setColumns| ==> '?' !in st.setColumns[k]
    requires st.Delete? ==> '?' !in st.keyColumn
    ensures st.Insert? ==> Count(Sql(st), '?') == |st.columns|
    ensures st.Update? ==> Count(Sql(st), '?') == |st.setColumns| + 1
    ensures st.Delete? ==> Count(Sql(st), '?') == 1
  {
    match st
    case Insert(t, cols, params) => InsertPlaceholders(t, cols, params);
    case Update(t, cols, key, params) => UpdatePlaceholders(t, cols, key, params);
    case Delete(t, key, params) => DeletePlaceholders(t, key, params);
  }

  /** Every statement a row builds has exactly as many `?` placeholders as
      it binds parameters, so each parameter index refers to a placeholder. */
  lemma PlaceholdersMatchParameters(e: Entity, values: seq<Value>, dirty: set<string>)
    requires |values| == |e.fields| && PlainNames(e)
    ensures InsertStatement(e, values).Ok? ==>
              var st := InsertStatement(e, values).value;
              Count(Sql(st), '?') == |st.params|
    ensures UpdateStatement(e, values, dirty).Ok? && UpdateStatement(e, values, dirty).value.Some? ==>
              var st := UpdateStatement(e, values, dirty).value.value;
              Count(Sql(st), '?') == |st.params|
    ensures DeleteStatement(e, values).Ok? ==>
              var st := DeleteStatement(e, values).value;
              Count(Sql(st), '?') == |st.params|
  {
    InsertMatches(e, values);
    var upd := UpdateStatement(e, values, dirty);
    if upd.Ok? && upd.value.Some? {
      UpdatePlain(e, values, dirty);
      SqlPlaceholders(upd.value.value);
    }
    var del := DeleteStatement(e, values);
    if del.Ok? {
      SqlPlaceholders(del.value);
    }
  }

  lemma InsertMatches(e: Entity, values: seq<Value>)
    requires |values| == |e.fields| && PlainNames(e)
    ensures Count(Sql(InsertFor(e, values)), '?') == |InsertFor(e, values).params|
  {
    var st := InsertFor(e, values);
    var w := Written(ForInsert, e.fields, values, |e.fields|);
    WrittenSpec(ForInsert, e.fields, values, |e.fields|);
    assert |st.columns| == |st.params| == |w|;
    InsertPlaceholders(st.table, st.columns, st.params);
  }

  /** An update built over plain names binds one parameter per SET column
      plus the key, and names no column containing a question mark. */
  lemma UpdatePlain(e: Entity, values: seq<Value>, dirty: set<string>)
    requires |values| == |e.fields| && PlainNames(e)
    requires UpdateStatement(e, values, dirty).Ok? && UpdateStatement(e, values, dirty).value.Some?
    ensures var st := UpdateStatement(e, values, dirty).value.value;
            && st.Update? && '?' !in st.table && '?' !in st.keyColumn
            && |st.params| == |st.setColumns| + 1
            && forall k :: 0 <= k < |st.setColumns| ==> '?' !in st.setColumns[k]
  {
    WrittenSpec(ForUpdate(dirty), e.fields, values, |e.fields|);
  }

  // ---- the dirty-set lookup by field name ----

  /** Where every field's Java name equals its column name the source's
      field-name lookup selects the same fields as the column-name one. */
  lemma {:induction false} WrittenAsWrittenAgrees(fields: seq<Field>, values: seq<Value>, dirty: set<string>, n: nat)
    requires |fields| == |values| && n <= |fields|
    requires forall i :: 0 <= i < |fields| ==> fields[i].fieldName == fields[i].column.name
    ensures Written(ForUpdateAsWritten(dirty), fields, values, n) == Written(ForUpdate(dirty), fields, values, n)
  {
    if n > 0 {
      WrittenAsWrittenAgrees(fields, values, dirty, n - 1);
    }
  }

  /** ... and then the update as written is the update with the column-name
      lookup. */
  lemma UpdateAsWrittenAgrees(e: Entity, values: seq<Value>, dirty: set<string>)
    requires |values| == |e.fields|
    requires forall i :: 0 <= i < |e.fields| ==> e.fields[i].fieldName == e.fields[i].column.name
    ensures UpdateStatementAsWritten(e, values, dirty) == UpdateStatement(e, values, dirty)
  {
    WrittenAsWrittenAgrees(e.fields, values, dirty, |e.fields|);
  }

  /** A field `lastEdited` mapped to column `last_edited`: `changeField`
      records `last_edited` as dirty, the lookup by field name misses it, and
      the update as written has an empty SET list — malformed SQL, so
      preparing it fails and the change is never stored — while the
      column-name lookup sets the column. */
  lemma UpdateAsWrittenMissesRenamedField()
    ensures var e := Entity("t", [Field("id", Column("id", notNull := true), true),
                                  Field("lastEdited", Column("last_edited"))]);
            var values := [Long(1), Timestamp(5)];
            && UpdateStatementAsWritten(e, values, {"last_edited"}) == Err(EMPTY_SET_LIST)
            && Sql(Update("t", [], "id", [Long(1)])) == "UPDATE t SET  WHERE id = ?"
            && UpdateStatement(e, values, {"last_edited"})
               == Ok(Some(Update("t", ["last_edited"], "id", [Timestamp(5), Long(1)])))
  {
    var e := Entity("t", [Field("id", Column("id", notNull := true), true),
                          Field("lastEdited", Column("last_edited"))]);
    var values := [Long(1), Timestamp(5)];
    var d := {"last_edited"};
    RenamedFieldSelections(e, values, d);
    assert PrimaryKeyIndex(e.fields) == Some(0);
    assert Param(e.fields[0], values[0]) == Long(1);
    assert Param(e.fields[1], values[1]) == Timestamp(5);
    assert ColumnsOf(e.fields, []) == [] && ParamsOf(e.fields, values, []) == [];
    assert ColumnsOf(e.fields, [1]) == ["last_edited"];
    assert ParamsOf(e.fields, values, [1]) == [Timestamp(5)];
    assert UpdateFor(e, values, d, ForUpdate(d)).Ok?;
    assert UpdateFor(e, values, d, ForUpdate(d)).value.Some?;
    assert UpdateFor(e, values, d, ForUpdate(d)).value.value.setColumns == ["last_edited"];
    assert UpdateFor(e, values, d, ForUpdate(d)).value.value.params == [Timestamp(5), Long(1)];
    assert UpdateStatementAsWritten(e, values, d) == Err(EMPTY_SET_LIST);
    assert UpdateStatement(e, values, d) == Ok(Some(Update("t", ["last_edited"], "id", [Timestamp(5), Long(1)])));
    EmptySetSql();
  }

  /** In that example the lookup by field name selects nothing to write,
      the lookup by column name selects the renamed field. */
  lemma RenamedFieldSelections(e: Entity, values: seq<Value>, d: set<string>)
    requires e == Entity("t", [Field("id", Column("id", notNull := true), true),
                               Field("lastEdited", Column("last_edited"))])
    requires values == [Long(1), Timestamp(5)] && d == {"last_edited"}
    ensures Written(ForUpdateAsWritten(d), e.fields, values, 2) == []
    ensures Written(ForUpdate(d), e.fields, values, 2) == [1]
  {
    assert "last_edited" in d && d != {};
    assert !Writes(ForUpdateAsWritten(d), e.fields[0], values[0]);
    assert !Writes(ForUpdateAsWritten(d), e.fields[1], values[1]);
    assert !Writes(ForUpdate(d), e.fields[0], values[0]);
    assert Writes(ForUpdate(d), e.fields[1], values[1]);
    assert Written(ForUpdateAsWritten(d), e.fields, values, 1) == [];
    assert Written(ForUpdate(d), e.fields, values, 1) == [];
  }

  /** An update with an empty SET list renders as malformed SQL. */
  lemma EmptySetSql()
    ensures Sql(Update("t", [], "id", [Long(1)])) == "UPDATE t SET  WHERE id = ?"
  {
    assert Join(Assignments([]), ", ") == "";
  }
}
