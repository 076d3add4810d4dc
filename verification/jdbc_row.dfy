/** `JdbcRow`: one entity instance, its current field values and the set of
    columns changed since it was built, plus the statement builders that
    read them. */
module JdbcRows {

  import opened Wrappers
  import opened JavaValues
  import opened Columns
  import opened DatabaseToFieldMappers
  import opened Statements

  /** One column of a result-set row: its label and the value in it. */
  datatype Cell = Cell(name: string, value: Value)

  /** The current row of a `ResultSet`, its columns in result order. */
  datatype ResultRow = ResultRow(cells: seq<Cell>)

  /** `resultSet.getObject(name)`: the value of the first column with this
      label. */
  function GetObject(rs: ResultRow, name: string): (r: Option<Value>)
    ensures r.None? <==> forall k :: 0 <= k < |rs.cells| ==> rs.cells[k].name != name
    ensures r.Some? ==> exists k :: 0 <= k < |rs.cells| && rs.cells[k].name == name && rs.cells[k].value == r.value
                                  && forall j :: 0 <= j < k ==> rs.cells[j].name != name
    decreases |rs.cells|
  {
    if rs.cells == [] then None
    else if rs.cells[0].name == name then Some(rs.cells[0].value)
    else
      var r := GetObject(ResultRow(rs.cells[1..]), name);
      assert forall k :: 1 <= k < |rs.cells| ==> rs.cells[k] == rs.cells[1..][k - 1];
      assert r.Some? ==> exists k :: 1 <= k < |rs.cells| && rs.cells[k].name == name && rs.cells[k].value == r.value
                                     && forall j :: 0 <= j < k ==> rs.cells[j].name != name by {
        if r.Some? {
          var k' :| 0 <= k' < |rs.cells| - 1 && rs.cells[1..][k'].name == name && rs.cells[1..][k'].value == r.value
                    && forall j :: 0 <= j < k' ==> rs.cells[1..][j].name != name;
          assert forall j :: 0 <= j < k' + 1 ==> rs.cells[j].name != name by {
            forall j | 0 <= j < k' + 1 ensures rs.cells[j].name != name {
              if j > 0 { assert rs.cells[j] == rs.cells[1..][j - 1]; }
            }
          }
        }
      }
      r
  }

  /** What the hydrating constructor leaves in a field: null when the result
      has no such column, when its from-storage converter throws, or when
      the converted value is not an instance of the field's type so that
      `Field.set` throws (the exception is printed and the next column is
      tried); otherwise the converted value. */
  function HydratedValue(f: Field, rs: ResultRow, parse: TimestampParser): Value
  {
    match GetObject(rs, f.column.name)
    case None => Null
    case Some(v) =>
      match FromStorage(f.column.resultSetToField, v, parse)
      case Ok(x) => if InstanceOf(x, f.fieldType) then x else Null
      case Err(_) => Null
  }

  /** The values of all fields of a row hydrated from `rs`. */
  function Hydrate(fields: seq<Field>, rs: ResultRow, parse: TimestampParser): (r: seq<Value>)
    ensures |r| == |fields|
    ensures forall i :: 0 <= i < |fields| ==> r[i] == HydratedValue(fields[i], rs, parse)
  {
    seq(|fields|, i requires 0 <= i < |fields| => HydratedValue(fields[i], rs, parse))
  }

  /** A field absent from the result stays null, and a failing conversion or
      a converted value of the wrong type nulls only its own field; every
      hydrated value is null or an instance of its field's type. */
  lemma HydrateColumns(fields: seq<Field>, rs: ResultRow, parse: TimestampParser, i: nat)
    requires i < |fields|
    ensures GetObject(rs, fields[i].column.name).None? ==> Hydrate(fields, rs, parse)[i] == Null
    ensures GetObject(rs, fields[i].column.name).Some? ==>
              var conv := FromStorage(fields[i].column.resultSetToField, GetObject(rs, fields[i].column.name).value, parse);
              Hydrate(fields, rs, parse)[i]
              == (if conv.Ok? && InstanceOf(conv.value, fields[i].fieldType) then conv.value else Null)
    ensures InstanceOf(Hydrate(fields, rs, parse)[i], fields[i].fieldType)
  {
  }

  /** `JdbcRow.hasColumn`: scan the result's column labels. */
  method HasColumn(rs: ResultRow, columnName: string) returns (found: bool)
    ensures found <==> GetObject(rs, columnName).Some?
  {
    var x := 0;
    while x < |rs.cells|
      invariant 0 <= x <= |rs.cells|
      invariant forall k :: 0 <= k < x ==> rs.cells[k].name != columnName
    {
      if rs.cells[x].name == columnName {
        return true;
      }
      x := x + 1;
    }
    return false;
  }

  /** `getFieldWithColumnName`: scan the declared fields. */
  method FieldWithColumnName(fields: seq<Field>, columnName: string) returns (r: Option<nat>)
    ensures r == ColumnIndex(fields, columnName)
  {
    var i := 0;
    while i < |fields|
      invariant 0 <= i <= |fields|
      invariant forall j :: 0 <= j < i ==> fields[j].column.name != columnName
    {
      if fields[i].column.name == columnName {
        return Some(i);
      }
      i := i + 1;
    }
    return None;
  }

  /** `getPrimaryKeyField`: scan the declared fields. */
  method PrimaryKeyField(fields: seq<Field>) returns (r: Option<nat>)
    ensures r == PrimaryKeyIndex(fields)
  {
    var i := 0;
    while i < |fields|
      invariant 0 <= i <= |fields|
      invariant forall j :: 0 <= j < i ==> !fields[j].primaryKey
    {
      if fields[i].primaryKey {
        return Some(i);
      }
      i := i + 1;
    }
    return None;
  }

  /** The hydrating constructor's loop, over the fields in declaration
      order. */
  method HydrateFields(fields: seq<Field>, rs: ResultRow, parse: TimestampParser) returns (vs: seq<Value>)
    ensures vs == Hydrate(fields, rs, parse)
  {
    vs := [];
    var i := 0;
    while i < |fields|
      invariant 0 <= i <= |fields| && |vs| == i
      invariant forall j :: 0 <= j < i ==> vs[j] == HydratedValue(fields[j], rs, parse)
    {
      var v := Null;
      var present := HasColumn(rs, fields[i].column.name);
      if present {
        var result := GetObject(rs, fields[i].column.name).value;
        var mapped := FromStorage(fields[i].column.resultSetToField, result, parse);
        if mapped.Ok? && InstanceOf(mapped.value, fields[i].fieldType) {
          v := mapped.value;
        }
      }
      vs := vs + [v];
      i := i + 1;
    }
  }

  /** The selection loop shared by the insert and update builders: the
      `LinkedHashSet` of written fields, as indices. */
  method SelectFields(p: Purpose, fields: seq<Field>, values: seq<Value>) returns (idx: seq<nat>)
    requires |fields| == |values|
    ensures idx == Written(p, fields, values, |fields|)
  {
    idx := [];
    var i := 0;
    while i < |fields|
      invariant 0 <= i <= |fields|
      invariant idx == Written(p, fields, values, i)
    {
      if Writes(p, fields[i], values[i]) {
        idx := idx + [i];
      }
      i := i + 1;
    }
  }

  /** `buildVariableString`'s loop: the selected column names. */
  method ColumnList(fields: seq<Field>, idx: seq<nat>) returns (names: seq<string>)
    requires forall k :: 0 <= k < |idx| ==> idx[k] < |fields|
    ensures names == ColumnsOf(fields, idx)
  {
    names := [];
    var k := 0;
    while k < |idx|
      invariant 0 <= k <= |idx| && |names| == k
      invariant forall j :: 0 <= j < k ==> names[j] == fields[idx[j]].column.name
    {
      names := names + [fields[idx[k]].column.name];
      k := k + 1;
    }
  }

  /** `insertPlaceholderValues`: bind each selected field's converted value
      at the next index, starting from 1, and return the index after the
      last one bound. */
  method BindParameters(fields: seq<Field>, values: seq<Value>, idx: seq<nat>) returns (params: seq<Value>, next: int)
    requires |fields| == |values|
    requires forall k :: 0 <= k < |idx| ==> idx[k] < |fields|
    ensures params == ParamsOf(fields, values, idx)
    ensures next == |idx| + 1
  {
    params := [];
    var i := 1;
    var k := 0;
    while k < |idx|
      invariant 0 <= k <= |idx| && |params| == k && i == k + 1
      invariant forall j :: 0 <= j < k ==> params[j] == Param(fields[idx[j]], values[idx[j]])
    {
      params := params + [Param(fields[idx[k]], values[idx[k]])];
      i := i + 1;
      k := k + 1;
    }
    next := i;
  }

  /** One instance of a row class. `values[i]` is the current value of
      `entity.fields[i]` and, as the JVM guarantees, an instance of its
      declared type; `dirty` is the set of changed column names. */
  class Row {
    const entity: Entity
    var values: seq<Value>
    var dirty: set<string>

    ghost predicate Valid()
      reads this
    {
      && |values| == |entity.fields|
      && forall i :: 0 <= i < |values| ==> InstanceOf(values[i], entity.fields[i].fieldType)
    }

    /** The no-argument constructor: every field null, nothing changed. */
    constructor (e: Entity)
      ensures Valid() && entity == e && dirty == {}
      ensures forall i :: 0 <= i < |values| ==> values[i] == Null
    {
      entity := e;
      values := seq(|e.fields|, _ => Null);
      dirty := {};
    }

    /** The hydrating constructor: fields present in the result take their
      converted value, the others stay null, and the row starts clean. */
    constructor FromResult(e: Entity, rs: ResultRow, parse: TimestampParser)
      ensures Valid() && entity == e && dirty == {}
      ensures values == Hydrate(e.fields, rs, parse)
    {
      entity := e;
      var vs := HydrateFields(e.fields, rs, parse);
      values := vs;
      dirty := {};
    }

    /** `fieldChanged`: record a column as changed. */
    method FieldChanged(name: string)
      modifies this
      ensures dirty == old(dirty) + {name} && values == old(values)
    {
      dirty := dirty + {name};
    }

    /** `changeField(column, value)`: rejects an unknown column and a null for
      a not-null column, ignores a value equal to the current one, rejects a
      value that is not an instance of the field's type (`Field.set`
      throws), and otherwise stores the value and marks the column dirty.
      The result says whether the value changed; the dirty set never
      shrinks. */
    method ChangeField(columnName: string, value: Value) returns (changed: bool)
      requires Valid()
      modifies this
      ensures Valid()
      ensures old(dirty) <= dirty
      ensures changed <==> ColumnIndex(entity.fields, columnName).Some?
                           && var i := ColumnIndex(entity.fields, columnName).value;
                              && !(entity.fields[i].column.notNull && value == Null)
                              && !JavaEquals(old(values)[i], value)
                              && InstanceOf(value, entity.fields[i].fieldType)
      ensures !changed ==> values == old(values) && dirty == old(dirty)
      ensures changed ==> values == old(values)[ColumnIndex(entity.fields, columnName).value := value]
                          && dirty == old(dirty) + {columnName}
    {
      var field := FieldWithColumnName(entity.fields, columnName);
      if field.None? {
        return false;
      }
      var i := field.value;
      if entity.fields[i].column.notNull && value == Null {
        return false;
      }
      if JavaEquals(values[i], value) {
        return false;
      }
      if !InstanceOf(value, entity.fields[i].fieldType) {
        return false;
      }
      values := values[i := value];
      FieldChanged(columnName);
      return true;
    }

    /** `insertStatement`: an error when no field is written, otherwise the
      insert over the written fields. */
    method InsertStatement() returns (r: Result<Stmt>)
      requires Valid()
      ensures r == Statements.InsertStatement(entity, values)
    {
      var idx := SelectFields(ForInsert, entity.fields, values);
      WrittenSpec(ForInsert, entity.fields, values, |entity.fields|);
      if |idx| == 0 {
        return Err(EMPTY_COLUMN_LIST);
      }
      var columns := ColumnList(entity.fields, idx);
      var params, _ := BindParameters(entity.fields, values, idx);
      r := Ok(Insert(entity.table, columns, params));
    }

    /** `updateStatement`, looking the dirty set up by column name. */
    method UpdateStatement() returns (r: Result<Option<Stmt>>)
      requires Valid()
      ensures r == Statements.UpdateStatement(entity, values, dirty)
    {
      if dirty == {} {
        return Ok(None);
      }
      var idx := SelectFields(ForUpdate(dirty), entity.fields, values);
      WrittenSpec(ForUpdate(dirty), entity.fields, values, |entity.fields|);
      var pk := PrimaryKeyField(entity.fields);
      if pk.None? {
        return Err("No primary key field found");
      }
      if |idx| == 0 {
        return Err(EMPTY_SET_LIST);
      }
      var columns := ColumnList(entity.fields, idx);
      var params, afterPlaceholderIndex := BindParameters(entity.fields, values, idx);
      assert afterPlaceholderIndex - 1 == |params|;
      var key := Param(entity.fields[pk.value], values[pk.value]);
      r := Ok(Some(Update(entity.table, columns, entity.fields[pk.value].column.name, params + [key])));
    }

    /** `deleteStatement`: an error without a primary key, otherwise
      `DELETE FROM t WHERE pk = ?` binding the converted key value. */
    method DeleteStatement() returns (r: Result<Stmt>)
      requires Valid()
      ensures r == Statements.DeleteStatement(entity, values)
      ensures r.Ok? ==>
                var pk := PrimaryKeyIndex(entity.fields).value;
                && Sql(r.value) == "DELETE FROM " + entity.table + " WHERE " + entity.fields[pk].column.name + " = ?"
                && r.value.params == [Param(entity.fields[pk], values[pk])]
    {
      var pk := PrimaryKeyField(entity.fields);
      if pk.None? {
        return Err("No primary key field found");
      }
      r := Ok(Delete(entity.table, entity.fields[pk.value].column.name, [Param(entity.fields[pk.value], values[pk.value])]));
    }
  }

  /** A change followed by the update: once field `i` holds `v` and its
      column is dirty, the update of a row with a primary key sets that
      column to the converted `v`. */
  lemma ChangeReachesUpdate(e: Entity, values: seq<Value>, dirty: set<string>, i: nat, v: Value)
    requires |values| == |e.fields| && i < |e.fields|
    requires !(e.fields[i].column.notNull && v == Null)
    requires PrimaryKeyIndex(e.fields).Some?
    ensures var r := UpdateStatement(e, values[i := v], dirty + {e.fields[i].column.name});
            && r.Ok? && r.value.Some?
            && exists k :: 0 <= k < |r.value.value.setColumns|
                           && r.value.value.setColumns[k] == e.fields[i].column.name
                           && r.value.value.params[k] == Param(e.fields[i], v)
  {
    var vs := values[i := v];
    var d := dirty + {e.fields[i].column.name};
    UpdateShape(e, vs, d);
    WrittenSpec(ForUpdate(d), e.fields, vs, |e.fields|);
    var w := Written(ForUpdate(d), e.fields, vs, |e.fields|);
    assert i in w;
    var k :| 0 <= k < |w| && w[k] == i;
    var st := UpdateStatement(e, vs, d).value.value;
    assert st.setColumns[k] == e.fields[i].column.name;
  }
}
