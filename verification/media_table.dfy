/** `MediaTable`: the table of `MediaRow`s, keyed by `id`. */
module MediaTables {

  import opened Wrappers
  import opened JavaValues
  import opened DatabaseToFieldMappers
  import opened Columns
  import opened Statements
  import opened JdbcRows
  import opened JdbcTables
  import opened MediaRows
  import opened JavaLists

  const MEDIA_SCHEMA_PATH: string := "db/schema/media.sql"
  const MEDIA_PRIMARY_KEY: string := "id"

  /** A new `MediaTable`: its names agree with `MediaRow`'s annotations. */
  method NewMediaTable(parse: TimestampParser) returns (t: Table)
    ensures fresh(t) && t.Valid() && t.store == map[]
    ensures t.entity == MEDIA_ENTITY && t.tableName == MEDIA_TABLE && t.primaryKeyName == MEDIA_PRIMARY_KEY
    ensures t.schemaResourcePath == MEDIA_SCHEMA_PATH && t.pkIndex == ID
  {
    MediaEntityShape();
    t := new Table(MEDIA_ENTITY, MEDIA_TABLE, MEDIA_PRIMARY_KEY, MEDIA_SCHEMA_PATH, parse);
  }

  /** `createInstance`: a `MediaRow` hydrated from one result row. */
  method CreateInstance(rs: ResultRow, parse: TimestampParser) returns (row: Row)
    ensures fresh(row) && row.Valid() && row.entity == MEDIA_ENTITY && row.dirty == {}
    ensures row.values == Hydrate(MEDIA_FIELDS, rs, parse)
  {
    row := new Row.FromResult(MEDIA_ENTITY, rs, parse);
  }

  /** The record a complete row's insert stores is the row's own values:
      each column of the insert's list is found at its field's position. */
  lemma CompleteInsertedRecord(values: seq<Value>)
    requires Complete(values)
    ensures InsertedRecord(MEDIA_FIELDS, ["id", "file", "last_edited", "base_path_hash"], values) == values
  {
    var cols := ["id", "file", "last_edited", "base_path_hash"];
    var rec := InsertedRecord(MEDIA_FIELDS, cols, values);
    IndexOfIsFirst(cols, "id", 0);
    IndexOfIsFirst(cols, "file", 1);
    IndexOfIsFirst(cols, "last_edited", 2);
    IndexOfIsFirst(cols, "base_path_hash", 3);
    assert rec[0] == values[0] && rec[1] == values[1] && rec[2] == values[2] && rec[3] == values[3];
  }

  /** Executing the insert of a complete media row's columns. */
  lemma CompleteRecordExec(store: Store, values: seq<Value>)
    requires Complete(values)
    ensures var ex := ExecInsert(MEDIA_FIELDS, ID, store, Insert(MEDIA_TABLE, ["id", "file", "last_edited", "base_path_hash"], values));
            && (ex.Ok? <==> values[ID].n !in store)
            && (ex.Err? ==> ex.error == "UNIQUE constraint failed")
            && (ex.Ok? ==> ex.value == (store[values[ID].n := values], values))
  {
    var st := Insert(MEDIA_TABLE, ["id", "file", "last_edited", "base_path_hash"], values);
    CompleteInsertedRecord(values);
    CompleteNotNull(values);
    ExecInsertOfRecord(MEDIA_FIELDS, ID, store, st);
  }

  /** A complete row meets every not-null constraint of the table. */
  lemma CompleteNotNull(values: seq<Value>)
    requires Complete(values)
    ensures NotNullHolds(MEDIA_FIELDS, values)
  {
    assert forall i :: 0 <= i < 4 ==> values[i] != Null;
  }

  /** Inserting a complete media row succeeds exactly when its id is not in
      the table yet; the table then holds the row under its id. */
  lemma CompleteInsertOutcome(store: Store, values: seq<Value>)
    requires Complete(values)
    ensures InsertStatement(MEDIA_ENTITY, values).Ok?
    ensures var ex := ExecInsert(MEDIA_FIELDS, ID, store, InsertStatement(MEDIA_ENTITY, values).value);
            && (ex.Ok? <==> values[ID].n !in store)
            && (ex.Err? ==> ex.error == "UNIQUE constraint failed")
            && (ex.Ok? ==> ex.value == (store[values[ID].n := values], values))
  {
    CompleteInsert(values);
    CompleteRecordExec(store, values);
  }

  /** The row `insert` returns for a complete media row reads back as the
      row inserted. */
  lemma CompleteInsertReadsBack(store: Store, values: seq<Value>, parse: TimestampParser)
    requires Complete(values) && values[ID].n !in store
    ensures InsertStatement(MEDIA_ENTITY, values).Ok?
    ensures ExecInsert(MEDIA_FIELDS, ID, store, InsertStatement(MEDIA_ENTITY, values).value).Ok?
    ensures Hydrate(MEDIA_FIELDS, ResultOf(MEDIA_FIELDS, values), parse) == values
  {
    CompleteInsertOutcome(store, values);
    MediaEntityShape();
    CompleteSurvivesStorage(values);
    var back := Hydrate(MEDIA_FIELDS, ResultOf(MEDIA_FIELDS, values), parse);
    forall i | 0 <= i < 4
      ensures back[i] == values[i]
    {
      InsertReadsBack(MEDIA_ENTITY, ID, store, values, parse, i);
    }
  }
}
