/** `MediaRow`: one indexed media file — its id (the hash of its path), its
    path, its modification time and the hash of the base directory it was
    found under. */
module MediaRows {

  import opened Wrappers
  import opened JavaValues
  import opened DatabaseToFieldMappers
  import opened FieldToDatabaseMappers
  import opened Columns
  import opened Statements
  import opened JdbcRows
  import opened JdbcTables
  import opened JavaStrings

  const MEDIA_TABLE: string := "media"

  /** The annotated fields, in declaration order: every column is not null,
      `id` is the primary key and `last_edited` is read through the
      timestamp converter. */
  const MEDIA_FIELDS: seq<Field> := [
    Field("id", Column("id", notNull := true), true, LongType),
    Field("file", Column("file", notNull := true), fieldType := StringType),
    Field("last_edited", Column("last_edited", resultSetToField := FromTimestamp, notNull := true),
          fieldType := TimestampType),
    Field("base_path_hash", Column("base_path_hash", notNull := true), fieldType := LongType)
  ]

  const MEDIA_ENTITY: Entity := Entity(MEDIA_TABLE, MEDIA_FIELDS)

  /** Field positions. */
  const ID: nat := 0
  const FILE: nat := 1
  const LAST_EDITED: nat := 2
  const BASE_PATH_HASH: nat := 3

  /** The values of a fully populated media row: a `Long` id, a `String`
      path, a `Timestamp` and a `Long` base-path hash. */
  predicate Complete(values: seq<Value>)
  {
    && |values| == 4
    && values[ID].Long? && values[FILE].Str?
    && values[LAST_EDITED].Timestamp? && values[BASE_PATH_HASH].Long?
  }

  /** The descriptor table: `id` is the one primary key, every column is
      not null, included in inserts and named like its Java field, no two
      columns share a name and no name contains a placeholder. */
  lemma MediaEntityShape()
    ensures ColumnNames(MEDIA_FIELDS) == ["id", "file", "last_edited", "base_path_hash"]
    ensures PrimaryKeyIndex(MEDIA_FIELDS) == Some(ID)
    ensures forall i :: 0 <= i < |MEDIA_FIELDS| ==>
              MEDIA_FIELDS[i].column.notNull && MEDIA_FIELDS[i].column.includeInInsert
              && MEDIA_FIELDS[i].fieldName == MEDIA_FIELDS[i].column.name
              && (i != ID ==> !MEDIA_FIELDS[i].primaryKey)
    ensures DistinctColumns(MEDIA_FIELDS)
    ensures PlainNames(MEDIA_ENTITY)
  {
    MediaColumnNames();
    MediaDistinctColumns();
    MediaPlainNames();
  }

  /** The column names, in declaration order. */
  lemma MediaColumnNames()
    ensures ColumnNames(MEDIA_FIELDS) == ["id", "file", "last_edited", "base_path_hash"]
  {
  }

  /** No two media columns share a name. */
  lemma MediaDistinctColumns()
    ensures DistinctColumns(MEDIA_FIELDS)
  {
    // The four column names differ in length.
    forall i, j | 0 <= i < j < |MEDIA_FIELDS|
      ensures MEDIA_FIELDS[i].column.name != MEDIA_FIELDS[j].column.name
    {
      assert |MEDIA_FIELDS[i].column.name| != |MEDIA_FIELDS[j].column.name|;
    }
  }

  /** No media table or column name contains a `?`. */
  lemma MediaPlainNames()
    ensures PlainNames(MEDIA_ENTITY)
  {
  }

  /** Because every media field is named like its column, the update as
      the source writes it (dirty set consulted by field name) is the same
      statement as the one consulting column names. */
  lemma MediaUpdateAsWrittenAgrees(values: seq<Value>, dirty: set<string>)
    requires |values| == |MEDIA_FIELDS|
    ensures UpdateStatementAsWritten(MEDIA_ENTITY, values, dirty) == UpdateStatement(MEDIA_ENTITY, values, dirty)
  {
    MediaEntityShape();
    UpdateAsWrittenAgrees(MEDIA_ENTITY, values, dirty);
  }

  /** The insert of a complete row writes all four columns, in declaration
      order, binding the values as they are. */
  lemma CompleteInsert(values: seq<Value>)
    requires Complete(values)
    ensures InsertStatement(MEDIA_ENTITY, values)
            == Ok(Insert(MEDIA_TABLE, ["id", "file", "last_edited", "base_path_hash"], values))
  {
    var fs := MEDIA_FIELDS;
    assert Written(ForInsert, fs, values, 1) == [0];
    assert Written(ForInsert, fs, values, 2) == [0, 1];
    assert Written(ForInsert, fs, values, 3) == [0, 1, 2];
    assert Written(ForInsert, fs, values, 4) == [0, 1, 2, 3];
    assert ColumnsOf(fs, [0, 1, 2, 3]) == ["id", "file", "last_edited", "base_path_hash"];
    assert ParamsOf(fs, values, [0, 1, 2, 3]) == values;
  }

  /** A row whose fields are all still null writes no column at all: the
      insert it formats, `INSERT INTO media () VALUES () RETURNING *`, cannot
      be prepared, so it has no insert. */
  lemma EmptyInsert()
    ensures InsertFor(MEDIA_ENTITY, [Null, Null, Null, Null]) == Insert(MEDIA_TABLE, [], [])
    ensures Sql(Insert(MEDIA_TABLE, [], [])) == "INSERT INTO media () VALUES () RETURNING *"
    ensures InsertStatement(MEDIA_ENTITY, [Null, Null, Null, Null]) == Err(EMPTY_COLUMN_LIST)
  {
    var values := [Null, Null, Null, Null];
    assert Written(ForInsert, MEDIA_FIELDS, values, 1) == [];
    assert Written(ForInsert, MEDIA_FIELDS, values, 2) == [];
    assert Written(ForInsert, MEDIA_FIELDS, values, 3) == [];
    assert Written(ForInsert, MEDIA_FIELDS, values, 4) == [];
    EmptyInsertSql();
  }

  lemma EmptyInsertSql()
    ensures Sql(Insert(MEDIA_TABLE, [], [])) == "INSERT INTO media () VALUES () RETURNING *"
  {
    assert Join([], ", ") == "" && Join(Marks(0), ", ") == "";
  }

  /** Changing the path of a stored row updates just that column, keyed by
      the id. */
  lemma ChangeFileUpdate(id: int, oldFile: string, newFile: string, ms: int, baseHash: int)
    ensures var values := [Long(id), Str(oldFile), Timestamp(ms), Long(baseHash)][FILE := Str(newFile)];
            && UpdateStatement(MEDIA_ENTITY, values, {"file"})
               == Ok(Some(Update(MEDIA_TABLE, ["file"], "id", [Str(newFile), Long(id)])))
            && Sql(Update(MEDIA_TABLE, ["file"], "id", [Str(newFile), Long(id)]))
               == "UPDATE media SET file = ? WHERE id = ?"
  {
    var values := [Long(id), Str(oldFile), Timestamp(ms), Long(baseHash)][FILE := Str(newFile)];
    var fs := MEDIA_FIELDS;
    var d := {"file"};
    FileOnlyWritten(values, d);
    assert PrimaryKeyIndex(fs) == Some(0);
    assert ColumnsOf(fs, [1]) == ["file"];
    assert ParamsOf(fs, values, [1]) == [Str(newFile)];
    assert UpdateFor(MEDIA_ENTITY, values, d, ForUpdate(d)).value.value.setColumns == ["file"];
    assert UpdateFor(MEDIA_ENTITY, values, d, ForUpdate(d)).value.value.params == [Str(newFile), Long(id)];
    ChangeFileSql(id, newFile);
  }

  /** With only `file` dirty, the update selects the `file` field alone. */
  lemma FileOnlyWritten(values: seq<Value>, d: set<string>)
    requires |values| == 4 && values[FILE].Str? && d == {"file"}
    ensures Written(ForUpdate(d), MEDIA_FIELDS, values, 4) == [1]
  {
    var fs := MEDIA_FIELDS;
    assert "file" in d && d != {};
    assert Written(ForUpdate(d), fs, values, 1) == [];
    assert Written(ForUpdate(d), fs, values, 2) == [1];
    assert Written(ForUpdate(d), fs, values, 3) == [1];
  }

  /** The SQL text of that update. */
  lemma ChangeFileSql(id: int, newFile: string)
    ensures Sql(Update(MEDIA_TABLE, ["file"], "id", [Str(newFile), Long(id)]))
            == "UPDATE media SET file = ? WHERE id = ?"
  {
    assert Assignments(["file"])[0] == "file" + " = ?";
    var j := Join(Assignments(["file"]), ", ");
    assert j == "file = ?";
    assert "UPDATE " + MEDIA_TABLE + " SET " + j == "UPDATE media SET file = ?";
    assert "UPDATE media SET file = ?" + " WHERE " + "id" + " = ?" == "UPDATE media SET file = ? WHERE id = ?";
  }

  /** A complete row read back from the table is the row that was written:
      every column survives storage. */
  lemma CompleteSurvivesStorage(values: seq<Value>)
    requires Complete(values)
    ensures forall i :: 0 <= i < |MEDIA_FIELDS| ==> SurvivesStorage(MEDIA_FIELDS[i].column, values[i])
    ensures forall i :: 0 <= i < |MEDIA_FIELDS| ==> InstanceOf(values[i], MEDIA_FIELDS[i].fieldType)
  {
  }

  /** A typed setter's argument: `null` or a value. */
  function OrNull<T>(x: Option<T>, wrap: T -> Value): Value
  {
    match x
    case None => Null
    case Some(v) => wrap(v)
  }

  /** `setId(Long)`: `changeField("id", …)`. A null is refused (the column
      is not null), as is the current value; otherwise the id changes and
      `id` turns dirty. */
  method SetId(row: Row, id: Option<int>)
    requires row.Valid() && row.entity == MEDIA_ENTITY
    modifies row
    ensures row.Valid()
    ensures id.None? || old(row.values)[ID] == Long(id.value) ==>
              row.values == old(row.values) && row.dirty == old(row.dirty)
    ensures id.Some? && old(row.values)[ID] != Long(id.value) ==>
              row.values == old(row.values)[ID := Long(id.value)] && row.dirty == old(row.dirty) + {"id"}
  {
    MediaEntityShape();
    var _ := row.ChangeField("id", OrNull(id, (n: int) => Long(n)));
  }

  /** `setFile(String)`: `changeField("file", …)`. */
  method SetFile(row: Row, file: Option<string>)
    requires row.Valid() && row.entity == MEDIA_ENTITY
    modifies row
    ensures row.Valid()
    ensures file.None? || old(row.values)[FILE] == Str(file.value) ==>
              row.values == old(row.values) && row.dirty == old(row.dirty)
    ensures file.Some? && old(row.values)[FILE] != Str(file.value) ==>
              row.values == old(row.values)[FILE := Str(file.value)] && row.dirty == old(row.dirty) + {"file"}
  {
    MediaEntityShape();
    var _ := row.ChangeField("file", OrNull(file, (s: string) => Str(s)));
  }

  /** `setLastEdited(Timestamp)`: `changeField("last_edited", …)`. */
  method SetLastEdited(row: Row, millis: Option<int>)
    requires row.Valid() && row.entity == MEDIA_ENTITY
    modifies row
    ensures row.Valid()
    ensures millis.None? || old(row.values)[LAST_EDITED] == Timestamp(millis.value) ==>
              row.values == old(row.values) && row.dirty == old(row.dirty)
    ensures millis.Some? && old(row.values)[LAST_EDITED] != Timestamp(millis.value) ==>
              row.values == old(row.values)[LAST_EDITED := Timestamp(millis.value)]
              && row.dirty == old(row.dirty) + {"last_edited"}
  {
    MediaEntityShape();
    var _ := row.ChangeField("last_edited", OrNull(millis, (n: int) => Timestamp(n)));
  }

  /** `setBasePathHash(Long)`: `changeField("base_path_hash", …)`. */
  method SetBasePathHash(row: Row, hash: Option<int>)
    requires row.Valid() && row.entity == MEDIA_ENTITY
    modifies row
    ensures row.Valid()
    ensures hash.None? || old(row.values)[BASE_PATH_HASH] == Long(hash.value) ==>
              row.values == old(row.values) && row.dirty == old(row.dirty)
    ensures hash.Some? && old(row.values)[BASE_PATH_HASH] != Long(hash.value) ==>
              row.values == old(row.values)[BASE_PATH_HASH := Long(hash.value)]
              && row.dirty == old(row.dirty) + {"base_path_hash"}
  {
    MediaEntityShape();
    var _ := row.ChangeField("base_path_hash", OrNull(hash, (n: int) => Long(n)));
  }
}
