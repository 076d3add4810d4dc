# media-gallery: a verified model of the row mapper and the media service

This project models the core of the media gallery server in Dafny.

**The generic row mapper.** A row class (`JdbcRow`) carries annotated fields (`@Column`). Each field names its column, its two value converters (`DatabaseToFieldMapper`, `FieldToDatabaseMapper`) and its `includeInInsert`/`notNull` flags. Its declared Java type decides which values reflection can store in it.
- A row keeps the set of columns changed since it was loaded.
- From the descriptors, the current values and that dirty set, it builds parameterised `INSERT … RETURNING *`, `UPDATE … SET … WHERE pk = ?` and `DELETE … WHERE pk = ?` statements.
- `JdbcTable` is the CRUD repository on top. It runs those statements against the table.
- `ByteData` decodes `\x…` hex text into bytes.
- `MediaRow`/`MediaTable` are the one concrete entity. It has four not-null columns: `id`, `file`, `last_edited` and `base_path_hash`. `id` is the primary key.

**The media service.**
- A media file's id, and the hash of the directory it was found under, come from a 64-bit rolling string hash.
- Rescanning a directory deletes the records under it, then inserts one record per media file the walk finds.
- The image-directory and disabled-directory lists live in the configuration. Entries are appended to them and removed from them.
- The paging query has a disabled-directory clause, an optional video clause, an ordering, and `LIMIT 60 OFFSET 60·page`.
- The configuration is a field-to-value map with defaults. Saving it is debounced. It is loaded from and written to a JSON object.

**Around them.** The file-extension filter the walk uses, and the controller's helpers for the file extension, the media type and the thumbnail name.

**How the model is structured.**
- The database is an abstract store: a map from the `long` primary key to a record, which is one value per column in declaration order.
- Statements are values of a datatype `Stmt`. The SQL text is a function of a statement.
- Java reflection is replaced by an explicit, ordered descriptor sequence.
- Rows, tables, the configuration and the service are classes whose methods update their fields.
- The statement builders, the converters, the hash and the query assembly are functions. Each has a method with the source's loop proved equal to it.
- Java `long` and `int` arithmetic wraps explicitly, modulo 2^64 and 2^32. A timestamp is its epoch milliseconds.

Paths in the table below are relative to the repository root.

## Model

| member | source | states |
|---|---|---|
| JavaValues.WrapLong | src/main/java/de/yanwittmann/gallery/media/MediaService.java:183-185 | The result is a Java `long` congruent to the input modulo 2^64: two's-complement wrap-around. |
| JavaValues.WrapInt | src/main/java/de/yanwittmann/gallery/media/MediaService.java:221 | The result is a Java `int` congruent to the input modulo 2^32. The paging offset `page * 60` is computed this way. |
| JavaValues.JavaEquals | src/main/java/de/yanwittmann/gallery/db/dao/JdbcRow.java:74-75 | `Objects.equals(current, value)`: true for equal values and, when either is null, exactly when both are. Outside the date classes and lists, equal means the same value; `ByteData` compares its bytes (ByteData.java:37-41). |
| JavaValues.DateEqualsAsymmetric | src/main/java/de/yanwittmann/gallery/db/dao/JdbcRow.java:74-75 | A `Date` or `java.sql.Date` equals a `Timestamp` of the same time, but a `Timestamp` never equals a `Date`. An `Integer` never equals a `Long`. |
| JavaValues.JavaEqualsSameClass | src/main/java/de/yanwittmann/gallery/db/dao/JdbcRow.java:74-75 | For two values that fit a `Boolean`, `Integer`, `Long`, `String` or `Timestamp` field, `Objects.equals` is plain equality. |
| JavaValues.WrapByte | src/main/java/de/yanwittmann/gallery/db/dao/ByteData.java:29-30 | The `(byte)` cast keeps the input modulo 256, as a signed byte. |
| JavaStrings.LastIndexOf | src/main/java/de/yanwittmann/gallery/MainController.java:91-92 | `lastIndexOf` is -1 exactly when the character is absent. Otherwise the position holds it and nothing after that position does. |
| JavaStrings.Decimal | src/main/java/de/yanwittmann/gallery/media/MediaService.java:245 | `String.valueOf(long)` is non-empty, starts with `-` exactly for negatives, and is digits otherwise. |
| JavaStrings.DecimalRoundTrip | src/main/java/de/yanwittmann/gallery/media/MediaService.java:244-246 | Reading the decimal text back gives the number, so distinct hashes print distinctly in the `NOT IN` list. |
| JavaStrings.CountJoinSeparators | src/main/java/de/yanwittmann/gallery/media/MediaService.java:244-246 | A `joining(sep)` of n parts holds the parts' occurrences of a character plus (n − 1) times the separator's. |
| JavaLists.IndexOf | src/main/java/de/yanwittmann/gallery/media/MediaService.java:107 | The first position holding the element, or -1 exactly when it is absent. |
| JavaLists.RemovedSpec | src/main/java/de/yanwittmann/gallery/media/MediaService.java:147 | `List.remove(o)` leaves the list unchanged when `o` is absent. Otherwise it drops exactly one occurrence (the multiset loses one `o`), and that occurrence is the first. |
| JavaLists.Remove | src/main/java/de/yanwittmann/gallery/media/MediaService.java:107 | The search-then-shift method returns whether it removed something, which happens exactly when the element was present, and the list with the first occurrence dropped. |
| ByteDataHex.HexDigit | src/main/java/de/yanwittmann/gallery/db/dao/ByteData.java:29-30 | `Character.digit(c, 16)` is a value in 0..15 exactly for an ASCII or fullwidth hexadecimal character of either case, and -1 otherwise. ASCII digits carry their usual values. |
| ByteDataHex.Unprefixed | src/main/java/de/yanwittmann/gallery/db/dao/ByteData.java:25 | A leading `\x` is stripped; any other text is kept as is. |
| ByteDataHex.ToByteArray | src/main/java/de/yanwittmann/gallery/db/dao/ByteData.java:24-33 | The stepping loop computes the decoding. Odd-length text is an error, where the code reads past the end. |
| ByteDataHex.Equals | src/main/java/de/yanwittmann/gallery/db/dao/ByteData.java:36-43 | Equal exactly to another `ByteData` with the same length and element-wise equal bytes. |
| ByteDataHex.DecodeEncoded | src/main/java/de/yanwittmann/gallery/db/dao/ByteData.java:24-33 | Decoding the lower-case hex rendering of any bytes gives the bytes back, with or without the `\x` prefix. |
| ByteDataHex.DecodeShape | src/main/java/de/yanwittmann/gallery/db/dao/ByteData.java:26-31 | Even-length text decodes to half as many bytes. Byte k is `(digit(2k) << 4) + digit(2k+1)` cast to a byte. |
| ByteDataHex.DecodeEmpty | src/main/java/de/yanwittmann/gallery/db/dao/ByteData.java:26-31 | The empty text decodes to no bytes, with or without the prefix. |
| Columns.ColumnDefaults | src/main/java/de/yanwittmann/gallery/db/dao/Column.java:8-16 | An annotation giving only a name has the identity converters, is included in inserts and is nullable. |
| Columns.ColumnIndex | src/main/java/de/yanwittmann/gallery/db/dao/JdbcRow.java:101-111 | The first field whose column has the name, or none when no field has it. |
| Columns.PrimaryKeyIndex | src/main/java/de/yanwittmann/gallery/db/dao/JdbcRow.java:113-120 | The first field marked primary key, or none when no field is marked. |
| Columns.ColumnNames | src/main/java/de/yanwittmann/gallery/db/dao/JdbcRow.java:130-136 | One column name per field, in declaration order. |
| DatabaseToFieldMappers.IdentityUnchanged | src/main/java/de/yanwittmann/gallery/db/dao/DatabaseToFieldMapper.java:11 | `IDENTITY` returns its input. |
| DatabaseToFieldMappers.ByteDataCases | src/main/java/de/yanwittmann/gallery/db/dao/DatabaseToFieldMapper.java:12-23 | `BYTE_DATA` maps raw bytes to a `ByteData` of the same bytes, keeps a `ByteData`, and hex-decodes a string. Any other non-null type yields null. |
| DatabaseToFieldMappers.TimestampForms | src/main/java/de/yanwittmann/gallery/db/dao/DatabaseToFieldMapper.java:24-32 | A Timestamp, an `sql.Date`, a `util.Date` and a `Long` of the same instant all map to the same Timestamp. |
| DatabaseToFieldMappers.TimestampUnrecognised | src/main/java/de/yanwittmann/gallery/db/dao/DatabaseToFieldMapper.java:35-38 | An unrecognised type maps to null rather than failing. |
| FieldToDatabaseMappers.ToByteDataCases | src/main/java/de/yanwittmann/gallery/db/dao/FieldToDatabaseMapper.java:7-13 | `BYTE_DATA` binds a `ByteData`'s bytes. It binds anything else, null included, as null. |
| FieldToDatabaseMappers.BytesRoundTrip | src/main/java/de/yanwittmann/gallery/db/dao/FieldToDatabaseMapper.java:8-9 | Raw bytes read through `BYTE_DATA` are written back as the same bytes. |
| FieldToDatabaseMappers.HexRoundTrip | src/main/java/de/yanwittmann/gallery/db/dao/FieldToDatabaseMapper.java:8-9 | Hex text read through `BYTE_DATA` is written back as the bytes it encodes. |
| Statements.Written | src/main/java/de/yanwittmann/gallery/db/dao/JdbcRow.java:166-183 | Every selected index is a field position. |
| Statements.WrittenSpec | src/main/java/de/yanwittmann/gallery/db/dao/JdbcRow.java:166-183 | The selection holds exactly the fields the builder writes, each once, in declaration order: the `LinkedHashSet` order. |
| Statements.InsertShape | src/main/java/de/yanwittmann/gallery/db/dao/JdbcRow.java:160-195 | The insert is an error, "empty column list", exactly when no field is written: none is included in inserts without being a not-null field holding null. `INSERT INTO t () VALUES ()` cannot be prepared and the builder rethrows (183-193). Otherwise it is the insert over the written fields. |
| Statements.InsertForShape | src/main/java/de/yanwittmann/gallery/db/dao/JdbcRow.java:160-182 | The formatted insert's columns are exactly the fields included in inserts that are not not-null-and-null, in declaration order. It binds one converted value per column, in the same order. |
| Statements.UpdateShape | src/main/java/de/yanwittmann/gallery/db/dao/JdbcRow.java:197-247 | A clean row gives no statement. A dirty row without a primary key is an error. A dirty row none of whose fields is written (each dirty column unknown, or a not-null one holding null) is an error too: its SET list would be empty and cannot be prepared. Otherwise SET lists exactly the dirty columns, minus not-null ones holding null, in order. Their values are bound first and the primary key right after them, at index (number of SET columns + 1). |
| JdbcTables.DeleteEffect | src/main/java/de/yanwittmann/gallery/db/dao/JdbcRow.java:249-272 | Without a primary key there is no delete. Otherwise the SQL is `DELETE FROM t WHERE pk = ?` with one bound parameter. When the key field holds `Long(k)` and binds it unconverted, executing the delete removes the record keyed `k` and nothing else. |
| Statements.SqlPlaceholders | src/main/java/de/yanwittmann/gallery/db/dao/JdbcRow.java:185-186 | The SQL text has one `?` per inserted column, one per SET column plus one for the key, and one in a delete. |
| Statements.PlaceholdersMatchParameters | src/main/java/de/yanwittmann/gallery/db/dao/JdbcRow.java:146-158 | Every statement a row builds has as many placeholders as bound parameters, so each binding index refers to a placeholder. |
| Statements.WrittenAsWrittenAgrees | src/main/java/de/yanwittmann/gallery/db/dao/JdbcRow.java:221 | Where field names equal column names, the field-name lookup selects the same fields as the column-name lookup. |
| Statements.UpdateAsWrittenAgrees | src/main/java/de/yanwittmann/gallery/db/dao/JdbcRow.java:221 | ... so the update as written is the corrected update. |
| Statements.UpdateAsWrittenMissesRenamedField | src/main/java/de/yanwittmann/gallery/db/dao/JdbcRow.java:221 | Take a field `lastEdited` on column `last_edited` that was changed. The update as written has an empty SET list (`UPDATE t SET  WHERE id = ?`), so it fails to prepare and the change is lost. The corrected one sets the column. |
| JdbcRows.GetObject | src/main/java/de/yanwittmann/gallery/db/dao/JdbcRow.java:32 | A result column's value is absent exactly when no column has the label. Otherwise it is the value of a column with that label. |
| JdbcRows.Hydrate | src/main/java/de/yanwittmann/gallery/db/dao/JdbcRow.java:19-41 | One value per field, each decided by that field alone. A failure on one column does not affect the others. |
| JdbcRows.HydrateColumns | src/main/java/de/yanwittmann/gallery/db/dao/JdbcRow.java:29-37 | A field absent from the result stays null. A present one takes its converted value. It stays null when the conversion fails, or when the converted value is not an instance of the field's type (`Field.set` throws). Every hydrated value fits its field's type. |
| JdbcRows.HasColumn | src/main/java/de/yanwittmann/gallery/db/dao/JdbcRow.java:43-52 | The label scan finds the column exactly when the result has a column with that label. |
| JdbcRows.FieldWithColumnName | src/main/java/de/yanwittmann/gallery/db/dao/JdbcRow.java:101-111 | The scan returns the first field with that column name. |
| JdbcRows.PrimaryKeyField | src/main/java/de/yanwittmann/gallery/db/dao/JdbcRow.java:113-120 | The scan returns the first primary-key field. |
| JdbcRows.HydrateFields | src/main/java/de/yanwittmann/gallery/db/dao/JdbcRow.java:23-39 | The constructor's loop computes the hydration. |
| JdbcRows.SelectFields | src/main/java/de/yanwittmann/gallery/db/dao/JdbcRow.java:168-183 | The builders' selection loop computes the written fields in order. |
| JdbcRows.ColumnList | src/main/java/de/yanwittmann/gallery/db/dao/JdbcRow.java:130-136 | The variable-string loop lists the selected columns in order. |
| JdbcRows.BindParameters | src/main/java/de/yanwittmann/gallery/db/dao/JdbcRow.java:146-158 | The binding loop binds each selected field's converted value at indices 1..n in order, and returns n + 1. |
| JdbcRows.Row.constructor | src/main/java/de/yanwittmann/gallery/db/dao/JdbcRow.java:16-17 | A new row has every field null and nothing dirty. |
| JdbcRows.Row.FromResult | src/main/java/de/yanwittmann/gallery/db/dao/JdbcRow.java:19-41 | A hydrated row holds the hydrated values and starts clean. |
| JdbcRows.Row.FieldChanged | src/main/java/de/yanwittmann/gallery/db/dao/JdbcRow.java:56-59 | Adds the name to the dirty set and changes no value. |
| JdbcRows.Row.ChangeField | src/main/java/de/yanwittmann/gallery/db/dao/JdbcRow.java:61-87 | Returns true exactly when the column exists, the value is allowed (not null on a not-null column), is not `Objects.equals` to the current one (`JavaEquals`) and is an instance of the field's type. Then only that value changes and the column turns dirty. Otherwise nothing changes. The dirty set only grows. |
| JdbcRows.Row.InsertStatement | src/main/java/de/yanwittmann/gallery/db/dao/JdbcRow.java:160-195 | The builder's loops produce the outcome described by `InsertShape`: the empty-column-list error, or the insert over the written fields. |
| JdbcRows.Row.UpdateStatement | src/main/java/de/yanwittmann/gallery/db/dao/JdbcRow.java:197-247 | The builder's loops produce the update described by `UpdateShape`. The dirty set is looked up by column name. |
| JdbcRows.Row.DeleteStatement | src/main/java/de/yanwittmann/gallery/db/dao/JdbcRow.java:249-272 | The builder produces `Statements.DeleteStatement`: SQL `DELETE FROM t WHERE pk = ?` binding the converted primary key. |
| JdbcRows.ChangeReachesUpdate | src/main/java/de/yanwittmann/gallery/db/dao/JdbcRow.java:79-80 | Suppose a field was changed to a permitted value and marked dirty by column name. Then the next update sets that column to the new value. |
| JdbcTables.ResultOf | src/main/java/de/yanwittmann/gallery/db/dao/JdbcTable.java:59-63 | `SELECT *` yields one column per field, labelled with its column name and holding the stored value. |
| JdbcTables.InsertedRecord | src/main/java/de/yanwittmann/gallery/db/dao/JdbcTable.java:120-122 | A listed column takes its bound value; an unlisted one is null. |
| JdbcTables.UpdatedRecord | src/main/java/de/yanwittmann/gallery/db/dao/JdbcTable.java:134-139 | A listed SET column takes its bound value; every other column keeps its value. |
| JdbcTables.ExecDelete | src/main/java/de/yanwittmann/gallery/db/dao/JdbcTable.java:151-152 | The record keyed by the bound key goes. Every other record stays unchanged. |
| JdbcTables.SortedKeys | src/main/java/de/yanwittmann/gallery/db/dao/JdbcTable.java:75 | The keys, each once, strictly ascending. |
| JdbcTables.InKeyOrder | src/main/java/de/yanwittmann/gallery/db/dao/JdbcTable.java:75 | `SELECT * … ORDER BY pk` yields one result row per record. |
| JdbcTables.KeysInOrder | src/main/java/de/yanwittmann/gallery/db/dao/JdbcTable.java:75 | Stands for the database's `ORDER BY` on the key, which has no loop in the source: taking the least remaining key each time computes the ascending key sequence. |
| JdbcTables.ResultsOf | src/main/java/de/yanwittmann/gallery/db/dao/JdbcTable.java:86-88 | The result rows of the given keys, in that order. |
| JdbcTables.Table.constructor | src/main/java/de/yanwittmann/gallery/db/dao/JdbcTable.java:31-33 | A new table is empty and its names agree with its row class. |
| JdbcTables.Table.CreateSchema | src/main/java/de/yanwittmann/gallery/db/dao/JdbcTable.java:35-41 | Applying the schema leaves the contents as they were. |
| JdbcTables.Table.DestroySchema | src/main/java/de/yanwittmann/gallery/db/dao/JdbcTable.java:43-52 | Dropping the table leaves it empty and unapplied. |
| JdbcTables.Table.CreateFromResultSet | src/main/java/de/yanwittmann/gallery/db/dao/JdbcTable.java:107-113 | One fresh, clean, hydrated row per result row, in result order. |
| JdbcTables.Table.GetByPrimaryKey | src/main/java/de/yanwittmann/gallery/db/dao/JdbcTable.java:54-72 | A row exactly when the key is stored, hydrated from that record. The table is unchanged and the schema applied. |
| JdbcTables.Table.GetAll | src/main/java/de/yanwittmann/gallery/db/dao/JdbcTable.java:74-76 | One clean row per record, in ascending key order. |
| JdbcTables.Table.GetByPreparedStatement | src/main/java/de/yanwittmann/gallery/db/dao/JdbcTable.java:94-105 | One clean row per row of the caller's query, in its order. The table is unchanged. |
| JdbcTables.Table.Insert | src/main/java/de/yanwittmann/gallery/db/dao/JdbcTable.java:115-127 | An insert that cannot be built (no column written) or that the store rejects is an error and changes nothing. A successful one stores the record and returns it hydrated as stored. |
| JdbcTables.Table.Update | src/main/java/de/yanwittmann/gallery/db/dao/JdbcTable.java:129-144 | A clean row executes nothing. A row whose update cannot be built is an error, among them a dirty row with nothing to write. Otherwise the update is executed, or is an error with the table unchanged. |
| JdbcTables.Table.Delete | src/main/java/de/yanwittmann/gallery/db/dao/JdbcTable.java:146-157 | Removes the record keyed by the row's primary key and leaves the others untouched. Without a key it is an error. |
| JdbcTables.ExecInsertValid | src/main/java/de/yanwittmann/gallery/db/dao/JdbcTable.java:115-127 | An executed insert keeps every record well-formed and keyed by its own primary-key value. |
| JdbcTables.ExecUpdateValid | src/main/java/de/yanwittmann/gallery/db/dao/JdbcTable.java:129-144 | An executed update keeps every record well-formed and keyed by its own primary-key value. |
| JdbcTables.InsertAddsOne | src/main/java/de/yanwittmann/gallery/db/dao/JdbcTable.java:120-122 | A successful insert adds exactly one record, under a key that was free, and keeps every other record. |
| JdbcTables.UpdateTouchesOnlyKey | src/main/java/de/yanwittmann/gallery/db/dao/JdbcTable.java:134-139 | An update changes at most the record with the bound key. |
| JdbcTables.GetObjectOfResult | src/main/java/de/yanwittmann/gallery/db/dao/JdbcTable.java:59-63 | With distinct column names, reading a column of a stored record's result gives that column's value. |
| JdbcTables.InsertColumnPosition | src/main/java/de/yanwittmann/gallery/db/dao/JdbcTable.java:120-122 | A written field's column appears in the insert once, bound to its converted value. |
| JdbcTables.InsertSkipsColumn | src/main/java/de/yanwittmann/gallery/db/dao/JdbcTable.java:120-122 | An unwritten field's column does not appear in the insert. |
| JdbcTables.StorageRoundTrip | src/main/java/de/yanwittmann/gallery/db/dao/JdbcTable.java:120-122 | A value its column's converters carry through storage comes back unchanged, and null reads as null. |
| JdbcTables.InsertedRecordReadsBack | src/main/java/de/yanwittmann/gallery/db/dao/JdbcTable.java:120-122 | Hydrating an inserted record gives back each written field that survives storage and fits its field's type. A field left out reads back null. |
| JdbcTables.InsertReadsBack | src/main/java/de/yanwittmann/gallery/db/dao/JdbcTable.java:120-122 | When the insert is built and accepted, the row `insert` returns holds each written field that survives storage and fits its field's type, as inserted. |
| JdbcTables.HydratedIdentity | src/main/java/de/yanwittmann/gallery/db/dao/JdbcRow.java:32-35 | A stored column read through the identity converter lands in its field when the field's type admits it, and leaves the field null otherwise. |
| MediaRows.MediaEntityShape | src/main/java/de/yanwittmann/gallery/media/db/MediaRow.java:14-25 | The columns are `id`, `file`, `last_edited`, `base_path_hash`. All are not null and included in inserts, named like their fields, and distinct. `id` is the sole primary key. |
| MediaRows.MediaUpdateAsWrittenAgrees | src/main/java/de/yanwittmann/gallery/media/db/MediaRow.java:39-53 | For `MediaRow`, field names equal column names, so the update as written is the corrected update. |
| MediaRows.CompleteInsert | src/main/java/de/yanwittmann/gallery/media/db/MediaRow.java:14-25 | A fully set row has an insert: all four columns in declaration order, binding its values as they are. |
| MediaRows.EmptyInsert | src/main/java/de/yanwittmann/gallery/media/db/MediaRow.java:31-32 | A row whose fields were never set writes no column. Its formatted text is `INSERT INTO media () VALUES () RETURNING *`, so building its insert is the empty-column-list error. |
| MediaRows.ChangeFileUpdate | src/main/java/de/yanwittmann/gallery/media/db/MediaRow.java:43-45 | After `setFile` on a clean, full row, the update is `UPDATE media SET file = ? WHERE id = ?` with parameters (new file, id). |
| MediaRows.CompleteSurvivesStorage | src/main/java/de/yanwittmann/gallery/media/db/MediaRow.java:14-25 | Every column of a full media row survives storage, `last_edited` through `TIMESTAMP` included, and every value fits its field's declared type. |
| MediaRows.SetId | src/main/java/de/yanwittmann/gallery/media/db/MediaRow.java:39-41 | A null id or the current id changes nothing. Another id is stored and `id` turns dirty. |
| MediaRows.SetFile | src/main/java/de/yanwittmann/gallery/media/db/MediaRow.java:43-45 | A null path or the current path changes nothing. Another path is stored and `file` turns dirty. |
| MediaRows.SetLastEdited | src/main/java/de/yanwittmann/gallery/media/db/MediaRow.java:47-49 | A null time or the current time changes nothing. Another time is stored and `last_edited` turns dirty. |
| MediaRows.SetBasePathHash | src/main/java/de/yanwittmann/gallery/media/db/MediaRow.java:51-53 | A null hash or the current hash changes nothing. Another hash is stored and `base_path_hash` turns dirty. |
| MediaTables.NewMediaTable | src/main/java/de/yanwittmann/gallery/media/db/MediaTable.java:15-27 | The table is `media`, keyed by `id`, with schema `db/schema/media.sql`, agreeing with `MediaRow`. |
| MediaTables.CreateInstance | src/main/java/de/yanwittmann/gallery/media/db/MediaTable.java:10-12 | A clean `MediaRow` hydrated from the result row. |
| MediaTables.CompleteInsertedRecord | src/main/java/de/yanwittmann/gallery/media/db/MediaTable.java:10-12 | The record stored by the insert of all four columns is the row's own values. |
| MediaTables.CompleteRecordExec | src/main/java/de/yanwittmann/gallery/media/db/MediaTable.java:25-27 | Executing the insert of all four columns of a full row succeeds exactly when its id is free, storing the row under its id. Otherwise the unique constraint fails. |
| MediaTables.CompleteInsertOutcome | src/main/java/de/yanwittmann/gallery/media/db/MediaTable.java:25-27 | A full row's insert is always built. Executing it succeeds exactly when its id is free, storing the row under its id. Otherwise the unique constraint fails. |
| MediaTables.CompleteInsertReadsBack | src/main/java/de/yanwittmann/gallery/media/db/MediaTable.java:10-12 | The row returned by inserting a full row reads back as the row inserted. |
| ConfigConverters.StringListFromJsonArray | src/main/java/de/yanwittmann/gallery/media/config/ConfigConverters.java:26-33 | The index loop computes the JSON-array branch: each element's string form, in order, for string, null, boolean and integer elements. |
| ConfigConverters.ListToJsonArray | src/main/java/de/yanwittmann/gallery/media/config/ConfigConverters.java:39-50 | The for-each loop computes the list converter. A non-collection gives an empty array. |
| ConfigConverters.StringListFromList | src/main/java/de/yanwittmann/gallery/media/config/ConfigConverters.java:20-25 | An empty list reads as a new empty list. A list starting with a string reads as itself. A list starting with anything else reads as empty. |
| ConfigConverters.StringListFromJson | src/main/java/de/yanwittmann/gallery/media/config/ConfigConverters.java:26-33 | A JSON array reads as a string list of the same length, and string elements come back as themselves. |
| ConfigConverters.StringListFromOther | src/main/java/de/yanwittmann/gallery/media/config/ConfigConverters.java:36 | Anything other than a list or a JSON array reads as the empty list. |
| ConfigConverters.StringListRoundTrip | src/main/java/de/yanwittmann/gallery/media/config/ConfigConverters.java:26-47 | Writing a list of strings and reading it back gives the same list. |
| ConfigFields.FieldTable | src/main/java/de/yanwittmann/gallery/media/config/ConfigField.java:6-7 | The keys, defaults and converter pairs of `IMAGE_DIRECTORIES` and `INDEX_ON_STARTUP`. |
| ConfigFields.FieldsAndKeysDistinct | src/main/java/de/yanwittmann/gallery/media/config/ConfigField.java:6-7 | `values()` lists every field once, and no two fields share a key. |
| ConfigFields.DefaultsRoundTrip | src/main/java/de/yanwittmann/gallery/media/config/ConfigField.java:15-20 | Each default survives its own converters. |
| MediaServiceConfigurations.GetFrom | src/main/java/de/yanwittmann/gallery/media/config/MediaServiceConfiguration.java:48-54 | The stored value if present, otherwise the field's default. |
| MediaServiceConfigurations.SerialiseOver | src/main/java/de/yanwittmann/gallery/media/config/MediaServiceConfiguration.java:71-74 | After visiting some fields, a key is present exactly for a visited, stored field whose converted value is not null. It holds that converted value. |
| MediaServiceConfigurations.Serialise | src/main/java/de/yanwittmann/gallery/media/config/MediaServiceConfiguration.java:71-74 | The saved object holds each stored entry under its key, through its to-config converter. An entry that converts to null is dropped. |
| MediaServiceConfigurations.Loaded | src/main/java/de/yanwittmann/gallery/media/config/MediaServiceConfiguration.java:97-103 | After loading an existing file, every field is set: to its converted file value when its key is present, else to its default. |
| MediaServiceConfigurations.StringListOf | src/main/java/de/yanwittmann/gallery/media/config/MediaServiceConfiguration.java:48-54 | A stored value reads as a string list exactly when it is a list of strings, element by element. |
| MediaServiceConfigurations.StringsValue | src/main/java/de/yanwittmann/gallery/media/MediaService.java:108 | A list of strings stored as a value is a list of strings of the same length. |
| MediaServiceConfigurations.StringListOfRoundTrip | src/main/java/de/yanwittmann/gallery/media/MediaService.java:108 | Storing a string list and reading it back gives the list; a readable stored value is such a list. |
| MediaServiceConfigurations.GetAfterSet | src/main/java/de/yanwittmann/gallery/media/config/MediaServiceConfiguration.java:31-33 | After `set(f, v)`, `get(f)` is `v` and every other field reads as before. |
| MediaServiceConfigurations.GetAfterReset | src/main/java/de/yanwittmann/gallery/media/config/MediaServiceConfiguration.java:36-39 | After `reset(f)`, `get(f)` is the default and every other field reads as before. |
| MediaServiceConfigurations.SaveThenLoad | src/main/java/de/yanwittmann/gallery/media/config/MediaServiceConfiguration.java:70-103 | Saving and then loading gives every field the value it had, defaults included, when each list field holds a list of strings and the boolean field a `Boolean`, a `String` or a 32-bit `Integer`. |
| MediaServiceConfigurations.Configuration.constructor | src/main/java/de/yanwittmann/gallery/media/config/MediaServiceConfiguration.java:27-29 | A new configuration is empty, with no save pending. |
| MediaServiceConfigurations.Configuration.SaveToFile | src/main/java/de/yanwittmann/gallery/media/config/MediaServiceConfiguration.java:56-68 | The pending save is cancelled and a new one scheduled, so exactly one save is pending. The values are unchanged. |
| MediaServiceConfigurations.Configuration.Set | src/main/java/de/yanwittmann/gallery/media/config/MediaServiceConfiguration.java:31-34 | `get(f)` becomes `v`, other fields are unchanged, and one save is pending. |
| MediaServiceConfigurations.Configuration.Reset | src/main/java/de/yanwittmann/gallery/media/config/MediaServiceConfiguration.java:36-39 | `get(f)` becomes the default, other fields are unchanged, and one save is pending. |
| MediaServiceConfigurations.Configuration.ResetAll | src/main/java/de/yanwittmann/gallery/media/config/MediaServiceConfiguration.java:41-46 | Every field reads as its default, the map is empty, and one save is pending. |
| MediaServiceConfigurations.Configuration.SaveToFileNow | src/main/java/de/yanwittmann/gallery/media/config/MediaServiceConfiguration.java:70-76 | The entry loop builds the serialised object. |
| MediaServiceConfigurations.FromConfigFile | src/main/java/de/yanwittmann/gallery/media/config/MediaServiceConfiguration.java:85-110 | A missing file gives an empty configuration with one save pending. An existing file gives the loaded values with no save pending. |
| FileWalkerUtils.NormalizeExtension | src/main/java/de/yanwittmann/gallery/util/FileWalkerUtils.java:54-56 | The result starts with a dot. It is the input when that already starts with one, and a dot prepended otherwise. |
| FileWalkerUtils.FileName | src/main/java/de/yanwittmann/gallery/util/FileWalkerUtils.java:59 | The final name component holds no `/` and ends the path. |
| FileWalkerUtils.ExtensionMatchesSpec | src/main/java/de/yanwittmann/gallery/util/FileWalkerUtils.java:58-61 | A name matches exactly when it ends with some normalised extension. |
| FileWalkerUtils.NormalizeIdempotent | src/main/java/de/yanwittmann/gallery/util/FileWalkerUtils.java:54-56 | Normalising twice is normalising once. `jpg` and `.jpg` filter alike. |
| FileWalkerUtils.EmptyMatchesNothing | src/main/java/de/yanwittmann/gallery/util/FileWalkerUtils.java:60 | An empty extension list matches nothing. |
| FileWalkerUtils.MatchesJpg | src/main/java/de/yanwittmann/gallery/util/FileWalkerUtils.java:58-61 | `x.jpg` matches the media extensions. |
| FileWalkerUtils.CaseSensitive | src/main/java/de/yanwittmann/gallery/util/FileWalkerUtils.java:60 | `x.JPG` does not match `jpg`. |
| FileWalkerUtils.DotRequired | src/main/java/de/yanwittmann/gallery/util/FileWalkerUtils.java:60 | A file named just `jpg` does not match `jpg`. |
| FileWalkerUtils.Walk | src/main/java/de/yanwittmann/gallery/util/FileWalkerUtils.java:26-28 | The walked entries the filter passes: exactly the entries whose name matches, and no more of them than were walked. |
| MediaServices.HashOf | src/main/java/de/yanwittmann/gallery/media/MediaService.java:177-187 | The hash is a Java `long`. |
| MediaServices.Hash | src/main/java/de/yanwittmann/gallery/media/MediaService.java:177-187 | The character loop computes the hash. |
| MediaServices.HashEmpty | src/main/java/de/yanwittmann/gallery/media/MediaService.java:180 | The hash of the empty string is 1125899906842597. |
| MediaServices.HashAppend | src/main/java/de/yanwittmann/gallery/media/MediaService.java:183-185 | `hash(s + c) = 31 · hash(s) + c`, wrapped to 64 bits. |
| MediaServices.WrapLongCongruent | src/main/java/de/yanwittmann/gallery/media/MediaService.java:184 | Values congruent modulo 2^64 wrap to the same `long`. |
| MediaServices.WrapLongStep | src/main/java/de/yanwittmann/gallery/media/MediaService.java:184 | Wrapping before `31 · h + c` gives the same `long` as wrapping after. |
| MediaServices.HashClosedForm | src/main/java/de/yanwittmann/gallery/media/MediaService.java:180-186 | The hash is `seed · 31^n + Σ s[i] · 31^(n−1−i)`, wrapped to 64 bits. |
| MediaServices.HashConcat | src/main/java/de/yanwittmann/gallery/media/MediaService.java:183-185 | The hash of `s + t` continues the hash of `s` over `t`. |
| MediaServices.HashCollision | src/main/java/de/yanwittmann/gallery/media/MediaService.java:173-175 | Ids are not unique per path: `…Aa…` and `…BB…` hash alike whatever surrounds them. |
| MediaServices.SortColumns | src/main/java/de/yanwittmann/gallery/media/MediaService.java:192-202 | `name` sorts by (file, last_edited). Every other value sorts by (last_edited, file). |
| MediaServices.Direction | src/main/java/de/yanwittmann/gallery/media/MediaService.java:204 | `ASC` exactly when ascending, `DESC` exactly otherwise. |
| MediaServices.DisabledHashes | src/main/java/de/yanwittmann/gallery/media/MediaService.java:231-237 | One hash per disabled directory, in list order. |
| MediaServices.Decimals | src/main/java/de/yanwittmann/gallery/media/MediaService.java:245 | Each hash in decimal, in order. |
| MediaServices.VideoClause | src/main/java/de/yanwittmann/gallery/media/MediaService.java:207 | The `.mp4` exclusion is empty exactly when videos are included. |
| MediaServices.BuildWhereClause | src/main/java/de/yanwittmann/gallery/media/MediaService.java:206-219 | The joiner code builds the WHERE part. |
| MediaServices.WhereCases | src/main/java/de/yanwittmann/gallery/media/MediaService.java:209-219 | WHERE appears exactly when a clause is non-empty. One clause stands alone; two are joined by ` AND `. |
| MediaServices.DisabledClauseShape | src/main/java/de/yanwittmann/gallery/media/MediaService.java:239-247 | The clause is empty exactly without disabled directories. Otherwise it is `base_path_hash NOT IN (` + the hashes joined by `, ` + `)`. |
| MediaServices.DisabledClauseCommas | src/main/java/de/yanwittmann/gallery/media/MediaService.java:244-246 | The clause has one comma fewer than disabled directories: one number per directory. |
| MediaServices.PagingWindow | src/main/java/de/yanwittmann/gallery/media/MediaService.java:220-221 | Page p asks for 60 rows from 60·p while that fits an `int`. Page 35791395 overflows to a negative offset. |
| MediaServices.QueryOrdering | src/main/java/de/yanwittmann/gallery/media/MediaService.java:219 | The query ends with both sort keys in the same direction, then `LIMIT ? OFFSET ?`. |
| MediaServices.PageCountIsCeiling | src/main/java/de/yanwittmann/gallery/media/MediaService.java:275-277 | The page count is ⌈total/60⌉: page p exists exactly when 60·p < total. |
| MediaServices.WithoutBase | src/main/java/de/yanwittmann/gallery/media/MediaService.java:80-98 | Exactly the records under other base paths remain, unchanged. |
| MediaServices.MatchingKeys | src/main/java/de/yanwittmann/gallery/media/MediaService.java:84-85 | The listed keys of records under the base hash. |
| MediaServices.MatchingRows | src/main/java/de/yanwittmann/gallery/media/MediaService.java:82-90 | The result of `SELECT * … WHERE base_path_hash = ?`: one result row per matching record. |
| MediaServices.HydratedMediaRecord | src/main/java/de/yanwittmann/gallery/media/MediaService.java:92-94 | A stored media record hydrates back to its id, path and base hash, each where it has its field's type; otherwise that field is null. |
| MediaServices.MatchingRowsIds | src/main/java/de/yanwittmann/gallery/media/MediaService.java:92-94 | The selected rows hydrate to rows whose ids are the matching keys. |
| MediaServices.IndexedOnlyAdds | src/main/java/de/yanwittmann/gallery/media/MediaService.java:154-171 | Indexing keeps every existing record unchanged. Each added record is a walked file's record under its path hash. |
| MediaServices.IndexedAll | src/main/java/de/yanwittmann/gallery/media/MediaService.java:154-171 | Walked files with distinct, free hashes are all indexed. |
| MediaServices.CollisionStopsIndexing | src/main/java/de/yanwittmann/gallery/media/MediaService.java:166-169 | A file whose id collides with an earlier one fails its insert and ends the walk. Only the records before it remain. |
| MediaServices.RescanKeepsOtherBases | src/main/java/de/yanwittmann/gallery/media/MediaService.java:54-78 | A rescan leaves records under other base paths untouched. |
| MediaServices.RescannedUnderBase | src/main/java/de/yanwittmann/gallery/media/MediaService.java:54-78 | After a rescan, every record under the directory comes from a walked media file. |
| MediaServices.WithoutIndexed | src/main/java/de/yanwittmann/gallery/media/MediaService.java:57 | Deleting a base's records after indexing it restores the table as it was before indexing. |
| MediaServices.RescanIdempotent | src/main/java/de/yanwittmann/gallery/media/MediaService.java:54-78 | Rescanning twice over the same listing is rescanning once. |
| MediaServices.AddThenRemove | src/main/java/de/yanwittmann/gallery/media/MediaService.java:100-126 | Adding a new directory and removing it restores the list. A duplicate stays listed after one removal. |
| MediaServices.BuildMediaIdsQuery | src/main/java/de/yanwittmann/gallery/media/MediaService.java:189-221 | The assembly code builds the paging query. |
| MediaServices.IdsOf | src/main/java/de/yanwittmann/gallery/media/MediaService.java:226-228 | The id of each row, in order. |
| MediaServices.MediaService.constructor | src/main/java/de/yanwittmann/gallery/media/MediaService.java:29-32 | The service works on the given configuration and media table. |
| MediaServices.MediaService.DeleteRows | src/main/java/de/yanwittmann/gallery/media/MediaService.java:92-94 | Exactly the selected ids leave the table; the other records are unchanged. |
| MediaServices.MediaService.DeleteMediaWhereBasePath | src/main/java/de/yanwittmann/gallery/media/MediaService.java:80-98 | The table loses exactly the records under the path's hash. |
| MediaServices.MediaService.NewMediaRow | src/main/java/de/yanwittmann/gallery/media/MediaService.java:155-163 | The row filled by the four setters is the full media record. |
| MediaServices.MediaService.ProcessFile | src/main/java/de/yanwittmann/gallery/media/MediaService.java:154-171 | When the path's hash is already an id, the insert fails with the source's message and the table is unchanged. Otherwise the record is stored under that hash. |
| MediaServices.MediaService.IndexFiles | src/main/java/de/yanwittmann/gallery/media/MediaService.java:68-74 | The walker's task processes the media files in walk order and stops at the first failed insert. The table ends as `Indexed` of the old table. |
| MediaServices.MediaService.RescanMedia | src/main/java/de/yanwittmann/gallery/media/MediaService.java:54-78 | The directory's records are dropped. Then, for an existing directory, the walked media files are indexed up to the first failed insert. |
| MediaServices.MediaService.RescanAllMedia | src/main/java/de/yanwittmann/gallery/media/MediaService.java:38-52 | An unreadable directory list skips indexing. Otherwise each listed directory is rescanned in turn. |
| MediaServices.MediaService.AddMedia | src/main/java/de/yanwittmann/gallery/media/MediaService.java:114-126 | The directory is rescanned, then appended to the image directories, duplicates included. An unreadable list is left as is. |
| MediaServices.MediaService.RemoveMedia | src/main/java/de/yanwittmann/gallery/media/MediaService.java:100-112 | The directory's records are dropped, then its first occurrence leaves the image directories. |
| MediaServices.MediaService.DisableMedia | src/main/java/de/yanwittmann/gallery/media/MediaService.java:128-139 | The directory is appended to the disabled directories. The table is untouched. |
| MediaServices.MediaService.EnableMedia | src/main/java/de/yanwittmann/gallery/media/MediaService.java:141-152 | The directory's first occurrence leaves the disabled directories. The table is untouched. |
| MediaServices.MediaService.AddDirectory | src/main/java/de/yanwittmann/gallery/media/MediaService.java:117-122 | A readable list gets the path appended, read back as the new list. An unreadable one leaves the configuration as it is. |
| MediaServices.MediaService.RemoveDirectory | src/main/java/de/yanwittmann/gallery/media/MediaService.java:103-108 | A readable list loses the first occurrence of the path. An unreadable one leaves the configuration as it is. |
| MediaServices.MediaService.GetDisabledMedia | src/main/java/de/yanwittmann/gallery/media/MediaService.java:231-237 | The disabled directories' hashes in order, or a failure when the list is unreadable. |
| MediaServices.MediaService.GetMediaIds | src/main/java/de/yanwittmann/gallery/media/MediaService.java:189-229 | An error exactly when the disabled list is unreadable. Otherwise the ids of the rows the paging query yields, in order. The table is unchanged. |
| MediaServices.MediaService.GetMediaFile | src/main/java/de/yanwittmann/gallery/media/MediaService.java:279-287 | No file exactly when the id is not stored. The stored path when it is a string. Otherwise a NullPointerException, since `getFile` (MediaRow.java:63-65) wraps the null field in `new File(null)`. |
| MainControllers.GetFileExtension | src/main/java/de/yanwittmann/gallery/MainController.java:89-94 | Empty without a dot or with the only dot at index 0. Otherwise the dot-free suffix after the last dot. |
| MainControllers.ExtensionSplit | src/main/java/de/yanwittmann/gallery/MainController.java:91-92 | A name whose last dot is past index 0 is a non-empty stem, that dot and the extension. |
| MainControllers.ExtensionOfComposed | src/main/java/de/yanwittmann/gallery/MainController.java:91-92 | A non-empty stem, a dot and a dot-free extension give back that extension. |
| MainControllers.ExtensionExamples | src/main/java/de/yanwittmann/gallery/MainController.java:91-93 | `.hidden` has no extension, and `photo.tar.jpg` has `jpg`. |
| MainControllers.MediaType | src/main/java/de/yanwittmann/gallery/MainController.java:110 | `unknown` exactly for a missing file. `vid` exactly for a name ending `.mp4` or `.mov`. `img` otherwise. |
| MainControllers.VideoAgreesWithFilter | src/main/java/de/yanwittmann/gallery/MainController.java:110 | A name is a video exactly when the extension filter for `mp4`, `mov` passes it. |
| MainControllers.ThumbnailKeepsExtension | src/main/java/de/yanwittmann/gallery/MainController.java:101 | The thumbnail name `size-hash.ext` has the original file's extension as its own extension. |
| MainControllers.ThumbnailSizesDiffer | src/main/java/de/yanwittmann/gallery/MainController.java:101 | Different sizes give different thumbnail names for the same file. |

## Left out

- Connections, prepared statements, result-set cursors and SQL execution are not modelled. The database is a map from primary key to record. Statements are executed by `ExecInsert`/`ExecUpdate`/`ExecDelete`, which enforce the not-null and primary-key constraints. The SQL text is a function of the statement.
- Schema scripts are not executed. `createSchema` sets a ghost flag; `destroySchema` empties the store.
- Reflection is not modelled: the declared fields are an ordered sequence. `HashMap` iteration order is unspecified in the source and is taken to be declaration order.
- Result-set column labels match exactly. The driver's case-insensitive label lookup is not modelled.
- `Timestamp.valueOf` string parsing depends on the local time zone. It is a parameter, a partial function from text to epoch milliseconds.
- JdbcRows.Row.ChangeField: the exception logging is not modelled; the result and state are. `JavaEquals` compares `byte[]`, `JSONArray` and objects of other classes by content, where their `equals` is reference identity, which the model does not have. The nanoseconds of a `Timestamp` are not modelled. Fields of primitive type are not modelled: every declared field type is a reference type.
- MediaServiceConfigurations.Serialise: the model has one `Null` for both Java's null and `JSONObject.NULL`. `put` drops only Java's null, so a JSON null loaded from the file is written back by the source but dropped by the model.
- ByteDataHex.HexDigit: the decimal digits of scripts other than ASCII and the fullwidth forms (for example U+0663), which `Character.digit` also accepts, read as -1 here.
- ConfigConverters.StringListFromJsonArray: an element that is a nested array or object, or a floating-point number, reads as the empty string, where `optString` gives its `toString` (for an array, its JSON text). The converter's JSON-array branch, `StringListFrom`, does the same.
- The getters of `MediaRow`, `ConfigField` and `ByteData`, and `ByteData.setData`, are plain field reads and writes. They appear as field accesses.
- ByteDataHex.ToByteArray: odd-length text is an error. The code reads past the end and throws there, and the model follows the code. The model does not say that odd-length text decodes.
- Timer execution and file writes are not modelled. A save is scheduled and cancelled as ghost state; `saveToFileNow` returns the JSON object it would write. JSON text parsing is left out: a loaded file is its parsed object.
- `getStringList` and `DISABLED_IMAGE_DIRECTORIES` are referenced but not defined in the source. A string list is read as the stored value when it is a list of strings, and as a failure otherwise. The field uses the key `disabled_image_directories` and the list converters.
- `File.getAbsolutePath` normalisation is not modelled: directory and file paths are taken as absolute strings, and `/` separates name components.
- `walkFileTreeMultiThreaded`'s thread pool, polling and `SKIP_SUBTREE` are not modelled. The root directory is walked by a single task, and the walk is given as a `Listing`: entries in walk order, directories included, with modification times. Processing stops at the first failed insert. That failure ends the task; it is not reported to the caller.
- MediaServices.MediaService.GetMediaIds: the database's evaluation of the paging query is a parameter `eval` from the query and the store to result rows. The model does not say which rows a query selects.
- `getTotalCount`'s `COUNT(*)` query is not modelled. `PageCount` takes the total as its argument.
- The constructor's startup rescan (`INDEX_ON_STARTUP`) and `constructDefaultInstance` read files and are not modelled. The service is built from a loaded configuration and a table.
- MainControllers.ThumbnailKeepsExtension: `ImageUtil.createThumbnail`, the thumbnails directory and the HTTP handlers are not modelled. Only the name composition is.
- UTF-16 code units are Dafny characters, so characters outside the Basic Multilingual Plane are not modelled as surrogate pairs in the hash.
- The video clause excludes only `.mp4`, while `MediaType` also counts `.mov` as a video. The model keeps both as written.
- FileWalkerUtils.Walk: a lemma that walking a concatenation filters each part is not proved.

## Findings

| source | as written | input that shows it | evidently intended | confidence | as-written member | corrected member |
|---|---|---|---|---|---|---|
| src/main/java/de/yanwittmann/gallery/db/dao/JdbcRow.java:221 | `updateStatement` looks a field up in the dirty set by its Java field name. `changeField` (line 80) records the column name. | A field `lastEdited` on column `last_edited`, changed through `changeField("last_edited", …)`. The update as written is `UPDATE t SET  WHERE id = ?`, which fails to prepare, so `update` throws and the change is never stored. | Look the field up by its column name, so the changed column is set. | not executed | `Statements.UpdateAsWrittenMissesRenamedField` | `Statements.UpdateShape` |
