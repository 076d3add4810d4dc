/** The field-descriptor table: the `@Column` annotation and the ordered list
    of annotated fields that stands in for a row class. */
module Columns {

  import opened Wrappers
  import opened JavaValues
  import opened DatabaseToFieldMappers
  import opened FieldToDatabaseMappers

  /** The `@Column` annotation. Only `name` is required; the converters
      default to identity, a column is included in inserts and may be null. */
  datatype Column = Column(
    name: string,
    resultSetToField: DatabaseToFieldMapper := FromIdentity,
    fieldToResultSet: FieldToDatabaseMapper := ToIdentity,
    includeInInsert: bool := true,
    notNull: bool := false)

  /** A declared field of a row class that carries `@Column`: its Java field
      name, its annotation, whether it also carries `@PrimaryKey`, and its
      declared type. */
  datatype Field = Field(fieldName: string, column: Column, primaryKey: bool := false,
                         fieldType: JavaType := ObjectType)

  /** A row class: the table it maps to and its annotated fields, in the
      order the class declares them. */
  datatype Entity = Entity(table: string, fields: seq<Field>)

  /** The annotation defaults. */
  lemma ColumnDefaults(name: string)
    ensures Column(name).name == name
    ensures Column(name).resultSetToField == FromIdentity
    ensures Column(name).fieldToResultSet == ToIdentity
    ensures Column(name).includeInInsert && !Column(name).notNull
  {
  }

  /** `getFieldWithColumnName`: the first field whose column has this name. */
  function ColumnIndex(fields: seq<Field>, name: string): (r: Option<nat>)
    ensures r.Some? ==> r.value < |fields| && fields[r.value].column.name == name
    ensures r.Some? ==> forall j :: 0 <= j < r.value ==> fields[j].column.name != name
    ensures r.None? ==> forall j :: 0 <= j < |fields| ==> fields[j].column.name != name
  {
    if fields == [] then None
    else if fields[0].column.name == name then Some(0)
    else match ColumnIndex(fields[1..], name)
      case None => None
      case Some(i) => Some(i + 1)
  }

  /** `getPrimaryKeyField`: the first field carrying `@PrimaryKey`. */
  function PrimaryKeyIndex(fields: seq<Field>): (r: Option<nat>)
    ensures r.Some? ==> r.value < |fields| && fields[r.value].primaryKey
    ensures r.Some? ==> forall j :: 0 <= j < r.value ==> !fields[j].primaryKey
    ensures r.None? ==> forall j :: 0 <= j < |fields| ==> !fields[j].primaryKey
  {
    if fields == [] then None
    else if fields[0].primaryKey then Some(0)
    else match PrimaryKeyIndex(fields[1..])
      case None => None
      case Some(i) => Some(i + 1)
  }

  /** The column names in declaration order. */
  function ColumnNames(fields: seq<Field>): (r: seq<string>)
    ensures |r| == |fields|
    ensures forall i :: 0 <= i < |fields| ==> r[i] == fields[i].column.name
  {
    seq(|fields|, i requires 0 <= i < |fields| => fields[i].column.name)
  }
}
