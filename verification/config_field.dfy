/** `ConfigField`: the table of configuration entries, each with its JSON
    key, default value and converter pair. */
module ConfigFields {

  import opened JavaValues
  import opened ConfigConverters

  /** The enum constants. `DisabledImageDirectories` is referenced by the
      service but not declared in the enum; it is taken to be a string list
      shaped like `ImageDirectories`. */
  datatype ConfigField = ImageDirectories | IndexOnStartup | DisabledImageDirectories

  /** `ConfigField.values()`, in declaration order. */
  const ALL_FIELDS: seq<ConfigField> := [ImageDirectories, IndexOnStartup, DisabledImageDirectories]

  function Key(f: ConfigField): string
  {
    match f
    case ImageDirectories => "image_directories"
    case IndexOnStartup => "index_on_startup"
    case DisabledImageDirectories => "disabled_image_directories"
  }

  function DefaultValue(f: ConfigField): Value
  {
    match f
    case ImageDirectories => List([])
    case IndexOnStartup => Bool(true)
    case DisabledImageDirectories => List([])
  }

  function ToConverter(f: ConfigField): ToConfigConverter
  {
    match f
    case ImageDirectories => ListToConfig
    case IndexOnStartup => IdentityToConfig
    case DisabledImageDirectories => ListToConfig
  }

  function FromConverter(f: ConfigField): FromConfigConverter
  {
    match f
    case ImageDirectories => StringListFromConfig
    case IndexOnStartup => IdentityFromConfig
    case DisabledImageDirectories => StringListFromConfig
  }

  /** The declared entries, as the enum constructor calls give them. */
  lemma FieldTable()
    ensures Key(ImageDirectories) == "image_directories" && DefaultValue(ImageDirectories) == List([])
    ensures ToConverter(ImageDirectories) == ListToConfig && FromConverter(ImageDirectories) == StringListFromConfig
    ensures Key(IndexOnStartup) == "index_on_startup" && DefaultValue(IndexOnStartup) == Bool(true)
    ensures ToConverter(IndexOnStartup) == IdentityToConfig && FromConverter(IndexOnStartup) == IdentityFromConfig
  {
  }

  /** `values()` lists every constant exactly once, and no two constants
      share a key, so a key names one field. */
  lemma FieldsAndKeysDistinct()
    ensures forall f :: f in ALL_FIELDS
    ensures forall i, j :: 0 <= i < j < |ALL_FIELDS| ==> ALL_FIELDS[i] != ALL_FIELDS[j]
    ensures forall f, g :: Key(f) == Key(g) ==> f == g
  {
    forall f
      ensures f in ALL_FIELDS
    {
      match f
      case ImageDirectories => assert ALL_FIELDS[0] == f;
      case IndexOnStartup => assert ALL_FIELDS[1] == f;
      case DisabledImageDirectories => assert ALL_FIELDS[2] == f;
    }
  }

  /** Each default value is one its own converters write and read back
      unchanged. */
  lemma DefaultsRoundTrip(f: ConfigField)
    ensures FromConfig(FromConverter(f), ToConfig(ToConverter(f), DefaultValue(f))) == DefaultValue(f)
  {
  }
}
