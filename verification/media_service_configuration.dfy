/** `MediaServiceConfiguration`: the field-to-value map with defaults, its
    debounced saving and its loading from a JSON file. */
module MediaServiceConfigurations {

  import opened Wrappers
  import opened JavaValues
  import opened ConfigConverters
  import opened ConfigFields

  /** A parsed `JSONObject`: values by key, in no order. */
  type JsonObject = map<string, Value>

  /** `get(field)` over a map of stored values. */
  function GetFrom(config: map<ConfigField, Value>, f: ConfigField): (r: Value)
    ensures f in config ==> r == config[f]
    ensures f !in config ==> r == DefaultValue(f)
  {
    if f in config then config[f] else DefaultValue(f)
  }

  /** The object `saveToFileNow` writes after visiting `fields` in turn:
      each stored entry under its key, through its to-config converter.
      `JSONObject.put` with a null value adds nothing. */
  function SerialiseOver(config: map<ConfigField, Value>, fields: seq<ConfigField>): (json: JsonObject)
    ensures forall f :: Key(f) in json <==> f in fields && f in config && ToConfig(ToConverter(f), config[f]) != Null
    ensures forall f :: Key(f) in json ==> json[Key(f)] == ToConfig(ToConverter(f), config[f])
  {
    FieldsAndKeysDistinct();
    if fields == [] then map[]
    else
      var prev := SerialiseOver(config, fields[..|fields| - 1]);
      var f := fields[|fields| - 1];
      assert fields == fields[..|fields| - 1] + [f];
      if f in config && ToConfig(ToConverter(f), config[f]) != Null
      then prev[Key(f) := ToConfig(ToConverter(f), config[f])]
      else prev
  }

  /** Visiting one more field adds its converted entry, if it has one. */
  lemma SerialiseStep(config: map<ConfigField, Value>, i: nat)
    requires i < |ALL_FIELDS|
    ensures var f := ALL_FIELDS[i];
            SerialiseOver(config, ALL_FIELDS[..i + 1])
            == if f in config && ToConfig(ToConverter(f), config[f]) != Null
               then SerialiseOver(config, ALL_FIELDS[..i])[Key(f) := ToConfig(ToConverter(f), config[f])]
               else SerialiseOver(config, ALL_FIELDS[..i])
  {
    assert ALL_FIELDS[..i + 1][..i] == ALL_FIELDS[..i];
  }

  /** The whole file `saveToFileNow` writes. A `Null` value is dropped:
      the model does not tell Java's null from `JSONObject.NULL`. */
  function Serialise(config: map<ConfigField, Value>): (json: JsonObject)
    ensures forall f :: Key(f) in json <==> f in config && ToConfig(ToConverter(f), config[f]) != Null
    ensures forall f :: Key(f) in json ==> json[Key(f)] == ToConfig(ToConverter(f), config[f])
  {
    FieldsAndKeysDistinct();
    SerialiseOver(config, ALL_FIELDS)
  }

  /** What loading an existing file stores for a field: the converted value
      under its key if present, otherwise the default. */
  function LoadedValue(json: JsonObject, f: ConfigField): Value
  {
    if Key(f) in json then FromConfig(FromConverter(f), json[Key(f)]) else DefaultValue(f)
  }

  /** The stored values after loading an existing file: every field is set. */
  function Loaded(json: JsonObject): (config: map<ConfigField, Value>)
    ensures forall f :: f in config
    ensures forall f :: config[f] == LoadedValue(json, f)
  {
    FieldsAndKeysDistinct();
    map f: ConfigField | f in ALL_FIELDS :: LoadedValue(json, f)
  }

  /** A stored value its field's converters carry through the file: a list
      field holds a list of strings; the boolean field, whose converters
      pass the value through, holds a value the JSON text writes and parses
      back as the same class, a `Boolean`, a `String` or an `Integer`. */
  predicate Persistable(f: ConfigField, v: Value)
  {
    match f
    case ImageDirectories => v.List? && AllStrings(v.items)
    case DisabledImageDirectories => v.List? && AllStrings(v.items)
    case IndexOnStartup => v.Bool? || v.Str? || (v.Int? && -TWO_32 / 2 <= v.i < TWO_32 / 2)
  }

  /** The list of strings a stored value holds, for `getStringList`: a
      list whose elements are all strings; anything else is a failure. */
  function StringListOf(v: Value): (r: Option<seq<string>>)
    ensures r.Some? <==> v.List? && AllStrings(v.items)
    ensures r.Some? ==> |r.value| == |v.items|
                        && forall i :: 0 <= i < |v.items| ==> v.items[i] == Str(r.value[i])
  {
    if v.List? && AllStrings(v.items)
    then Some(seq(|v.items|, i requires 0 <= i < |v.items| => v.items[i].s))
    else None
  }

  /** A list of strings as a stored value. */
  function StringsValue(xs: seq<string>): (v: Value)
    ensures v.List? && AllStrings(v.items) && |v.items| == |xs|
  {
    List(seq(|xs|, i requires 0 <= i < |xs| => Str(xs[i])))
  }

  /** Storing a list of strings and reading it back as one gives the same
      list, and a stored list of strings is such a list. */
  lemma StringListOfRoundTrip(xs: seq<string>, v: Value)
    ensures StringListOf(StringsValue(xs)) == Some(xs)
    ensures StringListOf(v).Some? ==> StringsValue(StringListOf(v).value) == v
  {
    assert StringListOf(StringsValue(xs)).value == xs;
    if StringListOf(v).Some? {
      assert StringsValue(StringListOf(v).value).items == v.items;
    }
  }

  /** `set` then `get`: the field reads as the new value, every other field
      as before. */
  lemma GetAfterSet(config: map<ConfigField, Value>, f: ConfigField, v: Value, g: ConfigField)
    ensures GetFrom(config[f := v], g) == (if g == f then v else GetFrom(config, g))
  {
  }

  /** `reset(f)` then `get`: the field reads as its default, every other
      field as before. */
  lemma GetAfterReset(config: map<ConfigField, Value>, f: ConfigField, g: ConfigField)
    ensures GetFrom(config - {f}, g) == (if g == f then DefaultValue(f) else GetFrom(config, g))
  {
  }

  /** Saving and then loading the file gives every field the value it had,
      defaults included, when the stored values are persistable. */
  lemma SaveThenLoad(config: map<ConfigField, Value>)
    requires forall f :: f in config ==> Persistable(f, config[f])
    ensures forall f :: GetFrom(Loaded(Serialise(config)), f) == GetFrom(config, f)
  {
    var json := Serialise(config);
    forall f
      ensures GetFrom(Loaded(json), f) == GetFrom(config, f)
    {
      if f in config {
        if f.ImageDirectories? || f.DisabledImageDirectories? {
          StringListRoundTrip(config[f].items);
        }
      } else {
        DefaultsRoundTrip(f);
      }
    }
  }

  class Configuration {
    /** The stored values; a field without an entry reads as its default. */
    var config: map<ConfigField, Value>
    /** The most recently scheduled save timer, by number. */
    var saveTimer: Option<nat>
    var timersCreated: nat
    /** The scheduled saves not yet cancelled. */
    ghost var pending: set<nat>

    /** At most one save is pending, and it is the current timer. */
    ghost predicate Valid()
      reads this
    {
      && (saveTimer.Some? ==> saveTimer.value < timersCreated)
      && forall t :: t in pending ==> saveTimer == Some(t)
    }

    constructor ()
      ensures Valid() && config == map[] && saveTimer == None && timersCreated == 0 && pending == {}
    {
      config := map[];
      saveTimer := None;
      timersCreated := 0;
      pending := {};
    }

    /** `get(field)`. */
    function Get(f: ConfigField): Value
      reads this
    {
      GetFrom(config, f)
    }

    /** `saveToFile`: cancel the pending save, if any, and schedule a new
      one. */
    method SaveToFile()
      requires Valid()
      modifies this
      ensures Valid() && config == old(config)
      ensures saveTimer == Some(old(timersCreated)) && timersCreated == old(timersCreated) + 1
      ensures pending == {old(timersCreated)}
    {
      if saveTimer.Some? {
        pending := pending - {saveTimer.value};
      }
      saveTimer := Some(timersCreated);
      pending := pending + {timersCreated};
      timersCreated := timersCreated + 1;
    }

    /** `set(field, value)`. */
    method Set(f: ConfigField, v: Value)
      requires Valid()
      modifies this
      ensures Valid() && config == old(config)[f := v]
      ensures Get(f) == v && forall g :: g != f ==> Get(g) == old(Get(g))
      ensures pending == {old(timersCreated)}
    {
      config := config[f := v];
      SaveToFile();
    }

    /** `reset(field)`. */
    method Reset(f: ConfigField)
      requires Valid()
      modifies this
      ensures Valid() && config == old(config) - {f}
      ensures Get(f) == DefaultValue(f) && forall g :: g != f ==> Get(g) == old(Get(g))
      ensures pending == {old(timersCreated)}
    {
      config := config - {f};
      SaveToFile();
    }

    /** `reset()`: remove every field, then save once. */
    method ResetAll()
      requires Valid()
      modifies this
      ensures Valid() && config == map[]
      ensures forall f :: Get(f) == DefaultValue(f)
      ensures pending == {old(timersCreated)}
    {
      var i := 0;
      while i < |ALL_FIELDS|
        invariant 0 <= i <= |ALL_FIELDS|
        invariant forall f :: f in config <==> f in old(config) && f !in ALL_FIELDS[..i]
        invariant Valid() && timersCreated == old(timersCreated) && pending == old(pending)
      {
        config := config - {ALL_FIELDS[i]};
        i := i + 1;
      }
      FieldsAndKeysDistinct();
      assert ALL_FIELDS[..i] == ALL_FIELDS;
      assert forall f :: f !in config;
      assert config == map[];
      SaveToFile();
    }

    /** `saveToFileNow`: build the JSON object entry by entry. */
    method SaveToFileNow() returns (json: JsonObject)
      ensures json == Serialise(config)
    {
      json := map[];
      var i := 0;
      while i < |ALL_FIELDS|
        invariant 0 <= i <= |ALL_FIELDS|
        invariant json == SerialiseOver(config, ALL_FIELDS[..i])
      {
        SerialiseStep(config, i);
        var f := ALL_FIELDS[i];
        if f in config {
          var converted := ToConfig(ToConverter(f), config[f]);
          if converted != Null {
            json := json[Key(f) := converted];
          }
        }
        i := i + 1;
      }
      assert ALL_FIELDS[..i] == ALL_FIELDS;
    }
  }

  /** `fromConfigFile`. A missing file yields an empty configuration with a
      save pending; an existing one has every field set from the file or to
      its default, after which the pending save is cancelled. */
  method FromConfigFile(fileExists: bool, json: JsonObject) returns (c: Configuration)
    ensures fresh(c) && c.Valid()
    ensures !fileExists ==> c.config == map[] && |c.pending| == 1
    ensures fileExists ==> c.config == Loaded(json) && c.pending == {}
  {
    c := new Configuration();
    if !fileExists {
      c.SaveToFile();
      return;
    }
    var i := 0;
    while i < |ALL_FIELDS|
      invariant 0 <= i <= |ALL_FIELDS|
      invariant c.Valid()
      invariant forall f :: f in c.config <==> f in ALL_FIELDS[..i]
      invariant forall f :: f in c.config ==> c.config[f] == LoadedValue(json, f)
      invariant i > 0 ==> c.saveTimer.Some? && c.pending == {c.saveTimer.value}
    {
      assert ALL_FIELDS[..i + 1] == ALL_FIELDS[..i] + [ALL_FIELDS[i]];
      var f := ALL_FIELDS[i];
      if Key(f) in json {
        c.Set(f, FromConfig(FromConverter(f), json[Key(f)]));
      } else {
        c.Set(f, DefaultValue(f));
      }
      i := i + 1;
    }
    assert ALL_FIELDS[..i] == ALL_FIELDS;
    FieldsAndKeysDistinct();
    assert c.config == Loaded(json);
    if c.saveTimer.Some? {
      c.pending := c.pending - {c.saveTimer.value};
    }
  }
}
