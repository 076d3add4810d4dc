/** `ConfigConverters`: how a configuration value is written to and read
    from the JSON configuration file. */
module ConfigConverters {

  import opened JavaValues
  import opened JavaStrings

  /** The to-config converters. */
  datatype ToConfigConverter = ListToConfig | IdentityToConfig

  /** The from-config converters. */
  datatype FromConfigConverter = StringListFromConfig | IdentityFromConfig

  /** `JSONArray.optString(i)` on an element of a parsed array: a string as
      is, JSON null as the empty default, a boolean or integer in its usual
      text form. Any other element's `toString` (the JSON text of a nested
      array or object, a floating-point number) is not modelled and reads as
      the empty string. */
  function OptString(v: Value): string
  {
    match v
    case Str(s) => s
    case Null => ""
    case Bool(b) => if b then "true" else "false"
    case Int(i) => Decimal(i)
    case Long(n) => Decimal(n)
    case _ => ""
  }

  /** `STRING_LIST_FROM_CONFIG_CONVERTER`. A list whose first element is a
      string is passed through unchanged; a JSON array becomes the list of
      its elements' string forms; anything else, an empty list or a list
      starting with a non-string included, becomes a new empty list. */
  function StringListFrom(value: Value): Value
  {
    match value
    case List(items) =>
      if |items| == 0 then List([])
      else if items[0].Str? then value
      else List([])
    case JsonArray(items) => List(seq(|items|, i requires 0 <= i < |items| => Str(OptString(items[i]))))
    case _ => List([])
  }

  /** `LIST_TO_CONFIG_CONVERTER`: a collection becomes a JSON array of the
      same elements in iteration order; anything else an empty array. */
  function ListToConfig(value: Value): Value
  {
    if value.List? then JsonArray(value.items) else JsonArray([])
  }

  function ToConfig(c: ToConfigConverter, value: Value): Value
  {
    match c
    case ListToConfig => ListToConfig(value)
    case IdentityToConfig => value
  }

  function FromConfig(c: FromConfigConverter, value: Value): Value
  {
    match c
    case StringListFromConfig => StringListFrom(value)
    case IdentityFromConfig => value
  }

  /** The JSON array branch's loop: `optString` of each index, in order. */
  method StringListFromJsonArray(items: seq<Value>) returns (list: seq<Value>)
    ensures List(list) == StringListFrom(JsonArray(items))
  {
    list := [];
    var i := 0;
    while i < |items|
      invariant 0 <= i <= |items| && |list| == i
      invariant forall j :: 0 <= j < i ==> list[j] == Str(OptString(items[j]))
    {
      var str := OptString(items[i]);
      list := list + [Str(str)];
      i := i + 1;
    }
  }

  /** `LIST_TO_CONFIG_CONVERTER`'s loop: `put` each element in turn. */
  method ListToJsonArray(value: Value) returns (r: Value)
    ensures r == ListToConfig(value)
  {
    if !value.List? {
      return JsonArray([]);
    }
    var arr: seq<Value> := [];
    var i := 0;
    while i < |value.items|
      invariant 0 <= i <= |value.items|
      invariant arr == value.items[..i]
    {
      arr := arr + [value.items[i]];
      i := i + 1;
    }
    assert value.items[..i] == value.items;
    r := JsonArray(arr);
  }

  /** Every element is a string. */
  predicate AllStrings(items: seq<Value>)
  {
    forall i :: 0 <= i < |items| ==> items[i].Str?
  }

  /** The list branches: an empty list or one starting with a non-string
      reads as a new empty list, a list starting with a string as itself. */
  lemma StringListFromList(items: seq<Value>)
    ensures |items| == 0 ==> StringListFrom(List(items)) == List([])
    ensures |items| > 0 && items[0].Str? ==> StringListFrom(List(items)) == List(items)
    ensures |items| > 0 && !items[0].Str? ==> StringListFrom(List(items)) == List([])
  {
  }

  /** A JSON array reads as a list of strings of the same length, element by
      element; strings come back as themselves. */
  lemma StringListFromJson(items: seq<Value>)
    ensures StringListFrom(JsonArray(items)).List?
    ensures |StringListFrom(JsonArray(items)).items| == |items|
    ensures AllStrings(StringListFrom(JsonArray(items)).items)
    ensures forall i :: 0 <= i < |items| && items[i].Str? ==>
              StringListFrom(JsonArray(items)).items[i] == items[i]
  {
  }

  /** Any value other than a list or a JSON array reads as the empty list. */
  lemma StringListFromOther(value: Value)
    requires !value.List? && !value.JsonArray?
    ensures StringListFrom(value) == List([])
  {
  }

  /** Writing a list of strings and reading it back gives the same list. */
  lemma {:induction false} StringListRoundTrip(items: seq<Value>)
    requires AllStrings(items)
    ensures StringListFrom(ListToConfig(List(items))) == List(items)
  {
    var back := StringListFrom(JsonArray(items)).items;
    assert |back| == |items|;
    forall i | 0 <= i < |items|
      ensures back[i] == items[i]
    {
      assert items[i].Str?;
    }
  }
}
