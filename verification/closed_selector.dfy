/** The closed-value selector rewrite: an object schema whose one closed property names its variant
    becomes a `oneOf` with one alternative per known value. */
module ClosedSelector {
  import opened Json
  import opened JsonSchema
  import opened Wrappers

  /** The extension member that records a failed rewrite. */
  const FAILURE_KEY := "x-cargo-berth-closed-value-selector-transform-failure"

  datatype Failure =
    | ObjectSchemaUnavailable
    | ObjectTypeRequired
    | ObjectPropertiesUnavailable
    | RequiredPropertiesUnavailable
    | PropertyCardinality(actual: nat)
    | SelectorNotRequired(name: string)
    | NoKnownValues(name: string)
    | NonStringValue(name: string)
    | DuplicateKnownValue(name: string, known: string)

  datatype SelectorValues = Open | Closed(values: seq<Json>)

  function Get(value: Json, name: string): Option<Json> {
    if value.Object? && name in value.members then Some(value.members[name]) else None
  }

  function GetArray(value: Json, name: string): Option<seq<Json>> {
    match Get(value, name)
    case Some(Array(items)) => Some(items)
    case _ => None
  }

  /** The finite set of values a property schema names, when it names one. */
  function SelectorValuesOf(property: Json): SelectorValues {
    match GetArray(property, "enum")
    case Some(values) => Closed(values)
    case None =>
      match GetArray(property, "oneOf")
      case Some(alternatives) =>
        if forall a | a in alternatives :: Get(a, "const").Some?
        then Closed(seq(|alternatives|, i requires 0 <= i < |alternatives| && Get(alternatives[i], "const").Some?
                                          => Get(alternatives[i], "const").value))
        else Open
      case None => Open
  }

  predicate HasEnum(property: Json) {
    property.Object? && "enum" in property.members && property.members["enum"].Array?
  }

  predicate IsConstant(alternative: Json, value: Json) {
    alternative.Object? && "const" in alternative.members && alternative.members["const"] == value
  }

  /** A property schema lists its values by an `enum` array, or else by a `oneOf` array whose every
      alternative holds a `const`, beside whatever other members. */
  predicate Lists(property: Json, values: seq<Json>) {
    if HasEnum(property) then property.members["enum"].items == values
    else
      && property.Object? && "oneOf" in property.members && property.members["oneOf"].Array?
      && |property.members["oneOf"].items| == |values|
      && forall i | 0 <= i < |values| :: IsConstant(property.members["oneOf"].items[i], values[i])
  }

  /** A property is closed exactly when it lists values, and over exactly the values it lists. */
  lemma ClosedExactly(property: Json)
    ensures forall values :: SelectorValuesOf(property) == Closed(values) <==> Lists(property, values)
    ensures SelectorValuesOf(property).Closed? <==>
            || HasEnum(property)
            || (&& property.Object? && "oneOf" in property.members && property.members["oneOf"].Array?
                && forall a | a in property.members["oneOf"].items :: a.Object? && "const" in a.members)
  {
    forall values
      ensures SelectorValuesOf(property) == Closed(values) <==> Lists(property, values)
    {
      if !HasEnum(property) && Lists(property, values) {
        var alternatives := property.members["oneOf"].items;
        assert forall i | 0 <= i < |alternatives| :: Get(alternatives[i], "const") == Some(values[i]);
        assert forall a | a in alternatives :: Get(a, "const").Some?;
        assert SelectorValuesOf(property).values == values;
      }
    }
  }

  function ClosedNames(properties: map<string, Json>): set<string> {
    set name | name in properties && SelectorValuesOf(properties[name]).Closed?
  }

  function SelectorConst(known: string): Json {
    Object(map["type" := String("string"), "const" := String(known)])
  }

  function Alternative(schema: Json, selector: string, known: string): Json
    requires schema.Object? && Get(schema, "properties").Some? && schema.members["properties"].Object?
  {
    var properties := schema.members["properties"].members;
    Object(schema.members["properties" := Object(properties[selector := SelectorConst(known)])])
  }

  predicate Distinct(texts: seq<string>) {
    forall i, j | 0 <= i < j < |texts| :: texts[i] != texts[j]
  }

  function Strings(texts: seq<string>): (values: seq<Json>)
    ensures |values| == |texts|
    ensures forall i | 0 <= i < |texts| :: values[i] == String(texts[i])
  {
    seq(|texts|, i requires 0 <= i < |texts| => String(texts[i]))
  }

  /** What every guard of the rewrite leaves established about an accepted schema. */
  ghost predicate Selects(schema: Json, selector: string, known: seq<string>) {
    && schema.Object?
    && Get(schema, "type") == Some(String("object"))
    && Get(schema, "properties").Some? && schema.members["properties"].Object?
    && ClosedNames(schema.members["properties"].members) == {selector}
    && GetArray(schema, "required").Some? && String(selector) in GetArray(schema, "required").value
    && SelectorValuesOf(schema.members["properties"].members[selector]).values == Strings(known)
    && known != []
    && Distinct(known)
  }

  /** The same in terms of the schema alone. */
  ghost predicate HasSelector(schema: Json, selector: string, known: seq<string>) {
    && schema.Object?
    && "type" in schema.members && schema.members["type"] == String("object")
    && "properties" in schema.members && schema.members["properties"].Object?
    && "required" in schema.members && schema.members["required"].Array?
    && String(selector) in schema.members["required"].items
    && var properties := schema.members["properties"].members;
       && selector in properties && Lists(properties[selector], Strings(known))
       && (forall name, values | name in properties && name != selector :: !Lists(properties[name], values))
       && known != [] && Distinct(known)
  }

  lemma SelectsExactly(schema: Json, selector: string, known: seq<string>)
    ensures Selects(schema, selector, known) <==> HasSelector(schema, selector, known)
  {
    if schema.Object? && "properties" in schema.members && schema.members["properties"].Object? {
      var properties := schema.members["properties"].members;
      forall name | name in properties
        ensures name in ClosedNames(properties) <==> exists values :: Lists(properties[name], values)
      {
        ClosedExactly(properties[name]);
        if name in ClosedNames(properties) {
          assert Lists(properties[name], SelectorValuesOf(properties[name]).values);
        }
      }
      if selector in properties {
        ClosedExactly(properties[selector]);
      }
      if HasSelector(schema, selector, known) {
        assert ClosedNames(properties) == {selector};
      }
      if Selects(schema, selector, known) {
        assert selector in ClosedNames(properties);
      }
    }
  }

  /** A selector documented variant by variant is accepted: its `oneOf` may say anything beside
      each `const`. */
  lemma DescribedConstantsAreAccepted(schema: Json, selector: string, alternatives: seq<Json>, known: seq<string>)
    requires schema.Object? && {"type", "properties", "required"} <= schema.members.Keys
    requires schema.members["type"] == String("object")
    requires schema.members["required"].Array? && String(selector) in schema.members["required"].items
    requires schema.members["properties"].Object? && selector in schema.members["properties"].members
    requires forall name, values | name in schema.members["properties"].members && name != selector ::
               !Lists(schema.members["properties"].members[name], values)
    requires schema.members["properties"].members[selector].Object? && !HasEnum(schema.members["properties"].members[selector])
    requires Get(schema.members["properties"].members[selector], "oneOf") == Some(Array(alternatives))
    requires |alternatives| == |known| > 0 && Distinct(known)
    requires forall i | 0 <= i < |known| :: IsConstant(alternatives[i], String(known[i]))
    ensures Selects(schema, selector, known)
  {
    SelectsExactly(schema, selector, known);
  }

  ghost predicate Accepted(schema: Json) {
    exists selector, known :: Selects(schema, selector, known)
  }

  /** The rewrite is accepted exactly for an object schema with one property that lists values, when
      these are required, strings, some, and distinct. */
  lemma AcceptedExactly(schema: Json)
    ensures Accepted(schema) <==> exists selector, known :: HasSelector(schema, selector, known)
  {
    forall selector, known
      ensures Selects(schema, selector, known) <==> HasSelector(schema, selector, known)
    {
      SelectsExactly(schema, selector, known);
    }
  }

  function OneOf(alternatives: seq<Json>): Json {
    Object(map["oneOf" := Array(alternatives)])
  }

  function Alternatives(schema: Json, selector: string, known: seq<string>): (alternatives: seq<Json>)
    requires schema.Object? && Get(schema, "properties").Some? && schema.members["properties"].Object?
    ensures |alternatives| == |known|
    ensures forall i | 0 <= i < |known| :: alternatives[i] == Alternative(schema, selector, known[i])
  {
    seq(|known|, i requires 0 <= i < |known| => Alternative(schema, selector, known[i]))
  }

  function Transformed(schema: Json, selector: string, known: seq<string>): Json
    requires schema.Object? && Get(schema, "properties").Some? && schema.members["properties"].Object?
  {
    OneOf(Alternatives(schema, selector, known))
  }

  /** The rewrite, guard by guard in the order the guards are tried. */
  method TransformClosedSelector(schema: Json) returns (r: Result<Json, Failure>)
    ensures r.Ok? <==> Accepted(schema)
    ensures forall selector, known :: Selects(schema, selector, known) ==>
              r == Ok(Transformed(schema, selector, known))
    ensures r.Err? ==> Explains(schema, r.error)
  {
    if !schema.Object? {
      return Err(ObjectSchemaUnavailable);
    }
    if Get(schema, "type") != Some(String("object")) {
      return Err(ObjectTypeRequired);
    }
    var propertiesMember := Get(schema, "properties");
    if propertiesMember.None? || !propertiesMember.value.Object? {
      return Err(ObjectPropertiesUnavailable);
    }
    var properties := propertiesMember.value.members;
    var required := GetArray(schema, "required");
    if required.None? {
      return Err(RequiredPropertiesUnavailable);
    }
    var selectors := ClosedNames(properties);
    if |selectors| != 1 {
      return Err(PropertyCardinality(|selectors|));
    }
    var selector :| selector in selectors;
    assert selectors == {selector} by {
      assert |selectors - {selector}| == 0;
    }
    if String(selector) !in required.value {
      return Err(SelectorNotRequired(selector));
    }
    var values := SelectorValuesOf(properties[selector]).values;
    if values == [] {
      return Err(NoKnownValues(selector));
    }
    if exists i | 0 <= i < |values| :: !values[i].String? {
      return Err(NonStringValue(selector));
    }
    var known := Texts(values);
    var repeat := FirstRepeat(known);
    if repeat.Some? {
      RepeatOfTexts(values, known, repeat.value);
      return Err(DuplicateKnownValue(selector, known[repeat.value]));
    }
    assert Selects(schema, selector, known);
    r := Ok(OneOf(Alternatives(schema, selector, known)));
    SelectsUniquely(schema, selector, known);
  }

  lemma RepeatOfTexts(values: seq<Json>, known: seq<string>, j: nat)
    requires |values| == |known| && forall i | 0 <= i < |values| :: values[i] == String(known[i])
    requires j < |known| && known[j] in known[..j] && Distinct(known[..j])
    ensures FirstRepeatAt(values, j)
  {
    var i :| 0 <= i < j && known[i] == known[j];
    assert values[..j][i] == values[j];
    assert forall a, b | 0 <= a < b < j :: known[..j][a] == known[a] && known[..j][b] == known[b];
    assert forall a, b | 0 <= a < b < j :: values[a].text != values[b].text;
  }

  /** The texts of an array of strings. */
  function Texts(values: seq<Json>): (texts: seq<string>)
    requires forall i | 0 <= i < |values| :: values[i].String?
    ensures |texts| == |values|
    ensures forall i | 0 <= i < |values| :: values[i] == String(texts[i])
  {
    seq(|values|, i requires 0 <= i < |values| => values[i].text)
  }

  /** The first value already seen, found by inserting each into a set. */
  method FirstRepeat(known: seq<string>) returns (repeat: Option<nat>)
    ensures repeat.None? <==> Distinct(known)
    ensures repeat.Some? ==>
              repeat.value < |known| && known[repeat.value] in known[..repeat.value]
              && Distinct(known[..repeat.value])
  {
    var unique: set<string> := {};
    for i := 0 to |known|
      invariant unique == set k | 0 <= k < i :: known[k]
      invariant Distinct(known[..i])
    {
      if known[i] in unique {
        var k :| 0 <= k < i && known[k] == known[i];
        assert known[..i][k] == known[i];
        return Some(i);
      }
      unique := unique + {known[i]};
    }
    assert known[..|known|] == known;
    return None;
  }

  /** A schema selects by at most one property and one list of values. */
  lemma SelectsUniquely(schema: Json, selector: string, known: seq<string>)
    requires Selects(schema, selector, known)
    ensures forall s, k :: Selects(schema, s, k) ==> s == selector && k == known
  {
    forall s, k | Selects(schema, s, k)
      ensures s == selector && k == known
    {
      assert s in {selector};
      var values := SelectorValuesOf(schema.members["properties"].members[selector]).values;
      assert |k| == |values| == |known|;
      assert forall i | 0 <= i < |k| :: values[i] == String(k[i]) == String(known[i]);
    }
  }

  ghost predicate HasProperties(schema: Json) {
    && Get(schema, "type") == Some(String("object"))
    && Get(schema, "properties").Some? && schema.members["properties"].Object?
  }

  ghost predicate HasRequired(schema: Json) {
    HasProperties(schema) && GetArray(schema, "required").Some?
  }

  ghost predicate SoleSelector(schema: Json, name: string) {
    HasRequired(schema) && ClosedNames(schema.members["properties"].members) == {name}
  }

  ghost predicate RequiredSelector(schema: Json, name: string) {
    SoleSelector(schema, name) && String(name) in GetArray(schema, "required").value
  }

  ghost function KnownValues(schema: Json, name: string): seq<Json>
    requires SoleSelector(schema, name)
  {
    assert name in ClosedNames(schema.members["properties"].members);
    SelectorValuesOf(schema.members["properties"].members[name]).values
  }

  /** The second of the first two equal strings is at `j`, everything before it being distinct. */
  ghost predicate FirstRepeatAt(values: seq<Json>, j: nat) {
    && j < |values|
    && values[j] in values[..j]
    && forall a, b | 0 <= a < b < j :: values[a] != values[b]
  }

  /** The one failure a schema earns: its guard fails and every earlier guard passed. */
  ghost predicate Explains(schema: Json, failure: Failure) {
    match failure
    case ObjectSchemaUnavailable => !schema.Object?
    case ObjectTypeRequired => schema.Object? && Get(schema, "type") != Some(String("object"))
    case ObjectPropertiesUnavailable =>
      Get(schema, "type") == Some(String("object")) && !HasProperties(schema)
    case RequiredPropertiesUnavailable => HasProperties(schema) && !HasRequired(schema)
    case PropertyCardinality(actual) =>
      HasRequired(schema) && actual == |ClosedNames(schema.members["properties"].members)| != 1
    case SelectorNotRequired(name) => SoleSelector(schema, name) && !RequiredSelector(schema, name)
    case NoKnownValues(name) => RequiredSelector(schema, name) && KnownValues(schema, name) == []
    case NonStringValue(name) =>
      RequiredSelector(schema, name) && exists v | v in KnownValues(schema, name) :: !v.String?
    case DuplicateKnownValue(name, known) =>
      && RequiredSelector(schema, name)
      && (forall v | v in KnownValues(schema, name) :: v.String?)
      && exists j: nat :: FirstRepeatAt(KnownValues(schema, name), j)
                     && KnownValues(schema, name)[j] == String(known)
  }
}
