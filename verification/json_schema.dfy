/** JSON values as `serde_json` holds them. An object is a finite map, so two objects with the
    same members are the same value whatever order they were written in. */
module Json {
  datatype Json =
    | Null
    | Bool(value: bool)
    | Number(number: real)
    | String(text: string)
    | Array(items: seq<Json>)
    | Object(members: map<string, Json>)
}

/** Which instances a JSON Schema (draft 2020-12) accepts.

    The applicators and assertions that a closed-selector rewrite touches are interpreted here.
    Every other keyword is a parameter, `OtherKeyword`: its verdict may depend on its own name and
    value, on all its sibling keywords except `properties`, on the names `properties` declares,
    and on the instance. */
module JsonSchema {
  import opened Json

  type OtherKeyword = (string, map<string, Json>, set<string>, Json) -> bool

  /** Keywords that annotate and never reject (Validation section 9, Core section 8.3). */
  const ANNOTATIONS: set<string> :=
    {"title", "description", "default", "deprecated", "readOnly", "writeOnly", "examples", "$comment"}

  predicate HasType(name: string, instance: Json) {
    match name
    case "null" => instance.Null?
    case "boolean" => instance.Bool?
    case "number" => instance.Number?
    case "integer" => instance.Number? && instance.number.Floor as real == instance.number
    case "string" => instance.String?
    case "array" => instance.Array?
    case "object" => instance.Object?
    case _ => false
  }

  /** The property names that `properties` declares beside this keyword. */
  function DeclaredNames(members: map<string, Json>): set<string> {
    if "properties" in members && members["properties"].Object?
    then members["properties"].members.Keys
    else {}
  }

  /** Exactly one subschema accepts (Core section 10.2.1.3). */
  predicate ExactlyOne(schemas: seq<Json>, instance: Json, other: OtherKeyword)
    decreases schemas
  {
    exists i | 0 <= i < |schemas| ::
      && Validates(schemas[i], instance, other)
      && forall j | 0 <= j < |schemas| && j != i :: !Validates(schemas[j], instance, other)
  }

  predicate Validates(schema: Json, instance: Json, other: OtherKeyword)
    decreases schema, 1
  {
    if schema.Object? then
      forall keyword | keyword in schema.members :: Asserts(schema, keyword, instance, other)
    else
      schema.Bool? && schema.value
  }

  /** One keyword's verdict. A keyword whose value has the wrong shape accepts nothing. */
  predicate Asserts(schema: Json, keyword: string, instance: Json, other: OtherKeyword)
    requires schema.Object? && keyword in schema.members
    decreases schema, 0
  {
    var value := schema.members[keyword];
    if keyword in ANNOTATIONS then true
    else match keyword
      case "type" =>
        if value.Array? then exists t | t in value.items :: t.String? && HasType(t.text, instance)
        else value.String? && HasType(value.text, instance)
      case "const" => instance == value
      case "enum" => value.Array? && instance in value.items
      case "required" =>
        && value.Array?
        && (instance.Object? ==>
              forall name | name in value.items && name.String? :: name.text in instance.members)
      case "properties" =>
        && value.Object?
        && (instance.Object? ==>
              forall name | name in value.members && name in instance.members ::
                Validates(value.members[name], instance.members[name], other))
      case "additionalProperties" =>
        // A name that a pattern matches is exempt too, so beside patterns this is another keyword.
        if "patternProperties" in schema.members
        then other(keyword, schema.members - {"properties"}, DeclaredNames(schema.members), instance)
        else
          instance.Object? ==>
            forall name | name in instance.members && name !in DeclaredNames(schema.members) ::
              Validates(value, instance.members[name], other)
      case "items" =>
        instance.Array? ==> forall item | item in instance.items :: Validates(value, item, other)
      case "not" => !Validates(value, instance, other)
      case "allOf" => value.Array? && forall s | s in value.items :: Validates(s, instance, other)
      case "anyOf" => value.Array? && exists s | s in value.items :: Validates(s, instance, other)
      case "oneOf" => value.Array? && ExactlyOne(value.items, instance, other)
      case _ =>
        other(keyword, schema.members - {"properties"}, DeclaredNames(schema.members), instance)
  }
}
