/** The generated contract's check that every closed-selector rewrite completed. */
module OutputContract {
  import opened Json
  import opened JsonSchema
  import opened ClosedSelector
  import opened ClosedSelectorMeaning
  import opened Wrappers

  function FailureKind(failure: Failure): string {
    match failure
    case ObjectSchemaUnavailable => "object_schema_unavailable"
    case ObjectTypeRequired => "object_type_required"
    case ObjectPropertiesUnavailable => "object_properties_unavailable"
    case RequiredPropertiesUnavailable => "required_properties_unavailable"
    case PropertyCardinality(_) => "property_cardinality"
    case SelectorNotRequired(_) => "selector_not_required"
    case NoKnownValues(_) => "no_known_values"
    case NonStringValue(_) => "non_string_value"
    case DuplicateKnownValue(_, _) => "duplicate_known_value"
  }

  function FailureDetails(failure: Failure): map<string, Json> {
    var kind := map["kind" := String(FailureKind(failure))];
    match failure
    case PropertyCardinality(actual) => kind["actual" := Number(actual as real)]
    case SelectorNotRequired(name) => kind["member" := String(name)]
    case NoKnownValues(name) => kind["member" := String(name)]
    case NonStringValue(name) => kind["member" := String(name)]
    case DuplicateKnownValue(name, known) => kind["member" := String(name)]["value" := String(known)]
    case _ => kind
  }

  /** The schema a rejected rewrite leaves behind: `not` of the schema that accepts everything. */
  function FailureSchema(failure: Failure): Json {
    Object(map["not" := Object(map[]), FAILURE_KEY := Object(FailureDetails(failure))])
  }

  method SerializesAsObject(schema: Json) returns (replacement: Json)
    ensures forall selector, known :: HasSelector(schema, selector, known) ==>
              Selects(schema, selector, known) && replacement == Transformed(schema, selector, known)
    ensures (forall selector, known :: !HasSelector(schema, selector, known)) ==>
              exists failure :: Explains(schema, failure) && replacement == FailureSchema(failure)
  {
    AcceptedExactly(schema);
    forall selector, known
      ensures Selects(schema, selector, known) <==> HasSelector(schema, selector, known)
    {
      SelectsExactly(schema, selector, known);
    }
    hide HasSelector;
    var r := TransformClosedSelector(schema);
    replacement := match r case Ok(transformed) => transformed case Err(failure) => FailureSchema(failure);
  }

  /** The failure left behind tells which guard failed, and over what. */
  lemma FailureIsRecorded(a: Failure, b: Failure)
    requires FailureSchema(a) == FailureSchema(b)
    ensures a == b
  {
    var left, right := FailureDetails(a), FailureDetails(b);
    assert FailureSchema(a).members[FAILURE_KEY] == FailureSchema(b).members[FAILURE_KEY];
    assert left["kind"] == right["kind"];
    assert "actual" in left ==> left["actual"] == right["actual"];
    assert "member" in left ==> left["member"] == right["member"];
    assert "value" in left ==> left["value"] == right["value"];
    KindsDiffer(a, b);
  }

  lemma KindsDiffer(a: Failure, b: Failure)
    requires FailureKind(a) == FailureKind(b)
    ensures a.ObjectSchemaUnavailable? <==> b.ObjectSchemaUnavailable?
    ensures a.ObjectTypeRequired? <==> b.ObjectTypeRequired?
    ensures a.ObjectPropertiesUnavailable? <==> b.ObjectPropertiesUnavailable?
    ensures a.RequiredPropertiesUnavailable? <==> b.RequiredPropertiesUnavailable?
    ensures a.PropertyCardinality? <==> b.PropertyCardinality?
    ensures a.SelectorNotRequired? <==> b.SelectorNotRequired?
    ensures a.NoKnownValues? <==> b.NoKnownValues?
    ensures a.NonStringValue? <==> b.NonStringValue?
    ensures a.DuplicateKnownValue? <==> b.DuplicateKnownValue?
  {
    assert FailureKind(a)[0] == FailureKind(b)[0] && |FailureKind(a)| == |FailureKind(b)|;
  }

  /** A rejected schema becomes one that no instance satisfies. */
  lemma RejectedAcceptsNothing(failure: Failure, instance: Json, other: OtherKeyword)
    ensures !Validates(FailureSchema(failure), instance, other)
  {
    var schema := FailureSchema(failure);
    assert Validates(Object(map[]), instance, other);
    assert !Asserts(schema, "not", instance, other);
  }

  /** The members of an object in the map's own iteration order, whichever order that is. */
  ghost function MemberValues(members: map<string, Json>): (values: seq<Json>)
    ensures forall i | 0 <= i < |values| :: exists name | name in members :: members[name] == values[i]
    ensures forall name | name in members :: members[name] in values
  {
    if members == map[] then []
    else
      var name :| name in members;
      var rest := MemberValues(members - {name});
      assert forall other | other in members && other != name :: other in members - {name};
      assert forall other | other in members - {name} :: (members - {name})[other] == members[other];
      assert forall value :: value in [members[name]] + rest <==> value == members[name] || value in rest;
      [members[name]] + rest
  }

  /** The recorded details of the first failed rewrite in a schema, or `None` when there is none. */
  ghost function TransformStatus(schema: Json): Option<Json>
    decreases schema, 1, 0
  {
    match schema
    case Array(items) => NestedStatus(schema, items)
    case Object(members) =>
      if FAILURE_KEY in members then Some(members[FAILURE_KEY])
      else NestedStatus(schema, MemberValues(members))
    case _ => None
  }

  ghost function NestedStatus(parent: Json, values: seq<Json>): Option<Json>
    requires forall i | 0 <= i < |values| :: values[i] < parent
    decreases parent, 0, |values|
  {
    if values == [] then None
    else
      var first := TransformStatus(values[0]);
      if first.Some? then first else NestedStatus(parent, values[1..])
  }

  /** Contract generation stops on this schema. */
  ghost predicate Stops(schema: Json) {
    TransformStatus(schema).Some?
  }

  datatype Step = Item(index: nat) | Member(name: string)

  /** The value that a path of array items and object members leads to. */
  function At(value: Json, path: seq<Step>): Option<Json>
    decreases |path|
  {
    if path == [] then Some(value)
    else match path[0]
      case Item(i) =>
        if value.Array? && i < |value.items| then At(value.items[i], path[1..]) else None
      case Member(name) =>
        if value.Object? && name in value.members then At(value.members[name], path[1..]) else None
  }

  ghost predicate FailureAt(schema: Json, path: seq<Step>) {
    match At(schema, path)
    case Some(Object(members)) => FAILURE_KEY in members
    case _ => false
  }

  lemma {:induction false} NestedStops(parent: Json, values: seq<Json>)
    requires forall i | 0 <= i < |values| :: values[i] < parent
    ensures NestedStatus(parent, values).Some? <==> exists i | 0 <= i < |values| :: Stops(values[i])
    decreases |values|
  {
    if values != [] {
      var rest := values[1..];
      NestedStops(parent, rest);
      assert forall i | 0 < i < |values| :: values[i] == rest[i - 1];
      if Stops(values[0]) {
      } else if i :| 0 <= i < |values| && Stops(values[i]) {
        assert Stops(rest[i - 1]);
      }
    }
  }

  lemma MembersStop(schema: Json)
    requires schema.Object?
    ensures NestedStatus(schema, MemberValues(schema.members)).Some? <==>
            exists name | name in schema.members :: Stops(schema.members[name])
  {
    var values := MemberValues(schema.members);
    NestedStops(schema, values);
    if i :| 0 <= i < |values| && Stops(values[i]) {
      var name :| name in schema.members && schema.members[name] == values[i];
    }
    if name :| name in schema.members && Stops(schema.members[name]) {
      assert schema.members[name] in values;
      var i :| 0 <= i < |values| && values[i] == schema.members[name];
    }
  }

  /** One level of the search: a failure is here, or in some item or member. */
  lemma StopsByLevel(schema: Json)
    ensures Stops(schema) <==>
            || (schema.Array? && exists i | 0 <= i < |schema.items| :: Stops(schema.items[i]))
            || (schema.Object? && FAILURE_KEY in schema.members)
            || (schema.Object? && exists name | name in schema.members :: Stops(schema.members[name]))
  {
    if schema.Array? {
      NestedStops(schema, schema.items);
    } else if schema.Object? {
      MembersStop(schema);
    }
  }

  /** Generation stops exactly when some object at some depth carries the failure member. */
  lemma {:induction false} StopsExactlyOnFailure(schema: Json)
    ensures Stops(schema) <==> exists path :: FailureAt(schema, path)
  {
    if Stops(schema) {
      var path := FailurePath(schema);
    }
    forall path | FailureAt(schema, path)
      ensures Stops(schema)
    {
      FailureStops(schema, path);
    }
  }

  lemma {:induction false} NestedNames(parent: Json, values: seq<Json>) returns (i: nat)
    requires forall k | 0 <= k < |values| :: values[k] < parent
    requires NestedStatus(parent, values).Some?
    ensures i < |values| && TransformStatus(values[i]) == NestedStatus(parent, values)
    decreases |values|
  {
    i := 0;
    if TransformStatus(values[0]).None? {
      var k := NestedNames(parent, values[1..]);
      i := k + 1;
    }
  }

  /** What stops generation is the failure recorded at some place in the schema, and it is that
      record which is reported. */
  lemma {:induction false} FailurePath(schema: Json) returns (path: seq<Step>)
    requires Stops(schema)
    ensures FailureAt(schema, path)
    ensures TransformStatus(schema) == Some(At(schema, path).value.members[FAILURE_KEY])
    decreases schema
  {
    if schema.Object? && FAILURE_KEY in schema.members {
      path := [];
    } else if schema.Array? {
      var i := NestedNames(schema, schema.items);
      var rest := FailurePath(schema.items[i]);
      path := [Item(i)] + rest;
      assert path[1..] == rest;
    } else {
      var values := MemberValues(schema.members);
      var i := NestedNames(schema, values);
      var name :| name in schema.members && schema.members[name] == values[i];
      var rest := FailurePath(schema.members[name]);
      path := [Member(name)] + rest;
      assert path[1..] == rest;
    }
  }

  lemma {:induction false} FailureStops(schema: Json, path: seq<Step>)
    requires FailureAt(schema, path)
    ensures Stops(schema)
    decreases |path|
  {
    StopsByLevel(schema);
    if path != [] {
      match path[0]
      case Item(i) => FailureStops(schema.items[i], path[1..]);
      case Member(name) => FailureStops(schema.members[name], path[1..]);
    }
  }

  /** A rejected rewrite stops generation from whatever position it is embedded at. */
  lemma EmbeddedRejectionStops(schema: Json, path: seq<Step>, failure: Failure)
    requires At(schema, path) == Some(FailureSchema(failure))
    ensures Stops(schema)
  {
    FailureStops(schema, path);
  }

  function WithoutSelector(schema: Json, selector: string): Json
    requires schema.Object? && Get(schema, "properties").Some? && schema.members["properties"].Object?
  {
    Object(schema.members["properties" := Object(schema.members["properties"].members - {selector})])
  }

  /** A completed rewrite stops generation exactly when what it copied already would: its input
      without the selector's own schema, which it replaces. A selector named like the failure
      member also stops it. */
  lemma TransformedStops(schema: Json, selector: string, known: seq<string>)
    requires Selects(schema, selector, known)
    ensures Stops(Transformed(schema, selector, known)) <==>
            selector == FAILURE_KEY || Stops(WithoutSelector(schema, selector))
  {
    var alternatives := Alternatives(schema, selector, known);
    var transformed := Transformed(schema, selector, known);
    assert transformed.members.Keys == {"oneOf"} && transformed.members["oneOf"] == Array(alternatives);
    StopsByLevel(transformed);
    StopsByLevel(Array(alternatives));
    forall i | 0 <= i < |known|
      ensures Stops(alternatives[i]) <==> selector == FAILURE_KEY || Stops(WithoutSelector(schema, selector))
    {
      AlternativeStops(schema, selector, known[i]);
    }
    assert Stops(alternatives[0]) ==> Stops(Array(alternatives));
  }

  lemma AlternativeStops(schema: Json, selector: string, known: string)
    requires schema.Object? && Get(schema, "properties").Some? && schema.members["properties"].Object?
    requires selector in schema.members["properties"].members
    ensures Stops(Alternative(schema, selector, known)) <==>
            selector == FAILURE_KEY || Stops(WithoutSelector(schema, selector))
  {
    var alternative, without := Alternative(schema, selector, known), WithoutSelector(schema, selector);
    StopsByLevel(alternative);
    StopsByLevel(without);
    PropertiesStop(schema.members["properties"].members, selector, known);
    assert alternative.members.Keys == without.members.Keys == schema.members.Keys;
    assert forall name | name in schema.members && name != "properties" ::
        alternative.members[name] == without.members[name] == schema.members[name];
    if Stops(alternative.members["properties"]) {
      assert Stops(alternative);
    }
    if Stops(without.members["properties"]) {
      assert Stops(without);
    }
  }

  lemma PropertiesStop(properties: map<string, Json>, selector: string, known: string)
    requires selector in properties
    ensures Stops(Object(properties[selector := SelectorConst(known)])) <==>
            selector == FAILURE_KEY || Stops(Object(properties - {selector}))
  {
    var rewritten, rest := properties[selector := SelectorConst(known)], properties - {selector};
    StopsByLevel(Object(rewritten));
    StopsByLevel(Object(rest));
    StopsByLevel(SelectorConst(known));
    StopsByLevel(String("string"));
    StopsByLevel(String(known));
    if name :| name in rest && Stops(rest[name]) {
      assert rewritten[name] == rest[name];
    }
    if name :| name in rewritten && Stops(rewritten[name]) {
      assert name != selector;
      assert rest[name] == rewritten[name];
    }
  }
}
