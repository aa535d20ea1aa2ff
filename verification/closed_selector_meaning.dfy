/** What the closed-selector rewrite does to the set of accepted instances. */
module ClosedSelectorMeaning {
  import opened Json
  import opened JsonSchema
  import opened ClosedSelector
  import opened Wrappers

  ghost predicate Equivalent(a: Json, b: Json, other: OtherKeyword) {
    forall instance :: Validates(a, instance, other) <==> Validates(b, instance, other)
  }

  function SelectorSchema(schema: Json, selector: string): Json
    requires exists known :: Selects(schema, selector, known)
  {
    SelectorIsProperty(schema, selector);
    schema.members["properties"].members[selector]
  }

  lemma SelectorIsProperty(schema: Json, selector: string)
    requires exists known :: Selects(schema, selector, known)
    ensures selector in schema.members["properties"].members
  {
    assert selector in ClosedNames(schema.members["properties"].members);
  }

  /** Everything an accepted schema asks of an instance besides the selector's own value. */
  ghost predicate RestAccepts(schema: Json, selector: string, instance: Json, other: OtherKeyword)
    requires schema.Object? && Get(schema, "properties").Some? && schema.members["properties"].Object?
  {
    var properties := schema.members["properties"].members;
    && instance.Object? && selector in instance.members
    && (forall keyword | keyword in schema.members && keyword != "properties" ::
          Asserts(schema, keyword, instance, other))
    && (forall name | name in properties && name != selector && name in instance.members ::
          Validates(properties[name], instance.members[name], other))
  }

  lemma SchemaMeaning(schema: Json, selector: string, known: seq<string>, instance: Json, other: OtherKeyword)
    requires Selects(schema, selector, known)
    ensures Validates(schema, instance, other) <==>
            && RestAccepts(schema, selector, instance, other)
            && Validates(SelectorSchema(schema, selector), instance.members[selector], other)
  {
    hide Validates, Asserts, SelectorValuesOf, ClosedNames;
    SelectorIsProperty(schema, selector);
    ValidatesByKeyword(schema, instance, other);
    PropertiesMeaning(schema, instance, other);
    if Validates(schema, instance, other) {
      SelectorIsPresent(schema, selector, known, instance, other);
    }
  }

  lemma PropertiesMeaning(schema: Json, instance: Json, other: OtherKeyword)
    requires schema.Object? && Get(schema, "properties").Some? && schema.members["properties"].Object?
    ensures Asserts(schema, "properties", instance, other) <==>
            (instance.Object? ==>
               forall name | name in schema.members["properties"].members && name in instance.members ::
                 Validates(schema.members["properties"].members[name], instance.members[name], other))
  {
  }

  lemma SelectorConstMeaning(known: string, value: Json, other: OtherKeyword)
    ensures Validates(SelectorConst(known), value, other) <==> value == String(known)
  {
    var schema := SelectorConst(known);
    assert Asserts(schema, "const", value, other) <==> value == String(known);
    assert Asserts(schema, "type", value, other) <==> value.String?;
  }

  /** An alternative keeps every keyword but `properties`, and with the same siblings. */
  lemma AlternativeKeepsKeywords(schema: Json, selector: string, known: string, instance: Json, other: OtherKeyword)
    requires schema.Object? && Get(schema, "properties").Some? && schema.members["properties"].Object?
    requires selector in schema.members["properties"].members
    ensures forall keyword | keyword in schema.members && keyword != "properties" ::
              Asserts(Alternative(schema, selector, known), keyword, instance, other)
              <==> Asserts(schema, keyword, instance, other)
  {
    var alternative := Alternative(schema, selector, known);
    assert alternative.members - {"properties"} == schema.members - {"properties"};
    assert DeclaredNames(alternative.members) == DeclaredNames(schema.members);
    forall keyword | keyword in schema.members && keyword != "properties"
      ensures Asserts(alternative, keyword, instance, other) <==> Asserts(schema, keyword, instance, other)
    {
      assert alternative.members[keyword] == schema.members[keyword];
    }
  }

  lemma AlternativeProperties(schema: Json, selector: string, known: string, instance: Json, other: OtherKeyword)
    requires schema.Object? && Get(schema, "properties").Some? && schema.members["properties"].Object?
    requires selector in schema.members["properties"].members
    requires instance.Object? && selector in instance.members
    ensures Asserts(Alternative(schema, selector, known), "properties", instance, other) <==>
            && instance.members[selector] == String(known)
            && forall name | name in schema.members["properties"].members && name != selector && name in instance.members ::
                 Validates(schema.members["properties"].members[name], instance.members[name], other)
  {
    SelectorConstMeaning(known, instance.members[selector], other);
    var properties := schema.members["properties"].members[selector := SelectorConst(known)];
    assert Alternative(schema, selector, known).members["properties"] == Object(properties);
    assert forall name | name in properties && name != selector ::
        properties[name] == schema.members["properties"].members[name];
  }

  /** An accepted schema and each of its alternatives accept only objects holding the selector. */
  lemma SelectorIsPresent(schema: Json, selector: string, known: seq<string>, instance: Json, other: OtherKeyword)
    requires Selects(schema, selector, known)
    requires Asserts(schema, "type", instance, other) && Asserts(schema, "required", instance, other)
    ensures instance.Object? && selector in instance.members
  {
    assert String(selector) in schema.members["required"].items;
  }

  /** One alternative accepts exactly the instances of its own variant that pass the rest. */
  lemma AlternativeMeaning(schema: Json, selector: string, known: seq<string>, value: string, instance: Json, other: OtherKeyword)
    requires Selects(schema, selector, known)
    ensures Validates(Alternative(schema, selector, value), instance, other) <==>
            && RestAccepts(schema, selector, instance, other)
            && instance.members[selector] == String(value)
  {
    SelectorIsProperty(schema, selector);
    var alternative := Alternative(schema, selector, value);
    AlternativeKeepsKeywords(schema, selector, value, instance, other);
    ValidatesByKeyword(alternative, instance, other);
    assert alternative.members.Keys == schema.members.Keys;
    if Validates(alternative, instance, other) {
      assert Asserts(alternative, "type", instance, other) && Asserts(alternative, "required", instance, other);
      SelectorIsPresent(schema, selector, known, instance, other);
    }
    if instance.Object? && selector in instance.members {
      AlternativeProperties(schema, selector, value, instance, other);
    }
  }

  lemma ValidatesByKeyword(schema: Json, instance: Json, other: OtherKeyword)
    requires schema.Object?
    ensures Validates(schema, instance, other) <==>
            forall keyword | keyword in schema.members :: Asserts(schema, keyword, instance, other)
  {
  }

  /** A closed property accepts nothing outside the values it names. */
  lemma ClosedAcceptsOnlyKnown(property: Json, value: Json, other: OtherKeyword)
    requires SelectorValuesOf(property).Closed? && Validates(property, value, other)
    ensures value in SelectorValuesOf(property).values
  {
    if GetArray(property, "enum").Some? {
      assert Asserts(property, "enum", value, other);
    } else {
      assert Asserts(property, "oneOf", value, other);
      var alternatives := property.members["oneOf"].items;
      var i :| 0 <= i < |alternatives| && Validates(alternatives[i], value, other);
      assert Get(alternatives[i], "const").Some?;
      assert Asserts(alternatives[i], "const", value, other);
      assert SelectorValuesOf(property).values[i] == value;
    }
  }

  /** A `oneOf` accepts exactly when one of its schemas does and no other. */
  lemma OneOfMeaning(alternatives: seq<Json>, instance: Json, other: OtherKeyword)
    ensures Validates(OneOf(alternatives), instance, other) <==> ExactlyOne(alternatives, instance, other)
  {
    var schema := OneOf(alternatives);
    assert schema.members.Keys == {"oneOf"};
    ValidatesByKeyword(schema, instance, other);
    assert Asserts(schema, "oneOf", instance, other) <==> ExactlyOne(alternatives, instance, other);
  }

  ghost predicate NamesVariant(instance: Json, selector: string, known: string) {
    instance.Object? && selector in instance.members && instance.members[selector] == String(known)
  }

  lemma OneVariantNamed(known: seq<string>, instance: Json, selector: string, i: nat, j: nat)
    requires Distinct(known) && i < j < |known|
    ensures !(NamesVariant(instance, selector, known[i]) && NamesVariant(instance, selector, known[j]))
  {
    assert known[i] != known[j];
  }

  lemma AlternativesMeaning(schema: Json, selector: string, known: seq<string>, instance: Json, other: OtherKeyword)
    requires Selects(schema, selector, known)
    ensures forall i | 0 <= i < |known| ::
              Validates(Alternatives(schema, selector, known)[i], instance, other) <==>
              RestAccepts(schema, selector, instance, other) && NamesVariant(instance, selector, known[i])
  {
    forall i | 0 <= i < |known|
      ensures Validates(Alternatives(schema, selector, known)[i], instance, other) <==>
              RestAccepts(schema, selector, instance, other) && NamesVariant(instance, selector, known[i])
    {
      AlternativeMeaning(schema, selector, known, known[i], instance, other);
    }
  }

  /** The rewritten schema accepts an instance exactly when it passes the rest and names a known
      value. */
  lemma TransformedMeaning(schema: Json, selector: string, known: seq<string>, instance: Json, other: OtherKeyword)
    requires Selects(schema, selector, known)
    ensures Validates(Transformed(schema, selector, known), instance, other) <==>
            && RestAccepts(schema, selector, instance, other)
            && exists i | 0 <= i < |known| :: NamesVariant(instance, selector, known[i])
  {
    hide Validates, Asserts, ExactlyOne, RestAccepts, NamesVariant, SelectorValuesOf;
    var alternatives := Alternatives(schema, selector, known);
    AlternativesMeaning(schema, selector, known, instance, other);
    OneOfMeaning(alternatives, instance, other);
    var rest := RestAccepts(schema, selector, instance, other);
    var verdicts := seq(|known|, i requires 0 <= i < |known| => rest && NamesVariant(instance, selector, known[i]));
    forall i, j | 0 <= i < j < |known|
      ensures !(verdicts[i] && verdicts[j])
    {
      OneVariantNamed(known, instance, selector, i, j);
    }
    ExactlyOneByVerdict(alternatives, verdicts, instance, other);
  }

  lemma ExactlyOneByVerdict(schemas: seq<Json>, verdicts: seq<bool>, instance: Json, other: OtherKeyword)
    requires |verdicts| == |schemas|
    requires forall i | 0 <= i < |schemas| :: Validates(schemas[i], instance, other) <==> verdicts[i]
    requires forall i, j | 0 <= i < j < |schemas| :: !(verdicts[i] && verdicts[j])
    ensures ExactlyOne(schemas, instance, other) <==> exists i | 0 <= i < |verdicts| :: verdicts[i]
  {
    if i :| 0 <= i < |verdicts| && verdicts[i] {
      assert forall j | 0 <= j < |schemas| && j != i :: !verdicts[j];
      assert Validates(schemas[i], instance, other);
    }
  }

  /** The alternative of an accepted instance's own value accepts it, and no other one does. */
  lemma OneAlternativeAccepts(schema: Json, selector: string, known: seq<string>, i: nat, instance: Json, other: OtherKeyword)
    requires Selects(schema, selector, known) && i < |known|
    requires Validates(Transformed(schema, selector, known), instance, other)
    ensures Validates(Alternatives(schema, selector, known)[i], instance, other) <==>
            instance.Object? && selector in instance.members && instance.members[selector] == String(known[i])
  {
    TransformedMeaning(schema, selector, known, instance, other);
    AlternativesMeaning(schema, selector, known, instance, other);
  }

  /** No instance is lost: whatever the input schema accepts, the rewrite accepts too. */
  lemma TransformAcceptsEveryInstance(schema: Json, selector: string, known: seq<string>, instance: Json, other: OtherKeyword)
    requires Selects(schema, selector, known)
    requires Validates(schema, instance, other)
    ensures Validates(Transformed(schema, selector, known), instance, other)
  {
    SchemaMeaning(schema, selector, known, instance, other);
    TransformedMeaning(schema, selector, known, instance, other);
    ClosedAcceptsOnlyKnown(SelectorSchema(schema, selector), instance.members[selector], other);
    var i :| 0 <= i < |known| && Strings(known)[i] == instance.members[selector];
    assert NamesVariant(instance, selector, known[i]);
  }

  /** The known value `value` means the same before and after: its schema accepts it, or no
      instance of its variant passes the rest anyway. */
  ghost predicate ValueKept(schema: Json, selector: string, value: string, other: OtherKeyword)
    requires exists known :: Selects(schema, selector, known)
  {
    || Validates(SelectorSchema(schema, selector), String(value), other)
    || forall instance :: !Validates(Alternative(schema, selector, value), instance, other)
  }

  /** The rewrite preserves meaning exactly when every known value is kept. */
  lemma TransformEquivalence(schema: Json, selector: string, known: seq<string>, other: OtherKeyword)
    requires Selects(schema, selector, known)
    ensures Equivalent(schema, Transformed(schema, selector, known), other) <==>
            forall i | 0 <= i < |known| :: ValueKept(schema, selector, known[i], other)
  {
    if forall i | 0 <= i < |known| :: ValueKept(schema, selector, known[i], other) {
      forall instance
        ensures Validates(schema, instance, other) <==>
                Validates(Transformed(schema, selector, known), instance, other)
      {
        KeptValuesKeepInstance(schema, selector, known, instance, other);
      }
    }
    if Equivalent(schema, Transformed(schema, selector, known), other) {
      forall i | 0 <= i < |known|
        ensures ValueKept(schema, selector, known[i], other)
      {
        EquivalenceKeepsValue(schema, selector, known, i, other);
      }
    }
  }

  lemma KeptValuesKeepInstance(schema: Json, selector: string, known: seq<string>, instance: Json, other: OtherKeyword)
    requires Selects(schema, selector, known)
    requires forall i | 0 <= i < |known| :: ValueKept(schema, selector, known[i], other)
    ensures Validates(schema, instance, other) <==>
            Validates(Transformed(schema, selector, known), instance, other)
  {
    if Validates(schema, instance, other) {
      TransformAcceptsEveryInstance(schema, selector, known, instance, other);
    } else if Validates(Transformed(schema, selector, known), instance, other) {
      TransformedMeaning(schema, selector, known, instance, other);
      var i :| 0 <= i < |known| && NamesVariant(instance, selector, known[i]);
      AlternativeMeaning(schema, selector, known, known[i], instance, other);
      assert ValueKept(schema, selector, known[i], other);
      SchemaMeaning(schema, selector, known, instance, other);
    }
  }

  lemma EquivalenceKeepsValue(schema: Json, selector: string, known: seq<string>, i: nat, other: OtherKeyword)
    requires Selects(schema, selector, known) && i < |known|
    requires Equivalent(schema, Transformed(schema, selector, known), other)
    ensures ValueKept(schema, selector, known[i], other)
  {
    if instance :| Validates(Alternative(schema, selector, known[i]), instance, other) {
      AlternativeMeaning(schema, selector, known, known[i], instance, other);
      TransformedMeaning(schema, selector, known, instance, other);
      assert Validates(schema, instance, other);
      SchemaMeaning(schema, selector, known, instance, other);
    }
  }

  /** The property shapes a serialised variant name takes: a string `enum`, or a `oneOf` of bare
      string `const`s, either with annotations. */
  ghost predicate BareSelector(property: Json, known: seq<string>) {
    && property.Object?
    && SelectorValuesOf(property).Closed? && SelectorValuesOf(property).values == Strings(known)
    && if GetArray(property, "enum").Some?
       then property.members.Keys <= {"enum", "type"} + ANNOTATIONS
            && Get(property, "type") in {None, Some(String("string"))}
       else property.members.Keys <= {"oneOf", "type"} + ANNOTATIONS
            && Get(property, "type") in {None, Some(String("string"))}
            && forall a | a in property.members["oneOf"].items :: BareConst(a)
  }

  ghost predicate BareConst(alternative: Json) {
    && alternative.Object?
    && alternative.members.Keys <= {"const", "type"} + ANNOTATIONS
    && Get(alternative, "type") in {None, Some(String("string"))}
  }

  lemma BareConstMeaning(alternative: Json, value: Json, other: OtherKeyword)
    requires BareConst(alternative) && Get(alternative, "const").Some?
    requires alternative.members["const"].String?
    ensures Validates(alternative, value, other) <==> value == alternative.members["const"]
  {
    assert Asserts(alternative, "const", value, other) <==> value == alternative.members["const"];
    if value == alternative.members["const"] {
      forall keyword | keyword in alternative.members
        ensures Asserts(alternative, keyword, value, other)
      {
        assert keyword in {"const", "type"} || keyword in ANNOTATIONS;
      }
    }
  }

  lemma BareSelectorAcceptsKnown(property: Json, known: seq<string>, i: nat, other: OtherKeyword)
    requires BareSelector(property, known) && Distinct(known) && i < |known|
    ensures Validates(property, String(known[i]), other)
  {
    var value := String(known[i]);
    assert Strings(known)[i] == value;
    if GetArray(property, "enum").Some? {
      assert property.members["enum"].items == Strings(known);
      forall keyword | keyword in property.members
        ensures Asserts(property, keyword, value, other)
      {
        assert keyword in {"enum", "type"} || keyword in ANNOTATIONS;
      }
    } else {
      var alternatives := property.members["oneOf"].items;
      assert SelectorValuesOf(property).values == Strings(known);
      forall j | 0 <= j < |alternatives|
        ensures Validates(alternatives[j], value, other) <==> j == i
      {
        assert SelectorValuesOf(property).values[j] == Get(alternatives[j], "const").value == String(known[j]);
        BareConstMeaning(alternatives[j], value, other);
      }
      forall keyword | keyword in property.members
        ensures Asserts(property, keyword, value, other)
      {
        assert keyword in {"oneOf", "type"} || keyword in ANNOTATIONS;
      }
    }
  }

  /** For the selectors the generator emits, the rewrite is a meaning-preserving pass. */
  lemma BareSelectorTransformPreservesMeaning(schema: Json, selector: string, known: seq<string>, other: OtherKeyword)
    requires Selects(schema, selector, known)
    requires BareSelector(SelectorSchema(schema, selector), known)
    ensures Equivalent(schema, Transformed(schema, selector, known), other)
  {
    forall i | 0 <= i < |known|
      ensures ValueKept(schema, selector, known[i], other)
    {
      BareSelectorAcceptsKnown(SelectorSchema(schema, selector), known, i, other);
    }
    TransformEquivalence(schema, selector, known, other);
  }

  /** A selector that names two values and also refuses the second. */
  function ConstrainedSelector(): Json {
    Object(map["enum" := Array([String("a"), String("b")]), "not" := SelectorConst("b")])
  }

  function ConstrainedSchema(): Json {
    Object(map["type" := String("object"),
               "properties" := Object(map["kind" := ConstrainedSelector()]),
               "required" := Array([String("kind")])])
  }

  function OfKind(kind: string): Json {
    Object(map["kind" := String(kind)])
  }

  /** It passes every guard. The schema accepts the first variant and refuses the second, and the
      rewrite accepts both. */
  lemma ConstrainedSelectorLosesItsConstraint(other: OtherKeyword)
    ensures Selects(ConstrainedSchema(), "kind", ["a", "b"])
    ensures Validates(ConstrainedSchema(), OfKind("a"), other) && !Validates(ConstrainedSchema(), OfKind("b"), other)
    ensures Validates(Transformed(ConstrainedSchema(), "kind", ["a", "b"]), OfKind("a"), other)
    ensures Validates(Transformed(ConstrainedSchema(), "kind", ["a", "b"]), OfKind("b"), other)
  {
    var known := ["a", "b"];
    ConstrainedSchemaSelects();
    ConstrainedSelectorMeaning("a", other);
    ConstrainedSelectorMeaning("b", other);
    ConstrainedRestAccepts("a", other);
    ConstrainedRestAccepts("b", other);
    hide Validates, Asserts, Selects, RestAccepts, Transformed;
    SchemaMeaning(ConstrainedSchema(), "kind", known, OfKind("a"), other);
    SchemaMeaning(ConstrainedSchema(), "kind", known, OfKind("b"), other);
    TransformedMeaning(ConstrainedSchema(), "kind", known, OfKind("a"), other);
    TransformedMeaning(ConstrainedSchema(), "kind", known, OfKind("b"), other);
    assert NamesVariant(OfKind("a"), "kind", known[0]) && NamesVariant(OfKind("b"), "kind", known[1]);
  }

  lemma ConstrainedSchemaSelects()
    ensures Selects(ConstrainedSchema(), "kind", ["a", "b"])
  {
    assert ClosedNames(ConstrainedSchema().members["properties"].members) == {"kind"};
    assert String("kind") in [String("kind")];
    assert Strings(["a", "b"]) == [String("a"), String("b")];
    assert "a" != "b";
  }

  lemma ConstrainedSelectorMeaning(kind: string, other: OtherKeyword)
    requires kind in {"a", "b"}
    ensures Validates(ConstrainedSelector(), String(kind), other) <==> kind == "a"
  {
    hide Validates;
    var selector := ConstrainedSelector();
    ValidatesByKeyword(selector, String(kind), other);
    SelectorConstMeaning("b", String(kind), other);
    assert selector.members.Keys == {"enum", "not"};
    assert String(kind) in [String("a"), String("b")];
    assert Asserts(selector, "enum", String(kind), other);
    assert Asserts(selector, "not", String(kind), other) <==> kind == "a";
  }

  lemma ConstrainedRestAccepts(kind: string, other: OtherKeyword)
    ensures RestAccepts(ConstrainedSchema(), "kind", OfKind(kind), other)
  {
    hide Validates, Asserts;
    var schema := ConstrainedSchema();
    assert schema.members.Keys == {"type", "properties", "required"};
    assert schema.members["properties"].members.Keys == {"kind"};
    ObjectTypeMeaning(schema, OfKind(kind), other);
    RequiresKind(schema, OfKind(kind), other);
  }

  lemma ObjectTypeMeaning(schema: Json, instance: Json, other: OtherKeyword)
    requires Get(schema, "type") == Some(String("object"))
    ensures Asserts(schema, "type", instance, other) <==> instance.Object?
  {
  }

  lemma RequiresKind(schema: Json, instance: Json, other: OtherKeyword)
    requires Get(schema, "required") == Some(Array([String("kind")]))
    requires instance.Object? && "kind" in instance.members
    ensures Asserts(schema, "required", instance, other)
  {
  }
}
