/**
 Strict proposal schemas: the operation's input schema rewritten for tools that must fill in every
 property (`strict_proposal_schema`), and the way back (`_clean_proposal_inputs`).
 */
module Proposals {
  import opened Prelude
  import opened JsonSchema
  import opened Workflow
  import opened Samples

  const NullSchema := Blank.(kind := Some(NullKind))

  const ProviderFormats := {
    "date-time", "time", "date", "duration", "email", "hostname", "ipv4", "ipv6", "uuid"
  }

  /** `_nullable` */
  function Nullable(s: Schema): Schema {
    if s.union.AnyOf? then s.(union := AnyOf(s.union.members + [NullSchema]))
    else Blank.(union := AnyOf([s, NullSchema]))
  }

  /** The keywords a node loses: defaults, string lengths, uniqueness and local formats. */
  function WithoutLocalKeywords(s: Schema): Schema {
    s.(default := None,
       text := s.text.(minLength := None, maxLength := None,
                       format := if s.text.format.Some? && s.text.format.value in ProviderFormats
                                 then s.text.format
                                 else None),
       arrays := s.arrays.(uniqueItems := false))
  }

  /** `normalize` */
  function Strict(s: Schema): Schema
    decreases s
  {
    var node := WithoutLocalKeywords(s);
    if s.kind == Some(ObjectKind) then
      node.(properties := map k | k in s.properties :: Nullable(Strict(s.properties[k])),
            required := s.properties.Keys,
            additional := Closed)
    else if s.kind == Some(ArrayKind) && s.items.Some? then
      node.(items := Some(Strict(s.items.value)))
    else node
  }

  /** `_clean_proposal_inputs` */
  function Clean(inputs: Values): Values {
    map k | k in inputs && inputs[k] != Null :: inputs[k]
  }

  /** The proposal a model makes for `v`: every declared property that is absent, at any level, is null. */
  function Pad(s: Schema, v: Json): Json
    decreases s
  {
    if s.kind == Some(ObjectKind) && v.Obj? then
      Obj(map k | k in s.properties.Keys + v.fields.Keys ::
            if k in s.properties
            then (if k in v.fields then Pad(s.properties[k], v.fields[k]) else Null)
            else v.fields[k])
    else if s.kind == Some(ArrayKind) && s.items.Some? && v.Arr? then
      Arr(seq(|v.items|, i requires 0 <= i < |v.items| => Pad(s.items.value, v.items[i])))
    else v
  }

  // ---- Shape ----

  /** Every object node is closed and requires exactly the properties it declares. */
  predicate StrictObjects(s: Schema)
    decreases s
  {
    && (s.union.AnyOf? ==> forall i | 0 <= i < |s.union.members| :: StrictObjects(s.union.members[i]))
    && (s.kind == Some(ArrayKind) && s.items.Some? ==> StrictObjects(s.items.value))
    && (s.kind == Some(ObjectKind) ==>
          && s.additional.Closed? && s.required == s.properties.Keys
          && forall k | k in s.properties :: StrictObjects(s.properties[k]))
  }

  lemma {:induction false} StrictSchemaRequiresEverything(s: Schema, depth: nat)
    requires InSubset(s, depth)
    ensures StrictObjects(Strict(s)) && Strict(s).union.NoUnion? && Strict(s).kind == s.kind
    decreases s
  {
    if s.kind == Some(ArrayKind) {
      StrictSchemaRequiresEverything(s.items.value, depth + 1);
    } else if s.kind == Some(ObjectKind) {
      forall k | k in s.properties ensures StrictObjects(Strict(s).properties[k]) {
        StrictSchemaRequiresEverything(s.properties[k], depth + 1);
        var child := Strict(s.properties[k]);
        assert StrictObjects(NullSchema);
        assert Nullable(child).union.members == [child, NullSchema];
      }
    }
  }

  // ---- Acceptance ----

  /**
   What padding must not disturb: enumerated composites still enumerated, and no property outside the
   declared ones, which a schema that leaves `additionalProperties` unstated admits.
   */
  predicate Paddable(s: Schema, v: Json)
    decreases s
  {
    && (s.enum.Some? ==> Pad(s, v) in s.enum.value)
    && (s.kind == Some(ObjectKind) && v.Obj? ==>
          && v.fields.Keys <= s.properties.Keys
          && forall k | k in s.properties :: k in v.fields ==> Paddable(s.properties[k], v.fields[k]))
    && (s.kind == Some(ArrayKind) && s.items.Some? && v.Arr? ==>
          forall i | 0 <= i < |v.items| :: Paddable(s.items.value, v.items[i]))
  }

  lemma {:induction false} NullSchemaAccepts(c: Checks, v: Json)
    ensures Accepts(c, NullSchema, v) <==> v == Null
  {
  }

  /**
   A nullable schema accepts null and what the schema accepts, nothing else. A schema that already is a
   union keeps its other keywords, and they must accept null too.
   */
  lemma {:induction false} NullableAccepts(c: Checks, s: Schema, v: Json)
    ensures Accepts(c, Nullable(s), v) <==>
              Accepts(c, s, v) || (v == Null && (s.union.AnyOf? ==> Accepts(c, s.(union := NoUnion), Null)))
  {
    if s.union.AnyOf? {
      NullableUnion(c, s, v);
    } else {
      var members := Nullable(s).union.members;
      assert members == [s, NullSchema];
      NullSchemaAccepts(c, v);
      assert Valid(c, map[], {}, members[0], v) <==> Accepts(c, s, v);
      assert Valid(c, map[], {}, members[1], v) <==> v == Null;
    }
  }

  /** A union is its other keywords and one of its members. */
  lemma {:induction false} UnionValidity(c: Checks, s: Schema, members: seq<Schema>, v: Json)
    ensures Accepts(c, s.(union := AnyOf(members)), v) <==>
              Accepts(c, s.(union := NoUnion), v) && exists i | 0 <= i < |members| :: Accepts(c, members[i], v)
  {
    assert LocallyValid(c, s.(union := AnyOf(members)), v) <==> LocallyValid(c, s.(union := NoUnion), v);
    if i :| 0 <= i < |members| && Accepts(c, members[i], v) {
      assert Valid(c, map[], {}, members[i], v);
    }
  }

  lemma {:induction false} NullableUnion(c: Checks, s: Schema, v: Json)
    requires s.union.AnyOf?
    ensures Accepts(c, Nullable(s), v) <==> Accepts(c, s, v) || (v == Null && Accepts(c, s.(union := NoUnion), Null))
  {
    var members, longer := s.union.members, s.union.members + [NullSchema];
    UnionValidity(c, s, members, v);
    UnionValidity(c, s, longer, v);
    NullSchemaAccepts(c, v);
    assert s.(union := AnyOf(members)) == s;
    assert longer[|members|] == NullSchema;
    assert forall i | 0 <= i < |members| :: longer[i] == members[i];
  }

  /** A value of a checked schema is never null, and padding keeps its kind. */
  lemma {:induction false} PadKeepsKind(c: Checks, s: Schema, depth: nat, v: Json)
    requires InSubset(s, depth) && Accepts(c, s, v)
    ensures v != Null && Pad(s, v) != Null
    ensures v.Obj? <==> Pad(s, v).Obj?
    ensures v.Arr? <==> Pad(s, v).Arr?
    ensures !v.Obj? && !v.Arr? ==> Pad(s, v) == v
  {
  }

  /**
   A value valid for the operation file, padded with nulls at every level, is accepted by the strict
   schema exactly when it is paddable.
   */
  lemma {:induction false} StrictAcceptsPadded(c: Checks, s: Schema, depth: nat, v: Json)
    requires InSubset(s, depth) && Accepts(c, s, v)
    ensures Accepts(c, Strict(s), Pad(s, v)) <==> Paddable(s, v)
    decreases s, 2
  {
    PadKeepsKind(c, s, depth, v);
    if s.kind == Some(ArrayKind) {
      PaddedArray(c, s, depth, v);
    } else if s.kind == Some(ObjectKind) {
      PaddedObject(c, s, depth, v);
    } else {
      PaddedScalar(c, s, depth, v);
    }
  }

  lemma {:induction false} PaddedScalar(c: Checks, s: Schema, depth: nat, v: Json)
    requires InSubset(s, depth) && Accepts(c, s, v) && s.kind != Some(ArrayKind) && s.kind != Some(ObjectKind)
    ensures Accepts(c, Strict(s), v) && Pad(s, v) == v && Paddable(s, v)
  {
    assert LocallyValid(c, Strict(s), v);
  }

  lemma {:induction false} PaddedArray(c: Checks, s: Schema, depth: nat, v: Json)
    requires InSubset(s, depth) && Accepts(c, s, v) && s.kind == Some(ArrayKind)
    ensures Accepts(c, Strict(s), Pad(s, v)) <==> Paddable(s, v)
    decreases s, 0
  {
    var padded := Pad(s, v);
    forall i | 0 <= i < |v.items|
      ensures Accepts(c, Strict(s.items.value), padded.items[i]) <==> Paddable(s.items.value, v.items[i])
    {
      StrictAcceptsPadded(c, s.items.value, depth + 1, v.items[i]);
    }
    assert LocallyValid(c, Strict(s), padded) <==> (s.enum.Some? ==> padded in s.enum.value);
  }

  lemma {:induction false} PaddedProperty(c: Checks, s: Schema, depth: nat, v: Json, k: string)
    requires InSubset(s, depth) && Accepts(c, s, v) && s.kind == Some(ObjectKind) && k in s.properties
    ensures k in Pad(s, v).fields
    ensures Accepts(c, Strict(s).properties[k], Pad(s, v).fields[k])
        <==> (k in v.fields ==> Paddable(s.properties[k], v.fields[k]))
    decreases s, 0
  {
    StrictSchemaRequiresEverything(s.properties[k], depth + 1);
    NullableAccepts(c, Strict(s.properties[k]), Pad(s, v).fields[k]);
    if k in v.fields {
      PadKeepsKind(c, s.properties[k], depth + 1, v.fields[k]);
      StrictAcceptsPadded(c, s.properties[k], depth + 1, v.fields[k]);
    }
  }

  lemma {:induction false} PaddedLocally(c: Checks, s: Schema, depth: nat, v: Json)
    requires InSubset(s, depth) && Accepts(c, s, v) && s.kind == Some(ObjectKind)
    ensures LocallyValid(c, Strict(s), Pad(s, v)) <==>
              (s.enum.Some? ==> Pad(s, v) in s.enum.value) && v.fields.Keys <= s.properties.Keys
  {
    var padded, strict := Pad(s, v), Strict(s);
    assert strict.required == s.properties.Keys <= padded.fields.Keys;
    assert padded.fields.Keys == s.properties.Keys + v.fields.Keys;
  }

  lemma {:induction false} PaddedObject(c: Checks, s: Schema, depth: nat, v: Json)
    requires InSubset(s, depth) && Accepts(c, s, v) && s.kind == Some(ObjectKind)
    ensures Accepts(c, Strict(s), Pad(s, v)) <==> Paddable(s, v)
    decreases s, 1
  {
    PaddedLocally(c, s, depth, v);
    forall k | k in s.properties
      ensures k in Pad(s, v).fields
      ensures Accepts(c, Strict(s).properties[k], Pad(s, v).fields[k])
          <==> (k in v.fields ==> Paddable(s.properties[k], v.fields[k]))
    {
      PaddedProperty(c, s, depth, v, k);
    }
    ObjectValidity(c, Strict(s), Pad(s, v));
  }

  /** Validity of a closed object, property by property. */
  lemma {:induction false} ObjectValidity(c: Checks, s: Schema, v: Json)
    requires s.ref.None? && s.union.NoUnion? && s.additional.Closed? && v.Obj?
    ensures Accepts(c, s, v) <==>
              LocallyValid(c, s, v) &&
              forall k | k in s.properties :: k in v.fields ==> Accepts(c, s.properties[k], v.fields[k])
  {
  }

  /** Two things a file author can check: enumerations stand on scalars only, and objects say they are closed. */
  predicate ScalarEnums(s: Schema)
    decreases s
  {
    && (s.kind == Some(ObjectKind) || s.kind == Some(ArrayKind) ==> s.enum.None?)
    && (s.kind == Some(ObjectKind) ==>
          s.additional.Closed? && forall k | k in s.properties :: ScalarEnums(s.properties[k]))
    && (s.kind == Some(ArrayKind) && s.items.Some? ==> ScalarEnums(s.items.value))
  }

  lemma {:induction false} ScalarEnumsArePaddable(c: Checks, s: Schema, depth: nat, v: Json)
    requires InSubset(s, depth) && Accepts(c, s, v) && ScalarEnums(s)
    ensures Paddable(s, v)
    decreases s
  {
    if s.kind == Some(ArrayKind) {
      forall i | 0 <= i < |v.items| { ScalarEnumsArePaddable(c, s.items.value, depth + 1, v.items[i]); }
    } else if s.kind == Some(ObjectKind) {
      assert LocallyValid(c, s, v);
      forall k | k in s.properties && k in v.fields ensures Paddable(s.properties[k], v.fields[k]) {
        ScalarEnumsArePaddable(c, s.properties[k], depth + 1, v.fields[k]);
      }
    } else {
      PaddedScalar(c, s, depth, v);
    }
  }

  // ---- The way back ----

  /** No object inside `v` leaves out a declared property. */
  predicate Complete(s: Schema, v: Json)
    decreases s
  {
    && (s.kind == Some(ObjectKind) && v.Obj? ==>
          && s.properties.Keys <= v.fields.Keys
          && forall k | k in s.properties :: k in v.fields ==> Complete(s.properties[k], v.fields[k]))
    && (s.kind == Some(ArrayKind) && s.items.Some? && v.Arr? ==>
          forall i | 0 <= i < |v.items| :: Complete(s.items.value, v.items[i]))
  }

  lemma {:induction false} CompleteIsUnpadded(s: Schema, v: Json)
    requires Complete(s, v)
    ensures Pad(s, v) == v
    decreases s
  {
    if s.kind == Some(ObjectKind) && v.Obj? {
      forall k | k in s.properties ensures Pad(s.properties[k], v.fields[k]) == v.fields[k] {
        CompleteIsUnpadded(s.properties[k], v.fields[k]);
      }
      assert Pad(s, v).fields == v.fields;
    } else if s.kind == Some(ArrayKind) && s.items.Some? && v.Arr? {
      forall i | 0 <= i < |v.items| ensures Pad(s.items.value, v.items[i]) == v.items[i] {
        CompleteIsUnpadded(s.items.value, v.items[i]);
      }
      assert Pad(s, v).items == v.items;
    }
  }

  /** A padded value is valid for the file again only when there was nothing to pad. */
  lemma {:induction false} PaddedIsValidOnlyIfComplete(c: Checks, s: Schema, depth: nat, v: Json)
    requires InSubset(s, depth) && Accepts(c, s, v)
    ensures Accepts(c, s, Pad(s, v)) <==> Complete(s, v)
    decreases s
  {
    if Complete(s, v) {
      CompleteIsUnpadded(s, v);
    } else if s.kind == Some(ArrayKind) {
      var i :| 0 <= i < |v.items| && !Complete(s.items.value, v.items[i]);
      PaddedIsValidOnlyIfComplete(c, s.items.value, depth + 1, v.items[i]);
      assert Pad(s, v).items[i] == Pad(s.items.value, v.items[i]);
    } else {
      var k :| k in s.properties && (k !in v.fields || !Complete(s.properties[k], v.fields[k]));
      var padded := Pad(s, v);
      assert k in padded.fields;
      assert Accepts(c, s, padded) ==> Accepts(c, s.properties[k], padded.fields[k]);
      if k in v.fields {
        PaddedIsValidOnlyIfComplete(c, s.properties[k], depth + 1, v.fields[k]);
      } else {
        assert InSubset(s.properties[k], depth + 1) && padded.fields[k] == Null;
        assert !LocallyValid(c, s.properties[k], Null);
      }
    }
  }

  /** Every supplied top-level input is complete inside. */
  predicate CompleteInside(d: Definition, inputs: Values) {
    forall k | k in d.schema.properties :: k in inputs ==> Complete(d.schema.properties[k], inputs[k])
  }

  predicate NoNulls(inputs: Values) {
    forall k | k in inputs :: inputs[k] != Null
  }

  /** What padding and cleaning does to one supplied input. */
  lemma {:induction false} CleanedInput(c: Checks, d: Definition, inputs: Values, k: string)
    requires WellFormed(d) && InSubset(d.schema, 0) && ValidInputs(c, d, inputs, false) && k in inputs
    ensures var proposed := Clean(Pad(d.schema, Obj(inputs)).fields);
            if k in d.schema.properties then
              && inputs[k] != Null && k in proposed
              && (Accepts(c, d.schema.properties[k], proposed[k]) <==> Complete(d.schema.properties[k], inputs[k]))
              && (Complete(d.schema.properties[k], inputs[k]) <==> proposed[k] == inputs[k])
            else
              (k in proposed <==> inputs[k] != Null) && (k in proposed ==> proposed[k] == inputs[k])
  {
    if k in d.schema.properties {
      var s := d.schema.properties[k];
      assert Accepts(c, s, Obj(inputs).fields[k]);
      PadKeepsKind(c, s, 1, inputs[k]);
      PaddedIsValidOnlyIfComplete(c, s, 1, inputs[k]);
      if Complete(s, inputs[k]) { CompleteIsUnpadded(s, inputs[k]); }
    }
  }

  lemma {:induction false} CleanAddsNothing(d: Definition, inputs: Values)
    requires d.schema.kind == Some(ObjectKind)
    ensures Clean(Pad(d.schema, Obj(inputs)).fields).Keys <= inputs.Keys
  {
  }

  /**
   Proposing inputs, complete or not, through the strict tool. Padding the inputs and cleaning the proposal gives them
   back exactly when no object inside a supplied input leaves out a declared property, and no undeclared
   input was null: nulls below the top level stay, and nulls at the top level go. The file schema accepts
   the cleaned proposal in the same case, as it rejects the nulls that stayed.
   */
  lemma {:induction false} ProposalRoundTrip(c: Checks, d: Definition, inputs: Values)
    requires WellFormed(d) && InSubset(d.schema, 0) && ValidInputs(c, d, inputs, false)
    ensures var proposed := Clean(Pad(d.schema, Obj(inputs)).fields);
            && (proposed == inputs <==> CompleteInside(d, inputs) && NoNulls(inputs))
            && (NoNulls(inputs) ==> (ValidInputs(c, d, proposed, false) <==> CompleteInside(d, inputs)))
  {
    var proposed := Clean(Pad(d.schema, Obj(inputs)).fields);
    CleanAddsNothing(d, inputs);
    if CompleteInside(d, inputs) && NoNulls(inputs) {
      forall k | k in inputs ensures k in proposed && proposed[k] == inputs[k] {
        CleanedInput(c, d, inputs, k);
      }
      assert proposed == inputs;
    } else if k :| k in d.schema.properties && k in inputs && !Complete(d.schema.properties[k], inputs[k]) {
      CleanedInput(c, d, inputs, k);
      assert Obj(proposed).fields[k] == proposed[k];
    } else {
      var k :| k in inputs && inputs[k] == Null;
      CleanedInput(c, d, inputs, k);
    }
  }

  /** The strict tool takes the padded proposal of any inputs, required ones left out or not, that are paddable. */
  lemma {:induction false} StrictToolTakesPartialInputs(c: Checks, d: Definition, inputs: Values)
    requires WellFormed(d) && InSubset(d.schema, 0) && ValidInputs(c, d, inputs, false)
    ensures Accepts(c, Strict(d.schema), Pad(d.schema, Obj(inputs))) <==> Paddable(d.schema, Obj(inputs))
  {
    var s := d.schema.(required := {});
    StrictAcceptsPadded(c, s, 0, Obj(inputs));
    assert Strict(s) == Strict(d.schema);
    assert Pad(s, Obj(inputs)) == Pad(d.schema, Obj(inputs));
  }

  lemma {:induction false} OptionalInputsSuffice(c: Checks, d: Definition, inputs: Values)
    requires ValidInputs(c, d, inputs, true)
    ensures ValidInputs(c, d, inputs, false)
  {
    assert LocallyValid(c, d.schema, Obj(inputs));
  }

  // ---- Where it fails ----

  /** An optional string property. */
  const Text := Blank.(kind := Some(StringKind))

  /** An object enumeration with an optional property: the value it lists is not accepted once padded. */
  lemma {:induction false} EnumeratedObjectIsNotPaddable(c: Checks)
    ensures var s := OpenObject.(additional := Closed, properties := map["a" := Text], enum := Some([Obj(map[])]));
            && InSubset(s, 0) && Accepts(c, s, Obj(map[]))
            && !Paddable(s, Obj(map[])) && !Accepts(c, Strict(s), Pad(s, Obj(map[])))
  {
    var s := OpenObject.(additional := Closed, properties := map["a" := Text], enum := Some([Obj(map[])]));
    assert InSubset(Text, 1);
    assert Obj(map[]) in s.enum.value;
    assert LocallyValid(c, s, Obj(map[]));
    assert "a" in Pad(s, Obj(map[])).fields && Obj(map[]) != Pad(s, Obj(map[]));
    StrictAcceptsPadded(c, s, 0, Obj(map[]));
  }

  const Inner := OpenObject.(additional := Closed, properties := map["a" := Text])

  const Nested := OpenObject.(additional := Closed, properties := map["o" := Inner])

  lemma {:induction false} NestedAcceptsOmission(c: Checks)
    ensures SampleSchema(Nested) && Accepts(c, Nested, Obj(map["o" := Obj(map[])]))
  {
    assert InSubset(Text, 2);
    assert InSubset(Inner, 1);
    InnerAcceptsOmission(c);
    ObjectValidity(c, Nested, Obj(map["o" := Obj(map[])]));
  }

  lemma {:induction false} InnerAcceptsOmission(c: Checks)
    ensures Accepts(c, Inner, Obj(map[])) && !Complete(Inner, Obj(map[]))
  {
    ObjectValidity(c, Inner, Obj(map[]));
    assert "a" in Inner.properties.Keys;
  }

  /** An operation whose nested object has an optional property does not get back an input that omits it. */
  lemma {:induction false} NestedOmissionIsNotRestored(c: Checks)
    ensures var d := Sample("nested", Nested, false);
            var inputs: Values := map["o" := Obj(map[])];
            var proposed := Clean(Pad(d.schema, Obj(inputs)).fields);
            && Admissible(SampleTable, d, Core) && ValidInputs(c, d, inputs, true)
            && proposed != inputs && !ValidInputs(c, d, proposed, false)
  {
    var d := Sample("nested", Nested, false);
    var inputs: Values := map["o" := Obj(map[])];
    NestedAcceptsOmission(c);
    InnerAcceptsOmission(c);
    SampleIsAdmissible("nested", Nested, false);
    OptionalInputsSuffice(c, d, inputs);
    ProposalRoundTrip(c, d, inputs);
    assert "o" in d.schema.properties && d.schema.properties["o"] == Inner;
    assert inputs["o"] == Obj(map[]);
  }
}
