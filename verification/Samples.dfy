/** The smallest core operations, for showing that a promise fails: any input schema, one step, no effect. */
module Samples {
  import opened Prelude
  import opened JsonSchema
  import opened Workflow
  import opened Compiler

  const SampleReference := "p@1"

  const SamplePrimitive := Primitive(SampleReference, [], NoEffect, Never, {}, false, true, {})

  const SampleTable: Table := map[SampleReference := SamplePrimitive]

  const SampleStep := Step("s", SampleReference, [], None)

  const WholeRoute := RouteBinding("presentation", "${input}")

  function Sample(id: string, schema: Schema, routed: bool): Definition {
    Definition(id, 1, true, "", Discovery("", [], [], [], false), {}, NoEffect, schema, DecisionRoute,
               if routed then [WholeRoute] else [], None, [SampleStep], Never)
  }

  predicate SampleSchema(schema: Schema) {
    InSubset(schema, 0) && schema.kind == Some(ObjectKind)
  }

  lemma {:induction false} SampleIsWellFormed(id: string, schema: Schema, routed: bool)
    requires SampleSchema(schema)
    ensures WellFormed(Sample(id, schema, routed)) && StrategyTargets(Sample(id, schema, routed))
    ensures RoutingAdmissible(Sample(id, schema, routed), Core)
  {
  }

  lemma {:induction false} SampleDerives(id: string, schema: Schema, routed: bool)
    ensures Derives(SampleTable, Sample(id, schema, routed), Derived(NoEffect, Never, {}))
  {
    var d := Sample(id, schema, routed);
    assert d.steps[0].uses in SampleTable && SampleTable[d.steps[0].uses] == SamplePrimitive;
    assert PermissionsOf(SampleTable, d.steps) == {};
  }

  /** A sample compiles whatever its schema, as long as the checker admits that. */
  lemma {:induction false} SampleIsAdmissible(id: string, schema: Schema, routed: bool)
    requires SampleSchema(schema)
    ensures Admissible(SampleTable, Sample(id, schema, routed), Core)
  {
    SampleIsWellFormed(id, schema, routed);
    SampleDerives(id, schema, routed);
    assert StepAdmissible(SampleTable, Sample(id, schema, routed), Core, 0);
  }

  function SampleOperation(id: string): Compiled {
    Compiled(Sample(id, OpenObject, false), "", Core, Derived(NoEffect, Never, {}))
  }

  /** `type: object`, and nothing else. */
  const OpenObject := Blank.(kind := Some(ObjectKind))

  lemma {:induction false} SampleOperationIsSound(id: string)
    ensures Sound(SampleTable, SampleOperation(id))
  {
    SampleIsAdmissible(id, OpenObject, false);
    SampleDerives(id, OpenObject, false);
  }
}
