/** What stands behind every single call of a run: its arguments, and the guard it passed. */
module WorkflowCalls {
  import opened Prelude
  import opened JsonSchema
  import opened Workflow
  import opened Compiler
  import opened WorkflowSoundness

  // ---- The arguments of a call ----

  function KeysOf(bindings: seq<Binding>): set<string> {
    set i | 0 <= i < |bindings| :: bindings[i].key
  }

  lemma {:induction false} ResolvedKeys(bindings: seq<Binding>, inputs: Values, outputs: Values, item: Json,
                                        arguments: Values)
    ensures var r := ResolveAll(bindings, inputs, outputs, item, arguments);
            r.Success? ==> r.value.Keys == arguments.Keys + KeysOf(bindings)
    decreases |bindings|
  {
    if bindings != [] {
      var resolved := Resolve(bindings[0].value, inputs, outputs, item);
      if resolved.Success? {
        ResolvedKeys(bindings[1..], inputs, outputs, item, arguments[bindings[0].key := resolved.value]);
        forall k ensures k in KeysOf(bindings) <==> k == bindings[0].key || k in KeysOf(bindings[1..]) {
          if i :| 0 <= i < |bindings| && bindings[i].key == k && i > 0 {
            assert bindings[1..][i - 1].key == k;
          }
          if i :| 0 <= i < |bindings[1..]| && bindings[1..][i].key == k {
            assert bindings[i + 1].key == k;
          }
        }
      }
    }
  }

  /** The call's arguments are a map with exactly the step's keys, as the primitive coerces it. */
  ghost predicate Backed(w: World, target: Primitive, step: Step, c: Call) {
    && c.target == target
    && exists m: Values :: m.Keys == KeysOf(step.bindings) && w.coerce(target, m) == Some(c.arguments)
  }

  lemma {:induction false} OnceBacked(w: World, target: Primitive, step: Step, inputs: Values, outputs: Values,
                                      item: Json, trace: seq<Call>)
    ensures var o := RunOnce(w, target, step, inputs, outputs, item, trace);
            o.trace == trace ||
            (trace <= o.trace && |o.trace| == |trace| + 1 && Backed(w, target, step, o.trace[|trace|]))
  {
    ResolvedKeys(step.bindings, inputs, outputs, item, map[]);
    var o := RunOnce(w, target, step, inputs, outputs, item, trace);
    if o.trace != trace {
      var m := ResolveAll(step.bindings, inputs, outputs, item, map[]).value;
      assert m.Keys == KeysOf(step.bindings) && w.coerce(target, m) == Some(o.trace[|trace|].arguments);
    }
  }

  lemma {:induction false} ItemsBacked(w: World, target: Primitive, step: Step, inputs: Values, outputs: Values,
                                       items: seq<Json>, results: seq<Json>, trace: seq<Call>)
    ensures var o := RunItems(w, target, step, inputs, outputs, items, results, trace);
            trace <= o.trace && forall i | |trace| <= i < |o.trace| :: Backed(w, target, step, o.trace[i])
    decreases |items|
  {
    if items != [] {
      OnceBacked(w, target, step, inputs, outputs, items[0], trace);
      var once := RunOnce(w, target, step, inputs, outputs, items[0], trace);
      if once.Done? {
        ItemsBacked(w, target, step, inputs, outputs, items[1..], results + [once.value], once.trace);
      }
    }
  }

  /** Some step of the workflow stands behind the call. */
  ghost predicate BackedBySome(w: World, table: Table, steps: seq<Step>, c: Call) {
    exists k | 0 <= k < |steps| :: steps[k].uses in table && Backed(w, table[steps[k].uses], steps[k], c)
  }

  lemma {:induction false} StepsBacked(w: World, table: Table, steps: seq<Step>, inputs: Values, outputs: Values,
                                       trace: seq<Call>)
    ensures var o := RunSteps(w, table, steps, inputs, outputs, trace);
            trace <= o.trace && forall i | |trace| <= i < |o.trace| :: BackedBySome(w, table, steps, o.trace[i])
    decreases |steps|
  {
    if steps != [] {
      var step := steps[0];
      var once := RunStep(w, table, step, inputs, outputs, trace);
      var o := RunSteps(w, table, steps, inputs, outputs, trace);
      StepBacked(w, table, step, inputs, outputs, trace);
      if once.Done? {
        StepsBacked(w, table, steps[1..], inputs, outputs[step.id := once.value], once.trace);
      }
      forall i | |trace| <= i < |o.trace| ensures BackedBySome(w, table, steps, o.trace[i]) {
        if i < |once.trace| {
          assert o.trace[i] == once.trace[i];
        } else {
          assert BackedBySome(w, table, steps[1..], o.trace[i]);
          var k :| 0 <= k < |steps[1..]| && steps[1..][k].uses in table &&
            Backed(w, table[steps[1..][k].uses], steps[1..][k], o.trace[i]);
          assert steps[k + 1] == steps[1..][k];
        }
      }
    }
  }

  lemma {:induction false} StepBacked(w: World, table: Table, step: Step, inputs: Values, outputs: Values,
                                      trace: seq<Call>)
    ensures var o := RunStep(w, table, step, inputs, outputs, trace);
            && trace <= o.trace
            && forall i | |trace| <= i < |o.trace| ::
                 step.uses in table && Backed(w, table[step.uses], step, o.trace[i])
  {
    if step.uses in table && Iterable(step, inputs).Success? {
      ItemsBacked(w, table[step.uses], step, inputs, outputs, Iterable(step, inputs).value, [], trace);
    }
  }

  /** The key is a declared input of the primitive, by name or by alias. */
  predicate Names(f: InputField, key: string) {
    key == f.name || f.alias == Some(key)
  }

  /** The call was made with a map that names nothing undeclared and leaves no required input out. */
  ghost predicate Sufficient(w: World, c: Call) {
    exists m: Values ::
      && w.coerce(c.target, m) == Some(c.arguments)
      && (forall key | key in m :: exists f | 0 <= f < |c.target.fields| :: Names(c.target.fields[f], key))
      && forall f | 0 <= f < |c.target.fields| && c.target.fields[f].required ::
           exists key :: key in m && Names(c.target.fields[f], key)
  }

  lemma {:induction false} SuppliedMeans(step: Step, key: string)
    ensures key in Supplied(step) <==> exists b | b in step.bindings :: b.key == key
  {
    if i :| 0 <= i < |step.bindings| && step.bindings[i].key == key {
      assert step.bindings[i] in step.bindings;
    }
  }

  lemma {:induction false} AcceptedMeans(target: Primitive, key: string)
    ensures key in AcceptedInputs(target) <==> exists f | f in target.fields :: Names(f, key)
  {
    if f :| f in target.fields && Names(f, key) {
      var j :| 0 <= j < |target.fields| && target.fields[j] == f;
      assert key == target.fields[j].name || key == target.fields[j].Key();
    }
    if i :| 0 <= i < |target.fields| && (target.fields[i].name == key || target.fields[i].Key() == key) {
      assert target.fields[i] in target.fields && Names(target.fields[i], key);
    }
  }

  lemma {:induction false} RequiredMeans(step: Step, f: InputField)
    ensures f.name in Supplied(step) || f.Key() in Supplied(step) <==> exists b | b in step.bindings :: Names(f, b.key)
  {
    SuppliedMeans(step, f.name);
    SuppliedMeans(step, f.Key());
    if b :| b in step.bindings && Names(f, b.key) {
      assert b.key == f.name || b.key == f.Key();
    }
  }

  ghost predicate NothingUnknown(target: Primitive, step: Step) {
    forall b | b in step.bindings :: exists f | f in target.fields :: Names(f, b.key)
  }

  ghost predicate NothingMissing(target: Primitive, step: Step) {
    forall f | f in target.fields && f.required :: exists b | b in step.bindings :: Names(f, b.key)
  }

  lemma {:induction false} UnknownIsCheckedExactly(target: Primitive, step: Step)
    ensures Supplied(step) <= AcceptedInputs(target) <==> NothingUnknown(target, step)
  {
    if Supplied(step) <= AcceptedInputs(target) {
      forall b | b in step.bindings ensures exists f | f in target.fields :: Names(f, b.key) {
        SuppliedMeans(step, b.key);
        AcceptedMeans(target, b.key);
      }
    }
    if NothingUnknown(target, step) {
      forall key | key in Supplied(step) ensures key in AcceptedInputs(target) {
        SuppliedMeans(step, key);
        AcceptedMeans(target, key);
      }
    }
  }

  /** The input test of the checker, exactly. */
  lemma {:induction false} InputsAreCheckedExactly(target: Primitive, step: Step)
    ensures SuppliesInputs(target, step) <==> NothingUnknown(target, step) && NothingMissing(target, step)
  {
    UnknownIsCheckedExactly(target, step);
    if SuppliesInputs(target, step) {
      forall f | f in target.fields && f.required ensures exists b | b in step.bindings :: Names(f, b.key) {
        RequiredMeans(step, f);
        var i :| 0 <= i < |target.fields| && target.fields[i] == f;
      }
    }
    if NothingMissing(target, step) {
      forall i | 0 <= i < |target.fields| && target.fields[i].required
        ensures target.fields[i].name in Supplied(step) || target.fields[i].Key() in Supplied(step)
      {
        assert target.fields[i] in target.fields;
        RequiredMeans(step, target.fields[i]);
      }
    }
  }

  /** A step that leaves a required input of its primitive out is refused. */
  lemma {:induction false} MissingInputIsRefused(table: Table, d: Definition, source: Source, k: nat, f: nat)
    requires k < |d.steps| && d.steps[k].uses in table && f < |table[d.steps[k].uses].fields|
    requires var field := table[d.steps[k].uses].fields[f];
             field.required && forall b | b in d.steps[k].bindings :: !Names(field, b.key)
    ensures !Admissible(table, d, source)
  {
    var step, target := d.steps[k], table[d.steps[k].uses];
    InputsAreCheckedExactly(target, step);
    assert target.fields[f] in target.fields && !SuppliesInputs(target, step);
    assert Admissible(table, d, source) ==> StepAdmissible(table, d, source, k);
  }

  /** So is one that supplies an input its primitive does not have. */
  lemma {:induction false} UnknownInputIsRefused(table: Table, d: Definition, source: Source, k: nat, i: nat)
    requires k < |d.steps| && d.steps[k].uses in table && i < |d.steps[k].bindings|
    requires forall f | f in table[d.steps[k].uses].fields :: !Names(f, d.steps[k].bindings[i].key)
    ensures !Admissible(table, d, source)
  {
    var step, target := d.steps[k], table[d.steps[k].uses];
    InputsAreCheckedExactly(target, step);
    assert step.bindings[i] in step.bindings && !SuppliesInputs(target, step);
    assert Admissible(table, d, source) ==> StepAdmissible(table, d, source, k);
  }

  lemma {:induction false} KeysSuffice(target: Primitive, step: Step, m: Values)
    requires SuppliesInputs(target, step) && m.Keys == KeysOf(step.bindings)
    ensures forall key | key in m :: exists f | 0 <= f < |target.fields| :: Names(target.fields[f], key)
    ensures forall f | 0 <= f < |target.fields| && target.fields[f].required ::
              exists key :: key in m && Names(target.fields[f], key)
  {
    assert m.Keys == Supplied(step);
    forall key | key in m ensures exists f | 0 <= f < |target.fields| :: Names(target.fields[f], key) {
      AcceptedMeans(target, key);
      var f :| f in target.fields && Names(f, key);
      var j :| 0 <= j < |target.fields| && target.fields[j] == f;
    }
    forall f | 0 <= f < |target.fields| && target.fields[f].required
      ensures exists key :: key in m && Names(target.fields[f], key)
    {
      var field := target.fields[f];
      assert field.name in m || field.Key() in m;
      assert Names(field, field.name) && Names(field, field.Key());
    }
  }

  lemma {:induction false} BackedIsSufficient(w: World, target: Primitive, step: Step, c: Call)
    requires SuppliesInputs(target, step) && Backed(w, target, step, c)
    ensures Sufficient(w, c)
  {
    var m: Values :| m.Keys == KeysOf(step.bindings) && w.coerce(target, m) == Some(c.arguments);
    KeysSuffice(target, step, m);
  }

  lemma {:induction false} StepsSupplyInputs(table: Table, d: Definition, source: Source)
    requires Admissible(table, d, source)
    ensures forall k | 0 <= k < |d.steps| ::
              d.steps[k].uses in table && SuppliesInputs(table[d.steps[k].uses], d.steps[k])
  {
    forall k | 0 <= k < |d.steps|
      ensures d.steps[k].uses in table && SuppliesInputs(table[d.steps[k].uses], d.steps[k])
    {
      assert StepAdmissible(table, d, source, k);
    }
  }

  /**
   Every call of every run of an accepted operation is made with an argument map whose keys the primitive
   declares and in which none of its required inputs is missing.
   */
  lemma {:induction false} CallsSupplyWhatPrimitivesRequire(w: World, table: Table, d: Definition, source: Source,
                                                            inputs: Values)
    requires Admissible(table, d, source)
    ensures var o := Execute(w, table, d, inputs); forall i | 0 <= i < |o.trace| :: Sufficient(w, o.trace[i])
  {
    var o := Execute(w, table, d, inputs);
    if ValidInputs(w.checks, d, inputs, true) {
      StepsBacked(w, table, d.steps, inputs, map[], []);
      StepsSupplyInputs(table, d, source);
      forall i | 0 <= i < |o.trace| ensures Sufficient(w, o.trace[i]) {
        assert BackedBySome(w, table, d.steps, o.trace[i]);
        var k :| 0 <= k < |d.steps| && d.steps[k].uses in table &&
          Backed(w, table[d.steps[k].uses], d.steps[k], o.trace[i]);
        BackedIsSufficient(w, table[d.steps[k].uses], d.steps[k], o.trace[i]);
      }
    }
  }

  // ---- The guard ----

  /** The primitive may run for a managed operation. */
  predicate MayRun(target: Primitive) {
    target.authorable && target.executable
  }

  /** Whatever the guard refuses is the last thing that happens. */
  ghost predicate GuardHeld<T>(o: Outcome<T>, from: nat) {
    forall i | from <= i < |o.trace| && !MayRun(o.trace[i].target) ::
      i == |o.trace| - 1 && o.Stopped? && o.fault == InvokerRefused(NotManaged)
  }

  lemma {:induction false} GuardHoldsItems(w: World, target: Primitive, step: Step, inputs: Values, outputs: Values,
                                           items: seq<Json>, results: seq<Json>, trace: seq<Call>)
    ensures var o := RunItems(Guarded(w), target, step, inputs, outputs, items, results, trace);
            trace <= o.trace && GuardHeld(o, |trace|)
    decreases |items|
  {
    if items != [] {
      var once := RunOnce(Guarded(w), target, step, inputs, outputs, items[0], trace);
      if once.Done? {
        assert MayRun(target);
        GuardHoldsItems(w, target, step, inputs, outputs, items[1..], results + [once.value], once.trace);
      }
    }
  }

  lemma {:induction false} GuardHoldsStep(w: World, table: Table, step: Step, inputs: Values, outputs: Values,
                                          trace: seq<Call>)
    ensures var o := RunStep(Guarded(w), table, step, inputs, outputs, trace);
            trace <= o.trace && GuardHeld(o, |trace|)
  {
    if step.uses in table && Iterable(step, inputs).Success? {
      GuardHoldsItems(w, table[step.uses], step, inputs, outputs, Iterable(step, inputs).value, [], trace);
    }
  }

  lemma {:induction false} GuardHoldsSteps(w: World, table: Table, steps: seq<Step>, inputs: Values, outputs: Values,
                                           trace: seq<Call>)
    ensures var o := RunSteps(Guarded(w), table, steps, inputs, outputs, trace);
            trace <= o.trace && GuardHeld(o, |trace|)
    decreases |steps|
  {
    if steps != [] {
      GuardHoldsStep(w, table, steps[0], inputs, outputs, trace);
      var once := RunStep(Guarded(w), table, steps[0], inputs, outputs, trace);
      if once.Done? {
        GuardHoldsSteps(w, table, steps[1..], inputs, outputs[steps[0].id := once.value], once.trace);
      }
    }
  }

  /**
   The security boundary: through the guarded invoker, a run that asks for a primitive that managed files
   may not use, or that cannot be executed, stops right there with that refusal.
   */
  lemma {:induction false} GuardStopsProtectedPrimitives(w: World, table: Table, d: Definition, inputs: Values)
    ensures GuardHeld(Execute(Guarded(w), table, d, inputs), 0)
  {
    if ValidInputs(w.checks, d, inputs, true) {
      GuardHoldsSteps(w, table, d.steps, inputs, map[], []);
    }
  }

  /** The budget in plain numbers. */
  lemma {:induction false} BudgetCounts(steps: seq<Step>)
    ensures Budget(steps) == |PlainSteps(steps)| + 100 * |LoopSteps(steps)|
  {
    if steps != [] {
      BudgetCounts(steps[1..]);
    }
  }

  function PlainSteps(steps: seq<Step>): seq<Step> {
    if steps == [] then [] else (if steps[0].forEach.None? then [steps[0]] else []) + PlainSteps(steps[1..])
  }

  function LoopSteps(steps: seq<Step>): seq<Step> {
    if steps == [] then [] else (if steps[0].forEach.Some? then [steps[0]] else []) + LoopSteps(steps[1..])
  }

  lemma {:induction false} BudgetAtMost(steps: seq<Step>)
    ensures Budget(steps) <= 100 * |steps|
  {
    if steps != [] {
      BudgetAtMost(steps[1..]);
    }
  }

  /** No run of a compiled operation makes more than five thousand calls. */
  lemma {:induction false} AtMostFiveThousandCalls(w: World, table: Table, op: Compiled, inputs: Values)
    requires Sound(table, op)
    ensures |Execute(w, table, op.definition, inputs).trace| <= 5000
  {
    DerivedAuthorityBoundsEveryRun(w, table, op, inputs);
    BudgetAtMost(op.definition.steps);
  }
}
