/**
 Type soundness of the operation language: what the static checker guarantees about every run of
 the interpreter, for every primitive table, every invoker and every input.
 */
module WorkflowSoundness {
  import opened Prelude
  import opened JsonSchema
  import opened Workflow
  import opened References
  import opened Compiler

  /**
   The answer has the output fields the primitive declares. One that declares none may answer anything: the
   protected primitives answer with a response object no field can be read from.
   */
  predicate HasFields(target: Primitive, answer: Json) {
    target.outputFields != {} ==> answer.Obj? && target.outputFields <= answer.fields.Keys
  }

  /** Whenever the invoker answers, it answers at least the output fields the primitive declares. */
  ghost predicate Honest(w: World) {
    forall history: seq<Call> | history != [] && w.respond(history).Success? ::
      HasFields(history[|history| - 1].target, w.respond(history).value)
  }

  /** A world that refuses nothing: every argument map is coerced and every call is answered. */
  ghost predicate Total(w: World) {
    && (forall target, arguments :: w.coerce(target, arguments).Some?)
    && (forall history :: w.respond(history).Success?)
  }

  /** The items step `k` loops over: one pass without `forEach`, none if the array was omitted. */
  function Items(step: Step, inputs: Values): seq<Json> {
    match Iterable(step, inputs)
    case Success(items) => items
    case Failure(_) => []
  }

  /** Every input the bindings name was supplied. */
  predicate AllSupplied(bindings: seq<Binding>, inputs: Values) {
    forall j | 0 <= j < |bindings| :: SuppliedFor(bindings[j].value, inputs)
  }

  predicate SuppliedFor(v: Json, inputs: Values) {
    SafeBinding(v) && Meaning(v).Input? ==> Meaning(v).name in inputs
  }

  /** The step's `forEach` array was supplied and, if its body runs at all, so was every input it names. */
  predicate StepReady(step: Step, inputs: Values) {
    && (step.forEach.Some? ==> Unwrap(step.forEach.value, InputOpen) in inputs)
    && (Items(step, inputs) != [] ==> AllSupplied(step.bindings, inputs))
  }

  predicate Ready(d: Definition, inputs: Values) {
    forall k | 0 <= k < |d.steps| :: StepReady(d.steps[k], inputs)
  }

  /** The step's output is there, and is the list of its answers or an answer with the declared fields. */
  predicate OutputTyped(table: Table, step: Step, inputs: Values, outputs: Values) {
    && step.id in outputs
    && step.uses in table
    && var answer := outputs[step.id];
       if step.forEach.Some?
       then answer.Arr? && |answer.items| == |Items(step, inputs)|
       else HasFields(table[step.uses], answer)
  }

  /** What is known of `outputs` when step `k` begins. */
  ghost predicate OutputsTyped(table: Table, d: Definition, k: nat, inputs: Values, outputs: Values)
    requires k <= |d.steps|
  {
    && (forall id | id in outputs :: exists j | 0 <= j < k :: d.steps[j].id == id)
    && forall j | 0 <= j < k :: OutputTyped(table, d.steps[j], inputs, outputs)
  }

  /** The only ways a checked workflow may stop early. */
  predicate Excusable(d: Definition, inputs: Values, f: Fault) {
    || f.RejectedArguments?
    || f.InvokerRefused?
    || (f.MissingInput? && f.name in d.schema.properties && f.name !in d.schema.required && f.name !in inputs)
  }

  // ---- One step ----

  lemma {:induction false} InputsDeclared(c: Checks, d: Definition, inputs: Values)
    requires WellFormed(d) && ValidInputs(c, d, inputs, true)
    ensures d.schema.required <= inputs.Keys
    ensures forall k | k in d.schema.properties && k in inputs :: Accepts(c, d.schema.properties[k], inputs[k])
  {
    assert Obj(inputs).fields == inputs;
    assert LocallyValid(c, d.schema, Obj(inputs));
  }

  /** The iteration of an admitted step fails only on an omitted optional array. */
  lemma {:induction false} IterationIsTyped(c: Checks, table: Table, d: Definition, source: Source, k: nat,
                                            inputs: Values)
    requires Admissible(table, d, source) && k < |d.steps| && ValidInputs(c, d, inputs, true)
    ensures match Iterable(d.steps[k], inputs)
            case Success(items) =>
              (d.steps[k].forEach.None? ==> |items| == 1) && |items| <= 100 &&
              (d.steps[k].forEach.Some? ==> Unwrap(d.steps[k].forEach.value, InputOpen) in inputs)
            case Failure(f) => f.MissingInput? && Excusable(d, inputs, f) && !StepReady(d.steps[k], inputs)
  {
    var step := d.steps[k];
    assert StepAdmissible(table, d, source, k);
    InputsDeclared(c, d, inputs);
    if step.forEach.Some? {
      var field := Unwrap(step.forEach.value, InputOpen);
      assert InSubset(d.schema.properties[field], 1);
    }
  }

  /** Resolving the value succeeds, or names an omitted optional input. */
  predicate ResolvesOrMisses(d: Definition, v: Json, inputs: Values, outputs: Values, item: Json) {
    match Resolve(v, inputs, outputs, item)
    case Failure(f) => f.MissingInput? && Excusable(d, inputs, f) && !SuppliedFor(v, inputs)
    case Success(_) => SuppliedFor(v, inputs)
  }

  /** All bindings resolve, or one names an omitted optional input. */
  predicate ArgumentsResolveOrMiss(d: Definition, bindings: seq<Binding>, inputs: Values, outputs: Values, item: Json,
                                   arguments: Values)
  {
    match ResolveAll(bindings, inputs, outputs, item, arguments)
    case Failure(f) => f.MissingInput? && Excusable(d, inputs, f) && !AllSupplied(bindings, inputs)
    case Success(_) => AllSupplied(bindings, inputs)
  }

  /** Every binding of an admitted step resolves, unless it names an omitted optional input. */
  lemma {:induction false} BindingIsTyped(c: Checks, table: Table, d: Definition, k: nat, v: Json, inputs: Values,
                                          outputs: Values, item: Json)
    requires WellFormed(d) && k < |d.steps| && ValidInputs(c, d, inputs, true)
    requires SafeBinding(v) && Typed(table, d, k, Meaning(v)) && OutputsTyped(table, d, k, inputs, outputs)
    ensures ResolvesOrMisses(d, v, inputs, outputs, item)
  {
    ResolveComputesMeaning(v, inputs, outputs, item);
    InputsDeclared(c, d, inputs);
    if Meaning(v).Output? {
      var j :| 0 <= j < k && d.steps[j].id == Meaning(v).step;
      assert OutputTyped(table, d.steps[j], inputs, outputs);
    }
  }

  lemma {:induction false} ArgumentsAreTyped(d: Definition, bindings: seq<Binding>, inputs: Values, outputs: Values,
                                             item: Json, arguments: Values)
    requires forall j | 0 <= j < |bindings| :: ResolvesOrMisses(d, bindings[j].value, inputs, outputs, item)
    ensures ArgumentsResolveOrMiss(d, bindings, inputs, outputs, item, arguments)
    decreases |bindings|
  {
    if bindings != [] {
      assert ResolvesOrMisses(d, bindings[0].value, inputs, outputs, item);
      var resolved := Resolve(bindings[0].value, inputs, outputs, item);
      if resolved.Success? {
        ArgumentsAreTyped(d, bindings[1..], inputs, outputs, item, arguments[bindings[0].key := resolved.value]);
        assert forall j | 0 < j < |bindings| :: bindings[j] == bindings[1..][j - 1];
      }
    }
  }

  /** For every item, resolving the step's arguments succeeds or misses an omitted optional input. */
  ghost predicate BindingsResolve(d: Definition, step: Step, inputs: Values, outputs: Values) {
    forall item :: ArgumentsResolveOrMiss(d, step.bindings, inputs, outputs, item, map[])
  }

  lemma {:induction false} BindingsAreTyped(c: Checks, table: Table, d: Definition, source: Source, k: nat,
                                            inputs: Values, outputs: Values)
    requires Admissible(table, d, source) && k < |d.steps| && ValidInputs(c, d, inputs, true)
    requires OutputsTyped(table, d, k, inputs, outputs)
    ensures BindingsResolve(d, d.steps[k], inputs, outputs)
  {
    assert StepAdmissible(table, d, source, k);
    var bindings := d.steps[k].bindings;
    forall item ensures ArgumentsResolveOrMiss(d, bindings, inputs, outputs, item, map[]) {
      forall j | 0 <= j < |bindings| ensures ResolvesOrMisses(d, bindings[j].value, inputs, outputs, item) {
        BindingIsTyped(c, table, d, k, bindings[j].value, inputs, outputs, item);
      }
      ArgumentsAreTyped(d, bindings, inputs, outputs, item, map[]);
    }
  }

  predicate AllAnswer(target: Primitive, results: seq<Json>) {
    forall j | 0 <= j < |results| :: HasFields(target, results[j])
  }

  /** One call stops only excusably, and is answered with the declared fields otherwise. */
  lemma {:induction false} CallIsTyped(w: World, d: Definition, target: Primitive, step: Step, inputs: Values,
                                       outputs: Values, item: Json, trace: seq<Call>)
    requires Honest(w) && ArgumentsResolveOrMiss(d, step.bindings, inputs, outputs, item, map[])
    ensures match RunOnce(w, target, step, inputs, outputs, item, trace)
            case Stopped(f, _) => Excusable(d, inputs, f) && (f.MissingInput? ==> !AllSupplied(step.bindings, inputs))
                                  && (Total(w) ==> f.MissingInput?)
            case Done(answer, _) => AllAnswer(target, [answer]) && AllSupplied(step.bindings, inputs)
  {
    var once := RunOnce(w, target, step, inputs, outputs, item, trace);
    if once.Done? {
      assert once.trace[|once.trace| - 1].target == target;
    }
  }

  lemma {:induction false} AnswersExtend(target: Primitive, results: seq<Json>, answer: Json)
    requires AllAnswer(target, results) && AllAnswer(target, [answer])
    ensures AllAnswer(target, results + [answer])
  {
    assert [answer][0] == answer;
  }

  /** What a pass over the items of one step leaves behind. */
  lemma {:induction false} ItemsAreTyped(w: World, d: Definition, target: Primitive, step: Step, inputs: Values,
                                         outputs: Values, items: seq<Json>, results: seq<Json>, trace: seq<Call>)
    requires Honest(w) && BindingsResolve(d, step, inputs, outputs) && AllAnswer(target, results)
    ensures match RunItems(w, target, step, inputs, outputs, items, results, trace)
            case Stopped(f, _) =>
              && Excusable(d, inputs, f) && items != []
              && (f.MissingInput? ==> !AllSupplied(step.bindings, inputs))
              && (Total(w) ==> f.MissingInput?)
            case Done(answers, _) =>
              && |answers| == |results| + |items| && AllAnswer(target, answers)
              && (items != [] ==> AllSupplied(step.bindings, inputs))
    decreases |items|
  {
    if items != [] {
      CallIsTyped(w, d, target, step, inputs, outputs, items[0], trace);
      match RunOnce(w, target, step, inputs, outputs, items[0], trace) {
        case Stopped(_, _) =>
        case Done(answer, asked) =>
          AnswersExtend(target, results, answer);
          ItemsAreTyped(w, d, target, step, inputs, outputs, items[1..], results + [answer], asked);
      }
    }
  }

  /** The knowledge about earlier outputs extends to the step that has just answered. */
  lemma {:induction false} OutputsExtend(table: Table, d: Definition, k: nat, inputs: Values, outputs: Values,
                                         answer: Json)
    requires WellFormed(d) && k < |d.steps| && OutputsTyped(table, d, k, inputs, outputs)
    requires d.steps[k].uses in table
    requires if d.steps[k].forEach.Some?
             then answer.Arr? && |answer.items| == |Items(d.steps[k], inputs)|
             else HasFields(table[d.steps[k].uses], answer)
    ensures OutputsTyped(table, d, k + 1, inputs, outputs[d.steps[k].id := answer])
  {
    var extended := outputs[d.steps[k].id := answer];
    forall id | id in extended ensures exists j | 0 <= j < k + 1 :: d.steps[j].id == id {
      if id != d.steps[k].id { var j :| 0 <= j < k && d.steps[j].id == id; }
    }
    forall j | 0 <= j < k + 1 ensures OutputTyped(table, d.steps[j], inputs, extended) {
      if j < k {
        assert d.steps[j].id != d.steps[k].id;
        assert OutputTyped(table, d.steps[j], inputs, outputs);
      }
    }
  }

  /** What a step comes to: an excusable stop, or outputs the next step may rely on. */
  ghost predicate StepGoesWell(w: World, table: Table, d: Definition, k: nat, inputs: Values, outputs: Values,
                               trace: seq<Call>)
    requires k < |d.steps|
  {
    match RunStep(w, table, d.steps[k], inputs, outputs, trace)
    case Stopped(f, _) =>
      Excusable(d, inputs, f) && (f.MissingInput? ==> !StepReady(d.steps[k], inputs)) && (Total(w) ==> f.MissingInput?)
    case Done(answer, _) =>
      StepReady(d.steps[k], inputs) && OutputsTyped(table, d, k + 1, inputs, outputs[d.steps[k].id := answer])
  }

  /** One step: it stops only excusably, and otherwise leaves outputs the next step may rely on. */
  lemma {:induction false} StepIsTyped(w: World, table: Table, d: Definition, source: Source, k: nat, inputs: Values,
                                       outputs: Values, trace: seq<Call>)
    requires Admissible(table, d, source) && k < |d.steps| && ValidInputs(w.checks, d, inputs, true) && Honest(w)
    requires OutputsTyped(table, d, k, inputs, outputs)
    ensures StepGoesWell(w, table, d, k, inputs, outputs, trace)
  {
    var step := d.steps[k];
    StepsUseKnownPrimitives(table, d, source);
    IterationIsTyped(w.checks, table, d, source, k, inputs);
    BindingsAreTyped(w.checks, table, d, source, k, inputs, outputs);
    StepOutcome(w, table, d, k, inputs, outputs, trace);
  }

  lemma {:induction false} StepOutcome(w: World, table: Table, d: Definition, k: nat, inputs: Values, outputs: Values,
                                       trace: seq<Call>)
    requires WellFormed(d) && k < |d.steps| && Honest(w) && d.steps[k].uses in table
    requires OutputsTyped(table, d, k, inputs, outputs) && BindingsResolve(d, d.steps[k], inputs, outputs)
    requires match Iterable(d.steps[k], inputs)
             case Success(items) => (d.steps[k].forEach.None? ==> |items| == 1) &&
               (d.steps[k].forEach.Some? ==> Unwrap(d.steps[k].forEach.value, InputOpen) in inputs)
             case Failure(f) => f.MissingInput? && Excusable(d, inputs, f) && !StepReady(d.steps[k], inputs)
    ensures StepGoesWell(w, table, d, k, inputs, outputs, trace)
  {
    var step := d.steps[k];
    if Iterable(step, inputs).Success? {
      ItemsAreTyped(w, d, table[step.uses], step, inputs, outputs, Iterable(step, inputs).value, [], trace);
      var o := RunStep(w, table, step, inputs, outputs, trace);
      if o.Done? {
        OutputsExtend(table, d, k, inputs, outputs, o.value);
      }
    }
  }

  lemma {:induction false} StepsUseKnownPrimitives(table: Table, d: Definition, source: Source)
    requires Admissible(table, d, source)
    ensures forall k | 0 <= k < |d.steps| ::
              d.steps[k].uses in table && (source.Managed? ==> table[d.steps[k].uses].authorable)
  {
    forall k | 0 <= k < |d.steps|
      ensures d.steps[k].uses in table && (source.Managed? ==> table[d.steps[k].uses].authorable)
    {
      assert StepAdmissible(table, d, source, k);
    }
  }

  // ---- Whole runs ----

  ghost predicate StepsGoWell(w: World, table: Table, d: Definition, inputs: Values) {
    forall k, outputs, trace | 0 <= k < |d.steps| && OutputsTyped(table, d, k, inputs, outputs) ::
      StepGoesWell(w, table, d, k, inputs, outputs, trace)
  }

  lemma {:induction false} StepsAreTyped(w: World, table: Table, d: Definition, source: Source, inputs: Values)
    requires Admissible(table, d, source) && ValidInputs(w.checks, d, inputs, true) && Honest(w)
    ensures StepsGoWell(w, table, d, inputs)
  {
    forall k, outputs, trace | 0 <= k < |d.steps| && OutputsTyped(table, d, k, inputs, outputs)
      ensures StepGoesWell(w, table, d, k, inputs, outputs, trace)
    {
      StepIsTyped(w, table, d, source, k, inputs, outputs, trace);
    }
  }

  lemma {:induction false} RunIsTyped(w: World, table: Table, d: Definition, k: nat, inputs: Values, outputs: Values,
                                      trace: seq<Call>)
    requires k <= |d.steps| && StepsGoWell(w, table, d, inputs) && OutputsTyped(table, d, k, inputs, outputs)
    ensures match RunSteps(w, table, d.steps[k..], inputs, outputs, trace)
            case Stopped(f, _) => Excusable(d, inputs, f) && (f.MissingInput? ==> !Ready(d, inputs))
                                  && (Total(w) ==> f.MissingInput?)
            case Done(final, _) => OutputsTyped(table, d, |d.steps|, inputs, final) &&
                                   forall j | k <= j < |d.steps| :: StepReady(d.steps[j], inputs)
    decreases |d.steps| - k
  {
    if k < |d.steps| {
      assert d.steps[k..][0] == d.steps[k] && d.steps[k..][1..] == d.steps[k + 1..];
      assert StepGoesWell(w, table, d, k, inputs, outputs, trace);
      match RunStep(w, table, d.steps[k], inputs, outputs, trace) {
        case Stopped(_, _) =>
        case Done(answer, asked) =>
          RunIsTyped(w, table, d, k + 1, inputs, outputs[d.steps[k].id := answer], asked);
      }
    }
  }

  /**
   Checked workflows do not get stuck. Whatever the invoker does, a run over valid inputs never reads
   a missing step, a missing field or a loop result as an object, never iterates a non-array and never
   meets a malformed reference or an unknown primitive; the one lookup that can fail is that of a
   declared optional input the caller left out. A finished run has exactly one output per step: the
   list of answers, one per item, for a `forEach` step, and the answer itself otherwise.
   */
  lemma {:induction false} CheckedWorkflowsDoNotGetStuck(w: World, table: Table, d: Definition, source: Source,
                                                         inputs: Values)
    requires Admissible(table, d, source) && Honest(w) && ValidInputs(w.checks, d, inputs, true)
    ensures match Execute(w, table, d, inputs)
            case Stopped(f, _) => Excusable(d, inputs, f)
            case Done(outputs, _) =>
              && OutputsTyped(table, d, |d.steps|, inputs, outputs)
              && |outputs| == |d.steps|
  {
    StepsAreTyped(w, table, d, source, inputs);
    RunIsTyped(w, table, d, 0, inputs, map[], []);
    assert d.steps[0..] == d.steps;
    var o := Execute(w, table, d, inputs);
    if o.Done? {
      OneOutputPerStep(table, d, inputs, o.value);
    }
  }

  lemma {:induction false} OneOutputPerStep(table: Table, d: Definition, inputs: Values, outputs: Values)
    requires WellFormed(d) && OutputsTyped(table, d, |d.steps|, inputs, outputs)
    ensures |outputs| == |d.steps|
  {
    var ids := seq(|d.steps|, i requires 0 <= i < |d.steps| => d.steps[i].id);
    DistinctSize(ids);
    assert Elements(ids) == outputs.Keys by {
      forall id ensures id in ids <==> id in outputs {
        if id in outputs {
          var j :| 0 <= j < |d.steps| && d.steps[j].id == id;
          assert ids[j] == id;
        }
        if id in ids {
          var j :| 0 <= j < |d.steps| && ids[j] == id;
          assert OutputTyped(table, d.steps[j], inputs, outputs);
        }
      }
    }
  }

  /**
   Exactly when the inputs suffice: against a world that refuses nothing, a run over valid inputs
   finishes if and only if every `forEach` array was supplied and every input named by a step that
   runs at least once was supplied.
   */
  lemma {:induction false} FinishesExactlyWhenReady(w: World, table: Table, d: Definition, source: Source,
                                                    inputs: Values)
    requires Admissible(table, d, source) && Honest(w) && Total(w) && ValidInputs(w.checks, d, inputs, true)
    ensures Execute(w, table, d, inputs).Done? <==> Ready(d, inputs)
  {
    StepsAreTyped(w, table, d, source, inputs);
    RunIsTyped(w, table, d, 0, inputs, map[], []);
    assert d.steps[0..] == d.steps;
  }

  // ---- What a run may invoke ----

  /** Call number `i` of a run was made by some step of the workflow, through that step's primitive. */
  predicate Declared(table: Table, steps: seq<Step>, c: Call) {
    exists k | 0 <= k < |steps| ::
      steps[k].id == c.step && steps[k].uses in table && table[steps[k].uses] == c.target
  }

  function Repeat(id: string, n: nat): seq<string> {
    seq(n, i => id)
  }

  /** The order of invocations the file prescribes: each step once, or once per item. */
  function Schedule(steps: seq<Step>, inputs: Values): seq<string> {
    if steps == [] then [] else Repeat(steps[0].id, |Items(steps[0], inputs)|) + Schedule(steps[1..], inputs)
  }

  function StepsOf(trace: seq<Call>): seq<string> {
    seq(|trace|, i requires 0 <= i < |trace| => trace[i].step)
  }

  lemma {:induction false} ItemCalls(w: World, target: Primitive, step: Step, inputs: Values, outputs: Values,
                                     items: seq<Json>, results: seq<Json>, trace: seq<Call>)
    ensures var o := RunItems(w, target, step, inputs, outputs, items, results, trace);
            && trace <= o.trace && |o.trace| <= |trace| + |items|
            && (forall i | |trace| <= i < |o.trace| :: o.trace[i].step == step.id && o.trace[i].target == target)
            && (o.Done? ==> |o.trace| == |trace| + |items|)
    decreases |items|
  {
    if items != [] {
      match RunOnce(w, target, step, inputs, outputs, items[0], trace) {
        case Stopped(_, _) =>
        case Done(answer, asked) =>
          ItemCalls(w, target, step, inputs, outputs, items[1..], results + [answer], asked);
          assert asked[|trace|].step == step.id && asked[|trace|].target == target;
      }
    }
  }

  /** The calls of one step, in terms of the part of the trace it adds. */
  lemma {:induction false} OneStepCalls(w: World, table: Table, step: Step, inputs: Values, outputs: Values,
                                        trace: seq<Call>)
    ensures var o := RunStep(w, table, step, inputs, outputs, trace);
            && |trace| <= |o.trace| && o.trace[..|trace|] == trace
            && (forall i | |trace| <= i < |o.trace| :: Declared(table, [step], o.trace[i]))
            && StepsOf(o.trace[|trace|..]) <= Repeat(step.id, |Items(step, inputs)|)
            && (o.Done? ==> StepsOf(o.trace[|trace|..]) == Repeat(step.id, |Items(step, inputs)|))
  {
    if step.uses in table && Iterable(step, inputs).Success? {
      var items := Iterable(step, inputs).value;
      ItemCalls(w, table[step.uses], step, inputs, outputs, items, [], trace);
      var o := RunStep(w, table, step, inputs, outputs, trace);
      forall i | |trace| <= i < |o.trace| ensures Declared(table, [step], o.trace[i]) {
        assert [step][0] == step;
      }
    }
  }

  lemma {:induction false} DeclaredInLonger(table: Table, some: seq<Step>, steps: seq<Step>, c: Call)
    requires Declared(table, some, c) && forall k | 0 <= k < |some| :: some[k] in steps
    ensures Declared(table, steps, c)
  {
    var k :| 0 <= k < |some| && some[k].id == c.step && some[k].uses in table && table[some[k].uses] == c.target;
    var j :| 0 <= j < |steps| && steps[j] == some[k];
  }

  lemma {:induction false} CallsAreDeclared(w: World, table: Table, steps: seq<Step>, inputs: Values, outputs: Values,
                                            trace: seq<Call>)
    ensures var o := RunSteps(w, table, steps, inputs, outputs, trace);
            && |trace| <= |o.trace| && o.trace[..|trace|] == trace
            && (forall i | |trace| <= i < |o.trace| :: Declared(table, steps, o.trace[i]))
    decreases |steps|
  {
    if steps != [] {
      var o := RunSteps(w, table, steps, inputs, outputs, trace);
      var once := RunStep(w, table, steps[0], inputs, outputs, trace);
      OneStepCalls(w, table, steps[0], inputs, outputs, trace);
      if once.Done? {
        CallsAreDeclared(w, table, steps[1..], inputs, outputs[steps[0].id := once.value], once.trace);
        assert o.trace[..|trace|] == o.trace[..|once.trace|][..|trace|];
      }
      forall i | |trace| <= i < |o.trace| ensures Declared(table, steps, o.trace[i]) {
        if i < |once.trace| {
          assert o.trace[..|once.trace|][i] == once.trace[i];
          DeclaredInLonger(table, [steps[0]], steps, o.trace[i]);
        } else {
          DeclaredInLonger(table, steps[1..], steps, o.trace[i]);
        }
      }
    }
  }

  lemma {:induction false} StepsOfSplit(trace: seq<Call>, i: nat, j: nat)
    requires i <= j <= |trace|
    ensures StepsOf(trace[i..]) == StepsOf(trace[..j][i..]) + StepsOf(trace[j..])
  {
    assert trace[i..] == trace[..j][i..] + trace[j..];
  }

  lemma {:induction false} CallsFollowSchedule(w: World, table: Table, steps: seq<Step>, inputs: Values,
                                               outputs: Values, trace: seq<Call>)
    ensures var o := RunSteps(w, table, steps, inputs, outputs, trace);
            && |trace| <= |o.trace|
            && StepsOf(o.trace[|trace|..]) <= Schedule(steps, inputs)
            && (o.Done? ==> StepsOf(o.trace[|trace|..]) == Schedule(steps, inputs))
    decreases |steps|
  {
    if steps != [] {
      var o := RunSteps(w, table, steps, inputs, outputs, trace);
      var once := RunStep(w, table, steps[0], inputs, outputs, trace);
      OneStepCalls(w, table, steps[0], inputs, outputs, trace);
      if once.Done? {
        CallsFollowSchedule(w, table, steps[1..], inputs, outputs[steps[0].id := once.value], once.trace);
        CallsAreDeclared(w, table, steps[1..], inputs, outputs[steps[0].id := once.value], once.trace);
        StepsOfSplit(o.trace, |trace|, |once.trace|);
      }
    }
  }

  /**
   The order of invocations is fixed by the file and the inputs alone: an interrupted run made a prefix
   of the scheduled calls, a finished run made all of them, each once and in order.
   */
  lemma {:induction false} RunsFollowTheSchedule(w: World, table: Table, d: Definition, inputs: Values)
    requires ValidInputs(w.checks, d, inputs, true)
    ensures var o := Execute(w, table, d, inputs);
            && StepsOf(o.trace) <= Schedule(d.steps, inputs)
            && (o.Done? ==> StepsOf(o.trace) == Schedule(d.steps, inputs))
  {
    CallsFollowSchedule(w, table, d.steps, inputs, map[], []);
    var o := Execute(w, table, d, inputs);
    assert o.trace[0..] == o.trace;
  }

  /** One invocation per plain step and at most a hundred per `forEach` step. */
  function Budget(steps: seq<Step>): nat {
    if steps == [] then 0 else (if steps[0].forEach.Some? then 100 else 1) + Budget(steps[1..])
  }

  lemma {:induction false} ScheduleWithinBudget(c: Checks, table: Table, d: Definition, source: Source, k: nat,
                                                inputs: Values)
    requires Admissible(table, d, source) && k <= |d.steps| && ValidInputs(c, d, inputs, true)
    ensures |Schedule(d.steps[k..], inputs)| <= Budget(d.steps[k..])
    decreases |d.steps| - k
  {
    if k < |d.steps| {
      assert d.steps[k..][0] == d.steps[k] && d.steps[k..][1..] == d.steps[k + 1..];
      IterationIsTyped(c, table, d, source, k, inputs);
      ScheduleWithinBudget(c, table, d, source, k + 1, inputs);
    }
  }

  /**
   The authority derived at compile time bounds every run: each primitive ever invoked, in any
   iteration, on any input and against any invoker, is no stronger in effect or confirmation than
   derived and needs no permission outside the derived set; and there are at most `Budget` of them.
   */
  lemma {:induction false} DerivedAuthorityBoundsEveryRun(w: World, table: Table, op: Compiled, inputs: Values)
    requires Sound(table, op)
    ensures var o := Execute(w, table, op.definition, inputs);
            && |o.trace| <= Budget(op.definition.steps)
            && forall i | 0 <= i < |o.trace| ::
                 var target := o.trace[i].target;
                 && EffectStrength(target.effect) <= EffectStrength(op.derived.effect)
                 && ConfirmationStrength(target.confirmation) <= ConfirmationStrength(op.derived.confirmation)
                 && target.permissions <= op.derived.permissions
  {
    var d := op.definition;
    var o := Execute(w, table, d, inputs);
    if ValidInputs(w.checks, d, inputs, true) {
      CallsAreDeclared(w, table, d.steps, inputs, map[], []);
      RunsFollowTheSchedule(w, table, d, inputs);
      ScheduleWithinBudget(w.checks, table, d, op.source, 0, inputs);
      assert d.steps[0..] == d.steps;
      forall i | 0 <= i < |o.trace| ensures o.trace[i].target.permissions <= op.derived.permissions {
        assert Declared(table, d.steps, o.trace[i]);
      }
      assert |StepsOf(o.trace)| == |o.trace|;
    }
  }

  /**
   Approval is demanded exactly when the file or one of its primitives demands it, and always when the
   workflow contains a primitive that changes data.
   */
  lemma {:induction false} ApprovalIsDemanded(table: Table, op: Compiled)
    requires Sound(table, op)
    ensures RequiresConfirmation(op) <==>
              !op.definition.minimumApproval.Never? ||
              exists k | 0 <= k < |op.definition.steps| ::
                op.definition.steps[k].uses in table && !table[op.definition.steps[k].uses].confirmation.Never?
    ensures (exists k | 0 <= k < |op.definition.steps| ::
               op.definition.steps[k].uses in table && table[op.definition.steps[k].uses].effect.Mutation?)
            ==> RequiresConfirmation(op)
  {
    var d := op.definition;
    if k :| 0 <= k < |d.steps| && d.steps[k].uses in table && table[d.steps[k].uses].effect.Mutation? {
      assert d.expectedEffect.Mutation?;
    }
  }

  // ---- The security boundary ----

  lemma {:induction false} GuardedItems(w: World, target: Primitive, step: Step, inputs: Values, outputs: Values,
                                        items: seq<Json>, results: seq<Json>, trace: seq<Call>)
    requires target.authorable && target.executable
    ensures RunItems(Guarded(w), target, step, inputs, outputs, items, results, trace)
         == RunItems(w, target, step, inputs, outputs, items, results, trace)
    decreases |items|
  {
    if items != [] {
      match RunOnce(w, target, step, inputs, outputs, items[0], trace) {
        case Stopped(_, _) =>
        case Done(answer, asked) =>
          GuardedItems(w, target, step, inputs, outputs, items[1..], results + [answer], asked);
      }
    }
  }

  lemma {:induction false} GuardedSteps(w: World, table: Table, steps: seq<Step>, inputs: Values, outputs: Values,
                                        trace: seq<Call>)
    requires SoundTable(table)
    requires forall k | 0 <= k < |steps| :: steps[k].uses in table && table[steps[k].uses].authorable
    ensures RunSteps(Guarded(w), table, steps, inputs, outputs, trace) ==
            RunSteps(w, table, steps, inputs, outputs, trace)
    decreases |steps|
  {
    if steps != [] {
      var step := steps[0];
      if Iterable(step, inputs).Success? {
        GuardedItems(w, table[step.uses], step, inputs, outputs, Iterable(step, inputs).value, [], trace);
      }
      match RunStep(w, table, step, inputs, outputs, trace) {
        case Stopped(_, _) =>
        case Done(answer, asked) => GuardedSteps(w, table, steps[1..], inputs, outputs[step.id := answer], asked);
      }
    }
  }

  /**
   The guard of `execute_operation` never fires for a compiled managed operation: running it through
   the guarded invoker is running it through the bare one, fault for fault and call for call.
   */
  lemma {:induction false} GuardNeverFiresForManaged(w: World, table: Table, op: Compiled, inputs: Values)
    requires SoundTable(table) && Sound(table, op) && op.source.Managed?
    ensures Execute(Guarded(w), table, op.definition, inputs) == Execute(w, table, op.definition, inputs)
  {
    var d := op.definition;
    StepsUseKnownPrimitives(table, d, op.source);
    GuardedSteps(w, table, d.steps, inputs, map[], []);
  }
}
