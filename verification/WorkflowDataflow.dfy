/**
 The data flow of a finished run, stated without the interpreter: a run is a solution of the file read
 as equations between its calls, its answers and its outputs.
 */
module WorkflowDataflow {
  import opened Prelude
  import opened JsonSchema
  import opened Workflow
  import opened References
  import opened WorkflowSoundness

  /** The argument map the bindings denote, if each of them denotes something; later bindings of a key win. */
  function DenoteAll(bindings: seq<Binding>, inputs: Values, outputs: Values, item: Json): Option<Values> {
    if bindings == [] then Some(map[])
    else if !SafeBinding(bindings[0].value) then None
    else
      match (Denote(Meaning(bindings[0].value), inputs, outputs, item), DenoteAll(bindings[1..], inputs, outputs, item))
      case (Success(x), Some(rest)) => Some(map[bindings[0].key := x] + rest)
      case _ => None
  }

  /** Resolving safe bindings one after another collects what they denote. */
  lemma {:induction false} ResolvingIsDenoting(bindings: seq<Binding>, inputs: Values, outputs: Values, item: Json)
    requires forall j | 0 <= j < |bindings| :: SafeBinding(bindings[j].value)
    ensures match DenoteAll(bindings, inputs, outputs, item)
            case Some(denoted) => ResolveAll(bindings, inputs, outputs, item, map[]) == Success(denoted)
            case None => ResolveAll(bindings, inputs, outputs, item, map[]).Failure?
  {
    forall j | 0 <= j < |bindings| ensures ResolvesAsMeant(bindings[j].value, inputs, outputs, item) {
      ResolveComputesMeaning(bindings[j].value, inputs, outputs, item);
    }
    CollectingIsDenoting(bindings, inputs, outputs, item, map[]);
    var denoted := DenoteAll(bindings, inputs, outputs, item);
    assert denoted.Some? ==> map[] + denoted.value == denoted.value;
  }

  predicate ResolvesAsMeant(v: Json, inputs: Values, outputs: Values, item: Json) {
    SafeBinding(v) && Resolve(v, inputs, outputs, item) == Denote(Meaning(v), inputs, outputs, item)
  }

  lemma {:induction false} CollectingIsDenoting(bindings: seq<Binding>, inputs: Values, outputs: Values, item: Json,
                                                arguments: Values)
    requires forall j | 0 <= j < |bindings| :: ResolvesAsMeant(bindings[j].value, inputs, outputs, item)
    ensures match DenoteAll(bindings, inputs, outputs, item)
            case Some(denoted) => ResolveAll(bindings, inputs, outputs, item, arguments) == Success(arguments + denoted)
            case None => ResolveAll(bindings, inputs, outputs, item, arguments).Failure?
    decreases |bindings|
  {
    if bindings == [] {
      assert arguments + map[] == arguments;
    } else {
      assert ResolvesAsMeant(bindings[0].value, inputs, outputs, item);
      var resolved := Resolve(bindings[0].value, inputs, outputs, item);
      if resolved.Success? {
        CollectingIsDenoting(bindings[1..], inputs, outputs, item, arguments[bindings[0].key := resolved.value]);
        var rest := DenoteAll(bindings[1..], inputs, outputs, item);
        if rest.Some? { UpdateThenAdd(arguments, bindings[0].key, resolved.value, rest.value); }
      }
    }
  }

  lemma {:induction false} UpdateThenAdd(m: Values, k: string, x: Json, rest: Values)
    ensures m[k := x] + rest == m + (map[k := x] + rest)
  {
  }

  /** Call number `p` of the trace is what the step's bindings denote for this item, given the outputs. */
  predicate CallDenoted(w: World, target: Primitive, step: Step, inputs: Values, outputs: Values, item: Json,
                        trace: seq<Call>, p: nat)
  {
    && p < |trace| && trace[p].step == step.id && trace[p].target == target
    && match DenoteAll(step.bindings, inputs, outputs, item)
       case Some(arguments) => w.coerce(target, arguments) == Some(trace[p].arguments)
       case None => false
  }

  /** Besides, the invoker's reply to it was `answer`. */
  predicate CallExplained(w: World, target: Primitive, step: Step, inputs: Values, outputs: Values, item: Json,
                          trace: seq<Call>, p: nat, answer: Json)
  {
    CallDenoted(w, target, step, inputs, outputs, item, trace, p) && w.respond(trace[..p + 1]) == Success(answer)
  }

  /** The calls from number `from` on, one per item, are the step's, and its output collects their answers. */
  predicate StepExplained(w: World, table: Table, step: Step, inputs: Values, outputs: Values, trace: seq<Call>,
                          from: nat) {
    && step.uses in table && step.id in outputs && Iterable(step, inputs).Success?
    && var items := Items(step, inputs);
       if step.forEach.Some? then
         && outputs[step.id].Arr? && |outputs[step.id].items| == |items|
         && forall i | 0 <= i < |items| ::
              CallExplained(w, table[step.uses], step, inputs, outputs, items[i], trace, from + i,
                outputs[step.id].items[i])
       else CallExplained(w, table[step.uses], step, inputs, outputs, Null, trace, from, outputs[step.id])
  }

  /** The steps explain the trace from call `from` to its end, one after another. */
  predicate RunExplained(w: World, table: Table, steps: seq<Step>, inputs: Values, outputs: Values, trace: seq<Call>,
                         from: nat) {
    if steps == [] then from == |trace|
    else
      && StepExplained(w, table, steps[0], inputs, outputs, trace, from)
      && RunExplained(w, table, steps[1..], inputs, outputs, trace, from + |Items(steps[0], inputs)|)
  }

  /** Call number `p` of the trace as the interpreter made it. */
  predicate CallMade(w: World, target: Primitive, step: Step, inputs: Values, outputs: Values, item: Json,
                     trace: seq<Call>, p: nat, answer: Json)
  {
    && p < |trace| && trace[p].step == step.id && trace[p].target == target
    && (match ResolveAll(step.bindings, inputs, outputs, item, map[])
        case Success(arguments) => w.coerce(target, arguments) == Some(trace[p].arguments)
        case Failure(_) => false)
    && w.respond(trace[..p + 1]) == Success(answer)
  }

  /** A call that was made in one environment is explained in any that agrees on what its step reads. */
  lemma {:induction false} MadeIsExplained(w: World, table: Table, d: Definition, k: nat, inputs: Values, a: Values,
                                           b: Values, item: Json, trace: seq<Call>, p: nat, answer: Json)
    requires k < |d.steps| && BindingsTyped(table, d, k) && AgreeBefore(d, k, a, b) && d.steps[k].uses in table
    requires CallMade(w, table[d.steps[k].uses], d.steps[k], inputs, a, item, trace, p, answer)
    ensures CallExplained(w, table[d.steps[k].uses], d.steps[k], inputs, b, item, trace, p, answer)
  {
    StepResolutionAgrees(table, d, k, inputs, a, b, item);
    ResolvingIsDenoting(d.steps[k].bindings, inputs, b, item);
  }

  lemma {:induction false} MadeInLonger(w: World, target: Primitive, step: Step, inputs: Values, outputs: Values,
                                        item: Json, trace: seq<Call>, longer: seq<Call>, p: nat, answer: Json)
    requires CallMade(w, target, step, inputs, outputs, item, trace, p, answer) && trace <= longer
    ensures CallMade(w, target, step, inputs, outputs, item, longer, p, answer)
  {
    assert longer[..p + 1] == trace[..p + 1];
  }

  lemma {:induction false} ItemCallsMade(w: World, target: Primitive, step: Step, inputs: Values, outputs: Values,
                                         items: seq<Json>, results: seq<Json>, trace: seq<Call>)
    ensures var o := RunItems(w, target, step, inputs, outputs, items, results, trace);
            o.Done? ==>
              && trace <= o.trace && |o.trace| == |trace| + |items|
              && results <= o.value && |o.value| == |results| + |items|
              && forall i | 0 <= i < |items| ::
                   CallMade(w, target, step, inputs, outputs, items[i], o.trace, |trace| + i, o.value[|results| + i])
    decreases |items|
  {
    var o := RunItems(w, target, step, inputs, outputs, items, results, trace);
    if items != [] && o.Done? {
      var once := RunOnce(w, target, step, inputs, outputs, items[0], trace);
      var asked, answered := once.trace, results + [once.value];
      ItemCallsMade(w, target, step, inputs, outputs, items[1..], answered, asked);
      assert asked[..|trace| + 1] == asked;
      MadeInLonger(w, target, step, inputs, outputs, items[0], asked, o.trace, |trace|, once.value);
      assert o.value[|results|] == answered[|results|];
      forall i | 0 <= i < |items|
        ensures CallMade(w, target, step, inputs, outputs, items[i], o.trace, |trace| + i, o.value[|results| + i])
      {
        if i > 0 {
          assert items[1..][i - 1] == items[i];
          assert |asked| + (i - 1) == |trace| + i && |answered| + (i - 1) == |results| + i;
        }
      }
    }
  }

  /** Two output maps that agree on the steps before `k`. */
  ghost predicate AgreeBefore(d: Definition, k: nat, a: Values, b: Values)
    requires k <= |d.steps|
  {
    forall j | 0 <= j < k :: d.steps[j].id in a && d.steps[j].id in b && a[d.steps[j].id] == b[d.steps[j].id]
  }

  /** What the data flow rests on: unique step names, and bindings that are typed where they stand. */
  ghost predicate WellTyped(table: Table, d: Definition) {
    && (forall i, j | 0 <= i < j < |d.steps| :: d.steps[i].id != d.steps[j].id)
    && forall k | 0 <= k < |d.steps| :: d.steps[k].uses in table && BindingsTyped(table, d, k)
  }

  ghost predicate BindingsTyped(table: Table, d: Definition, k: nat)
    requires k < |d.steps|
  {
    forall j | 0 <= j < |d.steps[k].bindings| ::
      SafeBinding(d.steps[k].bindings[j].value) && Typed(table, d, k, Meaning(d.steps[k].bindings[j].value))
  }

  lemma {:induction false} AdmissibleIsWellTyped(table: Table, d: Definition, source: Source)
    requires Admissible(table, d, source)
    ensures WellTyped(table, d)
  {
    forall k | 0 <= k < |d.steps| ensures d.steps[k].uses in table && BindingsTyped(table, d, k) {
      assert StepAdmissible(table, d, source, k);
    }
  }

  /** Bindings that read nothing but earlier outputs resolve alike wherever those agree. */
  lemma {:induction false} ResolutionAgrees(bindings: seq<Binding>, inputs: Values, a: Values, b: Values, item: Json,
                                            arguments: Values)
    requires forall j | 0 <= j < |bindings| ::
               Resolve(bindings[j].value, inputs, a, item) == Resolve(bindings[j].value, inputs, b, item)
    ensures ResolveAll(bindings, inputs, a, item, arguments) == ResolveAll(bindings, inputs, b, item, arguments)
    decreases |bindings|
  {
    if bindings != [] {
      var resolved := Resolve(bindings[0].value, inputs, a, item);
      if resolved.Success? {
        ResolutionAgrees(bindings[1..], inputs, a, b, item, arguments[bindings[0].key := resolved.value]);
      }
    }
  }

  lemma {:induction false} StepResolutionAgrees(table: Table, d: Definition, k: nat, inputs: Values, a: Values,
                                                b: Values, item: Json)
    requires k < |d.steps| && BindingsTyped(table, d, k) && AgreeBefore(d, k, a, b)
    ensures ResolveAll(d.steps[k].bindings, inputs, a, item, map[]) ==
            ResolveAll(d.steps[k].bindings, inputs, b, item, map[])
  {
    var bindings := d.steps[k].bindings;
    forall j | 0 <= j < |bindings|
      ensures Resolve(bindings[j].value, inputs, a, item) == Resolve(bindings[j].value, inputs, b, item)
    {
      ResolveComputesMeaning(bindings[j].value, inputs, a, item);
      ResolveComputesMeaning(bindings[j].value, inputs, b, item);
      DenotationAgrees(table, d, k, Meaning(bindings[j].value), inputs, a, b, item);
    }
    ResolutionAgrees(bindings, inputs, a, b, item, map[]);
  }

  lemma {:induction false} DenotationAgrees(table: Table, d: Definition, k: nat, r: Reference, inputs: Values,
                                            a: Values, b: Values, item: Json)
    requires k < |d.steps| && Typed(table, d, k, r) && AgreeBefore(d, k, a, b)
    ensures Denote(r, inputs, a, item) == Denote(r, inputs, b, item)
  {
  }

  /** Later steps leave the outputs of earlier ones alone. */
  lemma {:induction false} OutputsPersist(w: World, table: Table, steps: seq<Step>, inputs: Values, outputs: Values,
                                          trace: seq<Call>, id: string)
    requires forall k | 0 <= k < |steps| :: steps[k].id != id
    requires id in outputs && RunSteps(w, table, steps, inputs, outputs, trace).Done?
    ensures var o := RunSteps(w, table, steps, inputs, outputs, trace); id in o.value && o.value[id] == outputs[id]
    decreases |steps|
  {
    if steps != [] {
      var once := RunStep(w, table, steps[0], inputs, outputs, trace);
      OutputsPersist(w, table, steps[1..], inputs, outputs[steps[0].id := once.value], once.trace, id);
    }
  }

  /** The calls of one step of a finished run, seen from the end. */
  lemma {:induction false} CallsAreExplained(w: World, table: Table, d: Definition, k: nat, inputs: Values,
                                             outputs: Values, items: seq<Json>, trace: seq<Call>, final: Values,
                                             whole: seq<Call>)
    requires k < |d.steps| && BindingsTyped(table, d, k) && AgreeBefore(d, k, outputs, final) &&
             d.steps[k].uses in table
    requires var o := RunItems(w, table[d.steps[k].uses], d.steps[k], inputs, outputs, items, [], trace);
             o.Done? && o.trace <= whole
    ensures var step, target := d.steps[k], table[d.steps[k].uses];
            var o := RunItems(w, target, step, inputs, outputs, items, [], trace);
            && |o.value| == |items| && |o.trace| == |trace| + |items|
            && forall i | 0 <= i < |items| ::
                 CallExplained(w, target, step, inputs, final, items[i], whole, |trace| + i, o.value[i])
  {
    var step, target := d.steps[k], table[d.steps[k].uses];
    ItemCallsMade(w, target, step, inputs, outputs, items, [], trace);
    var o := RunItems(w, target, step, inputs, outputs, items, [], trace);
    forall i | 0 <= i < |items|
      ensures CallExplained(w, target, step, inputs, final, items[i], whole, |trace| + i, o.value[i])
    {
      MadeInLonger(w, target, step, inputs, outputs, items[i], o.trace, whole, |trace| + i, o.value[i]);
      MadeIsExplained(w, table, d, k, inputs, outputs, final, items[i], whole, |trace| + i, o.value[i]);
    }
  }

  /** One step of a finished run, seen from the end. */
  lemma {:induction false} StepIsExplained(w: World, table: Table, d: Definition, k: nat, inputs: Values,
                                           outputs: Values, trace: seq<Call>, final: Values, whole: seq<Call>)
    requires k < |d.steps| && BindingsTyped(table, d, k) && AgreeBefore(d, k, outputs, final) &&
             d.steps[k].uses in table
    requires var once := RunStep(w, table, d.steps[k], inputs, outputs, trace);
             once.Done? && once.trace <= whole && d.steps[k].id in final && final[d.steps[k].id] == once.value
    ensures StepExplained(w, table, d.steps[k], inputs, final, whole, |trace|)
    ensures |RunStep(w, table, d.steps[k], inputs, outputs, trace).trace| == |trace| + |Items(d.steps[k], inputs)|
  {
    CallsAreExplained(w, table, d, k, inputs, outputs, Items(d.steps[k], inputs), trace, final, whole);
  }

  /** Nothing a run knew of the first steps has changed by its end. */
  lemma {:induction false} FinalAgrees(w: World, table: Table, d: Definition, k: nat, inputs: Values, outputs: Values,
                                       trace: seq<Call>)
    requires WellTyped(table, d) && k <= |d.steps| && forall j | 0 <= j < k :: d.steps[j].id in outputs
    requires RunSteps(w, table, d.steps[k..], inputs, outputs, trace).Done?
    ensures AgreeBefore(d, k, outputs, RunSteps(w, table, d.steps[k..], inputs, outputs, trace).value)
  {
    forall j | 0 <= j < k
      ensures var o := RunSteps(w, table, d.steps[k..], inputs, outputs, trace);
              d.steps[j].id in o.value && o.value[d.steps[j].id] == outputs[d.steps[j].id]
    {
      forall i | 0 <= i < |d.steps[k..]| ensures d.steps[k..][i].id != d.steps[j].id {
        assert d.steps[k..][i] == d.steps[k + i];
      }
      OutputsPersist(w, table, d.steps[k..], inputs, outputs, trace, d.steps[j].id);
    }
  }

  /** What a finished rest of a run says about the whole. */
  ghost predicate RestExplained(w: World, table: Table, d: Definition, k: nat, inputs: Values, outputs: Values,
                                trace: seq<Call>, final: Values, whole: seq<Call>)
    requires k <= |d.steps|
  {
    && RunExplained(w, table, d.steps[k..], inputs, final, whole, |trace|)
    && AgreeBefore(d, k, outputs, final) && trace <= whole
  }

  lemma {:induction false} RunIsExplained(w: World, table: Table, d: Definition, k: nat, inputs: Values,
                                          outputs: Values, trace: seq<Call>, final: Values, whole: seq<Call>)
    requires WellTyped(table, d) && k <= |d.steps|
    requires forall j | 0 <= j < k :: d.steps[j].id in outputs
    requires RunSteps(w, table, d.steps[k..], inputs, outputs, trace) == Done(final, whole)
    ensures RestExplained(w, table, d, k, inputs, outputs, trace, final, whole)
    decreases |d.steps| - k
  {
    FinalAgrees(w, table, d, k, inputs, outputs, trace);
    if k < |d.steps| {
      assert d.steps[k..][0] == d.steps[k] && d.steps[k..][1..] == d.steps[k + 1..];
      var once := RunStep(w, table, d.steps[k], inputs, outputs, trace);
      RunIsExplained(w, table, d, k + 1, inputs, outputs[d.steps[k].id := once.value], once.trace, final, whole);
      RestPrepended(w, table, d, k, inputs, outputs, trace, final, whole);
    }
  }

  lemma {:induction false} RestPrepended(w: World, table: Table, d: Definition, k: nat, inputs: Values,
                                         outputs: Values, trace: seq<Call>, final: Values, whole: seq<Call>)
    requires WellTyped(table, d) && k < |d.steps| && AgreeBefore(d, k, outputs, final)
    requires var once := RunStep(w, table, d.steps[k], inputs, outputs, trace);
             && once.Done?
             && var extended := outputs[d.steps[k].id := once.value];
                RestExplained(w, table, d, k + 1, inputs, extended, once.trace, final, whole)
    ensures RestExplained(w, table, d, k, inputs, outputs, trace, final, whole)
  {
    assert d.steps[k..][0] == d.steps[k] && d.steps[k..][1..] == d.steps[k + 1..];
    assert d.steps[k].id in final;
    StepIsExplained(w, table, d, k, inputs, outputs, trace, final, whole);
    StepExtendsTrace(w, table, d.steps[k], inputs, outputs, trace);
  }

  lemma {:induction false} StepExtendsTrace(w: World, table: Table, step: Step, inputs: Values, outputs: Values,
                                            trace: seq<Call>)
    requires RunStep(w, table, step, inputs, outputs, trace).Done?
    ensures trace <= RunStep(w, table, step, inputs, outputs, trace).trace
  {
    ItemCalls(w, table[step.uses], step, inputs, outputs, Items(step, inputs), [], trace);
  }

  /**
   A finished run solves the file's equations. Reading the final outputs as one environment, the trace is
   the file's calls in order; the arguments of each are what its bindings denote in that environment for
   its item, coerced by the primitive; and each output is the invoker's reply to its call, or the list of
   replies for a loop. No call, reply or output is lost, repeated, reordered or attributed to another step.
   */
  lemma {:induction false} FinishedRunsSolveTheFile(w: World, table: Table, d: Definition, source: Source,
                                                    inputs: Values)
    requires Admissible(table, d, source)
    ensures var o := Execute(w, table, d, inputs);
            o.Done? ==> RunExplained(w, table, d.steps, inputs, o.value, o.trace, 0)
  {
    var o := Execute(w, table, d, inputs);
    if o.Done? {
      assert d.steps[0..] == d.steps;
      AdmissibleIsWellTyped(table, d, source);
      RunIsExplained(w, table, d, 0, inputs, map[], [], o.value, o.trace);
    }
  }

  // ---- Interrupted runs ----

  /**
   How far an interrupted run got: the first `k` steps are explained by the first `m` calls, and the calls
   behind them are those of step `k` for its first items, all answered except perhaps the last.
   */
  ghost predicate StoppedIn(w: World, table: Table, d: Definition, inputs: Values, trace: seq<Call>, k: nat,
                            outputs: Values, m: nat)
  {
    && k < |d.steps| && m <= |trace|
    && RunExplained(w, table, d.steps[..k], inputs, outputs, trace[..m], 0)
    && CallsBegun(w, table, d.steps[k], inputs, outputs, trace, m)
  }

  predicate CallsBegun(w: World, table: Table, step: Step, inputs: Values, outputs: Values, trace: seq<Call>, m: nat)
    requires m <= |trace|
  {
    m < |trace| ==>
      && step.uses in table
      && ItemsBegun(w, table[step.uses], step, inputs, outputs, Items(step, inputs), trace, m)
  }

  /** The calls behind the first `m` are those for the first items, every reply but the last one a success. */
  predicate ItemsBegun(w: World, target: Primitive, step: Step, inputs: Values, outputs: Values, items: seq<Json>,
                       trace: seq<Call>, m: nat)
    requires m <= |trace|
  {
    && |trace| - m <= |items|
    && (forall i | 0 <= i < |trace| - m ::
          CallDenoted(w, target, step, inputs, outputs, items[i], trace, m + i))
    && forall n | m < n < |trace| :: Replied(w, trace, n)
  }

  /** Call `n - 1` was answered. */
  predicate Replied(w: World, trace: seq<Call>, n: nat)
    requires n <= |trace|
  {
    w.respond(trace[..n]).Success?
  }

  lemma {:induction false} OneMoreBegun(w: World, target: Primitive, step: Step, inputs: Values, outputs: Values,
                                        items: seq<Json>, trace: seq<Call>, asked: seq<Call>, whole: seq<Call>)
    requires items != [] && |asked| == |trace| + 1 && trace <= asked <= whole
    requires CallDenoted(w, target, step, inputs, outputs, items[0], asked, |trace|) && w.respond(asked).Success?
    requires ItemsBegun(w, target, step, inputs, outputs, items[1..], whole, |asked|)
    ensures ItemsBegun(w, target, step, inputs, outputs, items, whole, |trace|)
  {
    forall i | 0 <= i < |whole| - |trace|
      ensures CallDenoted(w, target, step, inputs, outputs, items[i], whole, |trace| + i)
    {
      if i > 0 { assert CallDenoted(w, target, step, inputs, outputs, items[1..][i - 1], whole, |asked| + (i - 1)); }
    }
    forall n | |trace| < n < |whole| ensures Replied(w, whole, n) {
      if n == |asked| { assert whole[..n] == asked; }
    }
  }

  /** One call, whether or not it was made and answered. */
  lemma {:induction false} OnceBegun(w: World, target: Primitive, step: Step, inputs: Values, outputs: Values,
                                     item: Json, trace: seq<Call>)
    requires forall j | 0 <= j < |step.bindings| :: SafeBinding(step.bindings[j].value)
    ensures var o := RunOnce(w, target, step, inputs, outputs, item, trace);
            && (o.trace == trace || (trace <= o.trace && |o.trace| == |trace| + 1 &&
                                     CallDenoted(w, target, step, inputs, outputs, item, o.trace, |trace|)))
            && (o.Done? ==> o.trace != trace && w.respond(o.trace).Success?)
  {
    ResolvingIsDenoting(step.bindings, inputs, outputs, item);
  }

  lemma {:induction false} ItemsStopBegun(w: World, target: Primitive, step: Step, inputs: Values, outputs: Values,
                                          items: seq<Json>, results: seq<Json>, trace: seq<Call>)
    requires forall j | 0 <= j < |step.bindings| :: SafeBinding(step.bindings[j].value)
    ensures var o := RunItems(w, target, step, inputs, outputs, items, results, trace);
            trace <= o.trace && ItemsBegun(w, target, step, inputs, outputs, items, o.trace, |trace|)
    decreases |items|
  {
    if items != [] {
      OnceBegun(w, target, step, inputs, outputs, items[0], trace);
      var once := RunOnce(w, target, step, inputs, outputs, items[0], trace);
      if once.Done? {
        ItemsStopBegun(w, target, step, inputs, outputs, items[1..], results + [once.value], once.trace);
        var o := RunItems(w, target, step, inputs, outputs, items, results, trace);
        OneMoreBegun(w, target, step, inputs, outputs, items, trace, once.trace, o.trace);
      }
    }
  }

  lemma {:induction false} StepStopBegun(w: World, table: Table, step: Step, inputs: Values, outputs: Values,
                                         trace: seq<Call>)
    requires forall j | 0 <= j < |step.bindings| :: SafeBinding(step.bindings[j].value)
    ensures var o := RunStep(w, table, step, inputs, outputs, trace);
            trace <= o.trace && CallsBegun(w, table, step, inputs, outputs, o.trace, |trace|)
  {
    if step.uses in table && Iterable(step, inputs).Success? {
      ItemsStopBegun(w, table[step.uses], step, inputs, outputs, Items(step, inputs), [], trace);
    }
  }

  /** A run that stops has finished some first steps and stopped in the next one. */
  lemma {:induction false} StopFollowsFinishedSteps(w: World, table: Table, steps: seq<Step>, inputs: Values,
                                                    outputs: Values, trace: seq<Call>)
    returns (k: nat, o: Outcome<Values>)
    requires RunSteps(w, table, steps, inputs, outputs, trace).Stopped?
    ensures k < |steps| && o == RunSteps(w, table, steps[..k], inputs, outputs, trace) && o.Done?
    ensures var stop := RunStep(w, table, steps[k], inputs, o.value, o.trace);
            stop.Stopped? && stop.trace == RunSteps(w, table, steps, inputs, outputs, trace).trace
    decreases |steps|
  {
    var once := RunStep(w, table, steps[0], inputs, outputs, trace);
    if once.Stopped? {
      k, o := 0, Done(outputs, trace);
    } else {
      var before: nat;
      var extended := outputs[steps[0].id := once.value];
      before, o := StopFollowsFinishedSteps(w, table, steps[1..], inputs, extended, once.trace);
      k := before + 1;
      assert steps[..k][0] == steps[0] && steps[..k][1..] == steps[1..][..before];
    }
  }

  lemma {:induction false} FirstStepsAreWellTyped(table: Table, d: Definition, k: nat)
    requires WellTyped(table, d) && k <= |d.steps|
    ensures WellTyped(table, d.(steps := d.steps[..k]))
  {
    var first := d.(steps := d.steps[..k]);
    forall i | 0 <= i < k ensures first.steps[i].uses in table && BindingsTyped(table, first, i) {
      assert BindingsTyped(table, d, i);
      forall j | 0 <= j < |first.steps[i].bindings|
        ensures Typed(table, first, i, Meaning(first.steps[i].bindings[j].value))
      {
        assert Typed(table, d, i, Meaning(d.steps[i].bindings[j].value));
      }
    }
  }

  /**
   An interrupted run got somewhere the file explains: there is a step it stopped in such that the steps
   before solve their equations over the outputs collected so far, and every call it made in that step has
   the arguments its bindings denote in those outputs, for the first items in order.
   */
  lemma {:induction false} InterruptedRunsFollowTheFile(w: World, table: Table, d: Definition, source: Source,
                                                        inputs: Values)
    returns (k: nat, outputs: Values, m: nat)
    requires Admissible(table, d, source) && Execute(w, table, d, inputs).Stopped?
    ensures StoppedIn(w, table, d, inputs, Execute(w, table, d, inputs).trace, k, outputs, m)
  {
    AdmissibleIsWellTyped(table, d, source);
    if !ValidInputs(w.checks, d, inputs, true) {
      k, outputs, m := 0, map[], 0;
    } else {
      var o: Outcome<Values>;
      k, o := StopFollowsFinishedSteps(w, table, d.steps, inputs, map[], []);
      outputs, m := o.value, |o.trace|;
      FirstStepsAreWellTyped(table, d, k);
      var first := d.(steps := d.steps[..k]);
      assert first.steps[0..] == first.steps;
      RunIsExplained(w, table, first, 0, inputs, map[], [], o.value, o.trace);
      assert BindingsTyped(table, d, k);
      StepStopBegun(w, table, d.steps[k], inputs, o.value, o.trace);
      assert Execute(w, table, d, inputs).trace[..m] == o.trace;
    }
  }
}
