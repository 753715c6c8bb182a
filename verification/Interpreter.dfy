/** `execute_operation_steps`: the two nested loops, proved against `Workflow.Execute`. */
module Interpreter {
  import opened Prelude
  import opened JsonSchema
  import opened Workflow

  method ResolveArguments(step: Step, inputs: Values, outputs: Values, item: Json) returns (r: Result<Values, Fault>)
    ensures r == ResolveAll(step.bindings, inputs, outputs, item, map[])
  {
    var arguments: Values := map[];
    for i := 0 to |step.bindings|
      invariant ResolveAll(step.bindings[i..], inputs, outputs, item, arguments)
             == ResolveAll(step.bindings, inputs, outputs, item, map[])
    {
      assert step.bindings[i..][0] == step.bindings[i] && step.bindings[i..][1..] == step.bindings[i + 1..];
      var resolved := Resolve(step.bindings[i].value, inputs, outputs, item);
      match resolved {
        case Failure(f) => return Failure(f);
        case Success(x) => arguments := arguments[step.bindings[i].key := x];
      }
    }
    return Success(arguments);
  }

  method ExecuteOperationSteps(w: World, table: Table, d: Definition, inputs: Values) returns (r: Outcome<Values>)
    ensures r == Execute(w, table, d, inputs)
  {
    if !ValidInputs(w.checks, d, inputs, true) { return Stopped(InvalidInputs, []); }
    var outputs: Values := map[];
    var trace: seq<Call> := [];
    for k := 0 to |d.steps|
      invariant RunSteps(w, table, d.steps[k..], inputs, outputs, trace) == Execute(w, table, d, inputs)
    {
      var step := d.steps[k];
      assert d.steps[k..][0] == step && d.steps[k..][1..] == d.steps[k + 1..];
      if step.uses !in table { return Stopped(UnknownPrimitive(step.uses), trace); }
      var target := table[step.uses];
      var iterable := [Null];
      if step.forEach.Some? {
        var field := Unwrap(step.forEach.value, InputOpen);
        if field !in inputs { return Stopped(MissingInput(field), trace); }
        if !inputs[field].Arr? { return Stopped(NotIterable(field), trace); }
        iterable := inputs[field].items;
      }
      ghost var started := trace;
      var results: seq<Json> := [];
      for i := 0 to |iterable|
        invariant RunItems(w, target, step, inputs, outputs, iterable[i..], results, trace)
               == RunItems(w, target, step, inputs, outputs, iterable, [], started)
      {
        assert iterable[i..][0] == iterable[i] && iterable[i..][1..] == iterable[i + 1..];
        var resolved := ResolveArguments(step, inputs, outputs, iterable[i]);
        if resolved.Failure? { return Stopped(resolved.error, trace); }
        var validated := w.coerce(target, resolved.value);
        if validated.None? { return Stopped(RejectedArguments(step.id), trace); }
        trace := trace + [Call(step.id, target, validated.value)];
        var answer := w.respond(trace);
        if answer.Failure? { return Stopped(InvokerRefused(answer.error), trace); }
        results := results + [answer.value];
      }
      assert iterable[|iterable|..] == [];
      assert RunItems(w, target, step, inputs, outputs, iterable, [], started) == Done(results, trace);
      if step.forEach.Some? {
        outputs := outputs[step.id := Arr(results)];
      } else if results == [] {
        return Stopped(NotIndexable(step.id), trace);
      } else {
        outputs := outputs[step.id := results[0]];
      }
    }
    return Done(outputs, trace);
  }
}
