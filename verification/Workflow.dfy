/**
 The declarative operation language: what an operation file may say, the static checker that
 admits it (`compile_operation`), and the interpreter that runs it (`execute_operation_steps`).
 */
module Workflow {
  import opened Prelude
  import opened Text
  import opened JsonSchema

  // ---- The trusted primitive table ----

  datatype Effect = NoEffect | Draft | Mutation

  datatype Confirmation = Never | Conditional | Required

  function EffectStrength(e: Effect): nat {
    match e case NoEffect => 0 case Draft => 1 case Mutation => 2
  }

  function ConfirmationStrength(c: Confirmation): nat {
    match c case Never => 0 case Conditional => 1 case Required => 2
  }

  datatype InputField = InputField(name: string, alias: Option<string>, required: bool)
  {
    function Key(): string {
      if alias.Some? then alias.value else name
    }
  }

  datatype Primitive = Primitive(
    reference: string,
    fields: seq<InputField>,
    effect: Effect,
    confirmation: Confirmation,
    permissions: set<string>,
    authorable: bool,
    executable: bool,
    outputFields: set<string>)

  type Table = map<string, Primitive>

  /** What the process start-up asserts of the table before any operation is compiled. */
  ghost predicate SoundTable(table: Table) {
    forall r | r in table :: table[r].reference == r && (table[r].authorable ==> table[r].executable)
  }

  // ---- Operation files ----

  datatype Source = Core | Managed

  datatype Binding = Binding(key: string, value: Json)

  datatype Step = Step(id: string, uses: string, bindings: seq<Binding>, forEach: Option<string>)

  datatype Discovery = Discovery(
    description: string, aliases: seq<string>, examples: seq<string>, negativeExamples: seq<string>,
    modelSelectable: bool)

  datatype Strategy = DecisionRoute | PlannerRoute | ManagedRoute | ProtocolRoute

  datatype RouteBinding = RouteBinding(target: string, reference: string)

  datatype Definition = Definition(
    id: string,
    version: nat,
    enabled: bool,
    title: string,
    discovery: Discovery,
    requiredPermissions: set<string>,
    expectedEffect: Effect,
    schema: Schema,
    strategy: Strategy,
    routes: seq<RouteBinding>,
    metric: Option<string>,
    steps: seq<Step>,
    minimumApproval: Confirmation)

  datatype Derived = Derived(effect: Effect, confirmation: Confirmation, permissions: set<string>)

  datatype Compiled = Compiled(definition: Definition, checksum: string, source: Source, derived: Derived)
  {
    function Id(): string {
      definition.id
    }
  }

  // ---- References ----

  const InputOpen := "${input."
  const StepsOpen := "${steps."
  const ItemReference := "${item}"

  predicate IsLower(c: char) { 'a' <= c <= 'z' }

  predicate IsWord(c: char) { IsLower(c) || 'A' <= c <= 'Z' || '0' <= c <= '9' || c == '_' }

  /** `[A-Za-z][A-Za-z0-9_]*` */
  predicate IsName(s: string) {
    s != [] && (IsLower(s[0]) || 'A' <= s[0] <= 'Z') && forall i | 0 <= i < |s| :: IsWord(s[i])
  }

  /** `[a-z][a-z0-9_]*` */
  predicate IsStepName(s: string) {
    s != [] && IsLower(s[0]) &&
    forall i | 0 <= i < |s| :: IsLower(s[i]) || '0' <= s[i] <= '9' || s[i] == '_'
  }

  /** `s.removeprefix(open).removesuffix("}")` */
  function Unwrap(s: string, open: string): string {
    RemoveSuffix(RemovePrefix(s, open), "}")
  }

  predicate IsInputReference(s: string) {
    InputOpen <= s && |InputOpen| < |s| && EndsWith(s, "}") && IsName(s[|InputOpen|..|s| - 1])
  }

  predicate IsStepReference(s: string) {
    StepsOpen <= s && |StepsOpen| < |s| && EndsWith(s, "}") &&
    var parts := SplitAll(s[|StepsOpen|..|s| - 1], '.');
    |parts| == 3 && IsStepName(parts[0]) && parts[1] == "output" && IsName(parts[2])
  }

  predicate IsReference(s: string) {
    IsInputReference(s) || IsStepReference(s) || s == ItemReference
  }

  /** The validator of a step's `with` block. */
  predicate SafeBinding(v: Json) {
    Scalar(v) && (v.Str? && "${" <= v.s ==> IsReference(v.s))
  }

  /** What a binding means, independently of how either the checker or the interpreter reads it. */
  datatype Reference = Literal(value: Json) | Item | Input(name: string) | Output(step: string, field: string)

  function Meaning(v: Json): Reference
    requires SafeBinding(v)
  {
    if !v.Str? || !("${" <= v.s) then Literal(v)
    else if v.s == ItemReference then Item
    else if IsInputReference(v.s) then Input(v.s[|InputOpen|..|v.s| - 1])
    else
      var parts := SplitAll(v.s[|StepsOpen|..|v.s| - 1], '.');
      Output(parts[0], parts[2])
  }

  // ---- The static checker ----

  /** The schema keywords an operation file may use. */
  predicate InSubset(s: Schema, depth: nat)
    decreases s
  {
    && depth <= 8
    && s.ref.None? && s.constant.None? && s.union.NoUnion? && s.others == []
    && s.kind.Some? && !s.kind.value.NullKind? && !s.kind.value.OtherKind?
    && (s.text.format.Some? ==> s.text.format.value in {"date", "date-time", "money"})
    && (s.kind.value.ObjectKind? ==>
          && (s.additional.Unstated? || s.additional.Closed?)
          && s.required <= s.properties.Keys
          && forall k | k in s.properties :: InSubset(s.properties[k], depth + 1))
    && (s.kind.value.ArrayKind? ==>
          && s.items.Some?
          && s.arrays.maxItems.Some? && 1 <= s.arrays.maxItems.value <= 100
          && InSubset(s.items.value, depth + 1))
  }

  /** The checks the typed operation document makes while it is parsed. */
  predicate WellFormed(d: Definition) {
    && d.schema.kind == Some(ObjectKind)
    && (d.schema.additional.Unstated? || d.schema.additional.Closed?)
    && 1 <= |d.steps| <= 50
    && (forall i, j | 0 <= i < j < |d.steps| :: d.steps[i].id != d.steps[j].id)
    && (forall i | 0 <= i < |d.steps| ::
          && IsStepName(d.steps[i].id)
          && (d.steps[i].forEach.Some? ==> IsInputReference(d.steps[i].forEach.value))
          && forall j | 0 <= j < |d.steps[i].bindings| :: SafeBinding(d.steps[i].bindings[j].value))
    && !(d.expectedEffect.NoEffect? && !d.minimumApproval.Never?)
    && !(d.expectedEffect.Mutation? && d.minimumApproval.Never?)
    && (forall i, j | 0 <= i < j < |d.routes| :: d.routes[i].target != d.routes[j].target)
    && (forall i | 0 <= i < |d.routes| ::
          d.routes[i].reference == "${input}" || IsInputReference(d.routes[i].reference))
  }

  predicate StrategyTargets(d: Definition) {
    && (d.strategy.PlannerRoute? ==>
          forall i | 0 <= i < |d.routes| :: d.routes[i].target in {"request", "presentation"})
    && (d.strategy.DecisionRoute? ==> forall i | 0 <= i < |d.routes| :: d.routes[i].target != "request")
    && (d.strategy.ManagedRoute? || d.strategy.ProtocolRoute? ==> d.routes == [])
  }

  predicate RoutingAdmissible(d: Definition, source: Source) {
    && (forall i | 0 <= i < |d.routes| ::
          d.routes[i].reference == "${input}" || Unwrap(d.routes[i].reference, InputOpen) in d.schema.properties)
    && (source.Managed? <==> d.strategy.ManagedRoute?)
    && !(d.discovery.modelSelectable && d.strategy.ProtocolRoute?)
  }

  function Supplied(step: Step): set<string> {
    set i | 0 <= i < |step.bindings| :: step.bindings[i].key
  }

  function AcceptedInputs(target: Primitive): set<string> {
    (set i | 0 <= i < |target.fields| :: target.fields[i].name) +
    (set i | 0 <= i < |target.fields| :: target.fields[i].Key())
  }

  predicate SuppliesInputs(target: Primitive, step: Step) {
    && Supplied(step) <= AcceptedInputs(target)
    && forall i | 0 <= i < |target.fields| && target.fields[i].required ::
         target.fields[i].name in Supplied(step) || target.fields[i].Key() in Supplied(step)
  }

  predicate ForEachNamesArray(d: Definition, step: Step) {
    step.forEach.Some? ==>
      var field := Unwrap(step.forEach.value, InputOpen);
      field in d.schema.properties && d.schema.properties[field].kind == Some(ArrayKind)
  }

  /** The checker's reading of one binding, on the raw string. `None` lets it pass. */
  function BindingError(v: Json, properties: set<string>, outputs: map<string, set<string>>,
                        inLoop: bool): Option<string> {
    if !v.Str? || !("${" <= v.s) then None
    else if InputOpen <= v.s then
      if Unwrap(v.s, InputOpen) in properties then None else Some("unknown input")
    else if StepsOpen <= v.s then
      var parts := SplitAll(Unwrap(v.s, StepsOpen), '.');
      if parts[0] !in outputs then Some("step has not completed")
      else if |parts| != 3 || parts[1] != "output" || parts[2] !in outputs[parts[0]] then Some("undeclared output")
      else None
    else if v.s == ItemReference && !inLoop then Some("item outside forEach")
    else None
  }

  /** A reference is well typed in step `k` of the workflow. */
  predicate Typed(table: Table, d: Definition, k: nat, r: Reference)
    requires k < |d.steps|
  {
    match r
    case Literal(_) => true
    case Item => d.steps[k].forEach.Some?
    case Input(name) => name in d.schema.properties
    case Output(step, field) =>
      exists j | 0 <= j < k ::
        && d.steps[j].id == step && d.steps[j].forEach.None?
        && d.steps[j].uses in table && field in table[d.steps[j].uses].outputFields
  }

  /** The typing judgement for one step: what the checker is supposed to establish. */
  predicate StepAdmissible(table: Table, d: Definition, source: Source, k: nat)
    requires WellFormed(d) && k < |d.steps|
  {
    var step := d.steps[k];
    && step.uses in table
    && (source.Managed? ==> table[step.uses].authorable)
    && SuppliesInputs(table[step.uses], step)
    && ForEachNamesArray(d, step)
    && forall j | 0 <= j < |step.bindings| :: Typed(table, d, k, Meaning(step.bindings[j].value))
  }

  /** The union of the permissions of the primitives a workflow uses. */
  function PermissionsOf(table: Table, steps: seq<Step>): set<string> {
    set k, p | 0 <= k < |steps| && steps[k].uses in table && p in table[steps[k].uses].permissions :: p
  }

  predicate IsStrongestEffect(table: Table, steps: seq<Step>, e: Effect) {
    && (forall k | 0 <= k < |steps| ::
          steps[k].uses in table ==> EffectStrength(table[steps[k].uses].effect) <= EffectStrength(e))
    && exists k | 0 <= k < |steps| :: steps[k].uses in table && table[steps[k].uses].effect == e
  }

  predicate IsStrongestConfirmation(table: Table, steps: seq<Step>, minimum: Confirmation, c: Confirmation) {
    && ConfirmationStrength(minimum) <= ConfirmationStrength(c)
    && (forall k | 0 <= k < |steps| ::
          steps[k].uses in table ==> ConfirmationStrength(table[steps[k].uses].confirmation) <= ConfirmationStrength(c))
    && (c == minimum || exists k | 0 <= k < |steps| :: steps[k].uses in table && table[steps[k].uses].confirmation == c)
  }

  predicate WorkflowAdmissible(table: Table, d: Definition, source: Source)
    requires WellFormed(d)
  {
    && (forall k | 0 <= k < |d.steps| :: StepAdmissible(table, d, source, k))
    && IsStrongestEffect(table, d.steps, d.expectedEffect)
    && d.requiredPermissions == PermissionsOf(table, d.steps)
  }

  predicate Derives(table: Table, d: Definition, derived: Derived) {
    && IsStrongestEffect(table, d.steps, derived.effect)
    && IsStrongestConfirmation(table, d.steps, d.minimumApproval, derived.confirmation)
    && derived.permissions == PermissionsOf(table, d.steps)
  }

  /** Everything `compile_operation` demands of a file before it becomes an operation. */
  predicate Admissible(table: Table, d: Definition, source: Source) {
    && WellFormed(d) && StrategyTargets(d)
    && InSubset(d.schema, 0)
    && RoutingAdmissible(d, source)
    && WorkflowAdmissible(table, d, source)
  }

  // ---- The interpreter ----

  datatype Refusal = NotManaged | Refused(message: string)

  datatype Fault =
    | InvalidInputs
    | UnknownPrimitive(reference: string)
    | MissingInput(name: string)
    | MissingStep(step: string)
    | MissingField(step: string, field: string)
    | NotIndexable(step: string)
    | NotIterable(name: string)
    | BadReference(text: string)
    | RejectedArguments(step: string)
    | InvokerRefused(refusal: Refusal)

  /** One primitive invocation: the step it was made for, the primitive, and its arguments. */
  datatype Call = Call(step: string, target: Primitive, arguments: map<string, Json>)

  /**
   The world around one run. `respond` answers the last call of a history, so an invoker may depend
   on everything it was asked before.
   */
  datatype World = World(
    checks: Checks,
    coerce: (Primitive, map<string, Json>) -> Option<map<string, Json>>,
    respond: seq<Call> -> Result<Json, Refusal>)

  datatype Outcome<+T> = Done(value: T, trace: seq<Call>) | Stopped(fault: Fault, trace: seq<Call>)

  type Values = map<string, Json>

  /** `^\$\{(.+)\}$`, matched against the whole string. */
  predicate Wrapped(s: string) {
    4 <= |s| && "${" <= s && s[|s| - 1] == '}' && '\n' !in s[2..|s| - 1]
  }

  /** The part of `_resolve` behind the regular expression: `path` is what stands between the braces. */
  function ResolvePath(path: string, inputs: Values, outputs: Values, item: Json): Result<Json, Fault> {
    if path == "item" then Success(item)
    else if "input." <= path then
      var parts := Split(path, '.', 1);
      if |parts| != 2 then Failure(BadReference(path))
      else if parts[1] in inputs then Success(inputs[parts[1]]) else Failure(MissingInput(parts[1]))
    else if "steps." <= path then
      var parts := Split(path, '.', 3);
      if |parts| != 4 || parts[2] != "output" then Failure(BadReference(path))
      else if parts[1] !in outputs then Failure(MissingStep(parts[1]))
      else if !outputs[parts[1]].Obj? then Failure(NotIndexable(parts[1]))
      else if parts[3] !in outputs[parts[1]].fields then Failure(MissingField(parts[1], parts[3]))
      else Success(outputs[parts[1]].fields[parts[3]])
    else Failure(BadReference(path))
  }

  /** `_resolve`: the interpreter's own reading of a binding. */
  function Resolve(v: Json, inputs: Values, outputs: Values, item: Json): Result<Json, Fault> {
    if !v.Str? || !Wrapped(v.s) then Success(v)
    else ResolvePath(v.s[2..|v.s| - 1], inputs, outputs, item)
  }

  /** The arguments of one call, from the state in which `arguments` holds the earlier bindings. */
  function ResolveAll(bindings: seq<Binding>, inputs: Values, outputs: Values, item: Json,
                      arguments: Values): Result<Values, Fault>
    decreases |bindings|
  {
    if bindings == [] then Success(arguments) else
    match Resolve(bindings[0].value, inputs, outputs, item)
    case Failure(f) => Failure(f)
    case Success(x) => ResolveAll(bindings[1..], inputs, outputs, item, arguments[bindings[0].key := x])
  }

  function RunOnce(w: World, target: Primitive, step: Step, inputs: Values, outputs: Values, item: Json,
                   trace: seq<Call>): Outcome<Json>
  {
    match ResolveAll(step.bindings, inputs, outputs, item, map[])
    case Failure(f) => Stopped(f, trace)
    case Success(arguments) =>
      match w.coerce(target, arguments)
      case None => Stopped(RejectedArguments(step.id), trace)
      case Some(validated) =>
        var asked := trace + [Call(step.id, target, validated)];
        match w.respond(asked)
        case Failure(refusal) => Stopped(InvokerRefused(refusal), asked)
        case Success(answer) => Done(answer, asked)
  }

  /** The inner loop, from the state in which `results` holds what the earlier items produced. */
  function RunItems(w: World, target: Primitive, step: Step, inputs: Values, outputs: Values, items: seq<Json>,
                    results: seq<Json>, trace: seq<Call>): Outcome<seq<Json>>
    decreases |items|
  {
    if items == [] then Done(results, trace) else
    match RunOnce(w, target, step, inputs, outputs, items[0], trace)
    case Stopped(f, asked) => Stopped(f, asked)
    case Done(answer, asked) => RunItems(w, target, step, inputs, outputs, items[1..], results + [answer], asked)
  }

  function Iterable(step: Step, inputs: Values): Result<seq<Json>, Fault> {
    if step.forEach.None? then Success([Null]) else
    var field := Unwrap(step.forEach.value, InputOpen);
    if field !in inputs then Failure(MissingInput(field))
    else if !inputs[field].Arr? then Failure(NotIterable(field))
    else Success(inputs[field].items)
  }

  function RunStep(w: World, table: Table, step: Step, inputs: Values, outputs: Values,
                   trace: seq<Call>): Outcome<Json> {
    if step.uses !in table then Stopped(UnknownPrimitive(step.uses), trace) else
    match Iterable(step, inputs)
    case Failure(f) => Stopped(f, trace)
    case Success(items) =>
      match RunItems(w, table[step.uses], step, inputs, outputs, items, [], trace)
      case Stopped(f, asked) => Stopped(f, asked)
      case Done(results, asked) =>
        if step.forEach.Some? then Done(Arr(results), asked)
        else if results == [] then Stopped(NotIndexable(step.id), asked)
        else Done(results[0], asked)
  }

  /** The outer loop, from the state in which `outputs` holds what the earlier steps produced. */
  function RunSteps(w: World, table: Table, steps: seq<Step>, inputs: Values, outputs: Values,
                    trace: seq<Call>): Outcome<Values>
    decreases |steps|
  {
    if steps == [] then Done(outputs, trace) else
    match RunStep(w, table, steps[0], inputs, outputs, trace)
    case Stopped(f, asked) => Stopped(f, asked)
    case Done(answer, asked) => RunSteps(w, table, steps[1..], inputs, outputs[steps[0].id := answer], asked)
  }

  /** `validate_operation_inputs`, with the whole schema or without its top-level `required`. */
  predicate ValidInputs(c: Checks, d: Definition, inputs: Values, complete: bool) {
    Accepts(c, if complete then d.schema else d.schema.(required := {}), Obj(inputs))
  }

  /** The specification of `execute_operation_steps`. */
  function Execute(w: World, table: Table, d: Definition, inputs: Values): Outcome<Values> {
    if !ValidInputs(w.checks, d, inputs, true) then Stopped(InvalidInputs, [])
    else RunSteps(w, table, d.steps, inputs, map[], [])
  }

  /** The invoker of `execute_operation`, which refuses any primitive managed files may not use. */
  function Guarded(w: World): World {
    w.(respond := (history: seq<Call>) =>
      if history == [] then w.respond(history) else
      var target := history[|history| - 1].target;
      if !target.authorable || !target.executable then Failure(NotManaged) else w.respond(history))
  }

  predicate RequiresConfirmation(op: Compiled) {
    !op.derived.confirmation.Never?
  }
}
