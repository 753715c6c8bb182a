/** `_validate_workflow` and `compile_operation`, proved against the typing judgement. */
module Compiler {
  import opened Prelude
  import opened JsonSchema
  import opened Workflow
  import opened References

  /** `max(..., key=EFFECT_STRENGTH, default=NONE)` */
  function StrongestEffect(es: seq<Effect>): (m: Effect)
    ensures forall e | e in es :: EffectStrength(e) <= EffectStrength(m)
    ensures m in es || (es == [] && m == NoEffect)
  {
    if es == [] then NoEffect else
    var rest := StrongestEffect(es[1..]);
    assert es == [es[0]] + es[1..];
    if |es| == 1 || EffectStrength(rest) <= EffectStrength(es[0]) then es[0] else rest
  }

  /** `max(..., key=CONFIRMATION_STRENGTH, default=NEVER)` */
  function StrongestConfirmation(cs: seq<Confirmation>): (m: Confirmation)
    ensures forall c | c in cs :: ConfirmationStrength(c) <= ConfirmationStrength(m)
    ensures m in cs || (cs == [] && m == Never)
  {
    if cs == [] then Never else
    var rest := StrongestConfirmation(cs[1..]);
    assert cs == [cs[0]] + cs[1..];
    if |cs| == 1 || ConfirmationStrength(rest) <= ConfirmationStrength(cs[0]) then cs[0] else rest
  }

  /** What the checker has recorded about the first `k` steps. */
  ghost predicate Recorded(table: Table, d: Definition, k: nat, outputs: map<string, set<string>>)
    requires k <= |d.steps|
  {
    && (forall j | 0 <= j < k ::
          && d.steps[j].uses in table && d.steps[j].id in outputs
          && outputs[d.steps[j].id] ==
               (if d.steps[j].forEach.None? then table[d.steps[j].uses].outputFields else {}))
    && (forall id | id in outputs :: exists j | 0 <= j < k :: d.steps[j].id == id)
  }

  /** The string test on one binding decides whether its meaning is well typed. */
  lemma {:induction false} BindingDecided(table: Table, d: Definition, k: nat, outputs: map<string, set<string>>,
                                          v: Json)
    requires WellFormed(d) && k < |d.steps| && Recorded(table, d, k, outputs) && SafeBinding(v)
    ensures BindingError(v, d.schema.properties.Keys, outputs, d.steps[k].forEach.Some?).None?
        <==> Typed(table, d, k, Meaning(v))
  {
    CheckerReadsMeaning(v, d.schema.properties.Keys, outputs, d.steps[k].forEach.Some?);
    if Meaning(v).Output? {
      OutputDecided(table, d, k, outputs, Meaning(v).step, Meaning(v).field);
    }
  }

  lemma {:induction false} OutputDecided(table: Table, d: Definition, k: nat, outputs: map<string, set<string>>,
                                         step: string, field: string)
    requires forall i, j | 0 <= i < j < |d.steps| :: d.steps[i].id != d.steps[j].id
    requires k < |d.steps| && Recorded(table, d, k, outputs)
    ensures step in outputs && field in outputs[step] <==> Typed(table, d, k, Output(step, field))
  {
    if step in outputs {
      var j :| 0 <= j < k && d.steps[j].id == step;
      assert forall i | 0 <= i < k && d.steps[i].id == step :: i == j;
    }
  }

  lemma {:induction false} RecordStep(table: Table, d: Definition, k: nat, outputs: map<string, set<string>>,
                                      fields: set<string>)
    requires WellFormed(d) && k < |d.steps| && Recorded(table, d, k, outputs)
    requires d.steps[k].uses in table
    requires fields == if d.steps[k].forEach.None? then table[d.steps[k].uses].outputFields else {}
    ensures Recorded(table, d, k + 1, outputs[d.steps[k].id := fields])
  {
    var extended := outputs[d.steps[k].id := fields];
    forall id | id in extended ensures exists j | 0 <= j < k + 1 :: d.steps[j].id == id {
      if id in outputs && id != d.steps[k].id {
        var j :| 0 <= j < k && d.steps[j].id == id;
      }
    }
  }

  /** One round of the checker's loop, given what the earlier rounds recorded. */
  method CheckStep(table: Table, d: Definition, source: Source, k: nat, outputs: map<string, set<string>>)
    returns (ok: bool)
    requires WellFormed(d) && k < |d.steps| && Recorded(table, d, k, outputs)
    ensures ok <==> StepAdmissible(table, d, source, k)
  {
    var step := d.steps[k];
    if step.uses !in table { return false; }
    var target := table[step.uses];
    if source.Managed? && !target.authorable { return false; }
    if !SuppliesInputs(target, step) { return false; }
    if !ForEachNamesArray(d, step) { return false; }
    for j := 0 to |step.bindings|
      invariant forall i | 0 <= i < j :: Typed(table, d, k, Meaning(step.bindings[i].value))
    {
      BindingDecided(table, d, k, outputs, step.bindings[j].value);
      var problem := BindingError(step.bindings[j].value, d.schema.properties.Keys, outputs, step.forEach.Some?);
      if problem.Some? {
        return false;
      }
    }
    return true;
  }

  lemma {:induction false} PermissionsGrow(table: Table, steps: seq<Step>, k: nat)
    requires k < |steps| && steps[k].uses in table
    ensures PermissionsOf(table, steps[..k + 1]) == PermissionsOf(table, steps[..k]) + table[steps[k].uses].permissions
  {
    var before, after := steps[..k], steps[..k + 1];
    forall p | p in table[steps[k].uses].permissions ensures p in PermissionsOf(table, after) {
      assert after[k] == steps[k];
    }
    forall p | p in PermissionsOf(table, before) ensures p in PermissionsOf(table, after) {
      var j :| 0 <= j < |before| && before[j].uses in table && p in table[before[j].uses].permissions;
      assert after[j] == before[j];
    }
    forall p | p in PermissionsOf(table, after)
      ensures p in PermissionsOf(table, before) || p in table[steps[k].uses].permissions
    {
      var j :| 0 <= j < |after| && after[j].uses in table && p in table[after[j].uses].permissions;
      if j < k { assert before[j] == after[j]; }
    }
  }

  /** The strengths collected from the first `k` steps, in order. */
  ghost predicate Collected(table: Table, d: Definition, k: nat, effects: seq<Effect>,
                            confirmations: seq<Confirmation>, permissions: set<string>)
    requires k <= |d.steps|
  {
    && |effects| == |confirmations| == k
    && (forall j | 0 <= j < k ::
          d.steps[j].uses in table && effects[j] == table[d.steps[j].uses].effect &&
          confirmations[j] == table[d.steps[j].uses].confirmation)
    && permissions == PermissionsOf(table, d.steps[..k])
  }

  lemma {:induction false} CollectStep(table: Table, d: Definition, k: nat, effects: seq<Effect>,
                                       confirmations: seq<Confirmation>, permissions: set<string>)
    requires k < |d.steps| && Collected(table, d, k, effects, confirmations, permissions) && d.steps[k].uses in table
    ensures var target := table[d.steps[k].uses];
            Collected(table, d, k + 1, effects + [target.effect], confirmations + [target.confirmation],
                      permissions + target.permissions)
  {
    PermissionsGrow(table, d.steps, k);
  }

  /** The loop of `_validate_workflow`: it gets through exactly when every step is well typed. */
  method CheckSteps(table: Table, d: Definition, source: Source)
    returns (ok: bool, effects: seq<Effect>, confirmations: seq<Confirmation>, permissions: set<string>)
    requires WellFormed(d)
    ensures ok <==> forall k | 0 <= k < |d.steps| :: StepAdmissible(table, d, source, k)
    ensures ok ==> Collected(table, d, |d.steps|, effects, confirmations, permissions)
  {
    var outputs: map<string, set<string>> := map[];
    effects, confirmations, permissions := [], [], {};
    for k := 0 to |d.steps|
      invariant forall j | 0 <= j < k :: StepAdmissible(table, d, source, j)
      invariant Recorded(table, d, k, outputs)
      invariant Collected(table, d, k, effects, confirmations, permissions)
    {
      ok := CheckStep(table, d, source, k, outputs);
      if !ok { return; }
      var step := d.steps[k];
      var target := table[step.uses];
      CollectStep(table, d, k, effects, confirmations, permissions);
      effects := effects + [target.effect];
      confirmations := confirmations + [target.confirmation];
      permissions := permissions + target.permissions;
      var fields := if step.forEach.None? then target.outputFields else {};
      RecordStep(table, d, k, outputs, fields);
      outputs := outputs[step.id := fields];
    }
    ok := true;
  }

  /** `_validate_workflow`: accepts exactly the well-typed workflows, and derives their authority. */
  method ValidateWorkflow(table: Table, d: Definition, source: Source) returns (r: Result<Derived, string>)
    requires WellFormed(d)
    ensures r.Success? <==> WorkflowAdmissible(table, d, source)
    ensures r.Success? ==> Derives(table, d, r.value)
  {
    var ok, effects, confirmations, permissions := CheckSteps(table, d, source);
    if !ok { return Failure("a step is not well typed"); }
    assert d.steps[..|d.steps|] == d.steps;
    var effect := StrongestEffect(effects);
    var primitiveConfirmation := StrongestConfirmation(confirmations);
    var confirmation := StrongestConfirmation([primitiveConfirmation, d.minimumApproval]);
    Strongest(table, d, effects, confirmations, effect, primitiveConfirmation, confirmation);
    if effect != d.expectedEffect { return Failure("expectedEffect does not match"); }
    if d.requiredPermissions != permissions { return Failure("requiredPermissions must match exactly"); }
    return Success(Derived(effect, confirmation, permissions));
  }

  lemma {:induction false} StrongestIsAttained(table: Table, d: Definition, confirmations: seq<Confirmation>,
                                               primitiveConfirmation: Confirmation, confirmation: Confirmation)
    requires |confirmations| == |d.steps| && d.steps != []
    requires forall j | 0 <= j < |d.steps| ::
               d.steps[j].uses in table && confirmations[j] == table[d.steps[j].uses].confirmation
    requires primitiveConfirmation == StrongestConfirmation(confirmations)
    requires confirmation == StrongestConfirmation([primitiveConfirmation, d.minimumApproval])
    ensures IsStrongestConfirmation(table, d.steps, d.minimumApproval, confirmation)
  {
    assert forall j | 0 <= j < |d.steps| :: confirmations[j] in confirmations;
    assert primitiveConfirmation in [primitiveConfirmation, d.minimumApproval];
    assert d.minimumApproval in [primitiveConfirmation, d.minimumApproval];
    var i :| 0 <= i < |confirmations| && confirmations[i] == primitiveConfirmation;
    assert table[d.steps[i].uses].confirmation == primitiveConfirmation;
  }

  lemma {:induction false} Strongest(table: Table, d: Definition, effects: seq<Effect>,
                                     confirmations: seq<Confirmation>, effect: Effect,
                                     primitiveConfirmation: Confirmation, confirmation: Confirmation)
    requires |effects| == |confirmations| == |d.steps| && d.steps != []
    requires forall j | 0 <= j < |d.steps| ::
               d.steps[j].uses in table && effects[j] == table[d.steps[j].uses].effect &&
               confirmations[j] == table[d.steps[j].uses].confirmation
    requires effect == StrongestEffect(effects)
    requires primitiveConfirmation == StrongestConfirmation(confirmations)
    requires confirmation == StrongestConfirmation([primitiveConfirmation, d.minimumApproval])
    ensures forall e :: IsStrongestEffect(table, d.steps, e) <==> e == effect
    ensures IsStrongestConfirmation(table, d.steps, d.minimumApproval, confirmation)
  {
    assert forall j | 0 <= j < |d.steps| :: effects[j] in effects;
    var j :| 0 <= j < |effects| && effects[j] == effect;
    assert table[d.steps[j].uses].effect == effect;
    StrongestIsAttained(table, d, confirmations, primitiveConfirmation, confirmation);
    assert IsStrongestEffect(table, d.steps, effect);
    forall e | IsStrongestEffect(table, d.steps, e) ensures e == effect {
      assert EffectStrength(e) == EffectStrength(effect);
    }
  }

  /** `compile_operation` succeeds on exactly the admissible definitions. */
  method CompileOperation(table: Table, checksum: Definition -> string, d: Definition, source: Source)
    returns (r: Result<Compiled, string>)
    ensures r.Success? <==> Admissible(table, d, source)
    ensures r.Success? ==>
              r.value.definition == d && r.value.source == source && r.value.checksum == checksum(d) &&
              Derives(table, d, r.value.derived)
  {
    if !WellFormed(d) || !StrategyTargets(d) { return Failure("document"); }
    if !InSubset(d.schema, 0) { return Failure("schema"); }
    if !RoutingAdmissible(d, source) { return Failure("routing"); }
    var derived := ValidateWorkflow(table, d, source);
    match derived {
      case Failure(message) => return Failure(message);
      case Success(authority) => return Success(Compiled(d, checksum(d), source, authority));
    }
  }

  /** What a compiled operation carries: an admissible definition and the authority derived from it. */
  ghost predicate Sound(table: Table, op: Compiled) {
    Admissible(table, op.definition, op.source) && Derives(table, op.definition, op.derived)
  }
}
