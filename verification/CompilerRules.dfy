/** What the checks of an operation file come to, said without the checker. */
module CompilerRules {
  import opened Prelude
  import opened JsonSchema
  import opened Text
  import opened Workflow
  import opened Compiler

  // ---- The derived authority ----

  /** Some step uses a primitive of this effect. */
  predicate SomeEffect(table: Table, steps: seq<Step>, e: Effect) {
    exists k | 0 <= k < |steps| :: steps[k].uses in table && table[steps[k].uses].effect == e
  }

  predicate SomeConfirmation(table: Table, steps: seq<Step>, c: Confirmation) {
    exists k | 0 <= k < |steps| :: steps[k].uses in table && table[steps[k].uses].confirmation == c
  }

  /**
   An operation mutates when one of its primitives does, drafts when one drafts and none mutates, and is
   otherwise without effect; and that is the effect its file expects.
   */
  lemma {:induction false} EffectIsDerived(table: Table, op: Compiled)
    requires Sound(table, op)
    ensures var steps := op.definition.steps;
            op.derived.effect ==
              if SomeEffect(table, steps, Mutation) then Mutation
              else if SomeEffect(table, steps, Draft) then Draft
              else NoEffect
    ensures op.derived.effect == op.definition.expectedEffect
  {
    assert IsStrongestEffect(table, op.definition.steps, op.definition.expectedEffect);
  }

  /** The same for the confirmation, which the file may raise, unless it is without effect. */
  lemma {:induction false} ConfirmationIsDerived(table: Table, op: Compiled)
    requires Sound(table, op)
    ensures var steps, minimum := op.definition.steps, op.definition.minimumApproval;
            op.derived.confirmation ==
              if minimum == Required || SomeConfirmation(table, steps, Required) then Required
              else if minimum == Conditional || SomeConfirmation(table, steps, Conditional) then Conditional
              else Never
    ensures op.derived.effect == NoEffect ==> op.definition.minimumApproval == Never
    ensures op.derived.effect == Mutation ==> op.definition.minimumApproval != Never
  {
    EffectIsDerived(table, op);
  }

  lemma {:induction false} PermissionsAreDerived(table: Table, op: Compiled, p: string)
    requires Sound(table, op)
    ensures p in op.derived.permissions <==>
              exists k | 0 <= k < |op.definition.steps| ::
                op.definition.steps[k].uses in table && p in table[op.definition.steps[k].uses].permissions
    ensures op.derived.permissions == op.definition.requiredPermissions
  {
  }

  // ---- The input schema ----

  datatype Way = ToItems | ToProperty(k: string)

  /** The schema that describes the values at the end of a path through inputs. */
  function Node(s: Schema, path: seq<Way>): Option<Schema>
    decreases |path|
  {
    if path == [] then Some(s)
    else match path[0]
      case ToItems => if s.kind == Some(ArrayKind) && s.items.Some? then Node(s.items.value, path[1..]) else None
      case ToProperty(k) =>
        if s.kind == Some(ObjectKind) && k in s.properties then Node(s.properties[k], path[1..]) else None
  }

  /** What one node must say, wherever it stands. */
  predicate NodeAdmissible(s: Schema) {
    && s.kind.Some?
    && (match s.kind.value
        case NullKind => false
        case OtherKind(_) => false
        case _ => true)
    && s.ref.None? && s.constant.None? && s.union.NoUnion? && s.others == []
    && (s.text.format.Some? ==>
          s.text.format.value == "date" || s.text.format.value == "date-time" || s.text.format.value == "money")
    && (s.kind == Some(ObjectKind) ==>
          !s.additional.Anything? && !s.additional.Each? && forall k | k in s.required :: k in s.properties)
    && (s.kind == Some(ArrayKind) ==>
          s.items.Some? && s.arrays.maxItems.Some? && 1 <= s.arrays.maxItems.value <= 100)
  }

  ghost predicate NodesAdmissible(s: Schema, depth: nat) {
    forall path | Node(s, path).Some? :: depth + |path| <= 8 && NodeAdmissible(Node(s, path).value)
  }

  lemma {:induction false} NodeBelow(s: Schema, way: Way, rest: seq<Way>)
    ensures Node(s, [way] + rest) ==
              (match way
               case ToItems => if s.kind == Some(ArrayKind) && s.items.Some? then Node(s.items.value, rest) else None
               case ToProperty(k) =>
                 if s.kind == Some(ObjectKind) && k in s.properties then Node(s.properties[k], rest) else None)
  {
    assert ([way] + rest)[1..] == rest;
  }

  lemma {:induction false} NodeWithin(s: Schema, depth: nat, path: seq<Way>)
    requires InSubset(s, depth) && Node(s, path).Some?
    ensures depth + |path| <= 8 && NodeAdmissible(Node(s, path).value)
    decreases |path|
  {
    if path != [] {
      match path[0] {
        case ToItems => NodeWithin(s.items.value, depth + 1, path[1..]);
        case ToProperty(k) => NodeWithin(s.properties[k], depth + 1, path[1..]);
      }
    }
  }

  lemma {:induction false} BelowIsAdmissible(s: Schema, depth: nat, way: Way, child: Schema)
    requires NodesAdmissible(s, depth) && forall rest :: Node(s, [way] + rest) == Node(child, rest)
    ensures NodesAdmissible(child, depth + 1)
  {
    forall rest | Node(child, rest).Some?
      ensures depth + 1 + |rest| <= 8 && NodeAdmissible(Node(child, rest).value)
    {
      assert Node(s, [way] + rest).Some?;
    }
  }

  /** What is left of the subset test at a node, once the schemas below it have passed. */
  lemma {:induction false} SubsetFromBelow(s: Schema, depth: nat)
    requires depth <= 8 && NodeAdmissible(s)
    requires s.kind == Some(ArrayKind) ==> InSubset(s.items.value, depth + 1)
    requires s.kind == Some(ObjectKind) ==> forall k | k in s.properties :: InSubset(s.properties[k], depth + 1)
    ensures InSubset(s, depth)
  {
    if s.kind == Some(ObjectKind) {
      assert s.required <= s.properties.Keys;
    }
  }

  lemma {:induction false} ItemsAreAdmissible(s: Schema, depth: nat)
    requires NodesAdmissible(s, depth) && s.kind == Some(ArrayKind) && s.items.Some?
    ensures NodesAdmissible(s.items.value, depth + 1)
  {
    forall rest ensures Node(s, [ToItems] + rest) == Node(s.items.value, rest) {
      NodeBelow(s, ToItems, rest);
    }
    BelowIsAdmissible(s, depth, ToItems, s.items.value);
  }

  lemma {:induction false} PropertiesAreAdmissible(s: Schema, depth: nat, k: string)
    requires NodesAdmissible(s, depth) && s.kind == Some(ObjectKind) && k in s.properties
    ensures NodesAdmissible(s.properties[k], depth + 1)
  {
    forall rest ensures Node(s, [ToProperty(k)] + rest) == Node(s.properties[k], rest) {
      NodeBelow(s, ToProperty(k), rest);
    }
    BelowIsAdmissible(s, depth, ToProperty(k), s.properties[k]);
  }

  lemma {:induction false} RootIsAdmissible(s: Schema, depth: nat)
    requires NodesAdmissible(s, depth)
    ensures depth <= 8 && NodeAdmissible(s)
  {
    assert Node(s, []) == Some(s);
  }

  lemma {:induction false} AdmissibleNodesSuffice(s: Schema, depth: nat)
    requires NodesAdmissible(s, depth)
    ensures InSubset(s, depth)
    decreases s
  {
    RootIsAdmissible(s, depth);
    if s.kind == Some(ArrayKind) {
      ItemsAreAdmissible(s, depth);
      AdmissibleNodesSuffice(s.items.value, depth + 1);
    } else if s.kind == Some(ObjectKind) {
      forall k | k in s.properties ensures InSubset(s.properties[k], depth + 1) {
        PropertiesAreAdmissible(s, depth, k);
        AdmissibleNodesSuffice(s.properties[k], depth + 1);
      }
    }
    SubsetFromBelow(s, depth);
  }

  /**
   A schema is in the subset exactly when every node that a path leads to is admissible and no path is
   longer than eight steps.
   */
  lemma {:induction false} SubsetIsCheckedEverywhere(s: Schema, depth: nat)
    ensures InSubset(s, depth) <==> NodesAdmissible(s, depth)
  {
    if InSubset(s, depth) {
      forall path | Node(s, path).Some? ensures depth + |path| <= 8 && NodeAdmissible(Node(s, path).value) {
        NodeWithin(s, depth, path);
      }
    }
    if NodesAdmissible(s, depth) {
      AdmissibleNodesSuffice(s, depth);
    }
  }

  // ---- Routing ----

  /** The targets a routing strategy leaves to a file. */
  predicate TargetAllowed(strategy: Strategy, target: string) {
    match strategy
    case DecisionRoute => target != "request"
    case PlannerRoute => target == "request" || target == "presentation"
    case ManagedRoute => false
    case ProtocolRoute => false
  }

  /** A reference to the whole input, or to one declared field. */
  ghost predicate NamesInput(d: Definition, reference: string) {
    reference == "${input}" || exists name | name in d.schema.properties :: reference == "${input." + name + "}"
  }

  lemma {:induction false} InputReferenceNames(d: Definition, reference: string)
    requires IsInputReference(reference)
    ensures Unwrap(reference, InputOpen) in d.schema.properties <==>
              exists name | name in d.schema.properties :: reference == "${input." + name + "}"
  {
    var field := Unwrap(reference, InputOpen);
    var rest := RemovePrefix(reference, InputOpen);
    assert reference == InputOpen + rest;
    assert rest == field + "}";
    assert reference == "${input." + field + "}";
    if name :| name in d.schema.properties && reference == "${input." + name + "}" {
      assert |name| == |field|;
      assert reference[|InputOpen|..|reference| - 1] == name;
      assert reference[|InputOpen|..|reference| - 1] == field;
    }
  }

  /**
   The routing of a file is accepted exactly when each of its bindings names the whole input or a declared
   field and has a target its strategy leaves to files, managed files and only they are routed as managed,
   and the model is not offered what a protocol selects.
   */
  lemma {:induction false} RoutingIsCheckedExactly(d: Definition, source: Source)
    requires WellFormed(d)
    ensures StrategyTargets(d) && RoutingAdmissible(d, source) <==>
              && (forall i | 0 <= i < |d.routes| ::
                    TargetAllowed(d.strategy, d.routes[i].target) && NamesInput(d, d.routes[i].reference))
              && (source == Managed <==> d.strategy == ManagedRoute)
              && (d.strategy == ProtocolRoute ==> !d.discovery.modelSelectable)
  {
    forall i | 0 <= i < |d.routes| && d.routes[i].reference != "${input}"
      ensures Unwrap(d.routes[i].reference, InputOpen) in d.schema.properties <==> NamesInput(d, d.routes[i].reference)
    {
      InputReferenceNames(d, d.routes[i].reference);
    }
    assert d.routes != [] && (d.strategy.ManagedRoute? || d.strategy.ProtocolRoute?) ==>
        !TargetAllowed(d.strategy, d.routes[0].target);
  }
}
