/**
 Route bindings: an operation's inputs are written into a small engine route
 (`bind_operation_route_inputs`) and read back from it (`operation_inputs_from_route`).
 */
module Routes {
  import opened Prelude
  import opened JsonSchema
  import opened Workflow
  import opened Samples

  datatype RouteError = InvalidRouteInputs | NotAnObject(target: string)

  const WholeInput := "${input}"

  /** One binding as both directions read it: a target, and a field name unless it takes the whole input. */
  datatype Wire = Wire(target: string, field: Option<string>)

  function WireOf(r: RouteBinding): Wire {
    Wire(r.target, if r.reference == WholeInput then None else Some(Unwrap(r.reference, InputOpen)))
  }

  function Wires(d: Definition): (wires: seq<Wire>)
    ensures |wires| == |d.routes|
    ensures forall i | 0 <= i < |wires| :: wires[i] == WireOf(d.routes[i])
  {
    seq(|d.routes|, i requires 0 <= i < |d.routes| => WireOf(d.routes[i]))
  }

  predicate DistinctTargets(wires: seq<Wire>) {
    forall i, j | 0 <= i < j < |wires| :: wires[i].target != wires[j].target
  }

  /** What one binding writes, if anything. */
  function Written(w: Wire, inputs: Values): Option<Json> {
    if w.field.None? then Some(Obj(inputs))
    else if w.field.value in inputs && inputs[w.field.value] != Null then Some(inputs[w.field.value])
    else None
  }

  /** `route` holds, for each target among the first `i` bindings, what that binding writes. */
  ghost predicate Binds(wires: seq<Wire>, i: nat, inputs: Values, route: Values)
    requires i <= |wires|
  {
    && (forall j | 0 <= j < i ::
          match Written(wires[j], inputs)
          case Some(v) => wires[j].target in route && route[wires[j].target] == v
          case None => wires[j].target !in route)
    && (forall t | t in route :: exists j | 0 <= j < i :: wires[j].target == t)
  }

  method BindRouteInputs(c: Checks, d: Definition, inputs: Values) returns (r: Result<Values, RouteError>)
    requires DistinctTargets(Wires(d))
    ensures r.Success? <==> ValidInputs(c, d, inputs, false)
    ensures r.Success? ==> Binds(Wires(d), |Wires(d)|, inputs, r.value)
  {
    if !ValidInputs(c, d, inputs, false) { return Failure(InvalidRouteInputs); }
    var wires := Wires(d);
    var route: Values := map[];
    for i := 0 to |wires|
      invariant Binds(wires, i, inputs, route)
    {
      BindingAdded(wires, i, inputs, route);
      if wires[i].field.None? {
        route := route[wires[i].target := Obj(inputs)];
      } else {
        var field := wires[i].field.value;
        if field in inputs && inputs[field] != Null {
          route := route[wires[i].target := inputs[field]];
        }
      }
    }
    return Success(route);
  }

  lemma {:induction false} BindingAdded(wires: seq<Wire>, i: nat, inputs: Values, route: Values)
    requires DistinctTargets(wires) && i < |wires| && Binds(wires, i, inputs, route)
    ensures match Written(wires[i], inputs)
            case Some(v) => Binds(wires, i + 1, inputs, route[wires[i].target := v])
            case None => Binds(wires, i + 1, inputs, route)
  {
    assert wires[i].target !in route;
    var written := Written(wires[i], inputs);
    if written.Some? {
      var extended := route[wires[i].target := written.value];
      forall t | t in extended ensures exists j | 0 <= j < i + 1 :: wires[j].target == t {
        if t in route { var j :| 0 <= j < i && wires[j].target == t; }
      }
    }
  }

  /** The dictionary `operation_inputs_from_route` has built after the first `i` bindings. */
  function ReadBack(wires: seq<Wire>, declared: set<string>, route: Values, i: nat): Result<Values, RouteError>
    requires i <= |wires|
  {
    if i == 0 then Success(map[]) else
    match ReadBack(wires, declared, route, i - 1)
    case Failure(e) => Failure(e)
    case Success(inputs) =>
      var w := wires[i - 1];
      if w.target !in route || route[w.target] == Null then Success(inputs)
      else if w.field.Some? then Success(inputs[w.field.value := route[w.target]])
      else if !route[w.target].Obj? then Failure(NotAnObject(w.target))
      else
        var whole := route[w.target].fields;
        Success(inputs + map k | k in whole && k in declared :: whole[k])
  }

  /** The current user message fills a declared but unbound `request` input. */
  function WithRequest(d: Definition, inputs: Values, request: Option<string>): Values {
    if request.Some? && "request" in d.schema.properties && "request" !in inputs
    then inputs["request" := Str(request.value)] else inputs
  }

  function FromRoute(c: Checks, d: Definition, route: Values, request: Option<string>): Result<Values, RouteError> {
    match ReadBack(Wires(d), d.schema.properties.Keys, route, |d.routes|)
    case Failure(e) => Failure(e)
    case Success(inputs) =>
      var completed := WithRequest(d, inputs, request);
      if ValidInputs(c, d, completed, false) then Success(completed) else Failure(InvalidRouteInputs)
  }

  method InputsFromRoute(c: Checks, d: Definition, route: Values, request: Option<string>)
    returns (r: Result<Values, RouteError>)
    ensures r == FromRoute(c, d, route, request)
  {
    var wires := Wires(d);
    var inputs: Values := map[];
    for i := 0 to |wires|
      invariant ReadBack(wires, d.schema.properties.Keys, route, i) == Success(inputs)
    {
      var w := wires[i];
      if w.target in route && route[w.target] != Null {
        var value := route[w.target];
        if w.field.Some? {
          inputs := inputs[w.field.value := value];
        } else if !value.Obj? {
          Unreadable(wires, d.schema.properties.Keys, route, i + 1);
          return Failure(NotAnObject(w.target));
        } else {
          inputs := inputs + map k | k in value.fields && k in d.schema.properties.Keys :: value.fields[k];
        }
      }
      assert ReadBack(wires, d.schema.properties.Keys, route, i + 1) == Success(inputs);
    }
    inputs := WithRequest(d, inputs, request);
    if !ValidInputs(c, d, inputs, false) { return Failure(InvalidRouteInputs); }
    return Success(inputs);
  }

  lemma {:induction false} Unreadable(wires: seq<Wire>, declared: set<string>, route: Values, i: nat)
    requires i <= |wires| && ReadBack(wires, declared, route, i).Failure?
    ensures ReadBack(wires, declared, route, |wires|) == ReadBack(wires, declared, route, i)
    decreases |wires| - i
  {
    if i < |wires| { Unreadable(wires, declared, route, i + 1); }
  }

  // ---- The inverse ----

  function Carried(w: Wire, declared: set<string>): set<string> {
    if w.field.Some? then {w.field.value} else declared
  }

  /** The input fields that travel through the first `i` bindings. */
  function BoundFields(wires: seq<Wire>, declared: set<string>, i: nat): set<string>
    requires i <= |wires|
  {
    if i == 0 then {} else BoundFields(wires, declared, i - 1) + Carried(wires[i - 1], declared)
  }

  function Bound(d: Definition): set<string> {
    BoundFields(Wires(d), d.schema.properties.Keys, |d.routes|)
  }

  function Restrict(inputs: Values, fields: set<string>): Values {
    map k | k in inputs && k in fields :: inputs[k]
  }

  lemma {:induction false} DeclaredInputsAreNotNull(c: Checks, d: Definition, inputs: Values)
    requires InSubset(d.schema, 0) && d.schema.kind == Some(ObjectKind) && ValidInputs(c, d, inputs, false)
    ensures forall k | k in d.schema.properties && k in inputs ::
              inputs[k] != Null && Accepts(c, d.schema.properties[k], inputs[k])
  {
    forall k | k in d.schema.properties && k in inputs
      ensures inputs[k] != Null && Accepts(c, d.schema.properties[k], inputs[k])
    {
      assert Accepts(c, d.schema.properties[k], Obj(inputs).fields[k]);
      assert InSubset(d.schema.properties[k], 1);
    }
  }

  lemma {:induction false} RestrictGrows(inputs: Values, fields: set<string>, more: set<string>)
    ensures Restrict(inputs, fields) + (map k | k in inputs && k in more :: inputs[k]) ==
            Restrict(inputs, fields + more)
    ensures forall f | f in inputs :: Restrict(inputs, fields)[f := inputs[f]] == Restrict(inputs, fields + {f})
    ensures forall f | f !in inputs :: Restrict(inputs, fields) == Restrict(inputs, fields + {f})
  {
  }

  lemma {:induction false} ReadBackBound(wires: seq<Wire>, declared: set<string>, inputs: Values, route: Values, i: nat)
    requires i <= |wires| && Binds(wires, |wires|, inputs, route)
    requires forall j | 0 <= j < |wires| :: wires[j].field.Some? && wires[j].field.value in inputs ==>
               inputs[wires[j].field.value] != Null
    ensures ReadBack(wires, declared, route, i) == Success(Restrict(inputs, BoundFields(wires, declared, i)))
  {
    if i == 0 {
      assert Restrict(inputs, {}) == map[];
    } else {
      ReadBackBound(wires, declared, inputs, route, i - 1);
      var w := wires[i - 1];
      RestrictGrows(inputs, BoundFields(wires, declared, i - 1), Carried(w, declared));
      if w.field.None? {
        assert Written(w, inputs) == Some(Obj(inputs));
      }
    }
  }

  /** Dropping top-level inputs keeps the rest valid, unless the schema enumerates whole inputs. */
  lemma {:induction false} RestrictionIsValid(c: Checks, d: Definition, inputs: Values, fields: set<string>)
    requires InSubset(d.schema, 0) && d.schema.kind == Some(ObjectKind) && ValidInputs(c, d, inputs, false)
    ensures ValidInputs(c, d, Restrict(inputs, fields), false) <==>
              (d.schema.enum.Some? ==> Obj(Restrict(inputs, fields)) in d.schema.enum.value)
  {
    var s := d.schema.(required := {});
    var some := Obj(Restrict(inputs, fields));
    assert LocallyValid(c, s, Obj(inputs));
    assert some.fields.Keys <= inputs.Keys;
    assert LocallyValid(c, s, some) <==> (s.enum.Some? ==> some in s.enum.value);
    forall k | k in s.properties && k in some.fields ensures Valid(c, map[], {}, s.properties[k], some.fields[k]) {
      assert Valid(c, map[], {}, s.properties[k], Obj(inputs).fields[k]);
    }
  }

  /**
   Route bindings invert. Reading back a bound route never meets a non-object and yields exactly the
   inputs on the bound fields; it is refused only when the schema enumerates whole inputs and does not
   list that part. It yields the whole input map exactly when every supplied field is bound: some target
   binds `${input}` and all supplied fields are declared, or each is bound by name. A current request
   changes nothing but filling the declared `request` input that no binding has filled.
   */
  lemma {:induction false} RouteRoundTrip(c: Checks, d: Definition, source: Source, inputs: Values, route: Values)
    requires WellFormed(d) && InSubset(d.schema, 0) && RoutingAdmissible(d, source)
    requires ValidInputs(c, d, inputs, false) && Binds(Wires(d), |d.routes|, inputs, route)
    ensures var part := Restrict(inputs, Bound(d));
            && FromRoute(c, d, route, None) ==
                 (if d.schema.enum.Some? && Obj(part) !in d.schema.enum.value
                  then Failure(InvalidRouteInputs)
                  else Success(part))
            && (part == inputs <==> inputs.Keys <= Bound(d))
    ensures forall request ::
              var completed := WithRequest(d, Restrict(inputs, Bound(d)), request);
              FromRoute(c, d, route, request) ==
                if ValidInputs(c, d, completed, false) then Success(completed) else Failure(InvalidRouteInputs)
  {
    ReadBackOfBound(c, d, source, inputs, route);
    RestrictionIsValid(c, d, inputs, Bound(d));
    RestrictIsAll(inputs, Bound(d));
  }

  lemma {:induction false} RestrictIsAll(inputs: Values, fields: set<string>)
    ensures Restrict(inputs, fields) == inputs <==> inputs.Keys <= fields
  {
    var part := Restrict(inputs, fields);
    assert part == inputs <==> part.Keys == inputs.Keys;
  }

  lemma {:induction false} WiredFieldsAreDeclared(d: Definition, source: Source, j: nat)
    requires RoutingAdmissible(d, source) && j < |d.routes| && Wires(d)[j].field.Some?
    ensures Wires(d)[j].field.value in d.schema.properties
  {
    assert Wires(d)[j] == WireOf(d.routes[j]);
  }

  lemma {:induction false} ReadBackOfBound(c: Checks, d: Definition, source: Source, inputs: Values, route: Values)
    requires InSubset(d.schema, 0) && d.schema.kind == Some(ObjectKind) && RoutingAdmissible(d, source)
    requires ValidInputs(c, d, inputs, false) && Binds(Wires(d), |d.routes|, inputs, route)
    ensures ReadBack(Wires(d), d.schema.properties.Keys, route, |d.routes|) == Success(Restrict(inputs, Bound(d)))
  {
    DeclaredInputsAreNotNull(c, d, inputs);
    forall j | 0 <= j < |d.routes| && Wires(d)[j].field.Some? ensures Wires(d)[j].field.value in d.schema.properties {
      WiredFieldsAreDeclared(d, source, j);
    }
    ReadBackBound(Wires(d), d.schema.properties.Keys, inputs, route, |d.routes|);
  }

  /**
   A declared `request` that no binding brings back is the current message; every other field that comes
   back is the input it was.
   */
  lemma {:induction false} CurrentRequestComesBack(c: Checks, d: Definition, source: Source, inputs: Values,
                                                   route: Values, text: string, k: string)
    requires WellFormed(d) && InSubset(d.schema, 0) && RoutingAdmissible(d, source)
    requires ValidInputs(c, d, inputs, false) && Binds(Wires(d), |d.routes|, inputs, route)
    requires FromRoute(c, d, route, Some(text)).Success?
    ensures var read, returned := FromRoute(c, d, route, Some(text)).value, k in inputs && k in Bound(d);
            && (k in read <==> returned || (k == "request" && k in d.schema.properties))
            && (k in read ==> read[k] == if returned then inputs[k] else Str(text))
  {
    RouteRoundTrip(c, d, source, inputs, route);
  }

  /**
   What a target bound to the whole input gives: everything comes back if and only if every supplied field
   is declared, which a closed schema guarantees.
   */
  lemma {:induction false} WholeInputComesBack(c: Checks, d: Definition, source: Source, inputs: Values, route: Values,
                                               j: nat)
    requires WellFormed(d) && InSubset(d.schema, 0) && RoutingAdmissible(d, source)
    requires ValidInputs(c, d, inputs, false) && Binds(Wires(d), |d.routes|, inputs, route)
    requires j < |d.routes| && d.routes[j].reference == WholeInput
    ensures FromRoute(c, d, route, None) == Success(inputs) <==> inputs.Keys <= d.schema.properties.Keys
    ensures d.schema.additional.Closed? ==> FromRoute(c, d, route, None) == Success(inputs)
  {
    WholeInputBindsDeclared(d, source, j);
    RouteRoundTrip(c, d, source, inputs, route);
    assert LocallyValid(c, d.schema.(required := {}), Obj(inputs));
    assert Obj(inputs).fields == inputs;
  }

  lemma {:induction false} WholeInputBindsDeclared(d: Definition, source: Source, j: nat)
    requires RoutingAdmissible(d, source) && j < |d.routes| && d.routes[j].reference == WholeInput
    ensures Bound(d) == d.schema.properties.Keys
  {
    var declared := d.schema.properties.Keys;
    forall k ensures k in Bound(d) <==> k in declared {
      BoundByWire(Wires(d), declared, |d.routes|, k);
      if k in declared { assert k in Carried(Wires(d)[j], declared); }
      if i :| 0 <= i < |d.routes| && k in Carried(Wires(d)[i], declared) {
        assert Wires(d)[i] == WireOf(d.routes[i]);
      }
    }
  }

  lemma {:induction false} BoundByWire(wires: seq<Wire>, declared: set<string>, i: nat, k: string)
    requires i <= |wires|
    ensures k in BoundFields(wires, declared, i) <==> exists j | 0 <= j < i :: k in Carried(wires[j], declared)
  {
    if i > 0 { BoundByWire(wires, declared, i - 1, k); }
  }

  /** The order in which the file lists its bindings does not matter to what is bound. */
  lemma {:induction false} BindingOrderIsIrrelevant(d: Definition, reordered: seq<RouteBinding>)
    requires Elements(reordered) == Elements(d.routes)
    ensures Bound(d.(routes := reordered)) == Bound(d)
  {
    var e := d.(routes := reordered);
    var declared := d.schema.properties.Keys;
    forall k ensures k in Bound(d) <==> k in Bound(e) {
      BoundByWire(Wires(d), declared, |d.routes|, k);
      BoundByWire(Wires(e), declared, |reordered|, k);
      if j :| 0 <= j < |d.routes| && k in Carried(Wires(d)[j], declared) {
        assert d.routes[j] in Elements(reordered);
        var i :| 0 <= i < |reordered| && reordered[i] == d.routes[j];
        assert Wires(e)[i] == Wires(d)[j];
      }
      if j :| 0 <= j < |reordered| && k in Carried(Wires(e)[j], declared) {
        assert reordered[j] in Elements(d.routes);
        var i :| 0 <= i < |d.routes| && d.routes[i] == reordered[j];
        assert Wires(e)[j] == Wires(d)[i];
      }
    }
  }

  /** A route loses an input the validator accepts: the schema does not say that it is closed. */
  lemma {:induction false} UndeclaredInputIsLost(c: Checks) returns (route: Values)
    ensures var d := Sample("open", OpenObject, true);
            var inputs: Values := map["x" := Null];
            && Admissible(SampleTable, d, Core) && ValidInputs(c, d, inputs, true)
            && Binds(Wires(d), |d.routes|, inputs, route)
            && FromRoute(c, d, route, None) == Success(map[])
  {
    var d := Sample("open", OpenObject, true);
    var inputs: Values := map["x" := Null];
    SampleIsAdmissible("open", OpenObject, true);
    route := map[WholeRoute.target := Obj(inputs)];
    assert Wires(d)[0] == Wire(WholeRoute.target, None);
    assert ValidInputs(c, d, inputs, true) && ValidInputs(c, d, inputs, false);
    WholeInputBindsDeclared(d, Core, 0);
    RouteRoundTrip(c, d, Core, inputs, route);
    assert Restrict(inputs, Bound(d)) == map[];
  }

  const BothGiven := Obj(map["presentation" := Obj(map[]), "b" := Obj(map[])])

  /** A closed object of two objects that enumerates the one input supplying both. */
  const EnumeratedInput := OpenObject.(additional := Closed, enum := Some([BothGiven]),
                                       properties := map["presentation" := OpenObject, "b" := OpenObject])

  lemma {:induction false} EnumeratedInputAccepts(c: Checks)
    ensures SampleSchema(EnumeratedInput)
    ensures Accepts(c, EnumeratedInput, BothGiven) && Accepts(c, EnumeratedInput.(required := {}), BothGiven)
  {
    assert InSubset(OpenObject, 1);
    assert Accepts(c, OpenObject, Obj(map[]));
    assert BothGiven in EnumeratedInput.enum.value;
    assert LocallyValid(c, EnumeratedInput, BothGiven);
  }

  function PartlyRouted(): Definition {
    Sample("e", EnumeratedInput, false).(routes := [RouteBinding("presentation", "${input.b}")])
  }

  lemma {:induction false} ReferenceToB()
    ensures IsInputReference("${input.b}") && Unwrap("${input.b}", InputOpen) == "b" && "${input.b}" != WholeInput
  {
    assert "${input.b}"[|InputOpen|..|"${input.b}"| - 1] == "b";
  }

  lemma {:induction false} PartlyRoutedIsAdmissible(c: Checks)
    ensures Admissible(SampleTable, PartlyRouted(), Core)
  {
    ReferenceToB();
    EnumeratedInputAccepts(c);
    SampleIsAdmissible("e", EnumeratedInput, false);
  }

  lemma {:induction false} PartlyRoutedBindsOne()
    ensures Wires(PartlyRouted()) == [Wire("presentation", Some("b"))] && Bound(PartlyRouted()) == {"b"}
  {
    ReferenceToB();
    var d := PartlyRouted();
    var wires := Wires(d);
    assert wires[0] == Wire("presentation", Some("b"));
    assert BoundFields(wires, d.schema.properties.Keys, 0) == {};
    assert BoundFields(wires, d.schema.properties.Keys, 1) == {"b"};
  }

  /** Reading back fails: a route that carries part of an enumerated input gives an input nobody listed. */
  lemma {:induction false} PartOfEnumeratedInputIsRefused(c: Checks) returns (route: Values)
    ensures var d := PartlyRouted();
            && Admissible(SampleTable, d, Core) && ValidInputs(c, d, BothGiven.fields, true)
            && Binds(Wires(d), |d.routes|, BothGiven.fields, route)
            && FromRoute(c, d, route, None) == Failure(InvalidRouteInputs)
  {
    var d := PartlyRouted();
    EnumeratedInputAccepts(c);
    PartlyRoutedIsAdmissible(c);
    PartlyRoutedBindsOne();
    route := map["presentation" := Obj(map[])];
    RouteRoundTrip(c, d, Core, BothGiven.fields, route);
    assert "presentation" !in Restrict(BothGiven.fields, Bound(d));
    assert Obj(Restrict(BothGiven.fields, Bound(d))) != BothGiven;
  }
}
