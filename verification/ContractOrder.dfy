/**
 The dependency order of the generated contract file: the three-colour depth-first search of
 `render_zod`, which emits every definition after the ones it refers to and refuses cycles.
 */
module ContractOrder {
  import opened Prelude
  import opened Ordering

  type Graph = map<string, set<string>>

  /** `edges` only leads to names that have edges themselves. */
  ghost predicate ClosedGraph(edges: Graph) {
    forall n | n in edges :: edges[n] <= edges.Keys
  }

  ghost predicate IsPath(edges: Graph, p: seq<string>) {
    && (forall i | 0 <= i < |p| :: p[i] in edges)
    && forall i | 0 <= i < |p| - 1 :: p[i + 1] in edges[p[i]]
  }

  ghost predicate IsCycle(edges: Graph, p: seq<string>) {
    2 <= |p| && IsPath(edges, p) && p[0] == p[|p| - 1]
  }

  ghost predicate HasCycle(edges: Graph) {
    exists p :: IsCycle(edges, p)
  }

  /** Every name of `order` comes after everything it depends on. */
  ghost predicate DependenciesFirst(edges: Graph, order: seq<string>) {
    forall i | 0 <= i < |order| :: order[i] in edges && edges[order[i]] <= Elements(order[..i])
  }

  /** `order` lists every definition exactly once, dependencies first. */
  ghost predicate IsEmissionOrder(edges: Graph, order: seq<string>) {
    Distinct(order) && Elements(order) == edges.Keys && DependenciesFirst(edges, order)
  }

  lemma {:induction false} PathDescends(edges: Graph, order: seq<string>, p: seq<string>, k: nat)
    returns (first: nat, at: nat)
    requires IsEmissionOrder(edges, order) && IsPath(edges, p) && k < |p|
    ensures first < |order| && at < |order| && order[first] == p[0] && order[at] == p[k]
    ensures at <= first && (0 < k ==> at < first)
  {
    if k == 0 {
      assert p[0] in Elements(order);
      first :| 0 <= first < |order| && order[first] == p[0];
      at := first;
    } else {
      var before: nat;
      first, before := PathDescends(edges, order, p, k - 1);
      assert p[k - 1 + 1] in edges[order[before]];
      assert p[k] in Elements(order[..before]);
      at :| 0 <= at < before && order[..before][at] == p[k];
    }
  }

  /** An emission order leaves no room for a cycle. */
  lemma {:induction false} EmissionOrderMeansAcyclic(edges: Graph, order: seq<string>)
    requires IsEmissionOrder(edges, order)
    ensures !HasCycle(edges)
  {
    if p :| IsCycle(edges, p) {
      var first, last := PathDescends(edges, order, p, |p| - 1);
      assert false;
    }
  }

  lemma {:induction false} PathExtends(edges: Graph, p: seq<string>, n: string)
    requires ClosedGraph(edges) && p != [] && IsPath(edges, p) && n in edges[p[|p| - 1]]
    ensures IsPath(edges, p + [n])
  {
  }

  /** A walk that ends where it has been before: the trail a refusal names. */
  ghost predicate MeetsItself(edges: Graph, walk: seq<string>) {
    walk != [] && IsPath(edges, walk) && walk[|walk| - 1] in walk[..|walk| - 1]
  }

  datatype Mark = Visiting | Visited

  class Visitor {
    const edges: Graph
    var state: map<string, Mark>
    var ordered: seq<string>

    constructor (edges: Graph)
      ensures this.edges == edges && state == map[] && ordered == []
    {
      this.edges := edges;
      state, ordered := map[], [];
    }

    ghost function Trail(): set<string>
      reads this
    {
      set n | n in state && state[n] == Visiting
    }

    ghost predicate Valid()
      reads this
    {
      && ClosedGraph(edges) && state.Keys <= edges.Keys
      && Distinct(ordered) && DependenciesFirst(edges, ordered)
      && Elements(ordered) == set n | n in state && state[n] == Visited
    }

    /**
     `visit`. On success the name has been emitted, after everything it needs, and nothing emitted
     before has moved; on failure the answer is a walk through the graph that meets itself.
     */
    method Visit(name: string, trail: seq<string>) returns (cyclic: Option<seq<string>>)
      requires Valid() && name in edges
      requires IsPath(edges, trail + [name]) && Elements(trail) == Trail()
      modifies this`state, this`ordered
      decreases edges.Keys - state.Keys
      ensures cyclic.None? ==>
                && Valid() && Trail() == old(Trail()) && old(state.Keys) <= state.Keys
                && name in ordered && old(ordered) <= ordered
      ensures cyclic.Some? ==> MeetsItself(edges, cyclic.value)
    {
      if name in state && state[name] == Visited {
        assert name in Elements(ordered);
        return None;
      }
      if name in state && state[name] == Visiting {
        assert name in Trail();
        assert (trail + [name])[..|trail|] == trail;
        return Some(trail + [name]);
      }
      ghost var initial := ordered;
      state := state[name := Visiting];
      assert Elements(ordered) == set n | n in state && state[n] == Visited;
      ghost var open := Trail();
      assert open == old(Trail()) + {name};
      assert Elements(trail + [name]) == Elements(trail) + {name};
      var dependencies := Sorted(edges[name]);
      SortedElements(edges[name]);
      for i := 0 to |dependencies|
        invariant Valid() && Trail() == open && initial <= ordered
        invariant old(state.Keys) + {name} <= state.Keys
        invariant forall j | 0 <= j < i :: dependencies[j] in ordered
      {
        var dependency := dependencies[i];
        assert dependency in edges[name];
        PathExtends(edges, trail + [name], dependency);
        cyclic := Visit(dependency, trail + [name]);
        if cyclic.Some? { return; }
      }
      assert forall n | n in edges[name] :: n in dependencies;
      Emit(name, trail, open);
      return None;
    }

    /** Mark the name finished and append it. */
    method Emit(name: string, ghost trail: seq<string>, ghost open: set<string>)
      requires Valid() && name in state && state[name] == Visiting && edges[name] <= Elements(ordered)
      modifies this`state, this`ordered
      ensures Valid() && Trail() == old(Trail()) - {name} && state.Keys == old(state.Keys)
      ensures ordered == old(ordered) + [name]
    {
      assert name !in Elements(ordered);
      ghost var before := ordered;
      state := state[name := Visited];
      ordered := ordered + [name];
      assert Elements(ordered) == Elements(before) + {name};
      forall i | 0 <= i < |ordered| ensures edges[ordered[i]] <= Elements(ordered[..i]) {
        assert ordered[..i] == before[..i];
      }
    }
  }

  lemma {:induction false} SelfMeetingWalkHasCycle(edges: Graph, walk: seq<string>)
    requires MeetsItself(edges, walk)
    ensures HasCycle(edges)
  {
    var j :| 0 <= j < |walk| - 1 && walk[..|walk| - 1][j] == walk[|walk| - 1];
    var p := walk[j..];
    assert IsCycle(edges, p);
  }

  lemma {:induction false} EmptyTrail(edges: Graph, name: string)
    requires name in edges
    ensures IsPath(edges, [] + [name]) && Elements<string>([]) == {}
  {
    assert [] + [name] == [name];
  }

  lemma {:induction false} EverythingEmitted(edges: Graph, names: seq<string>, ordered: seq<string>)
    requires forall n | n in edges :: n in names
    requires forall j | 0 <= j < |names| :: names[j] in ordered
    requires Distinct(ordered) && DependenciesFirst(edges, ordered)
    ensures IsEmissionOrder(edges, ordered) && !HasCycle(edges)
  {
    forall n ensures n in edges <==> n in ordered {
      if n in ordered { var j :| 0 <= j < |ordered| && ordered[j] == n; }
    }
    EmissionOrderMeansAcyclic(edges, ordered);
  }

  /** The outer loop of `render_zod`: an emission order exists and is returned unless there is a cycle. */
  method DependencyOrder(edges: Graph) returns (r: Result<seq<string>, seq<string>>)
    requires ClosedGraph(edges)
    ensures r.Success? <==> !HasCycle(edges)
    ensures r.Success? ==> IsEmissionOrder(edges, r.value)
    ensures r.Failure? ==> MeetsItself(edges, r.error)
  {
    var visitor := new Visitor(edges);
    var names := Sorted(edges.Keys);
    SortedElements(edges.Keys);
    for i := 0 to |names|
      invariant visitor.Valid() && visitor.edges == edges && visitor.Trail() == {}
      invariant forall j | 0 <= j < i :: names[j] in visitor.ordered
    {
      EmptyTrail(edges, names[i]);
      var cyclic := visitor.Visit(names[i], []);
      if cyclic.Some? {
        SelfMeetingWalkHasCycle(edges, cyclic.value);
        return Failure(cyclic.value);
      }
    }
    EverythingEmitted(edges, names, visitor.ordered);
    return Success(visitor.ordered);
  }
}
