/**
 What the compiler looks at: the `$ref`s `references_of` finds, anywhere below a schema, and the nodes that
 `zod_expr` translates, which decide whether it can be expressed.
 */
module ContractReferences {
  import opened Prelude
  import opened JsonSchema
  import opened Contracts
  import opened ContractMeaning

  /** One way down from a schema to a schema written inside it. */
  datatype Hop = Member(i: nat) | Items | Property(k: string) | Extra | Below(i: nat, j: nat)

  function Child(s: Schema, h: Hop): (t: Option<Schema>)
    ensures t.Some? ==> t.value < s
  {
    match h
    case Member(i) => if s.union.AnyOf? && i < |s.union.members| then Some(s.union.members[i]) else None
    case Items => s.items
    case Property(k) => if k in s.properties then Some(s.properties[k]) else None
    case Extra => if s.additional.Each? then Some(s.additional.schema) else None
    case Below(i, j) => if i < |s.others| && j < |s.others[i].below| then Some(s.others[i].below[j]) else None
  }

  function Reach(s: Schema, path: seq<Hop>): Option<Schema>
    decreases |path|
  {
    if path == [] then Some(s)
    else if Child(s, path[0]).None? then None
    else Reach(Child(s, path[0]).value, path[1..])
  }

  /** A `$ref` to `name` stands at the end of the path. */
  predicate LeadsTo(s: Schema, path: seq<Hop>, name: string) {
    Reach(s, path).Some? && Reach(s, path).value.ref == Some(name)
  }

  lemma {:induction false} ChildReferences(s: Schema, h: Hop)
    requires Child(s, h).Some?
    ensures References(Child(s, h).value) <= References(s)
  {
    match h {
      case Member(i) => UnionReferences(s, i);
      case Property(k) => PropertyReferences(s, k);
      case Below(i, j) => BelowReferences(s, i, j);
      case Items =>
      case Extra =>
    }
  }

  lemma {:induction false} BelowReferences(s: Schema, i: nat, j: nat)
    requires i < |s.others| && j < |s.others[i].below|
    ensures References(s.others[i].below[j]) <= References(s)
  {
  }

  function InMembers(s: Schema): set<string> {
    if s.union.AnyOf? then
      set i, n | 0 <= i < |s.union.members| && n in References(s.union.members[i]) :: n
    else {}
  }

  function InProperties(s: Schema): set<string> {
    set k, n | k in s.properties && n in References(s.properties[k]) :: n
  }

  function InOthers(s: Schema): set<string> {
    set i, j, n | 0 <= i < |s.others| && 0 <= j < |s.others[i].below| && n in References(s.others[i].below[j]) :: n
  }

  lemma {:induction false} FromMember(s: Schema, name: string) returns (h: Hop)
    requires name in InMembers(s)
    ensures Child(s, h).Some? && name in References(Child(s, h).value)
  {
    var i :| 0 <= i < |s.union.members| && name in References(s.union.members[i]);
    h := Member(i);
  }

  lemma {:induction false} FromProperty(s: Schema, name: string) returns (h: Hop)
    requires name in InProperties(s)
    ensures Child(s, h).Some? && name in References(Child(s, h).value)
  {
    var k :| k in s.properties && name in References(s.properties[k]);
    h := Property(k);
  }

  lemma {:induction false} FromOthers(s: Schema, name: string) returns (h: Hop)
    requires name in InOthers(s)
    ensures Child(s, h).Some? && name in References(Child(s, h).value)
  {
    var i, j :| 0 <= i < |s.others| && 0 <= j < |s.others[i].below| && name in References(s.others[i].below[j]);
    h := Below(i, j);
  }

  lemma {:induction false} Parts(s: Schema, name: string)
    requires name in References(s)
    ensures || s.ref == Some(name)
            || (s.items.Some? && name in References(s.items.value))
            || (s.additional.Each? && name in References(s.additional.schema))
            || name in InMembers(s) || name in InProperties(s) || name in InOthers(s)
  {
  }

  lemma {:induction false} ReferencesFromChildren(s: Schema, name: string) returns (h: Hop)
    requires name in References(s) && s.ref != Some(name)
    ensures Child(s, h).Some? && name in References(Child(s, h).value)
  {
    Parts(s, name);
    if s.items.Some? && name in References(s.items.value) {
      h := Items;
    } else if s.additional.Each? && name in References(s.additional.schema) {
      h := Extra;
    } else {
      h := FromOneOfMany(s, name);
    }
  }

  lemma {:induction false} FromOneOfMany(s: Schema, name: string) returns (h: Hop)
    requires name in InMembers(s) || name in InProperties(s) || name in InOthers(s)
    ensures Child(s, h).Some? && name in References(Child(s, h).value)
  {
    if name in InMembers(s) {
      h := FromMember(s, name);
    } else if name in InProperties(s) {
      h := FromProperty(s, name);
    } else {
      h := FromOthers(s, name);
    }
  }

  lemma {:induction false} FoundIsReached(s: Schema, name: string) returns (path: seq<Hop>)
    requires name in References(s)
    ensures LeadsTo(s, path, name)
    decreases s
  {
    if s.ref == Some(name) {
      path := [];
    } else {
      var h := ReferencesFromChildren(s, name);
      var rest := FoundIsReached(Child(s, h).value, name);
      path := [h] + rest;
    }
  }

  lemma {:induction false} ReachedIsFound(s: Schema, path: seq<Hop>, name: string)
    requires LeadsTo(s, path, name)
    ensures name in References(s)
    decreases |path|
  {
    if path != [] {
      ReachedIsFound(Child(s, path[0]).value, path[1..], name);
      ChildReferences(s, path[0]);
    }
  }

  /** A name is found exactly when some way down, through translated keywords or not, leads to a `$ref` to it. */
  lemma {:induction false} ReferencesAreEverywhere(s: Schema, name: string)
    ensures name in References(s) <==> exists path :: LeadsTo(s, path, name)
  {
    if name in References(s) {
      var path := FoundIsReached(s, name);
    }
    if path :| LeadsTo(s, path, name) {
      ReachedIsFound(s, path, name);
    }
  }

  // ---- What can be expressed ----

  /** The schemas `zod_expr` goes on to: members of a union, else the items or properties of the type. */
  function TranslatedChild(s: Schema, h: Hop): (t: Option<Schema>)
    ensures t.Some? ==> t.value < s
  {
    if s.ref.Some? || s.constant.Some? || s.enum.Some? then None
    else if s.union.AnyOf? then if h.Member? then Child(s, h) else None
    else if s.kind == Some(ArrayKind) then if h.Items? then Child(s, h) else None
    else if s.kind == Some(ObjectKind) then if h.Property? then Child(s, h) else None
    else None
  }

  function Translated(s: Schema, path: seq<Hop>): Option<Schema>
    decreases |path|
  {
    if path == [] then Some(s)
    else if TranslatedChild(s, path[0]).None? then None
    else Translated(TranslatedChild(s, path[0]).value, path[1..])
  }

  /** A node that is a reference, a literal or a union, or says nothing, or has a type and format Zod knows. */
  predicate Expressible(s: Schema) {
    s.ref.Some? || s.constant.Some? || s.enum.Some? || s.union.AnyOf? || s.kind.None? ||
    match s.kind.value
    case StringKind =>
      s.text.format.None? || s.text.format.value == "uuid" || s.text.format.value == "date-time" ||
      s.text.format.value == "date"
    case OtherKind(_) => false
    case _ => true
  }

  lemma {:induction false} StepByStep(s: Schema)
    ensures ZodExpr(s).Some? <==>
              Expressible(s) && forall h | TranslatedChild(s, h).Some? :: ZodExpr(TranslatedChild(s, h).value).Some?
  {
    if s.ref.Some? || s.constant.Some? || s.enum.Some? {
    } else if s.union.AnyOf? {
      forall i | 0 <= i < |s.union.members| ensures TranslatedChild(s, Member(i)) == Some(s.union.members[i]) {}
    } else if s.kind == Some(ArrayKind) {
      assert TranslatedChild(s, Items) == s.items;
    } else if s.kind == Some(ObjectKind) {
      forall k | k in s.properties
        ensures TranslatedChild(s, Property(k)) == Some(s.properties[k])
        ensures ZodField(s, k).Some? <==> ZodExpr(s.properties[k]).Some?
      {}
    }
  }

  lemma {:induction false} ExpressedBelow(s: Schema, path: seq<Hop>)
    requires ZodExpr(s).Some? && Translated(s, path).Some?
    ensures Expressible(Translated(s, path).value)
    decreases |path|
  {
    StepByStep(s);
    if path != [] {
      ExpressedBelow(TranslatedChild(s, path[0]).value, path[1..]);
    }
  }

  lemma {:induction false} Inexpressible(s: Schema) returns (path: seq<Hop>)
    requires ZodExpr(s).None?
    ensures Translated(s, path).Some? && !Expressible(Translated(s, path).value)
    decreases s
  {
    StepByStep(s);
    if !Expressible(s) {
      path := [];
    } else {
      var h :| TranslatedChild(s, h).Some? && ZodExpr(TranslatedChild(s, h).value).None?;
      var rest := Inexpressible(TranslatedChild(s, h).value);
      path := [h] + rest;
    }
  }

  /** A schema is refused exactly when some node on its translated paths has a type or format Zod does not know. */
  lemma {:induction false} ExpressedExactly(s: Schema)
    ensures ZodExpr(s).Some? <==> forall path | Translated(s, path).Some? :: Expressible(Translated(s, path).value)
  {
    if ZodExpr(s).Some? {
      forall path | Translated(s, path).Some? ensures Expressible(Translated(s, path).value) {
        ExpressedBelow(s, path);
      }
    } else {
      var path := Inexpressible(s);
    }
  }
}
