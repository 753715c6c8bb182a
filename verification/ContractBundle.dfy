/** `collect_definitions` and `render_zod`: from the bundle of documents to the emitted file. */
module ContractBundle {
  import opened Prelude
  import opened JsonSchema
  import opened ContractOrder
  import opened Contracts
  import opened ContractMeaning

  datatype Named = Named(name: string, schema: Schema)

  /** One contract model: its own schema without `$defs`, and the `$defs` block beside it. */
  datatype Document = Document(name: string, body: Schema, definitions: seq<Named>)

  type Bundle = seq<Document>

  /** The bundle is keyed by document name. */
  ghost predicate Keyed(bundle: Bundle) {
    forall i, j | 0 <= i < j < |bundle| :: bundle[i].name != bundle[j].name
  }

  /** Some document says that `name` is `schema`, by its `$defs` or by being that document. */
  ghost predicate Says(bundle: Bundle, name: string, schema: Schema) {
    || (exists i | 0 <= i < |bundle| :: bundle[i].name == name && bundle[i].body == schema)
    || (exists i | 0 <= i < |bundle| :: Named(name, schema) in bundle[i].definitions)
  }

  /** The same name never carries two different bodies. */
  ghost predicate CollisionFree(bundle: Bundle) {
    forall name, a, b | Says(bundle, name, a) && Says(bundle, name, b) :: a == b
  }

  /** A `$defs` block of one of the first `k` documents has an entry for `name`. */
  ghost predicate InBlocks(bundle: Bundle, k: nat, name: string) {
    exists i, e | 0 <= i < |bundle| && i < k && e in bundle[i].definitions :: e.name == name
  }

  ghost predicate BlockSays(bundle: Bundle, name: string, schema: Schema) {
    exists i | 0 <= i < |bundle| :: Named(name, schema) in bundle[i].definitions
  }

  /** Two `$defs` entries disagree. */
  ghost predicate BlocksDisagree(bundle: Bundle) {
    exists name, a, b :: BlockSays(bundle, name, a) && BlockSays(bundle, name, b) && a != b
  }

  /** A `$defs` entry disagrees with an earlier document that was the first to define the name. */
  ghost predicate EntryContradicts(bundle: Bundle, k: nat) {
    && k < |bundle| && !InBlocks(bundle, k + 1, bundle[k].name)
    && exists a :: BlockSays(bundle, bundle[k].name, a) && a != bundle[k].body
  }

  /** Every definition came from a `$defs` entry so far, or from a document that defined it first. */
  ghost predicate Traceable(bundle: Bundle, i: nat, d: Definitions)
    requires i <= |bundle|
  {
    forall n | n in d ::
      || (BlockSays(bundle, n, d[n]) && InBlocks(bundle, i + 1, n))
      || exists k | 0 <= k < i :: FirstDefinedBy(bundle, k, n, d[n])
  }

  ghost predicate FirstDefinedBy(bundle: Bundle, k: nat, n: string, schema: Schema)
    requires k < |bundle|
  {
    bundle[k].name == n && bundle[k].body == schema && !InBlocks(bundle, k + 1, n)
  }

  /** The first `i` documents are defined, by their own body unless an entry came first. */
  ghost predicate DocumentsDefined(bundle: Bundle, i: nat, d: Definitions)
    requires i <= |bundle|
  {
    forall k | 0 <= k < i ::
      bundle[k].name in d && (!InBlocks(bundle, k + 1, bundle[k].name) ==> d[bundle[k].name] == bundle[k].body)
  }

  /** The first `j` entries of block `i` are defined as they say. */
  ghost predicate EntriesDefined(bundle: Bundle, i: nat, j: nat, d: Definitions)
    requires i < |bundle| && j <= |bundle[i].definitions|
  {
    forall l | 0 <= l < j ::
      bundle[i].definitions[l].name in d && d[bundle[i].definitions[l].name] == bundle[i].definitions[l].schema
  }

  /** All entries of the first `i` blocks are. */
  ghost predicate FirstBlocksDefined(bundle: Bundle, i: nat, d: Definitions)
    requires i <= |bundle|
  {
    forall k | 0 <= k < i :: EntriesDefined(bundle, k, |bundle[k].definitions|, d)
  }

  /** What the dictionary holds after documents `..i` and the first `j` entries of block `i`. */
  ghost predicate Collected(bundle: Bundle, i: nat, j: nat, d: Definitions)
    requires i <= |bundle| && (i < |bundle| ==> j <= |bundle[i].definitions|)
  {
    && Traceable(bundle, i, d)
    && DocumentsDefined(bundle, i, d)
    && FirstBlocksDefined(bundle, i, d)
    && (i < |bundle| ==> EntriesDefined(bundle, i, j, d))
  }

  /** The collisions `collect_definitions` looks for. */
  ghost predicate Noticed(bundle: Bundle) {
    BlocksDisagree(bundle) || exists k :: EntryContradicts(bundle, k)
  }

  /** `collect_definitions` fails exactly on the collisions it looks for. */
  method CollectDefinitions(bundle: Bundle) returns (r: Result<Definitions, string>)
    requires Keyed(bundle)
    ensures r.Failure? <==> Noticed(bundle)
    ensures r.Success? ==> Collected(bundle, |bundle|, 0, r.value)
  {
    var d: Definitions := map[];
    for i := 0 to |bundle|
      invariant Collected(bundle, i, 0, d)
    {
      var block := bundle[i].definitions;
      for j := 0 to |block|
        invariant Collected(bundle, i, j, d)
      {
        var e := block[j];
        if e.name in d && d[e.name] != e.schema {
          ConflictIsNoticed(bundle, i, j, d);
          return Failure(e.name);
        }
        EntryAdded(bundle, i, j, d);
        d := d[e.name := e.schema];
      }
      DocumentAdded(bundle, i, d);
      if bundle[i].name !in d {
        d := d[bundle[i].name := bundle[i].body];
      }
    }
    CollectedAgrees(bundle, d);
    return Success(d);
  }

  lemma {:induction false} ConflictIsNoticed(bundle: Bundle, i: nat, j: nat, d: Definitions)
    requires i < |bundle| && j < |bundle[i].definitions| && Collected(bundle, i, j, d)
    requires bundle[i].definitions[j].name in d && d[bundle[i].definitions[j].name] != bundle[i].definitions[j].schema
    ensures Noticed(bundle)
  {
    var e := bundle[i].definitions[j];
    assert e == Named(e.name, e.schema) && e in bundle[i].definitions;
    assert BlockSays(bundle, e.name, e.schema);
    if !BlockSays(bundle, e.name, d[e.name]) {
      var k :| 0 <= k < i && FirstDefinedBy(bundle, k, e.name, d[e.name]);
      assert EntryContradicts(bundle, k);
    }
  }

  lemma {:induction false} EntryAdded(bundle: Bundle, i: nat, j: nat, d: Definitions)
    requires i < |bundle| && j < |bundle[i].definitions| && Collected(bundle, i, j, d)
    requires var e := bundle[i].definitions[j]; e.name in d ==> d[e.name] == e.schema
    ensures var e := bundle[i].definitions[j]; Collected(bundle, i, j + 1, d[e.name := e.schema])
  {
    var e := bundle[i].definitions[j];
    var extended := d[e.name := e.schema];
    assert forall n | n in d :: extended[n] == d[n];
    EntryTraceable(bundle, i, j, d);
    assert DocumentsDefined(bundle, i, extended);
    forall k | 0 <= k < i ensures EntriesDefined(bundle, k, |bundle[k].definitions|, extended) {
      assert EntriesDefined(bundle, k, |bundle[k].definitions|, d);
    }
  }

  lemma {:induction false} EntryTraceable(bundle: Bundle, i: nat, j: nat, d: Definitions)
    requires i < |bundle| && j < |bundle[i].definitions| && Traceable(bundle, i, d)
    requires var e := bundle[i].definitions[j]; e.name in d ==> d[e.name] == e.schema
    ensures var e := bundle[i].definitions[j]; Traceable(bundle, i, d[e.name := e.schema])
  {
    var e := bundle[i].definitions[j];
    assert e == Named(e.name, e.schema) && e in bundle[i].definitions;
    assert BlockSays(bundle, e.name, e.schema) && InBlocks(bundle, i + 1, e.name);
  }

  lemma {:induction false} DocumentAdded(bundle: Bundle, i: nat, d: Definitions)
    requires Keyed(bundle) && i < |bundle| && Collected(bundle, i, |bundle[i].definitions|, d)
    ensures Collected(bundle, i + 1, 0, if bundle[i].name in d then d else d[bundle[i].name := bundle[i].body])
  {
    BlocksDefined(bundle, i, d);
    TraceableLonger(bundle, i, d);
    if bundle[i].name in d {
      DocumentPresent(bundle, i, d);
      NextDocument(bundle, i, d);
    } else {
      MissingNameNotInBlocks(bundle, i, d);
      DocumentDefines(bundle, i, d);
      NextDocument(bundle, i, d[bundle[i].name := bundle[i].body]);
    }
  }

  lemma {:induction false} BlocksDefined(bundle: Bundle, i: nat, d: Definitions)
    requires i < |bundle| && Collected(bundle, i, |bundle[i].definitions|, d)
    ensures Traceable(bundle, i, d) && DocumentsDefined(bundle, i, d) && FirstBlocksDefined(bundle, i + 1, d)
  {
  }

  lemma {:induction false} NextDocument(bundle: Bundle, i: nat, d: Definitions)
    requires i < |bundle|
    requires Traceable(bundle, i + 1, d) && DocumentsDefined(bundle, i + 1, d) && FirstBlocksDefined(bundle, i + 1, d)
    ensures Collected(bundle, i + 1, 0, d)
  {
  }

  lemma {:induction false} DocumentPresent(bundle: Bundle, i: nat, d: Definitions)
    requires Keyed(bundle) && i < |bundle| && bundle[i].name in d
    requires Traceable(bundle, i, d) && DocumentsDefined(bundle, i, d)
    ensures DocumentsDefined(bundle, i + 1, d)
  {
    PresentNameIsInBlocks(bundle, i, d);
  }

  lemma {:induction false} DocumentDefines(bundle: Bundle, i: nat, d: Definitions)
    requires i < |bundle| && bundle[i].name !in d && !InBlocks(bundle, i + 1, bundle[i].name)
    requires Traceable(bundle, i + 1, d) && DocumentsDefined(bundle, i, d) && FirstBlocksDefined(bundle, i + 1, d)
    ensures var extended := d[bundle[i].name := bundle[i].body];
            Traceable(bundle, i + 1, extended) && DocumentsDefined(bundle, i + 1, extended) &&
              FirstBlocksDefined(bundle, i + 1, extended)
  {
    var extended := d[bundle[i].name := bundle[i].body];
    assert FirstDefinedBy(bundle, i, bundle[i].name, extended[bundle[i].name]);
    forall k | 0 <= k <= i ensures EntriesDefined(bundle, k, |bundle[k].definitions|, extended) {
      assert EntriesDefined(bundle, k, |bundle[k].definitions|, d);
    }
  }

  lemma {:induction false} TraceableLonger(bundle: Bundle, i: nat, d: Definitions)
    requires i < |bundle| && Traceable(bundle, i, d)
    ensures Traceable(bundle, i + 1, d)
  {
    forall n | n in d && InBlocks(bundle, i + 1, n) ensures InBlocks(bundle, i + 2, n) {
      var k, e :| 0 <= k < |bundle| && k < i + 1 && e in bundle[k].definitions && e.name == n;
      assert k < i + 2;
    }
  }

  lemma {:induction false} MissingNameNotInBlocks(bundle: Bundle, i: nat, d: Definitions)
    requires i < |bundle|
    requires FirstBlocksDefined(bundle, i + 1, d)
    ensures forall n | InBlocks(bundle, i + 1, n) :: n in d
  {
    forall n | InBlocks(bundle, i + 1, n) ensures n in d {
      var k, e :| 0 <= k < |bundle| && k < i + 1 && e in bundle[k].definitions && e.name == n;
      assert EntriesDefined(bundle, k, |bundle[k].definitions|, d);
      var l :| 0 <= l < |bundle[k].definitions| && bundle[k].definitions[l] == e;
    }
  }

  lemma {:induction false} PresentNameIsInBlocks(bundle: Bundle, i: nat, d: Definitions)
    requires Keyed(bundle) && i < |bundle| && Traceable(bundle, i, d) && bundle[i].name in d
    ensures InBlocks(bundle, i + 1, bundle[i].name)
  {
  }

  lemma {:induction false} CollectedAgrees(bundle: Bundle, d: Definitions)
    requires Keyed(bundle) && Collected(bundle, |bundle|, 0, d)
    ensures forall name, a | BlockSays(bundle, name, a) :: name in d && d[name] == a
    ensures !Noticed(bundle)
  {
    forall name, a | BlockSays(bundle, name, a) ensures name in d && d[name] == a {
      var i :| 0 <= i < |bundle| && Named(name, a) in bundle[i].definitions;
      assert Named(name, a).name in d;
    }
  }

  /** Every `$defs` entry for a document's name repeats the document. */
  ghost predicate EntriesRepeatDocuments(bundle: Bundle) {
    forall i, a | 0 <= i < |bundle| && BlockSays(bundle, bundle[i].name, a) :: a == bundle[i].body
  }

  lemma {:induction false} EntriesDecideCollisions(bundle: Bundle)
    requires Keyed(bundle)
    ensures CollisionFree(bundle) <==> !BlocksDisagree(bundle) && EntriesRepeatDocuments(bundle)
  {
    if CollisionFree(bundle) {
      forall name, a, b | BlockSays(bundle, name, a) && BlockSays(bundle, name, b) ensures a == b {
        assert Says(bundle, name, a) && Says(bundle, name, b);
      }
      forall i, a | 0 <= i < |bundle| && BlockSays(bundle, bundle[i].name, a) ensures a == bundle[i].body {
        assert Says(bundle, bundle[i].name, a) && Says(bundle, bundle[i].name, bundle[i].body);
      }
    }
    if !BlocksDisagree(bundle) && EntriesRepeatDocuments(bundle) {
      forall name, a, b | Says(bundle, name, a) && Says(bundle, name, b) ensures a == b {
        SaidOnce(bundle, name, a, b);
      }
    }
  }

  lemma {:induction false} SaidOnce(bundle: Bundle, name: string, a: Schema, b: Schema)
    requires Keyed(bundle) && !BlocksDisagree(bundle) && EntriesRepeatDocuments(bundle)
    requires Says(bundle, name, a) && Says(bundle, name, b)
    ensures a == b
  {
    if i :| 0 <= i < |bundle| && bundle[i].name == name && bundle[i].body == a {
      if BlockSays(bundle, name, b) { assert b == bundle[i].body; }
    } else if j :| 0 <= j < |bundle| && bundle[j].name == name && bundle[j].body == b {
      assert BlockSays(bundle, bundle[j].name, a);
    } else {
      assert BlockSays(bundle, name, a) && BlockSays(bundle, name, b);
    }
  }

  /**
   What `collect_definitions` does not look for. Once it has succeeded, no name carries two bodies exactly
   when every `$defs` entry for a document's name repeats that document; the dictionary then holds every
   document under its own name.
   */
  lemma {:induction false} CollisionFreeWhenDocumentsKeepTheirNames(bundle: Bundle, d: Definitions)
    requires Keyed(bundle) && Collected(bundle, |bundle|, 0, d)
    ensures CollisionFree(bundle) <==> EntriesRepeatDocuments(bundle)
    ensures CollisionFree(bundle) <==> forall i | 0 <= i < |bundle| :: d[bundle[i].name] == bundle[i].body
  {
    CollectedAgrees(bundle, d);
    EntriesDecideCollisions(bundle);
    if CollisionFree(bundle) {
      forall i | 0 <= i < |bundle| ensures d[bundle[i].name] == bundle[i].body {
        assert Says(bundle, bundle[i].name, bundle[i].body);
        assert Says(bundle, bundle[i].name, d[bundle[i].name]);
      }
    }
  }

  /** A collision that goes unnoticed: a `$defs` entry first, then a document of that name that differs. */
  lemma {:induction false} UnnoticedCollision()
    ensures exists bundle: Bundle :: Keyed(bundle) && !CollisionFree(bundle) && !Noticed(bundle)
  {
    var other := Blank.(kind := Some(BooleanKind));
    var bundle: Bundle := [Document("A", Blank, [Named("B", Blank)]), Document("B", other, [])];
    assert bundle[0].name != bundle[1].name;
    assert Named("B", Blank) in bundle[0].definitions;
    assert bundle[1].name == "B" && bundle[1].body == other;
    assert Says(bundle, "B", Blank) && Says(bundle, "B", other);
    forall name, a | BlockSays(bundle, name, a) ensures name == "B" && a == Blank {
      var i :| 0 <= i < |bundle| && Named(name, a) in bundle[i].definitions;
      assert i == 0;
    }
    assert InBlocks(bundle, 2, "B");
    assert bundle[0].name == "A" != "B";
    forall k ensures !EntryContradicts(bundle, k) {}
    assert Keyed(bundle) && !CollisionFree(bundle) && !Noticed(bundle);
  }

  datatype Rendering = Rendering(definitions: Definitions, order: seq<string>, file: seq<Declaration>)

  datatype RenderError = Conflict(name: string) | Cyclic(walk: seq<string>) | Unsupported(name: string)

  lemma {:induction false} CollectedName(bundle: Bundle, a: Definitions, b: Definitions, n: string)
    requires Keyed(bundle) && Collected(bundle, |bundle|, 0, a) && Collected(bundle, |bundle|, 0, b) && n in a
    ensures n in b && b[n] == a[n]
  {
    CollectedAgrees(bundle, b);
    if !BlockSays(bundle, n, a[n]) {
      var k :| 0 <= k < |bundle| && FirstDefinedBy(bundle, k, n, a[n]);
    }
  }

  /** The bundle determines what is collected from it. */
  lemma {:induction false} CollectedIsUnique(bundle: Bundle, a: Definitions, b: Definitions)
    requires Keyed(bundle) && Collected(bundle, |bundle|, 0, a) && Collected(bundle, |bundle|, 0, b)
    ensures a == b
  {
    forall n | n in a ensures n in b && b[n] == a[n] { CollectedName(bundle, a, b, n); }
    forall n | n in b ensures n in a { CollectedName(bundle, b, a, n); }
  }

  /** `render_zod` up to layout: the declarations, in the order they are written. */
  method RenderZod(bundle: Bundle) returns (r: Result<Rendering, RenderError>)
    requires Keyed(bundle)
    ensures r.Success? ==>
              && Collected(bundle, |bundle|, 0, r.value.definitions)
              && Rendered(r.value.definitions, r.value.order, r.value.file)
    ensures r.Failure? ==>
              match r.error
              case Conflict(_) => Noticed(bundle)
              case Cyclic(walk) =>
                exists defs :: Collected(bundle, |bundle|, 0, defs) && HasCycle(Edges(defs)) &&
                  MeetsItself(Edges(defs), walk)
              case Unsupported(name) =>
                exists defs :: Collected(bundle, |bundle|, 0, defs) && name in defs && ZodExpr(defs[name]).None?
  {
    var collected := CollectDefinitions(bundle);
    if collected.Failure? { return Failure(Conflict(collected.error)); }
    var defs := collected.value;
    var ordered := DependencyOrder(Edges(defs));
    if ordered.Failure? { return Failure(Cyclic(ordered.error)); }
    var emitted := EmitAll(defs, ordered.value);
    match emitted {
      case Failure(name) => return Failure(Unsupported(name));
      case Success(file) => return Success(Rendering(defs, ordered.value, file));
    }
  }

  /** One declaration per name, in the given order, unless some definition cannot be expressed. */
  method EmitAll(defs: Definitions, order: seq<string>) returns (r: Result<seq<Declaration>, string>)
    requires forall i | 0 <= i < |order| :: order[i] in defs
    ensures r.Success? ==> Emits(defs, order, r.value)
    ensures r.Failure? ==> r.error in defs && ZodExpr(defs[r.error]).None?
  {
    var file: seq<Declaration> := [];
    for i := 0 to |order|
      invariant Emits(defs, order[..i], file)
    {
      var expr := ZodExpr(defs[order[i]]);
      if expr.None? { return Failure(order[i]); }
      file := file + [Declaration(order[i], expr.value)];
    }
    assert order[..|order|] == order;
    return Success(file);
  }
}
