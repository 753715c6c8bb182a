/** What the emitted contract file accepts, against what the JSON Schema definitions accept. */
module ContractMeaning {
  import opened Prelude
  import opened JsonSchema
  import opened ContractOrder
  import opened Contracts

  /** `edges` of `render_zod`: the references of each definition, as far as they are defined. */
  function Edges(defs: Definitions): Graph {
    map n | n in defs :: References(defs[n]) * defs.Keys
  }

  /** The file declares all definitions, dependencies first. */
  ghost predicate Rendered(defs: Definitions, order: seq<string>, file: seq<Declaration>) {
    Emits(defs, order, file) && IsEmissionOrder(Edges(defs), order)
  }

  /** Every defined name below `s` is among the first `k` declarations. */
  ghost predicate InScope(defs: Definitions, order: seq<string>, k: nat, s: Schema)
    requires k <= |order|
  {
    References(s) * defs.Keys <= Elements(order[..k])
  }

  lemma {:induction false} UnionReferences(s: Schema, i: nat)
    requires s.union.AnyOf? && i < |s.union.members|
    ensures References(s.union.members[i]) <= References(s)
  {
  }

  lemma {:induction false} PropertyReferences(s: Schema, k: string)
    requires k in s.properties
    ensures References(s.properties[k]) <= References(s)
  {
  }

  /** The names an expression mentions are among the references of its schema. */
  lemma {:induction false} NamesWithinReferences(s: Schema)
    requires ZodExpr(s).Some?
    ensures Names(ZodExpr(s).value) <= References(s)
    decreases s, 1
  {
    if s.ref.Some? || s.constant.Some? || s.enum.Some? {
    } else if s.union.AnyOf? {
      UnionNames(s);
    } else if s.kind == Some(ArrayKind) && s.items.Some? {
      NamesWithinReferences(s.items.value);
    } else if s.kind == Some(ObjectKind) && s.properties != map[] {
      ObjectNames(s);
    }
  }

  lemma {:induction false} UnionNames(s: Schema)
    requires s.ref.None? && s.constant.None? && s.enum.None? && s.union.AnyOf? && ZodExpr(s).Some?
    ensures Names(ZodExpr(s).value) <= References(s)
    decreases s, 0
  {
    var z := ZodExpr(s).value;
    forall n | n in Names(z) ensures n in References(s) {
      var i :| 0 <= i < |z.members| && n in Names(z.members[i]);
      NamesWithinReferences(s.union.members[i]);
      UnionReferences(s, i);
    }
  }

  /** Making a field optional or giving it a default mentions no further name. */
  lemma {:induction false} FieldNames(s: Schema, k: string)
    requires k in s.properties && ZodField(s, k).Some?
    ensures ZodExpr(s.properties[k]).Some? && Names(ZodField(s, k).value) == Names(ZodExpr(s.properties[k]).value)
  {
  }

  lemma {:induction false} ObjectNames(s: Schema)
    requires s.ref.None? && s.constant.None? && s.enum.None? && s.union.NoUnion? && s.kind == Some(ObjectKind)
    requires s.properties != map[] && ZodExpr(s).Some?
    ensures Names(ZodExpr(s).value) <= References(s)
    decreases s, 0
  {
    var z := ZodExpr(s).value;
    forall k | k in s.properties ensures ZodField(s, k).Some? && Names(ZodField(s, k).value) <= References(s) {
      NamesWithinReferences(s.properties[k]);
      PropertyReferences(s, k);
      FieldNames(s, k);
    }
    forall n | n in Names(z) ensures n in References(s) {
      var k :| k in z.fields && n in Names(z.fields[k]);
    }
  }

  /**
   Every defined name used inside an emitted declaration is declared earlier in the file, so the file
   never reads a constant before it exists.
   */
  lemma {:induction false} NoUseBeforeDeclaration(defs: Definitions, order: seq<string>, file: seq<Declaration>,
                                                  i: nat, name: string)
    requires Rendered(defs, order, file) && i < |file|
    requires name in Names(file[i].expr) && name in defs
    ensures exists j | 0 <= j < i :: file[j].name == name
  {
    NamesWithinReferences(defs[order[i]]);
    assert name in Edges(defs)[order[i]];
    assert name in Elements(order[..i]);
    var j :| 0 <= j < i && order[..i][j] == name;
    assert file[j].name == name;
  }

  /** Where a name in scope is declared, and that its own definition is in scope there. */
  lemma {:induction false} DeclarationOf(defs: Definitions, order: seq<string>, file: seq<Declaration>, k: nat,
                                         name: string)
    returns (i: nat)
    requires Rendered(defs, order, file) && k <= |order| && name in defs && name in Elements(order[..k])
    ensures i < k <= |file| && order[i] == name && file[i].name == name && ZodExpr(defs[name]) == Some(file[i].expr)
    ensures InScope(defs, order, i, defs[name])
    ensures forall j | 0 <= j < k && file[j].name == name :: j == i
  {
    i :| 0 <= i < k && order[..k][i] == name;
    assert Edges(defs)[order[i]] <= Elements(order[..i]);
  }

  lemma {:induction false} ChildrenInScope(defs: Definitions, order: seq<string>, k: nat, s: Schema)
    requires k <= |order| && InScope(defs, order, k, s)
    ensures s.union.AnyOf? ==> forall i | 0 <= i < |s.union.members| :: InScope(defs, order, k, s.union.members[i])
    ensures s.items.Some? ==> InScope(defs, order, k, s.items.value)
    ensures forall p | p in s.properties :: InScope(defs, order, k, s.properties[p])
  {
    if s.union.AnyOf? {
      forall i | 0 <= i < |s.union.members| ensures InScope(defs, order, k, s.union.members[i]) {
        UnionReferences(s, i);
      }
    }
    forall p | p in s.properties ensures InScope(defs, order, k, s.properties[p]) { PropertyReferences(s, p); }
  }

  ghost predicate AllScalarLiterals(defs: Definitions) {
    forall n | n in defs :: ScalarLiterals(defs[n])
  }

  /** A name means what its declaration, made from the declarations before it, means. */
  lemma {:induction false} ReferenceDecides(c: Checks, file: seq<Declaration>, k: nat, name: string, i: nat,
                                            v: Option<Json>)
    requires i < k <= |file| && file[i].name == name
    requires forall j | 0 <= j < k && file[j].name == name :: j == i
    ensures ZodAccepts(c, file[..k], ZRef(name), v) <==> ZodAccepts(c, file[..i], file[i].expr, v)
  {
    assert file[..k][i] == file[i] && file[..k][..i] == file[..i];
  }

  /** An object expression accepts exactly the objects each of whose fields it accepts. */
  lemma {:induction false} ObjectDecides(c: Checks, file: seq<Declaration>, s: Schema, v: Json)
    requires s.ref.None? && s.constant.None? && s.enum.None? && s.union.NoUnion? && s.kind == Some(ObjectKind)
    requires s.properties != map[] && ZodExpr(s).Some?
    ensures forall p | p in s.properties :: ZodField(s, p).Some?
    ensures ZodAccepts(c, file, ZodExpr(s).value, Some(v)) <==>
              v.Obj? && forall p | p in s.properties ::
                ZodAccepts(c, file, ZodField(s, p).value, if p in v.fields then Some(v.fields[p]) else None)
  {
  }

  lemma {:induction false} EnumAccepts(c: Checks, file: seq<Declaration>, s: Schema, v: Json)
    requires s.ref.None? && s.constant.None? && s.enum.Some?
    requires forall i | 0 <= i < |s.enum.value| :: Scalar(s.enum.value[i])
    ensures ZodAccepts(c, file, ZodExpr(s).value, Some(v)) <==> v in s.enum.value
  {
    var z := ZodExpr(s).value;
    if z.ZUnion? {
      forall i | 0 <= i < |z.members|
        ensures ZodAccepts(c, file, z.members[i], Some(v)) <==> v == s.enum.value[i]
      {
        assert z.members[i] == ZLiteral(s.enum.value[i]);
      }
      if v in s.enum.value {
        var i :| 0 <= i < |s.enum.value| && s.enum.value[i] == v;
        assert ZodAccepts(c, file, z.members[i], Some(v));
      }
    }
  }

  /** A value absent from the document also passes for this schema's expression. */
  predicate AdmitsAbsence(defs: Definitions, open: set<string>, s: Schema)
    decreases open, s
  {
    if s.ref.Some? then
      s.ref.value in open && s.ref.value in defs && AdmitsAbsence(defs, open - {s.ref.value}, defs[s.ref.value])
    else if s.constant.Some? || s.enum.Some? then false
    else if s.union.AnyOf? then exists i | 0 <= i < |s.union.members| :: AdmitsAbsence(defs, open, s.union.members[i])
    else s.kind.None?
  }

  /**
   A schema that says nothing its expression drops. Siblings of `$ref`, `anyOf` and untyped nodes are
   absent; a type beside `const` or `enum` is redundant; no keyword is untranslated; objects are open,
   require only declared properties, and each required property has no default and cannot be read as
   absent.
   */
  predicate Faithful(defs: Definitions, s: Schema)
    decreases s
  {
    if s.ref.Some? then s == Blank.(ref := s.ref, default := s.default)
    else if s.constant.Some? then
      && s == Blank.(constant := s.constant, kind := s.kind, default := s.default)
      && (s.kind.Some? ==> KindMatches(s.kind.value, s.constant.value))
    else if s.enum.Some? then
      && s == Blank.(enum := s.enum, kind := s.kind, default := s.default)
      && (s.kind.Some? ==> forall i | 0 <= i < |s.enum.value| :: KindMatches(s.kind.value, s.enum.value[i]))
    else if s.union.AnyOf? then
      && s == Blank.(union := s.union, default := s.default)
      && forall i | 0 <= i < |s.union.members| :: Faithful(defs, s.union.members[i])
    else if s.kind.None? then s == Blank.(default := s.default)
    else
      && s.others == []
      && (s.kind.value.ArrayKind? ==> !s.arrays.uniqueItems && (s.items.Some? ==> Faithful(defs, s.items.value)))
      && (s.kind.value.ObjectKind? ==>
            && (s.additional.Unstated? || s.additional.Anything?)
            && s.required <= s.properties.Keys
            && forall k | k in s.properties ::
                 && Faithful(defs, s.properties[k])
                 && (k in s.required ==>
                       s.properties[k].default.None? && !AdmitsAbsence(defs, defs.Keys, s.properties[k])))
  }

  /** `AdmitsAbsence` is what the emitted expression does with `undefined`. */
  lemma {:induction false} AbsenceAgrees(c: Checks, defs: Definitions, order: seq<string>, file: seq<Declaration>,
                                         k: nat, open: set<string>, s: Schema)
    requires Rendered(defs, order, file) && k <= |order| && InScope(defs, order, k, s)
    requires Elements(order[..k]) <= open && ZodExpr(s).Some?
    ensures ZodAccepts(c, file[..k], ZodExpr(s).value, None) <==> AdmitsAbsence(defs, open, s)
    decreases k, s
  {
    ChildrenInScope(defs, order, k, s);
    if s.ref.Some? {
      var name := s.ref.value;
      if name in defs {
        var i := DeclarationOf(defs, order, file, k, name);
        ScopeWithout(order, k, i, open);
        AbsenceAgrees(c, defs, order, file, i, open - {name}, defs[name]);
        ReferenceDecides(c, file, k, name, i, None);
      } else {
        UndefinedNamesDenoteNothing(c, defs, order, file, k, name, None);
      }
    } else if s.constant.Some? {
    } else if s.enum.Some? {
      EnumRejectsAbsence(c, file[..k], s);
    } else if s.union.AnyOf? {
      forall i | 0 <= i < |s.union.members|
        ensures ZodExpr(s.union.members[i]).Some?
        ensures ZodAccepts(c, file[..k], ZodExpr(s.union.members[i]).value, None)
            <==> AdmitsAbsence(defs, open, s.union.members[i])
      {
        AbsenceAgrees(c, defs, order, file, k, open, s.union.members[i]);
      }
      UnionDecides(c, file[..k], s, None);
    } else {
      LeafAbsence(c, file[..k], s);
    }
  }

  lemma {:induction false} LeafAbsence(c: Checks, file: seq<Declaration>, s: Schema)
    requires s.ref.None? && s.constant.None? && s.enum.None? && s.union.NoUnion? && ZodExpr(s).Some?
    ensures ZodAccepts(c, file, ZodExpr(s).value, None) <==> s.kind.None?
  {
  }

  lemma {:induction false} EnumRejectsAbsence(c: Checks, file: seq<Declaration>, s: Schema)
    requires s.ref.None? && s.constant.None? && s.enum.Some?
    ensures !ZodAccepts(c, file, ZodExpr(s).value, None)
  {
    var z := ZodExpr(s).value;
    if z.ZUnion? {
      assert forall i | 0 <= i < |z.members| :: z.members[i] == ZLiteral(s.enum.value[i]);
    }
  }

  /** A union expression accepts exactly what one of its members' expressions accepts. */
  lemma {:induction false} UnionDecides(c: Checks, file: seq<Declaration>, s: Schema, v: Option<Json>)
    requires s.ref.None? && s.constant.None? && s.enum.None? && s.union.AnyOf? && ZodExpr(s).Some?
    ensures forall i | 0 <= i < |s.union.members| :: ZodExpr(s.union.members[i]).Some?
    ensures ZodAccepts(c, file, ZodExpr(s).value, v) <==>
              exists i | 0 <= i < |s.union.members| :: ZodAccepts(c, file, ZodExpr(s.union.members[i]).value, v)
  {
    var z := ZodExpr(s).value;
    assert |z.members| == |s.union.members|;
    assert forall i | 0 <= i < |s.union.members| :: z.members[i] == ZodExpr(s.union.members[i]).value;
  }

  lemma {:induction false} ScopeWithout(order: seq<string>, k: nat, i: nat, open: set<string>)
    requires Distinct(order) && i < k <= |order| && Elements(order[..k]) <= open
    ensures order[i] in open && Elements(order[..i]) <= open - {order[i]}
  {
    assert order[..k][i] == order[i];
    forall x | x in order[..i] ensures x in open && x != order[i] {
      var j :| 0 <= j < i && order[..i][j] == x;
      assert order[..k][j] == x;
    }
  }

  lemma {:induction false} UndefinedNamesDenoteNothing(c: Checks, defs: Definitions, order: seq<string>,
                                                       file: seq<Declaration>, k: nat, name: string, v: Option<Json>)
    requires Rendered(defs, order, file) && k <= |order| && name !in defs
    ensures !ZodAccepts(c, file[..k], ZRef(name), v)
  {
    assert forall i | 0 <= i < k :: file[..k][i].name == order[i] && order[i] in defs;
  }

  // ---- What the emitter keeps ----

  /**
   The part of a schema its expression expresses: a reference, constant, enumeration or union without
   anything beside it, the rules of its type otherwise. Closed objects become open, uniqueness and unknown
   keywords go, and a property stays required if it is declared, has no default and cannot be read as absent.
   */
  function Kept(defs: Definitions, s: Schema): Schema
    decreases s
  {
    if s.ref.Some? then Blank.(ref := s.ref)
    else if s.constant.Some? then Blank.(constant := s.constant)
    else if s.enum.Some? then Blank.(enum := s.enum)
    else if s.union.AnyOf? then
      var members := s.union.members;
      Blank.(union := AnyOf(seq(|members|, i requires 0 <= i < |members| => Kept(defs, members[i]))))
    else if s.kind == Some(ArrayKind) then
      Blank.(kind := s.kind, arrays := s.arrays.(uniqueItems := false),
             items := if s.items.None? then None else Some(Kept(defs, s.items.value)))
    else if s.kind == Some(ObjectKind) then
      Blank.(kind := s.kind, properties := map k | k in s.properties :: Kept(defs, s.properties[k]),
             required := set k | k in s.properties && StaysRequired(defs, s, k))
    else Blank.(kind := s.kind, text := if s.kind.Some? then s.text else NoText,
                numbers := if s.kind.Some? then s.numbers else NoNumbers)
  }

  predicate StaysRequired(defs: Definitions, s: Schema, k: string)
    requires k in s.properties
  {
    k in s.required && s.properties[k].default.None? && !AdmitsAbsence(defs, defs.Keys, s.properties[k])
  }

  function KeptAll(defs: Definitions): Definitions {
    map n | n in defs :: Kept(defs, defs[n])
  }

  lemma {:induction false} DefinedBefore(defs: Definitions, order: seq<string>, k: nat)
    requires IsEmissionOrder(Edges(defs), order) && k <= |order|
    ensures Elements(order[..k]) <= defs.Keys
  {
    assert forall i | 0 <= i < k :: order[..k][i] in defs;
  }

  /** The expression accepts exactly what the kept part of its schema accepts. */
  lemma {:induction false} KeptDecides(c: Checks, defs: Definitions, order: seq<string>, file: seq<Declaration>,
                                       k: nat, open: set<string>, s: Schema, v: Json)
    requires Rendered(defs, order, file) && k <= |order| && InScope(defs, order, k, s)
    requires AllScalarLiterals(defs) && ScalarLiterals(s)
    requires Elements(order[..k]) <= open && ZodExpr(s).Some?
    ensures ZodAccepts(c, file[..k], ZodExpr(s).value, Some(v)) <==> Valid(c, KeptAll(defs), open, Kept(defs, s), v)
    decreases k, s, 2
  {
    ChildrenInScope(defs, order, k, s);
    if s.ref.Some? {
      var name := s.ref.value;
      if name in defs {
        var i := DeclarationOf(defs, order, file, k, name);
        ScopeWithout(order, k, i, open);
        ReferenceDecides(c, file, k, name, i, Some(v));
        KeptDecides(c, defs, order, file, i, open - {name}, defs[name], v);
        KeptReference(c, defs, open, name, v);
      } else {
        UndefinedNamesDenoteNothing(c, defs, order, file, k, name, Some(v));
      }
    } else if s.constant.Some? {
      KeptLiteral(c, defs, open, s, v);
    } else if s.enum.Some? {
      EnumAccepts(c, file[..k], s, v);
      KeptLiteral(c, defs, open, s, v);
    } else if s.union.AnyOf? {
      KeptUnionDecides(c, defs, order, file, k, open, s, v);
    } else if s.kind == Some(ArrayKind) && s.items.Some? {
      KeptArrayDecides(c, defs, order, file, k, open, s, v);
    } else if s.kind == Some(ObjectKind) && s.properties != map[] {
      KeptObjectDecides(c, defs, order, file, k, open, s, v);
    } else {
      KeptLeafDecides(c, defs, file[..k], open, s, v);
    }
  }

  lemma {:induction false} KeptUnionDecides(c: Checks, defs: Definitions, order: seq<string>, file: seq<Declaration>,
                                            k: nat, open: set<string>, s: Schema, v: Json)
    requires s.ref.None? && s.constant.None? && s.enum.None? && s.union.AnyOf?
    requires Rendered(defs, order, file) && k <= |order| && AllScalarLiterals(defs)
    requires forall i | 0 <= i < |s.union.members| ::
               InScope(defs, order, k, s.union.members[i]) && ScalarLiterals(s.union.members[i])
    requires Elements(order[..k]) <= open && ZodExpr(s).Some?
    ensures ZodAccepts(c, file[..k], ZodExpr(s).value, Some(v)) <==> Valid(c, KeptAll(defs), open, Kept(defs, s), v)
    decreases k, s, 1
  {
    UnionDecides(c, file[..k], s, Some(v));
    forall i | 0 <= i < |s.union.members|
      ensures ZodAccepts(c, file[..k], ZodExpr(s.union.members[i]).value, Some(v))
          <==> Valid(c, KeptAll(defs), open, Kept(defs, s.union.members[i]), v)
    {
      KeptDecides(c, defs, order, file, k, open, s.union.members[i], v);
    }
    KeptUnion(c, defs, open, s, v);
  }

  lemma {:induction false} KeptReference(c: Checks, defs: Definitions, open: set<string>, name: string, v: Json)
    requires name in defs && name in open
    ensures Valid(c, KeptAll(defs), open, Blank.(ref := Some(name)), v)
        <==> Valid(c, KeptAll(defs), open - {name}, Kept(defs, defs[name]), v)
  {
  }

  lemma {:induction false} KeptLiteral(c: Checks, defs: Definitions, open: set<string>, s: Schema, v: Json)
    requires s.ref.None? && (s.constant.Some? || s.enum.Some?)
    ensures Valid(c, KeptAll(defs), open, Kept(defs, s), v) <==>
              if s.constant.Some? then v == s.constant.value else v in s.enum.value
  {
  }

  lemma {:induction false} KeptUnion(c: Checks, defs: Definitions, open: set<string>, s: Schema, v: Json)
    requires s.ref.None? && s.constant.None? && s.enum.None? && s.union.AnyOf?
    ensures Valid(c, KeptAll(defs), open, Kept(defs, s), v) <==>
              exists i | 0 <= i < |s.union.members| :: Valid(c, KeptAll(defs), open, Kept(defs, s.union.members[i]), v)
  {
    var members := Kept(defs, s).union.members;
    BlankUnion(c, KeptAll(defs), open, members, v);
    assert |members| == |s.union.members|;
    assert forall i | 0 <= i < |members| :: members[i] == Kept(defs, s.union.members[i]);
  }

  lemma {:induction false} BlankUnion(c: Checks, defs: Definitions, open: set<string>, members: seq<Schema>, v: Json)
    ensures Valid(c, defs, open, Blank.(union := AnyOf(members)), v) <==>
              exists i | 0 <= i < |members| :: Valid(c, defs, open, members[i], v)
  {
  }

  lemma {:induction false} KeptLeafDecides(c: Checks, defs: Definitions, file: seq<Declaration>, open: set<string>,
                                           s: Schema, v: Json)
    requires s.ref.None? && s.constant.None? && s.enum.None? && s.union.NoUnion?
    requires s.kind == Some(ArrayKind) ==> s.items.None?
    requires s.kind == Some(ObjectKind) ==> s.properties == map[]
    requires ZodExpr(s).Some?
    ensures ZodAccepts(c, file, ZodExpr(s).value, Some(v)) <==> Valid(c, KeptAll(defs), open, Kept(defs, s), v)
  {
  }

  lemma {:induction false} KeptArrayDecides(c: Checks, defs: Definitions, order: seq<string>, file: seq<Declaration>,
                                            k: nat, open: set<string>, s: Schema, v: Json)
    requires s.ref.None? && s.constant.None? && s.enum.None? && s.union.NoUnion?
    requires s.kind == Some(ArrayKind) && s.items.Some?
    requires Rendered(defs, order, file) && k <= |order| && InScope(defs, order, k, s.items.value)
    requires AllScalarLiterals(defs) && ScalarLiterals(s.items.value)
    requires Elements(order[..k]) <= open && ZodExpr(s).Some?
    ensures ZodAccepts(c, file[..k], ZodExpr(s).value, Some(v)) <==> Valid(c, KeptAll(defs), open, Kept(defs, s), v)
    decreases k, s, 0
  {
    if v.Arr? {
      forall i | 0 <= i < |v.items|
        ensures ZodAccepts(c, file[..k], ZodExpr(s.items.value).value, Some(v.items[i]))
            <==> Valid(c, KeptAll(defs), open, Kept(defs, s.items.value), v.items[i])
      {
        KeptDecides(c, defs, order, file, k, open, s.items.value, v.items[i]);
      }
    }
  }

  lemma {:induction false} KeptObjectDecides(c: Checks, defs: Definitions, order: seq<string>, file: seq<Declaration>,
                                             k: nat, open: set<string>, s: Schema, v: Json)
    requires s.ref.None? && s.constant.None? && s.enum.None? && s.union.NoUnion?
    requires s.kind == Some(ObjectKind) && s.properties != map[]
    requires Rendered(defs, order, file) && k <= |order|
    requires forall p | p in s.properties :: InScope(defs, order, k, s.properties[p]) && ScalarLiterals(s.properties[p])
    requires AllScalarLiterals(defs) && Elements(order[..k]) <= open && ZodExpr(s).Some?
    ensures ZodAccepts(c, file[..k], ZodExpr(s).value, Some(v)) <==> Valid(c, KeptAll(defs), open, Kept(defs, s), v)
    decreases k, s, 1
  {
    ObjectDecides(c, file[..k], s, v);
    KeptObject(c, defs, open, s, v);
    if v.Obj? {
      forall p | p in s.properties
        ensures ZodAccepts(c, file[..k], ZodField(s, p).value, if p in v.fields then Some(v.fields[p]) else None)
            <==> KeptProperty(c, defs, open, s, p, v)
      {
        KeptPropertyDecides(c, defs, order, file, k, open, s, p, v);
      }
    }
  }

  lemma {:induction false} KeptPropertyDecides(c: Checks, defs: Definitions, order: seq<string>,
                                               file: seq<Declaration>, k: nat, open: set<string>, s: Schema, p: string,
                                               v: Json)
    requires Rendered(defs, order, file) && k <= |order| && AllScalarLiterals(defs)
    requires p in s.properties && InScope(defs, order, k, s.properties[p]) && ScalarLiterals(s.properties[p])
    requires Elements(order[..k]) <= open && ZodField(s, p).Some? && v.Obj?
    ensures ZodAccepts(c, file[..k], ZodField(s, p).value, if p in v.fields then Some(v.fields[p]) else None)
        <==> KeptProperty(c, defs, open, s, p, v)
    decreases k, s, 0
  {
    if p in v.fields {
      PresentField(c, file[..k], s, p, v.fields[p]);
      KeptDecides(c, defs, order, file, k, open, s.properties[p], v.fields[p]);
    } else {
      AbsentField(c, defs, order, file, k, s, p);
    }
  }

  /** Neither a default nor optionality changes what a present property must satisfy. */
  lemma {:induction false} PresentField(c: Checks, file: seq<Declaration>, s: Schema, p: string, x: Json)
    requires p in s.properties && ZodField(s, p).Some?
    ensures ZodExpr(s.properties[p]).Some?
    ensures ZodAccepts(c, file, ZodField(s, p).value, Some(x)) <==>
            ZodAccepts(c, file, ZodExpr(s.properties[p]).value, Some(x))
  {
  }

  /** What the kept object asks of one property. */
  predicate KeptProperty(c: Checks, defs: Definitions, open: set<string>, s: Schema, p: string, v: Json)
    requires p in s.properties && v.Obj?
  {
    if p in v.fields then Valid(c, KeptAll(defs), open, Kept(defs, s.properties[p]), v.fields[p])
    else !StaysRequired(defs, s, p)
  }

  lemma {:induction false} KeptObject(c: Checks, defs: Definitions, open: set<string>, s: Schema, v: Json)
    requires s.ref.None? && s.constant.None? && s.enum.None? && s.union.NoUnion? && s.kind == Some(ObjectKind)
    ensures Valid(c, KeptAll(defs), open, Kept(defs, s), v) <==>
              v.Obj? && forall p | p in s.properties :: KeptProperty(c, defs, open, s, p, v)
  {
    var kept := Kept(defs, s);
    assert forall p | p in s.properties :: kept.properties[p] == Kept(defs, s.properties[p]);
    assert forall p :: p in kept.required <==> p in s.properties && StaysRequired(defs, s, p);
  }

  /** The expression of a field passes an absent property exactly when it does not stay required. */
  lemma {:induction false} AbsentField(c: Checks, defs: Definitions, order: seq<string>, file: seq<Declaration>,
                                       k: nat, s: Schema, p: string)
    requires Rendered(defs, order, file) && k <= |order| && p in s.properties &&
             InScope(defs, order, k, s.properties[p])
    requires ZodField(s, p).Some?
    ensures ZodAccepts(c, file[..k], ZodField(s, p).value, None) <==> !StaysRequired(defs, s, p)
  {
    DefinedBefore(defs, order, k);
    AbsenceAgrees(c, defs, order, file, k, defs.Keys, s.properties[p]);
  }

  // ---- Keeping less widens ----

  /** Every value of a schema is a value of the part that is kept. */
  lemma {:induction false} KeepingWidens(c: Checks, defs: Definitions, open: set<string>, s: Schema, v: Json)
    requires Valid(c, defs, open, s, v)
    ensures Valid(c, KeptAll(defs), open, Kept(defs, s), v)
    decreases open, s
  {
    if s.ref.Some? {
      KeepingWidens(c, defs, open - {s.ref.value}, defs[s.ref.value], v);
      KeptReference(c, defs, open, s.ref.value, v);
    } else if s.constant.Some? || s.enum.Some? {
      KeptLiteral(c, defs, open, s, v);
    } else if s.union.AnyOf? {
      var i :| 0 <= i < |s.union.members| && Valid(c, defs, open, s.union.members[i], v);
      KeepingWidens(c, defs, open, s.union.members[i], v);
      KeptUnion(c, defs, open, s, v);
    } else if s.kind == Some(ArrayKind) {
      if s.items.Some? {
        forall i | 0 <= i < |v.items| ensures Valid(c, KeptAll(defs), open, Kept(defs, s.items.value), v.items[i]) {
          KeepingWidens(c, defs, open, s.items.value, v.items[i]);
        }
      }
    } else if s.kind == Some(ObjectKind) {
      forall p | p in s.properties ensures KeptProperty(c, defs, open, s, p, v) {
        if p in v.fields { KeepingWidens(c, defs, open, s.properties[p], v.fields[p]); }
      }
      KeptObject(c, defs, open, s, v);
    }
  }

  /** Leaving more names open accepts no less. */
  lemma {:induction false} OpeningWidens(c: Checks, defs: Definitions, open: set<string>, wider: set<string>,
                                         s: Schema, v: Json)
    requires open <= wider && Valid(c, defs, open, s, v)
    ensures Valid(c, defs, wider, s, v)
    decreases open, s
  {
    if s.ref.Some? {
      OpeningWidens(c, defs, open - {s.ref.value}, wider - {s.ref.value}, defs[s.ref.value], v);
    }
    if s.union.AnyOf? {
      var i :| 0 <= i < |s.union.members| && Valid(c, defs, open, s.union.members[i], v);
      OpeningWidens(c, defs, open, wider, s.union.members[i], v);
    }
    if v.Arr? && s.items.Some? {
      forall i | 0 <= i < |v.items| ensures Valid(c, defs, wider, s.items.value, v.items[i]) {
        OpeningWidens(c, defs, open, wider, s.items.value, v.items[i]);
      }
    }
    if v.Obj? {
      forall k | k in s.properties && k in v.fields ensures Valid(c, defs, wider, s.properties[k], v.fields[k]) {
        OpeningWidens(c, defs, open, wider, s.properties[k], v.fields[k]);
      }
      if s.additional.Each? {
        forall k | k in v.fields && k !in s.properties ensures Valid(c, defs, wider, s.additional.schema, v.fields[k]) {
          OpeningWidens(c, defs, open, wider, s.additional.schema, v.fields[k]);
        }
      }
    }
  }

  /** Translation never narrows: what a schema accepts, its expression accepts. */
  lemma {:induction false} ExpressionAccepts(c: Checks, defs: Definitions, order: seq<string>, file: seq<Declaration>,
                                             k: nat, open: set<string>, s: Schema, v: Json)
    requires Rendered(defs, order, file) && k <= |order| && InScope(defs, order, k, s)
    requires AllScalarLiterals(defs) && ScalarLiterals(s)
    requires ZodExpr(s).Some? && Valid(c, defs, open, s, v)
    ensures ZodAccepts(c, file[..k], ZodExpr(s).value, Some(v))
  {
    var wider := open + Elements(order[..k]);
    OpeningWidens(c, defs, open, wider, s, v);
    KeepingWidens(c, defs, wider, s, v);
    KeptDecides(c, defs, order, file, k, wider, s, v);
  }

  // ---- Schemas that lose nothing ----

  /** `some` definitions are faithful and refer only to each other. */
  ghost predicate FaithfulWithin(defs: Definitions, some: set<string>) {
    && some <= defs.Keys
    && forall n | n in some :: Faithful(defs, defs[n]) && References(defs[n]) * defs.Keys <= some
  }

  /** Validity of an open object, property by property. */
  lemma {:induction false} OpenObject(c: Checks, defs: Definitions, open: set<string>, s: Schema, v: Json)
    requires s.ref.None? && s.constant.None? && s.enum.None? && s.union.NoUnion? && s.kind == Some(ObjectKind)
    requires Faithful(defs, s) && v.Obj?
    requires forall p | p in s.properties ::
               && (p in s.required ==> p in v.fields)
               && (p in v.fields ==> Valid(c, defs, open, s.properties[p], v.fields[p]))
    ensures Valid(c, defs, open, s, v)
  {
  }

  lemma {:induction false} FaithfulKeepsAll(c: Checks, defs: Definitions, some: set<string>, open: set<string>,
                                            s: Schema, v: Json)
    requires FaithfulWithin(defs, some) && Faithful(defs, s) && References(s) * defs.Keys <= some
    requires Valid(c, KeptAll(defs), open, Kept(defs, s), v)
    ensures Valid(c, defs, open, s, v)
    decreases open, s, 1
  {
    if s.ref.Some? {
      var name := s.ref.value;
      KeptReference(c, defs, open, name, v);
      FaithfulKeepsAll(c, defs, some, open - {name}, defs[name], v);
    } else if s.constant.Some? || s.enum.Some? {
      KeptLiteral(c, defs, open, s, v);
    } else if s.union.AnyOf? {
      FaithfulUnionKeepsAll(c, defs, some, open, s, v);
    } else if s.kind == Some(ArrayKind) {
      FaithfulArrayKeepsAll(c, defs, some, open, s, v);
    } else if s.kind == Some(ObjectKind) {
      FaithfulObjectKeepsAll(c, defs, some, open, s, v);
    } else {
      FaithfulLeafKeepsAll(c, defs, open, s, v);
    }
  }

  lemma {:induction false} FaithfulLeafKeepsAll(c: Checks, defs: Definitions, open: set<string>, s: Schema, v: Json)
    requires s.ref.None? && s.constant.None? && s.enum.None? && s.union.NoUnion?
    requires s.kind != Some(ArrayKind) && s.kind != Some(ObjectKind) && Faithful(defs, s)
    requires Valid(c, KeptAll(defs), open, Kept(defs, s), v)
    ensures Valid(c, defs, open, s, v)
  {
  }

  lemma {:induction false} FaithfulUnionKeepsAll(c: Checks, defs: Definitions, some: set<string>, open: set<string>,
                                                 s: Schema, v: Json)
    requires s.ref.None? && s.constant.None? && s.enum.None? && s.union.AnyOf?
    requires FaithfulWithin(defs, some) && Faithful(defs, s) && References(s) * defs.Keys <= some
    requires Valid(c, KeptAll(defs), open, Kept(defs, s), v)
    ensures Valid(c, defs, open, s, v)
    decreases open, s, 0
  {
    KeptUnion(c, defs, open, s, v);
    var i :| 0 <= i < |s.union.members| && Valid(c, KeptAll(defs), open, Kept(defs, s.union.members[i]), v);
    UnionReferences(s, i);
    FaithfulKeepsAll(c, defs, some, open, s.union.members[i], v);
  }

  lemma {:induction false} FaithfulArrayKeepsAll(c: Checks, defs: Definitions, some: set<string>, open: set<string>,
                                                 s: Schema, v: Json)
    requires s.ref.None? && s.constant.None? && s.enum.None? && s.union.NoUnion? && s.kind == Some(ArrayKind)
    requires FaithfulWithin(defs, some) && Faithful(defs, s) && References(s) * defs.Keys <= some
    requires Valid(c, KeptAll(defs), open, Kept(defs, s), v)
    ensures Valid(c, defs, open, s, v)
    decreases open, s, 0
  {
    if s.items.Some? {
      forall i | 0 <= i < |v.items| ensures Valid(c, defs, open, s.items.value, v.items[i]) {
        FaithfulKeepsAll(c, defs, some, open, s.items.value, v.items[i]);
      }
    }
  }

  lemma {:induction false} FaithfulObjectKeepsAll(c: Checks, defs: Definitions, some: set<string>, open: set<string>,
                                                  s: Schema, v: Json)
    requires s.ref.None? && s.constant.None? && s.enum.None? && s.union.NoUnion? && s.kind == Some(ObjectKind)
    requires FaithfulWithin(defs, some) && Faithful(defs, s) && References(s) * defs.Keys <= some
    requires Valid(c, KeptAll(defs), open, Kept(defs, s), v)
    ensures Valid(c, defs, open, s, v)
    decreases open, s, 0
  {
    KeptObject(c, defs, open, s, v);
    assert v.Obj?;
    forall p | p in s.properties
      ensures p in s.required ==> p in v.fields
      ensures p in v.fields ==> Valid(c, defs, open, s.properties[p], v.fields[p])
    {
      assert KeptProperty(c, defs, open, s, p, v);
      PropertyReferences(s, p);
      if p in v.fields { FaithfulKeepsAll(c, defs, some, open, s.properties[p], v.fields[p]); }
    }
    OpenObject(c, defs, open, s, v);
  }

  /** On faithful schemas nothing is widened either: what the expression accepts, the schema accepts. */
  lemma {:induction false} FaithfulExpressionReflects(c: Checks, defs: Definitions, order: seq<string>,
                                                      file: seq<Declaration>, k: nat, open: set<string>,
                                                      some: set<string>, s: Schema, v: Json)
    requires Rendered(defs, order, file) && k <= |order| && InScope(defs, order, k, s)
    requires AllScalarLiterals(defs) && ScalarLiterals(s)
    requires FaithfulWithin(defs, some) && Faithful(defs, s) && References(s) * defs.Keys <= some
    requires Elements(order[..k]) <= open
    requires ZodExpr(s).Some? && ZodAccepts(c, file[..k], ZodExpr(s).value, Some(v))
    ensures Valid(c, defs, open, s, v)
  {
    KeptDecides(c, defs, order, file, k, open, s, v);
    FaithfulKeepsAll(c, defs, some, open, s, v);
  }

  // ---- Main results ----

  /** Document `v` is accepted under the declared name `name` by the whole emitted file. */
  predicate FileAccepts(c: Checks, file: seq<Declaration>, name: string, v: Json) {
    ZodAccepts(c, file, ZRef(name), Some(v))
  }

  /** Document `v` is valid for the definition `name`. */
  predicate DefinitionAccepts(c: Checks, defs: Definitions, name: string, v: Json)
    requires name in defs
  {
    Valid(c, defs, defs.Keys, defs[name], v)
  }

  /** Document `v` is valid for what the emitter keeps of the definition `name`. */
  predicate KeptAccepts(c: Checks, defs: Definitions, name: string, v: Json)
    requires name in defs
  {
    Valid(c, KeptAll(defs), defs.Keys, Kept(defs, defs[name]), v)
  }

  /**
   Contract compilation preserves meaning, exactly: for every file, the declaration of a name accepts the
   documents that are valid for what the emitter keeps of its definition, no more and no fewer. As
   keeping less only widens, it accepts every document the definition itself accepts, and the two agree
   wherever the kept part accepts nothing that the definition does not.
   */
  lemma {:induction false} CompilationPreservesMeaning(c: Checks, defs: Definitions, order: seq<string>,
                                                       file: seq<Declaration>, name: string, v: Json)
    requires Rendered(defs, order, file) && AllScalarLiterals(defs) && name in defs
    ensures FileAccepts(c, file, name, v) <==> KeptAccepts(c, defs, name, v)
    ensures DefinitionAccepts(c, defs, name, v) ==> FileAccepts(c, file, name, v)
  {
    assert order[..|order|] == order && file[..|file|] == file;
    var i := DeclarationOf(defs, order, file, |order|, name);
    ReferenceDecides(c, file, |file|, name, i, Some(v));
    DefinedBefore(defs, order, i);
    KeptDecides(c, defs, order, file, i, defs.Keys, defs[name], v);
    if DefinitionAccepts(c, defs, name, v) {
      KeepingWidens(c, defs, defs.Keys, defs[name], v);
    }
  }

  /**
   Definitions from which only faithful definitions can be reached mean the same in both languages,
   whatever else the file contains.
   */
  lemma {:induction false} FaithfulDefinitionsAreExact(c: Checks, defs: Definitions, order: seq<string>,
                                                       file: seq<Declaration>, some: set<string>, name: string, v: Json)
    requires Rendered(defs, order, file) && AllScalarLiterals(defs)
    requires FaithfulWithin(defs, some) && name in some
    ensures FileAccepts(c, file, name, v) <==> DefinitionAccepts(c, defs, name, v)
  {
    CompilationPreservesMeaning(c, defs, order, file, name, v);
    if KeptAccepts(c, defs, name, v) {
      FaithfulKeepsAll(c, defs, some, defs.Keys, defs[name], v);
    }
  }

  /**
   The widening that is meant: an object the definition closes is open to the browser. Whatever field is
   added under an undeclared name, the expression goes on accepting and the definition refuses.
   */
  lemma {:induction false} ClosedObjectsAreOpened(c: Checks, defs: Definitions, order: seq<string>,
                                                  file: seq<Declaration>, k: nat, open: set<string>, s: Schema,
                                                  fields: map<string, Json>, extra: string, x: Json)
    requires s.ref.None? && s.constant.None? && s.enum.None? && s.union.NoUnion? && s.kind == Some(ObjectKind)
    requires s.additional.Closed? && extra !in s.properties
    requires Rendered(defs, order, file) && k <= |order| && InScope(defs, order, k, s)
    requires AllScalarLiterals(defs) && ScalarLiterals(s) && Elements(order[..k]) <= open && ZodExpr(s).Some?
    requires ZodAccepts(c, file[..k], ZodExpr(s).value, Some(Obj(fields)))
    ensures ZodAccepts(c, file[..k], ZodExpr(s).value, Some(Obj(fields[extra := x])))
    ensures !Valid(c, defs, open, s, Obj(fields[extra := x]))
  {
    KeptDecides(c, defs, order, file, k, open, s, Obj(fields));
    KeptObjectIsOpen(c, defs, open, s, fields, extra, x);
    KeptDecides(c, defs, order, file, k, open, s, Obj(fields[extra := x]));
    assert extra in Obj(fields[extra := x]).fields.Keys;
  }

  lemma {:induction false} KeptObjectIsOpen(c: Checks, defs: Definitions, open: set<string>, s: Schema,
                                            fields: map<string, Json>, extra: string, x: Json)
    requires s.ref.None? && s.constant.None? && s.enum.None? && s.union.NoUnion? && s.kind == Some(ObjectKind)
    requires extra !in s.properties && Valid(c, KeptAll(defs), open, Kept(defs, s), Obj(fields))
    ensures Valid(c, KeptAll(defs), open, Kept(defs, s), Obj(fields[extra := x]))
  {
    KeptObject(c, defs, open, s, Obj(fields));
    KeptObject(c, defs, open, s, Obj(fields[extra := x]));
    forall p | p in s.properties ensures KeptProperty(c, defs, open, s, p, Obj(fields[extra := x])) {
      assert KeptProperty(c, defs, open, s, p, Obj(fields));
    }
  }

  /** A required property without a type is the one widening that no dropped keyword explains. */
  lemma {:induction false} UntypedRequiredPropertyMayBeMissing(c: Checks)
    ensures var s := Blank.(kind := Some(ObjectKind), properties := map["data" := Blank], required := {"data"});
            && !Valid(c, map[], {}, s, Obj(map[]))
            && ZodExpr(s).Some? && ZodAccepts(c, [], ZodExpr(s).value, Some(Obj(map[])))
            && !Faithful(map[], s) && Kept(map[], s).required == {}
  {
    var s := Blank.(kind := Some(ObjectKind), properties := map["data" := Blank], required := {"data"});
    assert ZodField(s, "data") == Some(ZUnknown);
    assert "data" in s.properties && AdmitsAbsence(map[], {}, s.properties["data"]);
  }
}
