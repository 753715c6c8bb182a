/** What the browser reads from an accepted document: the document with the stated defaults filled in. */
module ContractReading {
  import opened Prelude
  import opened JsonSchema
  import opened ContractOrder
  import opened Contracts
  import opened ContractMeaning

  // ---- Zod's parse ----

  /** The first member that accepts the value. */
  function FirstAccepting(c: Checks, file: seq<Declaration>, members: seq<Zod>, v: Option<Json>): (i: nat)
    ensures i <= |members| && (i < |members| ==> ZodAccepts(c, file, members[i], v))
    ensures forall j | 0 <= j < i :: !ZodAccepts(c, file, members[j], v)
  {
    if members == [] || ZodAccepts(c, file, members[0], v) then 0
    else 1 + FirstAccepting(c, file, members[1..], v)
  }

  /** The place of the declaration of a name. */
  function Find(file: seq<Declaration>, name: string): (i: nat)
    ensures i <= |file| && (i < |file| ==> file[i].name == name)
    ensures forall j | 0 <= j < i :: file[j].name != name
  {
    if file == [] || file[0].name == name then 0 else 1 + Find(file[1..], name)
  }

  /**
   What `parse` returns for a value the expression accepts; `None` is `undefined`. A default answers
   `undefined` with its value, a union answers with its first member that accepts, a loose object parses its
   fields and copies the others.
   */
  function Parse(c: Checks, file: seq<Declaration>, z: Zod, v: Option<Json>): Option<Json>
    decreases |file|, z
  {
    match z
    case ZRef(name) =>
      var i := Find(file, name);
      if i < |file| then Parse(c, file[..i], file[i].expr, v) else v
    case ZUnion(members) =>
      var i := FirstAccepting(c, file, members, v);
      if i < |members| then Parse(c, file, members[i], v) else v
    case ZArray(element, _, _) =>
      if v.Some? && v.value.Arr? then
        var items := v.value.items;
        Some(Arr(seq(|items|, i requires 0 <= i < |items| => ValueOr(Parse(c, file, element, Some(items[i])), Null))))
      else v
    case ZLooseObject(fields) =>
      if v.Some? && v.value.Obj? then
        var given := v.value.fields;
        Some(Obj(map k | k in given.Keys + fields.Keys &&
                         (k in fields ==> Parse(c, file, fields[k], Field(given, k)).Some?) ::
                   if k in fields then Parse(c, file, fields[k], Field(given, k)).value else given[k]))
      else v
    case ZDefault(inner, value) => if v.None? then Some(value) else Parse(c, file, inner, v)
    case ZOptional(inner) => if v.None? then None else Parse(c, file, inner, v)
    case _ => v
  }

  function ValueOr<T>(o: Option<T>, other: T): T {
    if o.Some? then o.value else other
  }

  function Field(fields: map<string, Json>, k: string): Option<Json> {
    if k in fields then Some(fields[k]) else None
  }

  // ---- The document with its defaults ----

  /** The first member whose kept part accepts the value. */
  function FirstMatching(c: Checks, defs: Definitions, open: set<string>, members: seq<Schema>, v: Json): (i: nat)
    ensures i <= |members|
    ensures i < |members| ==> Valid(c, KeptAll(defs), open, Kept(defs, members[i]), v)
    ensures forall j | 0 <= j < i :: !Valid(c, KeptAll(defs), open, Kept(defs, members[j]), v)
  {
    if members == [] || Valid(c, KeptAll(defs), open, Kept(defs, members[0]), v) then 0
    else 1 + FirstMatching(c, defs, open, members[1..], v)
  }

  /** The properties a schema states a default for. */
  function Defaulted(s: Schema): set<string> {
    set k | k in s.properties && s.properties[k].default.Some?
  }

  /**
   The value as its schema means it to be read: every absent property with a default has that default, at
   every level the schema describes, and everything else is as it was.
   */
  function Filled(c: Checks, defs: Definitions, open: set<string>, s: Schema, v: Json): Json
    decreases open, s
  {
    if s.ref.Some? then
      var name := s.ref.value;
      if name in open && name in defs then Filled(c, defs, open - {name}, defs[name], v) else v
    else if s.constant.Some? || s.enum.Some? then v
    else if s.union.AnyOf? then
      var i := FirstMatching(c, defs, open, s.union.members, v);
      if i < |s.union.members| then Filled(c, defs, open, s.union.members[i], v) else v
    else if s.kind == Some(ArrayKind) && s.items.Some? && v.Arr? then
      Arr(seq(|v.items|, i requires 0 <= i < |v.items| => Filled(c, defs, open, s.items.value, v.items[i])))
    else if s.kind == Some(ObjectKind) && v.Obj? then
      Obj(map k | k in v.fields.Keys + Defaulted(s) ::
            if k !in v.fields then s.properties[k].default.value
            else if k in s.properties then Filled(c, defs, open, s.properties[k], v.fields[k])
            else v.fields[k])
    else v
  }

  // ---- Absence ----

  /** No expression but a default turns an absent value into a present one. */
  lemma {:induction false} AbsentStaysAbsent(c: Checks, defs: Definitions, order: seq<string>, file: seq<Declaration>,
                                             k: nat, s: Schema)
    requires Rendered(defs, order, file) && k <= |order| && ZodExpr(s).Some?
    ensures Parse(c, file[..k], ZodExpr(s).value, None) == None
    decreases k, s
  {
    if s.ref.Some? {
      var i := Find(file[..k], s.ref.value);
      if i < k {
        assert file[..k][..i] == file[..i] && file[..k][i] == file[i];
        assert ZodExpr(defs[order[i]]) == Some(file[i].expr);
        AbsentStaysAbsent(c, defs, order, file, i, defs[order[i]]);
      }
    } else if s.constant.Some? || s.enum.Some? {
      LiteralReads(c, file[..k], s, None);
    } else if s.union.AnyOf? {
      var members := ZodExpr(s).value.members;
      var i := FirstAccepting(c, file[..k], members, None);
      UnionMembers(s);
      if i < |members| {
        AbsentStaysAbsent(c, defs, order, file, k, s.union.members[i]);
      }
    }
  }

  lemma {:induction false} UnionMembers(s: Schema)
    requires s.ref.None? && s.constant.None? && s.enum.None? && s.union.AnyOf? && ZodExpr(s).Some?
    ensures var z := ZodExpr(s).value;
            && z.ZUnion? && |z.members| == |s.union.members|
            && forall i | 0 <= i < |z.members| :: ZodExpr(s.union.members[i]) == Some(z.members[i])
  {
  }

  /** Constants and enumerations read as they stand. */
  lemma {:induction false} LiteralReads(c: Checks, file: seq<Declaration>, s: Schema, v: Option<Json>)
    requires s.ref.None? && (s.constant.Some? || s.enum.Some?) && ZodExpr(s).Some?
    ensures Parse(c, file, ZodExpr(s).value, v) == v
  {
    var z := ZodExpr(s).value;
    if z.ZUnion? {
      assert forall i | 0 <= i < |z.members| :: z.members[i] == ZLiteral(s.enum.value[i]);
    }
  }

  // ---- Reading is filling in ----

  lemma {:induction false} ReferenceReads(c: Checks, file: seq<Declaration>, k: nat, name: string, i: nat,
                                          v: Option<Json>)
    requires i < k <= |file| && file[i].name == name
    requires forall j | 0 <= j < k && file[j].name == name :: j == i
    ensures Parse(c, file[..k], ZRef(name), v) == Parse(c, file[..i], file[i].expr, v)
  {
    var f := Find(file[..k], name);
    assert file[..k][i] == file[i];
    assert f == i && file[..k][..i] == file[..i];
  }

  /** The expression of a schema reads an accepted value as the schema means it to be read. */
  lemma {:induction false} ReadingFillsIn(c: Checks, defs: Definitions, order: seq<string>, file: seq<Declaration>,
                                          k: nat, open: set<string>, s: Schema, v: Json)
    requires Rendered(defs, order, file) && k <= |order| && InScope(defs, order, k, s)
    requires AllScalarLiterals(defs) && ScalarLiterals(s)
    requires Elements(order[..k]) <= open && ZodExpr(s).Some?
    requires ZodAccepts(c, file[..k], ZodExpr(s).value, Some(v))
    ensures Parse(c, file[..k], ZodExpr(s).value, Some(v)) == Some(Filled(c, defs, open, s, v))
    decreases k, s, 2
  {
    ChildrenInScope(defs, order, k, s);
    if s.ref.Some? {
      var name := s.ref.value;
      if name in defs {
        var i := DeclarationOf(defs, order, file, k, name);
        ScopeWithout(order, k, i, open);
        ReferenceDecides(c, file, k, name, i, Some(v));
        ReferenceReads(c, file, k, name, i, Some(v));
        ReadingFillsIn(c, defs, order, file, i, open - {name}, defs[name], v);
      } else {
        UndefinedNamesDenoteNothing(c, defs, order, file, k, name, Some(v));
      }
    } else if s.constant.Some? || s.enum.Some? {
      LiteralReads(c, file[..k], s, Some(v));
    } else if s.union.AnyOf? {
      UnionReads(c, defs, order, file, k, open, s, v);
    } else if s.kind == Some(ArrayKind) && s.items.Some? {
      ArrayReads(c, defs, order, file, k, open, s, v);
    } else if s.kind == Some(ObjectKind) && s.properties != map[] {
      ObjectReads(c, defs, order, file, k, open, s, v);
    } else {
      LeafReads(c, defs, file[..k], open, s, v);
    }
  }

  lemma {:induction false} LeafReads(c: Checks, defs: Definitions, file: seq<Declaration>, open: set<string>, s: Schema,
                                     v: Json)
    requires s.ref.None? && s.constant.None? && s.enum.None? && s.union.NoUnion?
    requires s.kind == Some(ArrayKind) ==> s.items.None?
    requires s.kind == Some(ObjectKind) ==> s.properties == map[]
    requires ZodExpr(s).Some?
    ensures Parse(c, file, ZodExpr(s).value, Some(v)) == Some(Filled(c, defs, open, s, v))
  {
    if s.kind == Some(ObjectKind) && v.Obj? {
      assert Filled(c, defs, open, s, v).fields == v.fields;
    } else if s.kind == Some(ArrayKind) && v.Arr? {
      assert ZodExpr(s).value.element == ZUnknown;
      assert Parse(c, file, ZodExpr(s).value, Some(v)).value.items == v.items;
    }
  }

  lemma {:induction false} UnionReads(c: Checks, defs: Definitions, order: seq<string>, file: seq<Declaration>,
                                      k: nat, open: set<string>, s: Schema, v: Json)
    requires s.ref.None? && s.constant.None? && s.enum.None? && s.union.AnyOf?
    requires Rendered(defs, order, file) && k <= |order| && AllScalarLiterals(defs)
    requires forall i | 0 <= i < |s.union.members| ::
               InScope(defs, order, k, s.union.members[i]) && ScalarLiterals(s.union.members[i])
    requires Elements(order[..k]) <= open && ZodExpr(s).Some?
    requires ZodAccepts(c, file[..k], ZodExpr(s).value, Some(v))
    ensures Parse(c, file[..k], ZodExpr(s).value, Some(v)) == Some(Filled(c, defs, open, s, v))
    decreases k, s, 1
  {
    var z := ZodExpr(s).value;
    var i := FirstAccepting(c, file[..k], z.members, Some(v));
    SameMember(c, defs, order, file, k, open, s, v);
    UnionMembers(s);
    ReadingFillsIn(c, defs, order, file, k, open, s.union.members[i], v);
  }

  /** Zod and the kept schema choose the same member. */
  lemma {:induction false} SameMember(c: Checks, defs: Definitions, order: seq<string>, file: seq<Declaration>,
                                      k: nat, open: set<string>, s: Schema, v: Json)
    requires s.ref.None? && s.constant.None? && s.enum.None? && s.union.AnyOf?
    requires Rendered(defs, order, file) && k <= |order| && AllScalarLiterals(defs)
    requires forall i | 0 <= i < |s.union.members| ::
               InScope(defs, order, k, s.union.members[i]) && ScalarLiterals(s.union.members[i])
    requires Elements(order[..k]) <= open && ZodExpr(s).Some?
    requires ZodAccepts(c, file[..k], ZodExpr(s).value, Some(v))
    ensures var i := FirstAccepting(c, file[..k], ZodExpr(s).value.members, Some(v));
            i < |s.union.members| && i == FirstMatching(c, defs, open, s.union.members, v)
  {
    var z := ZodExpr(s).value;
    UnionMembers(s);
    UnionDecides(c, file[..k], s, Some(v));
    forall i | 0 <= i < |s.union.members|
      ensures ZodExpr(s.union.members[i]) == Some(z.members[i])
      ensures ZodAccepts(c, file[..k], z.members[i], Some(v))
          <==> Valid(c, KeptAll(defs), open, Kept(defs, s.union.members[i]), v)
    {
      KeptDecides(c, defs, order, file, k, open, s.union.members[i], v);
    }
  }

  lemma {:induction false} ArrayReads(c: Checks, defs: Definitions, order: seq<string>, file: seq<Declaration>,
                                      k: nat, open: set<string>, s: Schema, v: Json)
    requires s.ref.None? && s.constant.None? && s.enum.None? && s.union.NoUnion?
    requires s.kind == Some(ArrayKind) && s.items.Some?
    requires Rendered(defs, order, file) && k <= |order| && InScope(defs, order, k, s.items.value)
    requires AllScalarLiterals(defs) && ScalarLiterals(s.items.value)
    requires Elements(order[..k]) <= open && ZodExpr(s).Some?
    requires ZodAccepts(c, file[..k], ZodExpr(s).value, Some(v))
    ensures Parse(c, file[..k], ZodExpr(s).value, Some(v)) == Some(Filled(c, defs, open, s, v))
    decreases k, s, 1
  {
    forall i | 0 <= i < |v.items|
      ensures Parse(c, file[..k], ZodExpr(s.items.value).value, Some(v.items[i]))
           == Some(Filled(c, defs, open, s.items.value, v.items[i]))
    {
      ReadingFillsIn(c, defs, order, file, k, open, s.items.value, v.items[i]);
    }
    assert Parse(c, file[..k], ZodExpr(s).value, Some(v)).value.items == Filled(c, defs, open, s, v).items;
  }

  /** What one declared property reads as: its own value as its schema means it, its default, or nothing. */
  function FilledField(c: Checks, defs: Definitions, open: set<string>, s: Schema, p: string,
                       fields: map<string, Json>): Option<Json>
    requires p in s.properties
  {
    if p in fields then Some(Filled(c, defs, open, s.properties[p], fields[p])) else s.properties[p].default
  }

  lemma {:induction false} FieldReads(c: Checks, defs: Definitions, order: seq<string>, file: seq<Declaration>,
                                      k: nat, open: set<string>, s: Schema, p: string, fields: map<string, Json>)
    requires Rendered(defs, order, file) && k <= |order| && AllScalarLiterals(defs)
    requires p in s.properties && InScope(defs, order, k, s.properties[p]) && ScalarLiterals(s.properties[p])
    requires Elements(order[..k]) <= open && ZodField(s, p).Some?
    requires ZodAccepts(c, file[..k], ZodField(s, p).value, Field(fields, p))
    ensures Parse(c, file[..k], ZodField(s, p).value, Field(fields, p)) == FilledField(c, defs, open, s, p, fields)
    decreases k, s, 0
  {
    FieldParses(c, file[..k], s, p, Field(fields, p));
    if p in fields {
      PresentField(c, file[..k], s, p, fields[p]);
      ReadingFillsIn(c, defs, order, file, k, open, s.properties[p], fields[p]);
    } else {
      AbsentStaysAbsent(c, defs, order, file, k, s.properties[p]);
    }
  }

  /** A field reads as its property's expression does, except that an absent one with a default reads as that. */
  lemma {:induction false} FieldParses(c: Checks, file: seq<Declaration>, s: Schema, p: string, v: Option<Json>)
    requires p in s.properties && ZodField(s, p).Some?
    ensures ZodExpr(s.properties[p]).Some?
    ensures v.Some? ==> Parse(c, file, ZodField(s, p).value, v) == Parse(c, file, ZodExpr(s.properties[p]).value, v)
    ensures v.None? && Parse(c, file, ZodExpr(s.properties[p]).value, None) == None ==>
              Parse(c, file, ZodField(s, p).value, v) == s.properties[p].default
  {
  }

  lemma {:induction false} ObjectReads(c: Checks, defs: Definitions, order: seq<string>, file: seq<Declaration>,
                                       k: nat, open: set<string>, s: Schema, v: Json)
    requires s.ref.None? && s.constant.None? && s.enum.None? && s.union.NoUnion?
    requires s.kind == Some(ObjectKind) && s.properties != map[]
    requires Rendered(defs, order, file) && k <= |order|
    requires forall p | p in s.properties :: InScope(defs, order, k, s.properties[p]) && ScalarLiterals(s.properties[p])
    requires AllScalarLiterals(defs) && Elements(order[..k]) <= open && ZodExpr(s).Some?
    requires ZodAccepts(c, file[..k], ZodExpr(s).value, Some(v))
    ensures Parse(c, file[..k], ZodExpr(s).value, Some(v)) == Some(Filled(c, defs, open, s, v))
    decreases k, s, 1
  {
    ObjectDecides(c, file[..k], s, v);
    forall p | p in s.properties
      ensures Parse(c, file[..k], ZodField(s, p).value, Field(v.fields, p)) ==
                FilledField(c, defs, open, s, p, v.fields)
    {
      FieldReads(c, defs, order, file, k, open, s, p, v.fields);
    }
    ObjectFills(c, defs, file[..k], open, s, v);
  }

  lemma {:induction false} ObjectFills(c: Checks, defs: Definitions, file: seq<Declaration>, open: set<string>,
                                       s: Schema, v: Json)
    requires s.ref.None? && s.constant.None? && s.enum.None? && s.union.NoUnion?
    requires s.kind == Some(ObjectKind) && s.properties != map[] && v.Obj? && ZodExpr(s).Some?
    requires forall p | p in s.properties :: ZodField(s, p).Some? &&
               Parse(c, file, ZodField(s, p).value, Field(v.fields, p)) == FilledField(c, defs, open, s, p, v.fields)
    ensures Parse(c, file, ZodExpr(s).value, Some(v)) == Some(Filled(c, defs, open, s, v))
  {
    var z := ZodExpr(s).value;
    assert z.fields.Keys == s.properties.Keys;
    var read, filled := Parse(c, file, z, Some(v)).value.fields, Filled(c, defs, open, s, v).fields;
    forall p ensures p in read <==> p in filled {
      if p in s.properties { assert z.fields[p] == ZodField(s, p).value; }
    }
    forall p | p in read ensures read[p] == filled[p] {
      if p in s.properties { assert z.fields[p] == ZodField(s, p).value; }
    }
    assert read == filled;
  }

  // ---- Main results ----

  /** The whole file: the declaration of a name reads every document it accepts with its defaults filled in. */
  lemma {:induction false} FileReadsFilledDocuments(c: Checks, defs: Definitions, order: seq<string>,
                                                    file: seq<Declaration>, name: string, v: Json)
    requires Rendered(defs, order, file) && AllScalarLiterals(defs) && name in defs && FileAccepts(c, file, name, v)
    ensures Parse(c, file, ZRef(name), Some(v)) == Some(Filled(c, defs, defs.Keys - {name}, defs[name], v))
  {
    assert order[..|order|] == order && file[..|file|] == file;
    var i := DeclarationOf(defs, order, file, |order|, name);
    DefinedBefore(defs, order, |order|);
    ScopeWithout(order, |order|, i, defs.Keys);
    ReferenceDecides(c, file, |file|, name, i, Some(v));
    ReferenceReads(c, file, |file|, name, i, Some(v));
    ReadingFillsIn(c, defs, order, file, i, defs.Keys - {name}, defs[name], v);
  }

  /**
   Property by property, for a definition that is an object: an absent one with a default reads as the
   default its definition states, an absent one without reads as absent, an undeclared one as it was given,
   and a present one as its own schema reads its own value.
   */
  lemma {:induction false} PropertiesReadAsStated(c: Checks, defs: Definitions, order: seq<string>,
                                                  file: seq<Declaration>, name: string, fields: map<string, Json>,
                                                  p: string)
    requires Rendered(defs, order, file) && AllScalarLiterals(defs) && name in defs
    requires var s := defs[name];
             s.ref.None? && s.constant.None? && s.enum.None? && s.union.NoUnion? && s.kind == Some(ObjectKind)
    requires FileAccepts(c, file, name, Obj(fields))
    ensures var s, read := defs[name], Parse(c, file, ZRef(name), Some(Obj(fields)));
            && read.Some? && read.value.Obj?
            && (p !in fields && p in s.properties ==> Field(read.value.fields, p) == s.properties[p].default)
            && (p !in fields && p !in s.properties ==> p !in read.value.fields)
            && (p in fields && p !in s.properties ==> Field(read.value.fields, p) == Some(fields[p]))
            && (p in fields && p in s.properties ==>
                  Field(read.value.fields, p)
                  == Some(Filled(c, defs, defs.Keys - {name}, s.properties[p], fields[p])))
  {
    FileReadsFilledDocuments(c, defs, order, file, name, Obj(fields));
  }

  /** The schema states no default anywhere a value can reach. */
  predicate NoDefaults(defs: Definitions, s: Schema)
    decreases s
  {
    && (s.union.AnyOf? ==> forall i | 0 <= i < |s.union.members| :: NoDefaults(defs, s.union.members[i]))
    && (s.items.Some? ==> NoDefaults(defs, s.items.value))
    && forall k | k in s.properties :: s.properties[k].default.None? && NoDefaults(defs, s.properties[k])
  }

  /** Where no default is stated, the browser reads the document itself. */
  lemma {:induction false} NothingToFill(c: Checks, defs: Definitions, open: set<string>, s: Schema, v: Json)
    requires NoDefaults(defs, s) && forall n | n in defs :: NoDefaults(defs, defs[n])
    ensures Filled(c, defs, open, s, v) == v
    decreases open, s
  {
    if s.ref.Some? {
      if s.ref.value in open && s.ref.value in defs {
        NothingToFill(c, defs, open - {s.ref.value}, defs[s.ref.value], v);
      }
    } else if s.constant.Some? || s.enum.Some? {
    } else if s.union.AnyOf? {
      var i := FirstMatching(c, defs, open, s.union.members, v);
      if i < |s.union.members| { NothingToFill(c, defs, open, s.union.members[i], v); }
    } else if s.kind == Some(ArrayKind) && s.items.Some? && v.Arr? {
      forall i | 0 <= i < |v.items| ensures Filled(c, defs, open, s.items.value, v.items[i]) == v.items[i] {
        NothingToFill(c, defs, open, s.items.value, v.items[i]);
      }
      assert Filled(c, defs, open, s, v).items == v.items;
    } else if s.kind == Some(ObjectKind) && v.Obj? {
      forall k | k in v.fields && k in s.properties
        ensures Filled(c, defs, open, s.properties[k], v.fields[k]) == v.fields[k]
      {
        NothingToFill(c, defs, open, s.properties[k], v.fields[k]);
      }
      assert Filled(c, defs, open, s, v).fields == v.fields;
    }
  }
}
