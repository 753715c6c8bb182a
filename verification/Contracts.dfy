/**
 The contract compiler: JSON Schema definitions become Zod declarations (`zod_expr`,
 `references_of`), which are given the meaning they have in the browser.
 */
module Contracts {
  import opened Prelude
  import opened JsonSchema

  type Definitions = map<string, Schema>

  /** The Zod expressions the emitter writes. Rules that are absent are calls that are not emitted. */
  datatype Zod =
    | ZRef(name: string)
    | ZLiteral(value: Json)
    | ZEnum(values: seq<Json>)
    | ZUnion(members: seq<Zod>)
    | ZString(text: TextRules)
    | ZNumber(whole: bool, numbers: NumberRules)
    | ZBoolean
    | ZNull
    | ZArray(element: Zod, minItems: Option<nat>, maxItems: Option<nat>)
    | ZRecord
    | ZLooseObject(fields: map<string, Zod>)
    | ZUnknown
    | ZDefault(inner: Zod, value: Json)
    | ZOptional(inner: Zod)

  /** `zod_expr`. `None` is the TypeError for a type or string format it does not know. */
  function ZodExpr(s: Schema): Option<Zod>
    decreases s, 1
  {
    if s.ref.Some? then Some(ZRef(s.ref.value))
    else if s.constant.Some? then Some(ZLiteral(s.constant.value))
    else if s.enum.Some? then
      if forall i | 0 <= i < |s.enum.value| :: s.enum.value[i].Str?
      then Some(ZEnum(s.enum.value))
      else Some(ZUnion(seq(|s.enum.value|, i requires 0 <= i < |s.enum.value| => ZLiteral(s.enum.value[i]))))
    else if s.union.AnyOf? then
      if forall i | 0 <= i < |s.union.members| :: ZodExpr(s.union.members[i]).Some?
      then
        var members := s.union.members;
        Some(ZUnion(seq(|members|, i requires 0 <= i < |members| => ZodExpr(members[i]).value)))
      else None
    else if s.kind.None? then Some(ZUnknown)
    else
      match s.kind.value
      case StringKind =>
        if s.text.format.None? || s.text.format.value in {"uuid", "date-time", "date"}
        then Some(ZString(s.text))
        else None
      case IntegerKind => Some(ZNumber(true, s.numbers))
      case NumberKind => Some(ZNumber(false, s.numbers))
      case BooleanKind => Some(ZBoolean)
      case NullKind => Some(ZNull)
      case ArrayKind =>
        var element := if s.items.None? then Some(ZUnknown) else ZodExpr(s.items.value);
        if element.None? then None else Some(ZArray(element.value, s.arrays.minItems, s.arrays.maxItems))
      case ObjectKind =>
        if s.properties == map[] then Some(ZRecord)
        else if forall k | k in s.properties :: ZodField(s, k).Some?
        then Some(ZLooseObject(map k | k in s.properties :: ZodField(s, k).value))
        else None
      case OtherKind(_) => None
  }

  /** One field of an object: a default makes it absent-tolerant, and so does not being required. */
  function ZodField(s: Schema, k: string): Option<Zod>
    requires k in s.properties
    decreases s, 0
  {
    var inner := ZodExpr(s.properties[k]);
    if inner.None? then None
    else if s.properties[k].default.Some? then Some(ZDefault(inner.value, s.properties[k].default.value))
    else if k !in s.required then Some(ZOptional(inner.value))
    else inner
  }

  /** `references_of`: every name referred to anywhere below the node, translated or not. */
  function References(s: Schema): set<string>
    decreases s
  {
    (if s.ref.Some? then {s.ref.value} else {})
    + (if s.union.AnyOf? then set i, n | 0 <= i < |s.union.members| && n in References(s.union.members[i]) :: n else {})
    + (if s.items.Some? then References(s.items.value) else {})
    + (set k, n | k in s.properties && n in References(s.properties[k]) :: n)
    + (if s.additional.Each? then References(s.additional.schema) else {})
    + (set i, j, n | 0 <= i < |s.others| && 0 <= j < |s.others[i].below| && n in References(s.others[i].below[j]) :: n)
  }

  /** The declared names an expression mentions. */
  function Names(z: Zod): set<string>
    decreases z
  {
    match z
    case ZRef(name) => {name}
    case ZUnion(members) => set i, n | 0 <= i < |members| && n in Names(members[i]) :: n
    case ZArray(element, _, _) => Names(element)
    case ZLooseObject(fields) => set k, n | k in fields && n in Names(fields[k]) :: n
    case ZDefault(inner, _) => Names(inner)
    case ZOptional(inner) => Names(inner)
    case _ => {}
  }

  // ---- The emitted file ----

  datatype Declaration = Declaration(name: string, expr: Zod)

  /** The emitted file declares `order`, each name with the expression of its definition. */
  predicate Emits(defs: Definitions, order: seq<string>, file: seq<Declaration>) {
    && |file| == |order|
    && forall i | 0 <= i < |order| ::
         order[i] in defs && file[i].name == order[i] && ZodExpr(defs[order[i]]) == Some(file[i].expr)
  }

  /**
   What the browser accepts. `None` is the `undefined` an absent property reads as. A name denotes the
   declaration made earlier in the file; one that has not been declared yet denotes nothing.
   */
  predicate ZodAccepts(c: Checks, file: seq<Declaration>, z: Zod, v: Option<Json>)
    decreases |file|, z
  {
    match z
    case ZRef(name) => exists i | 0 <= i < |file| :: file[i].name == name && ZodAccepts(c, file[..i], file[i].expr, v)
    case ZLiteral(value) => v == Some(value) && Scalar(value)
    case ZEnum(values) => v.Some? && v.value in values
    case ZUnion(members) => exists i | 0 <= i < |members| :: ZodAccepts(c, file, members[i], v)
    case ZString(text) => v.Some? && v.value.Str? && TextMatches(c, text, v.value.s)
    case ZNumber(whole, numbers) =>
      v.Some? && v.value.Num? && (whole ==> KindMatches(IntegerKind, v.value)) && NumberMatches(numbers, v.value.n)
    case ZBoolean => v.Some? && v.value.Bool?
    case ZNull => v == Some(Null)
    case ZArray(element, minItems, maxItems) =>
      && v.Some? && v.value.Arr? && SizeMatches(minItems, maxItems, |v.value.items|)
      && forall i | 0 <= i < |v.value.items| :: ZodAccepts(c, file, element, Some(v.value.items[i]))
    case ZRecord => v.Some? && v.value.Obj?
    case ZLooseObject(fields) =>
      && v.Some? && v.value.Obj?
      && forall k | k in fields ::
           ZodAccepts(c, file, fields[k], if k in v.value.fields then Some(v.value.fields[k]) else None)
    case ZUnknown => true
    case ZDefault(inner, _) => v.None? || ZodAccepts(c, file, inner, v)
    case ZOptional(inner) => v.None? || ZodAccepts(c, file, inner, v)
  }

  /** The literals a schema compares against are scalars; Zod compares anything else by identity. */
  predicate ScalarLiterals(s: Schema)
    decreases s
  {
    && (s.constant.Some? ==> Scalar(s.constant.value))
    && (s.enum.Some? ==> forall i | 0 <= i < |s.enum.value| :: Scalar(s.enum.value[i]))
    && (s.union.AnyOf? ==> forall i | 0 <= i < |s.union.members| :: ScalarLiterals(s.union.members[i]))
    && (s.items.Some? ==> ScalarLiterals(s.items.value))
    && forall k | k in s.properties :: ScalarLiterals(s.properties[k])
  }
}
