/**
 JSON values and the fragment of JSON Schema (draft 2020-12) that the operation files and the
 frontend contracts are written in.

 String formats, regular expressions, string lengths and the assertions of keywords that no
 component here interprets are parameters (`Checks`): every theorem holds for all of them.
 */
module JsonSchema {
  import opened Prelude

  datatype Json =
    | Null
    | Bool(b: bool)
    | Num(n: real)
    | Str(s: string)
    | Arr(items: seq<Json>)
    | Obj(fields: map<string, Json>)

  predicate Scalar(v: Json) {
    !v.Arr? && !v.Obj?
  }

  datatype Kind =
    | StringKind | IntegerKind | NumberKind | BooleanKind | NullKind | ArrayKind | ObjectKind
    | OtherKind(name: string)

  datatype TextRules = TextRules(
    format: Option<string>, minLength: Option<nat>, maxLength: Option<nat>, pattern: Option<string>)

  datatype NumberRules = NumberRules(
    minimum: Option<real>, exclusiveMinimum: Option<real>,
    maximum: Option<real>, exclusiveMaximum: Option<real>)

  datatype ArrayRules = ArrayRules(minItems: Option<nat>, maxItems: Option<nat>, uniqueItems: bool)

  datatype Union = NoUnion | AnyOf(members: seq<Schema>)

  /** The keyword `additionalProperties`: absent, `true`, `false`, or a schema. */
  datatype Additional = Unstated | Anything | Closed | Each(schema: Schema)

  /** A keyword outside the ones named in `Schema`, with the schemas written below it. */
  datatype Keyword = Keyword(name: string, below: seq<Schema>)

  datatype Schema = Schema(
    ref: Option<string>,
    constant: Option<Json>,
    enum: Option<seq<Json>>,
    union: Union,
    kind: Option<Kind>,
    text: TextRules,
    numbers: NumberRules,
    arrays: ArrayRules,
    items: Option<Schema>,
    properties: map<string, Schema>,
    required: set<string>,
    additional: Additional,
    default: Option<Json>,
    others: seq<Keyword>)

  const NoText := TextRules(None, None, None, None)
  const NoNumbers := NumberRules(None, None, None, None)
  const NoArrays := ArrayRules(None, None, false)

  /** The schema `{}`. */
  const Blank := Schema(
    None, None, None, NoUnion, None, NoText, NoNumbers, NoArrays, None, map[], {}, Unstated, None, [])

  datatype Checks = Checks(
    format: (string, string) -> bool,
    pattern: (string, string) -> bool,
    units: string -> nat,
    other: (Keyword, Json) -> bool)

  predicate KindMatches(k: Kind, v: Json) {
    match k
    case StringKind => v.Str?
    case IntegerKind => v.Num? && v.n == v.n.Floor as real
    case NumberKind => v.Num?
    case BooleanKind => v.Bool?
    case NullKind => v.Null?
    case ArrayKind => v.Arr?
    case ObjectKind => v.Obj?
    case OtherKind(_) => false
  }

  predicate WithinLength(c: Checks, r: TextRules, s: string) {
    && (r.minLength.Some? ==> r.minLength.value <= c.units(s))
    && (r.maxLength.Some? ==> c.units(s) <= r.maxLength.value)
  }

  predicate TextMatches(c: Checks, r: TextRules, s: string) {
    && (r.format.Some? ==> c.format(r.format.value, s))
    && WithinLength(c, r, s)
    && (r.pattern.Some? ==> c.pattern(r.pattern.value, s))
  }

  predicate NumberMatches(r: NumberRules, n: real) {
    && (r.minimum.Some? ==> r.minimum.value <= n)
    && (r.exclusiveMinimum.Some? ==> r.exclusiveMinimum.value < n)
    && (r.maximum.Some? ==> n <= r.maximum.value)
    && (r.exclusiveMaximum.Some? ==> n < r.exclusiveMaximum.value)
  }

  predicate SizeMatches(minItems: Option<nat>, maxItems: Option<nat>, size: nat) {
    && (minItems.Some? ==> minItems.value <= size)
    && (maxItems.Some? ==> size <= maxItems.value)
  }

  predicate ArrayMatches(r: ArrayRules, xs: seq<Json>) {
    && SizeMatches(r.minItems, r.maxItems, |xs|)
    && (r.uniqueItems ==> Distinct(xs))
  }

  /** The keywords of one node that do not look below the value. */
  predicate LocallyValid(c: Checks, s: Schema, v: Json) {
    && (s.constant.Some? ==> v == s.constant.value)
    && (s.enum.Some? ==> v in s.enum.value)
    && (s.kind.Some? ==> KindMatches(s.kind.value, v))
    && (v.Str? ==> TextMatches(c, s.text, v.s))
    && (v.Num? ==> NumberMatches(s.numbers, v.n))
    && (v.Arr? ==> ArrayMatches(s.arrays, v.items))
    && (v.Obj? ==> s.required <= v.fields.Keys)
    && (v.Obj? && s.additional.Closed? ==> v.fields.Keys <= s.properties.Keys)
    && (forall i | 0 <= i < |s.others| :: c.other(s.others[i], v))
  }

  /**
   Value `v` satisfies schema `s`. A `$ref` is looked up by name in `defs`, as long as the name is
   still among `open`; a name is closed while its own definition is being consulted, so a cyclic
   reference accepts nothing instead of running forever.
   */
  predicate Valid(c: Checks, defs: map<string, Schema>, open: set<string>, s: Schema, v: Json)
    decreases open, s
  {
    && LocallyValid(c, s, v)
    && (s.ref.Some? ==>
          s.ref.value in open && s.ref.value in defs &&
          Valid(c, defs, open - {s.ref.value}, defs[s.ref.value], v))
    && (s.union.AnyOf? ==>
          exists i | 0 <= i < |s.union.members| :: Valid(c, defs, open, s.union.members[i], v))
    && (v.Arr? && s.items.Some? ==>
          forall i | 0 <= i < |v.items| :: Valid(c, defs, open, s.items.value, v.items[i]))
    && (v.Obj? ==>
          forall k | k in s.properties :: k in v.fields ==> Valid(c, defs, open, s.properties[k], v.fields[k]))
    && (v.Obj? && s.additional.Each? ==>
          forall k | k in v.fields :: k !in s.properties ==> Valid(c, defs, open, s.additional.schema, v.fields[k]))
  }

  /** Validity of a schema that names no definitions, which is what an operation file holds. */
  predicate Accepts(c: Checks, s: Schema, v: Json) {
    Valid(c, map[], {}, s, v)
  }
}
