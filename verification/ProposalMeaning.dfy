/** What a model can propose at all: the strict schema's own language, written without the rewriting. */
module ProposalMeaning {
  import opened Prelude
  import opened JsonSchema
  import opened Workflow
  import opened Proposals

  /** The keywords of the file's schema that a strict tool still enforces on one value. */
  predicate FitsNode(c: Checks, s: Schema, p: Json) {
    && (s.enum.Some? ==> p in s.enum.value)
    && (s.kind.Some? ==> KindMatches(s.kind.value, p))
    && (p.Str? ==>
          && (s.text.pattern.Some? ==> c.pattern(s.text.pattern.value, p.s))
          && (s.text.format.Some? && s.text.format.value != "money" ==> c.format(s.text.format.value, p.s)))
    && (p.Num? ==>
          && (s.numbers.minimum.Some? ==> s.numbers.minimum.value <= p.n)
          && (s.numbers.exclusiveMinimum.Some? ==> s.numbers.exclusiveMinimum.value < p.n)
          && (s.numbers.maximum.Some? ==> p.n <= s.numbers.maximum.value)
          && (s.numbers.exclusiveMaximum.Some? ==> p.n < s.numbers.exclusiveMaximum.value))
    && (p.Arr? ==>
          && (s.arrays.minItems.Some? ==> s.arrays.minItems.value <= |p.items|)
          && (s.arrays.maxItems.Some? ==> |p.items| <= s.arrays.maxItems.value))
  }

  /** A proposal for `s`: every object names every declared property and no other, and may leave it null. */
  predicate Fits(c: Checks, s: Schema, p: Json)
    decreases s
  {
    && FitsNode(c, s, p)
    && (p.Arr? && s.items.Some? ==> forall i | 0 <= i < |p.items| :: Fits(c, s.items.value, p.items[i]))
    && (p.Obj? ==>
          && p.fields.Keys == s.properties.Keys
          && forall k | k in s.properties ::
               k in p.fields ==> p.fields[k] == Null || Fits(c, s.properties[k], p.fields[k]))
  }

  lemma {:induction false} StrictNode(c: Checks, s: Schema, depth: nat, p: Json)
    requires InSubset(s, depth) && s.kind != Some(ObjectKind)
    ensures LocallyValid(c, Strict(s), p) <==> FitsNode(c, s, p)
  {
  }

  lemma {:induction false} StrictObjectNode(c: Checks, s: Schema, depth: nat, p: Json)
    requires InSubset(s, depth) && s.kind == Some(ObjectKind)
    ensures LocallyValid(c, Strict(s), p) <==> FitsNode(c, s, p) && (p.Obj? ==> p.fields.Keys == s.properties.Keys)
  {
    if p.Obj? {
      assert Strict(s).required == s.properties.Keys == Strict(s).properties.Keys;
    }
  }

  /** The strict tool takes exactly the proposals that fit the file's schema. */
  lemma {:induction false} StrictAcceptsExactly(c: Checks, s: Schema, depth: nat, p: Json)
    requires InSubset(s, depth)
    ensures Accepts(c, Strict(s), p) <==> Fits(c, s, p)
    decreases s, 2
  {
    if s.kind == Some(ObjectKind) {
      StrictObject(c, s, depth, p);
    } else if s.kind == Some(ArrayKind) {
      StrictArray(c, s, depth, p);
    } else {
      StrictNode(c, s, depth, p);
    }
  }

  lemma {:induction false} StrictArray(c: Checks, s: Schema, depth: nat, p: Json)
    requires InSubset(s, depth) && s.kind == Some(ArrayKind)
    ensures Accepts(c, Strict(s), p) <==> Fits(c, s, p)
    decreases s, 0
  {
    StrictNode(c, s, depth, p);
    if p.Arr? {
      forall i | 0 <= i < |p.items|
        ensures Accepts(c, Strict(s.items.value), p.items[i]) <==> Fits(c, s.items.value, p.items[i])
      {
        StrictAcceptsExactly(c, s.items.value, depth + 1, p.items[i]);
      }
    }
  }

  lemma {:induction false} StrictProperty(c: Checks, s: Schema, depth: nat, k: string, v: Json)
    requires InSubset(s, depth) && s.kind == Some(ObjectKind) && k in s.properties
    ensures Accepts(c, Strict(s).properties[k], v) <==> v == Null || Fits(c, s.properties[k], v)
    decreases s, 0
  {
    StrictSchemaRequiresEverything(s.properties[k], depth + 1);
    NullableAccepts(c, Strict(s.properties[k]), v);
    StrictAcceptsExactly(c, s.properties[k], depth + 1, v);
  }

  lemma {:induction false} StrictObject(c: Checks, s: Schema, depth: nat, p: Json)
    requires InSubset(s, depth) && s.kind == Some(ObjectKind)
    ensures Accepts(c, Strict(s), p) <==> Fits(c, s, p)
    decreases s, 1
  {
    StrictObjectNode(c, s, depth, p);
    if p.Obj? {
      ObjectValidity(c, Strict(s), p);
      forall k | k in s.properties && k in p.fields
        ensures Accepts(c, Strict(s).properties[k], p.fields[k])
            <==> p.fields[k] == Null || Fits(c, s.properties[k], p.fields[k])
      {
        StrictProperty(c, s, depth, k, p.fields[k]);
      }
    }
  }
}
