/**
 The checker and the interpreter take the same reference string apart in different ways: prefix and
 suffix removal with one `split`, against a regular expression with two bounded `split`s. These
 lemmas say that both read the meaning the reference grammar gives it.
 */
module References {
  import opened Prelude
  import opened Text
  import opened JsonSchema
  import opened Workflow

  lemma {:induction false} NameHasNo(s: string, c: char)
    requires IsName(s) || IsStepName(s)
    requires !IsWord(c)
    ensures c !in s
  {
  }

  /** Stripping a known prefix and a closing brace leaves what stands between them. */
  lemma {:induction false} Enclosed(s: string, open: string)
    requires open <= s && |open| < |s| && EndsWith(s, "}")
    ensures var inside := s[|open|..|s| - 1];
            s == open + inside + "}" && Unwrap(s, open) == inside
  {
    var rest := s[|open|..];
    assert s[|s| - 1..] == "}" == rest[|rest| - 1..];
    assert rest[..|rest| - 1] == s[|open|..|s| - 1];
  }

  /** The body of a step reference is `id.output.field`. */
  lemma {:induction false} StepShape(s: string)
    requires IsStepReference(s)
    ensures var body := s[|StepsOpen|..|s| - 1];
            var parts := SplitAll(body, '.');
            && body == parts[0] + ['.'] + ("output" + ['.'] + parts[2])
            && '.' !in parts[0] && '.' !in parts[2] && body != [] && '\n' !in body
  {
    var body := s[|StepsOpen|..|s| - 1];
    JoinSplit(body, '.', |body|);
    OutputPath(SplitAll(body, '.'));
  }

  lemma {:induction false} OutputPath(parts: seq<string>)
    requires |parts| == 3 && IsStepName(parts[0]) && parts[1] == "output" && IsName(parts[2])
    ensures var body := Join(parts, '.');
            && body == parts[0] + ['.'] + ("output" + ['.'] + parts[2])
            && '.' !in parts[0] && '.' !in parts[2] && body != [] && '\n' !in body
  {
    NameHasNo(parts[0], '.');
    NameHasNo(parts[2], '.');
    NameHasNo(parts[0], '\n');
    NameHasNo(parts[2], '\n');
    JoinThree(parts, '.');
  }

  /** What the interpreter should return for a binding of the given meaning. */
  function Denote(r: Reference, inputs: Values, outputs: Values, item: Json): Result<Json, Fault> {
    match r
    case Literal(v) => Success(v)
    case Item => Success(item)
    case Input(name) => if name in inputs then Success(inputs[name]) else Failure(MissingInput(name))
    case Output(step, field) =>
      if step !in outputs then Failure(MissingStep(step))
      else if !outputs[step].Obj? then Failure(NotIndexable(step))
      else if field !in outputs[step].fields then Failure(MissingField(step, field))
      else Success(outputs[step].fields[field])
  }

  /** `${` path `}` is what the interpreter's regular expression matches. */
  lemma {:induction false} WrappedPath(path: string)
    requires path != [] && '\n' !in path
    ensures var s := "${" + path + "}"; Wrapped(s) && s[2..|s| - 1] == path
  {
  }

  /** The interpreter's path of an input reference, and its single split. */
  lemma {:induction false} InputPath(name: string)
    ensures var path := "input." + name;
            path != "item" && "input." <= path && Split(path, '.', 1) == ["input", name]
  {
    var path := "input." + name;
    assert path[1] == 'n';
    assert path == "input" + ['.'] + name;
    SplitHead("input", name, '.', 1);
  }

  /** The interpreter's path of a step reference, and its three splits. */
  lemma {:induction false} StepPath(step: string, field: string)
    requires '.' !in step && '.' !in field
    ensures var path := "steps." + (step + ['.'] + ("output" + ['.'] + field));
            path != "item" && !("input." <= path) && "steps." <= path &&
            Split(path, '.', 3) == ["steps", step, "output", field]
  {
    var body := step + ['.'] + ("output" + ['.'] + field);
    var path := "steps." + body;
    assert path[0] == 's';
    PrefixOfConcat("steps.", body);
    assert path == "steps" + ['.'] + body;
    SplitFour("steps", step, "output", field, '.');
  }

  lemma {:induction false} ReadInputPath(name: string, inputs: Values, outputs: Values, item: Json)
    ensures ResolvePath("input." + name, inputs, outputs, item) == Denote(Input(name), inputs, outputs, item)
  {
    InputPath(name);
  }

  lemma {:induction false} ReadStepPath(step: string, field: string, inputs: Values, outputs: Values, item: Json)
    requires '.' !in step && '.' !in field
    ensures ResolvePath("steps." + (step + ['.'] + ("output" + ['.'] + field)), inputs, outputs, item)
         == Denote(Output(step, field), inputs, outputs, item)
  {
    StepPath(step, field);
  }

  /** Behind either opening, the interpreter sees the same path with its own prefix. */
  lemma {:induction false} PathInside(s: string, open: string, prefix: string, body: string)
    requires open == "${" + prefix && s == open + body + "}" && body != [] && '\n' !in body && '\n' !in prefix
    ensures Wrapped(s) && s[2..|s| - 1] == prefix + body
  {
    assert s == "${" + (prefix + body) + "}";
    WrappedPath(prefix + body);
  }

  lemma {:induction false} ResolveInput(v: Json, inputs: Values, outputs: Values, item: Json)
    requires v.Str? && IsInputReference(v.s)
    ensures Resolve(v, inputs, outputs, item) == Denote(Input(v.s[|InputOpen|..|v.s| - 1]), inputs, outputs, item)
  {
    var name := v.s[|InputOpen|..|v.s| - 1];
    Enclosed(v.s, InputOpen);
    NameHasNo(name, '\n');
    PathInside(v.s, InputOpen, "input.", name);
    ReadInputPath(name, inputs, outputs, item);
  }

  lemma {:induction false} ReadStepReference(s: string, body: string, step: string, field: string, inputs: Values,
                                             outputs: Values, item: Json)
    requires s == StepsOpen + body + "}" && body != [] && '\n' !in body
    requires body == step + ['.'] + ("output" + ['.'] + field) && '.' !in step && '.' !in field
    ensures Wrapped(s)
    ensures ResolvePath(s[2..|s| - 1], inputs, outputs, item) == Denote(Output(step, field), inputs, outputs, item)
  {
    PathInside(s, StepsOpen, "steps.", body);
    ReadStepPath(step, field, inputs, outputs, item);
  }

  lemma {:induction false} ResolveStep(v: Json, inputs: Values, outputs: Values, item: Json)
    requires v.Str? && IsStepReference(v.s)
    ensures var parts := SplitAll(v.s[|StepsOpen|..|v.s| - 1], '.');
            Resolve(v, inputs, outputs, item) == Denote(Output(parts[0], parts[2]), inputs, outputs, item)
  {
    var body := v.s[|StepsOpen|..|v.s| - 1];
    var parts := SplitAll(body, '.');
    Enclosed(v.s, StepsOpen);
    StepShape(v.s);
    ReadStepReference(v.s, body, parts[0], parts[2], inputs, outputs, item);
  }

  /** Which of the three reference forms a string has. */
  lemma {:induction false} Forms(s: string)
    ensures IsInputReference(s) ==> "${" <= s && InputOpen <= s && !(StepsOpen <= s) && s != ItemReference
    ensures IsStepReference(s) ==> "${" <= s && StepsOpen <= s && !(InputOpen <= s) && s != ItemReference
    ensures !(InputOpen <= ItemReference) && !(StepsOpen <= ItemReference)
  {
    if InputOpen <= s { assert s[2] == 'i' && s[3] == 'n'; }
    if StepsOpen <= s { assert s[2] == 's'; }
    assert ItemReference[2] == 'i' && ItemReference[3] == 't';
  }

  lemma {:induction false} ResolveItem(v: Json, inputs: Values, outputs: Values, item: Json)
    requires v == Str(ItemReference)
    ensures Resolve(v, inputs, outputs, item) == Success(item)
  {
    WrappedPath("item");
    assert v.s == "${" + "item" + "}";
    assert v.s[2..|v.s| - 1] == "item";
  }

  /** The reference grammar's own reading of the three forms. */
  lemma {:induction false} MeaningOfForms(v: Json)
    requires SafeBinding(v)
    ensures v == Str(ItemReference) ==> Meaning(v) == Item
    ensures v.Str? && IsInputReference(v.s) ==> Meaning(v) == Input(v.s[|InputOpen|..|v.s| - 1])
    ensures v.Str? && IsStepReference(v.s) ==>
              var parts := SplitAll(v.s[|StepsOpen|..|v.s| - 1], '.'); Meaning(v) == Output(parts[0], parts[2])
    ensures !v.Str? || !("${" <= v.s) ==> Meaning(v) == Literal(v)
    ensures v.Str? && "${" <= v.s ==> IsReference(v.s)
  {
    if v.Str? { Forms(v.s); }
  }

  /** The interpreter computes the meaning of every binding the step validator lets through. */
  lemma {:induction false} ResolveComputesMeaning(v: Json, inputs: Values, outputs: Values, item: Json)
    requires SafeBinding(v)
    ensures Resolve(v, inputs, outputs, item) == Denote(Meaning(v), inputs, outputs, item)
  {
    MeaningOfForms(v);
    if v.Str? && "${" <= v.s {
      if IsInputReference(v.s) {
        ResolveInput(v, inputs, outputs, item);
      } else if IsStepReference(v.s) {
        ResolveStep(v, inputs, outputs, item);
      } else {
        ResolveItem(v, inputs, outputs, item);
      }
    }
  }

  /** The checker's string test agrees with typing the meaning, given what it has recorded so far. */
  lemma {:induction false} CheckerReadsMeaning(v: Json, properties: set<string>, outputs: map<string, set<string>>,
                                               inLoop: bool)
    requires SafeBinding(v)
    ensures BindingError(v, properties, outputs, inLoop).None? <==>
            match Meaning(v)
            case Literal(_) => true
            case Item => inLoop
            case Input(name) => name in properties
            case Output(step, field) => step in outputs && field in outputs[step]
  {
    if v.Str? && "${" <= v.s {
      Forms(v.s);
      if IsInputReference(v.s) {
        Enclosed(v.s, InputOpen);
      } else if IsStepReference(v.s) {
        Enclosed(v.s, StepsOpen);
      }
    }
  }
}
