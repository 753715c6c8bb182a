/** The references a binding may hold, as they are written. */
module BindingGrammar {
  import opened Text
  import opened JsonSchema
  import opened Workflow
  import opened References

  // ---- Names ----

  /** A name is a letter, or a name followed by a letter, a digit or an underscore. */
  lemma {:induction false} NamesGrow(s: string, c: char)
    ensures !IsName([]) && !IsStepName([])
    ensures IsName(s + [c]) <==>
              if s == [] then 'a' <= c <= 'z' || 'A' <= c <= 'Z'
              else IsName(s) && ('a' <= c <= 'z' || 'A' <= c <= 'Z' || '0' <= c <= '9' || c == '_')
    ensures IsStepName(s + [c]) <==>
              if s == [] then 'a' <= c <= 'z'
              else IsStepName(s) && ('a' <= c <= 'z' || '0' <= c <= '9' || c == '_')
  {
    var t := s + [c];
    assert t[|s|] == c;
    assert forall i | 0 <= i < |s| :: t[i] == s[i];
  }

  // ---- References ----

  predicate Writable(r: Reference) {
    match r
    case Literal(_) => false
    case Item => true
    case Input(name) => IsName(name)
    case Output(step, field) => IsStepName(step) && IsName(field)
  }

  /** How a file writes a reference. */
  function Written(r: Reference): string
    requires Writable(r)
  {
    match r
    case Item => "${item}"
    case Input(name) => "${input." + name + "}"
    case Output(step, field) => "${steps." + step + ".output." + field + "}"
  }

  lemma {:induction false} Body(open: string, inside: string)
    ensures var s := open + inside + "}";
            open <= s && |open| < |s| && EndsWith(s, "}") && s[|open|..|s| - 1] == inside
  {
    var s := open + inside + "}";
    assert s[|s| - 1..] == "}";
  }

  lemma {:induction false} InputIsRead(name: string)
    requires IsName(name)
    ensures var v := Str("${input." + name + "}"); SafeBinding(v) && Meaning(v) == Input(name)
  {
    var s := InputOpen + name + "}";
    Body(InputOpen, name);
    Forms(s);
    assert s == "${input." + name + "}" && "${" <= s;
  }

  lemma {:induction false} OutputParts(step: string, field: string)
    requires IsStepName(step) && IsName(field)
    ensures SplitAll(step + ".output." + field, '.') == [step, "output", field]
  {
    NameHasNo(step, '.');
    NameHasNo(field, '.');
    assert step + ".output." + field == step + ['.'] + ("output" + ['.'] + field);
    SplitThree(step, "output", field, '.', |step + ".output." + field|);
  }

  lemma {:induction false} OutputIsReference(step: string, field: string)
    requires IsStepName(step) && IsName(field)
    ensures var s := StepsOpen + (step + ".output." + field) + "}";
            IsStepReference(s) && SplitAll(s[|StepsOpen|..|s| - 1], '.') == [step, "output", field]
  {
    Body(StepsOpen, step + ".output." + field);
    OutputParts(step, field);
  }

  lemma {:induction false} OutputIsRead(step: string, field: string)
    requires IsStepName(step) && IsName(field)
    ensures var v := Str("${steps." + step + ".output." + field + "}");
            SafeBinding(v) && Meaning(v) == Output(step, field)
  {
    var s := StepsOpen + (step + ".output." + field) + "}";
    OutputIsReference(step, field);
    Forms(s);
    assert s == "${steps." + step + ".output." + field + "}";
    MeaningOfForms(Str(s));
  }

  /** Every reference that can be written is admitted, and means what was written. */
  lemma {:induction false} WrittenIsRead(r: Reference)
    requires Writable(r)
    ensures "${" <= Written(r) && SafeBinding(Str(Written(r))) && Meaning(Str(Written(r))) == r
  {
    match r {
      case Item => assert "${item}" == ItemReference;
      case Input(name) => InputIsRead(name);
      case Output(step, field) => OutputIsRead(step, field);
    }
  }

  lemma {:induction false} InputIsWritten(s: string)
    requires IsInputReference(s)
    ensures s == "${input." + s[|InputOpen|..|s| - 1] + "}"
  {
    Enclosed(s, InputOpen);
  }

  lemma {:induction false} OutputIsWritten(s: string)
    requires IsStepReference(s)
    ensures var parts := SplitAll(s[|StepsOpen|..|s| - 1], '.');
            |parts| == 3 && s == "${steps." + parts[0] + ".output." + parts[2] + "}"
  {
    StepShape(s);
    Enclosed(s, StepsOpen);
    var parts := SplitAll(s[|StepsOpen|..|s| - 1], '.');
    assert parts[0] + ['.'] + ("output" + ['.'] + parts[2]) == parts[0] + ".output." + parts[2];
  }

  /** And nothing else is admitted: a binding that opens like a reference is one, written from its meaning. */
  lemma {:induction false} ReadIsWritten(v: Json)
    requires SafeBinding(v)
    ensures if v.Str? && "${" <= v.s then Writable(Meaning(v)) && v.s == Written(Meaning(v))
            else Meaning(v) == Literal(v)
  {
    if v.Str? && "${" <= v.s {
      MeaningOfForms(v);
      if IsInputReference(v.s) {
        InputIsWritten(v.s);
      } else if IsStepReference(v.s) {
        OutputIsWritten(v.s);
      }
    }
  }

  /** A binding is admitted exactly when it is a scalar that does not open like a reference, or is written as one. */
  lemma {:induction false} AdmittedExactly(v: Json)
    ensures SafeBinding(v) <==>
              if v.Str? && "${" <= v.s then exists r :: Writable(r) && v.s == Written(r) else !v.Arr? && !v.Obj?
  {
    if SafeBinding(v) && v.Str? && "${" <= v.s {
      ReadIsWritten(v);
      assert Writable(Meaning(v));
    }
    if v.Str? {
      forall r | Writable(r) && v.s == Written(r) ensures SafeBinding(v) { WrittenIsRead(r); }
    }
  }
}
