/** The per-pass part of a metric snapshot: chronological presentation and the totals over passes. */
module Passes {
  import opened Prelude
  import opened Usage

  /** One model pass. A counter that was not stored counts as zero. */
  datatype Pass = Pass(
    stage: string, tokens: map<Field, nat>, requests: nat, durationMs: Option<real>, costUsd: Option<real>)

  const Operator := "operator_response"
  const Delegate := "analysis_delegate"

  predicate IsDelegate(p: Pass) {
    p.stage == Delegate
  }

  predicate IsOperator(p: Pass) {
    p.stage == Operator
  }

  /** The passes on one side of the delegate test, in order. */
  function Keep(passes: seq<Pass>, delegates: bool): seq<Pass> {
    if passes == [] then []
    else if IsDelegate(passes[0]) == delegates then [passes[0]] + Keep(passes[1..], delegates)
    else Keep(passes[1..], delegates)
  }

  function FirstOperator(passes: seq<Pass>): (i: nat)
    ensures i <= |passes| && (i < |passes| ==> IsOperator(passes[i]))
    ensures forall j | 0 <= j < i :: !IsOperator(passes[j])
  {
    if passes == [] || IsOperator(passes[0]) then 0 else 1 + FirstOperator(passes[1..])
  }

  /** The recorded passes with every delegate moved to just behind the operator that called it. */
  function Chronological(passes: seq<Pass>): seq<Pass> {
    var delegates, rest := Keep(passes, true), Keep(passes, false);
    if FirstOperator(passes) == |passes| || delegates == [] then passes
    else
      var i := FirstOperator(rest);
      if i == |rest| then passes else rest[..i + 1] + delegates + rest[i + 1..]
  }

  method Filter(passes: seq<Pass>, delegates: bool) returns (kept: seq<Pass>)
    ensures kept == Keep(passes, delegates)
  {
    kept := [];
    for i := 0 to |passes|
      invariant kept + Keep(passes[i..], delegates) == Keep(passes, delegates)
    {
      assert passes[i..][0] == passes[i] && passes[i..][1..] == passes[i + 1..];
      if IsDelegate(passes[i]) == delegates {
        kept := kept + [passes[i]];
      }
    }
  }

  /** The reordering at the head of `agent_metric_snapshot`. */
  method PresentChronologically(recorded: seq<Pass>) returns (passes: seq<Pass>)
    ensures passes == Chronological(recorded)
  {
    passes := recorded;
    if FirstOperator(passes) == |passes| { return; }
    var delegates := Filter(recorded, true);
    if delegates == [] { return; }
    passes := Filter(recorded, false);
    OperatorIsKept(recorded);
    var at := FirstOperator(passes);
    passes := passes[..at + 1] + delegates + passes[at + 1..];
  }

  lemma {:induction false} OperatorIsKept(passes: seq<Pass>)
    requires FirstOperator(passes) < |passes|
    ensures FirstOperator(Keep(passes, false)) < |Keep(passes, false)|
    decreases |passes|
  {
    if IsOperator(passes[0]) {
    } else {
      OperatorIsKept(passes[1..]);
      assert Keep(passes, false) == (if IsDelegate(passes[0]) then [] else [passes[0]]) + Keep(passes[1..], false);
    }
  }

  lemma {:induction false} KeepConcat(a: seq<Pass>, b: seq<Pass>, delegates: bool)
    ensures Keep(a + b, delegates) == Keep(a, delegates) + Keep(b, delegates)
    decreases |a|
  {
    if a == [] {
      assert a + b == b;
    } else {
      assert (a + b)[0] == a[0] && (a + b)[1..] == a[1..] + b;
      KeepConcat(a[1..], b, delegates);
    }
  }

  lemma {:induction false} KeepAgain(passes: seq<Pass>, delegates: bool)
    ensures Keep(Keep(passes, delegates), delegates) == Keep(passes, delegates)
    ensures Keep(Keep(passes, delegates), !delegates) == []
  {
    if passes != [] { KeepAgain(passes[1..], delegates); }
  }

  /** Splicing passes of one kind between passes of the other leaves both kinds as they were. */
  lemma {:induction false} SpliceKeeps(rest: seq<Pass>, moved: seq<Pass>, at: nat, delegates: bool)
    requires at <= |rest|
    requires Keep(rest, !delegates) == [] && Keep(rest, delegates) == rest
    requires Keep(moved, delegates) == [] && Keep(moved, !delegates) == moved
    ensures Keep(rest[..at] + moved + rest[at..], delegates) == rest
    ensures Keep(rest[..at] + moved + rest[at..], !delegates) == moved
  {
    SpliceKeepsOne(rest, moved, at, delegates);
    SpliceKeepsOne(rest, moved, at, !delegates);
  }

  lemma {:induction false} SpliceKeepsOne(rest: seq<Pass>, moved: seq<Pass>, at: nat, delegates: bool)
    requires at <= |rest| && (Keep(rest, delegates) == [] || Keep(moved, delegates) == [])
    ensures Keep(rest[..at] + moved + rest[at..], delegates) == Keep(rest, delegates) + Keep(moved, delegates)
  {
    KeepSplit(rest, at, delegates);
    KeepThree(rest[..at], moved, rest[at..], delegates);
  }

  lemma {:induction false} KeepThree(a: seq<Pass>, b: seq<Pass>, c: seq<Pass>, delegates: bool)
    ensures Keep(a + b + c, delegates) == Keep(a, delegates) + Keep(b, delegates) + Keep(c, delegates)
  {
    KeepConcat(a + b, c, delegates);
    KeepConcat(a, b, delegates);
  }

  lemma {:induction false} KeepSplit(s: seq<Pass>, at: nat, delegates: bool)
    requires at <= |s|
    ensures Keep(s, delegates) == Keep(s[..at], delegates) + Keep(s[at..], delegates)
  {
    assert s == s[..at] + s[at..];
    KeepConcat(s[..at], s[at..], delegates);
  }

  /** Delegates and other passes keep their own order. */
  lemma {:induction false} ReorderingIsStable(passes: seq<Pass>, delegates: bool)
    ensures Keep(Chronological(passes), delegates) == Keep(passes, delegates)
  {
    var moved, rest := Keep(passes, true), Keep(passes, false);
    var i := FirstOperator(rest);
    KeepAgain(passes, true);
    KeepAgain(passes, false);
    if i < |rest| {
      SpliceKeeps(rest, moved, i + 1, false);
    }
  }

  /** Reordering twice is reordering once. */
  lemma {:induction false} ReorderingIsIdempotent(passes: seq<Pass>)
    ensures Chronological(Chronological(passes)) == Chronological(passes)
  {
    ReorderingIsStable(passes, true);
    ReorderingIsStable(passes, false);
    var r := Chronological(passes);
    if FirstOperator(passes) < |passes| && Keep(passes, true) != [] {
      OperatorIsKept(passes);
      var rest := Keep(passes, false);
      var i := FirstOperator(rest);
      assert r[i] == rest[i];
      assert FirstOperator(r) < |r|;
    }
  }

  // ---- Totals ----

  function Count(passes: seq<Pass>, measure: Pass -> nat): nat {
    if passes == [] then 0 else measure(passes[0]) + Count(passes[1..], measure)
  }

  function Sum(passes: seq<Pass>, measure: Pass -> real): real {
    if passes == [] then 0.0 else measure(passes[0]) + Sum(passes[1..], measure)
  }

  function TokensOf(f: Field): Pass -> nat {
    (p: Pass) => if f in p.tokens then p.tokens[f] else 0
  }

  function RequestsOf(p: Pass): nat { p.requests }

  function TimedOf(p: Pass): nat { if p.durationMs.Some? then 1 else 0 }

  function DurationOf(p: Pass): real { if p.durationMs.Some? then p.durationMs.value else 0.0 }

  function PricedOf(p: Pass): nat { if p.costUsd.Some? then 1 else 0 }

  function CostOf(p: Pass): real { if p.costUsd.Some? then p.costUsd.value else 0.0 }

  /** Rounding of durations, costs and shares. */
  datatype Rounding = Rounding(duration: real -> real, cost: real -> real, share: real -> real)

  /** `non_overlapping_model_duration_ms`: a delegate inside an operator is not added. */
  function ModelDuration(round: Rounding, passes: seq<Pass>): Option<real> {
    var counted := if FirstOperator(passes) < |passes| then Keep(passes, false) else passes;
    if Count(counted, TimedOf) == 0 then None else Some(round.duration(Sum(counted, DurationOf)))
  }

  /** What is stored about a turn's passes. */
  datatype PassMetrics = PassMetrics(
    modelPasses: nat, providerRequests: nat, tokens: map<Field, nat>, modelDurationMs: Option<real>,
    costUsd: Option<real>, costCoverage: real, passes: seq<Pass>)

  /** The pass part of `agent_metric_snapshot` and `merge_agent_metric_snapshots`. */
  function Summary(round: Rounding, passes: seq<Pass>): PassMetrics {
    var priced := Count(passes, PricedOf);
    PassMetrics(
      |passes|, Count(passes, RequestsOf),
      map f | f in Fields :: Count(passes, TokensOf(f)),
      ModelDuration(round, passes),
      if passes != [] && priced == |passes| then Some(round.cost(Sum(passes, CostOf))) else None,
      if passes != [] then round.share(priced as real / |passes| as real) else 0.0,
      passes)
  }

  lemma {:induction false} CountByKind(passes: seq<Pass>, measure: Pass -> nat)
    ensures Count(passes, measure) == Count(Keep(passes, true), measure) + Count(Keep(passes, false), measure)
  {
    if passes != [] { CountByKind(passes[1..], measure); }
  }

  lemma {:induction false} SumByKind(passes: seq<Pass>, measure: Pass -> real)
    ensures Sum(passes, measure) == Sum(Keep(passes, true), measure) + Sum(Keep(passes, false), measure)
  {
    if passes != [] { SumByKind(passes[1..], measure); }
  }

  lemma {:induction false} SizeByKind(passes: seq<Pass>)
    ensures |passes| == |Keep(passes, true)| + |Keep(passes, false)|
  {
    if passes != [] { SizeByKind(passes[1..]); }
  }

  /** Reordering moves passes and nothing else: whatever is added up over them is what it was. */
  lemma {:induction false} ReorderingConservesTotals(passes: seq<Pass>)
    ensures var r := Chronological(passes);
            && |r| == |passes|
            && (forall measure :: Count(r, measure) == Count(passes, measure))
            && (forall measure :: Sum(r, measure) == Sum(passes, measure))
  {
    var r := Chronological(passes);
    ReorderingIsStable(passes, true);
    ReorderingIsStable(passes, false);
    SizeByKind(passes);
    SizeByKind(r);
    forall measure ensures Count(r, measure) == Count(passes, measure) {
      CountByKind(passes, measure);
      CountByKind(r, measure);
    }
    forall measure ensures Sum(r, measure) == Sum(passes, measure) {
      SumByKind(passes, measure);
      SumByKind(r, measure);
    }
  }

  lemma {:induction false} OperatorStays(passes: seq<Pass>)
    ensures FirstOperator(Chronological(passes)) < |Chronological(passes)| <==> FirstOperator(passes) < |passes|
  {
    var r := Chronological(passes);
    if FirstOperator(passes) < |passes| && Keep(passes, true) != [] {
      OperatorIsKept(passes);
      var i := FirstOperator(Keep(passes, false));
      assert IsOperator(r[i]);
    }
  }

  /** The summary of the reordered passes is the summary of the recorded ones, apart from their order. */
  lemma {:induction false} ReorderingConservesSummary(round: Rounding, passes: seq<Pass>)
    ensures Summary(round, Chronological(passes)).(passes := passes) == Summary(round, passes)
  {
    ReorderingConservesTotals(passes);
    ReorderingIsStable(passes, false);
    OperatorStays(passes);
    assert Chronological(passes) == [] <==> passes == [];
  }

  // ---- The validator ----

  /** `AgentRunMetrics.validate_pass_count`, and the ranges of the duration and cost fields. */
  ghost predicate Accepted(m: PassMetrics) {
    && m.modelPasses == |m.passes|
    && m.providerRequests == Count(m.passes, RequestsOf)
    && (m.modelDurationMs.Some? ==> 0.0 <= m.modelDurationMs.value)
    && (m.costUsd.Some? ==> m.costCoverage == 1.0 && 0.0 <= m.costUsd.value)
    && 0.0 <= m.costCoverage <= 1.0
  }

  ghost predicate Rounds(round: real -> real) {
    round(0.0) == 0.0 && round(1.0) == 1.0 && forall x, y | x <= y :: round(x) <= round(y)
  }

  lemma {:induction false} PricedAtMostAll(passes: seq<Pass>)
    ensures Count(passes, PricedOf) <= |passes|
    ensures Count(passes, PricedOf) == |passes| <==> forall i | 0 <= i < |passes| :: passes[i].costUsd.Some?
  {
    if passes != [] {
      PricedAtMostAll(passes[1..]);
      assert forall i | 0 < i < |passes| :: passes[i] == passes[1..][i - 1];
    }
  }

  /** The recorded durations and costs of the passes are not negative. */
  predicate NotNegative(passes: seq<Pass>) {
    forall p | p in passes ::
      (p.durationMs.Some? ==> 0.0 <= p.durationMs.value) && (p.costUsd.Some? ==> 0.0 <= p.costUsd.value)
  }

  lemma {:induction false} SumsAreNotNegative(passes: seq<Pass>)
    requires NotNegative(passes)
    ensures 0.0 <= Sum(passes, CostOf) && 0.0 <= Sum(passes, DurationOf)
  {
    if passes != [] { SumsAreNotNegative(passes[1..]); }
  }

  lemma {:induction false} KeptAreAmong(passes: seq<Pass>, delegates: bool)
    ensures forall p | p in Keep(passes, delegates) :: p in passes
  {
    if passes != [] { KeptAreAmong(passes[1..], delegates); }
  }

  lemma {:induction false} DurationIsNotNegative(round: Rounding, passes: seq<Pass>)
    requires Rounds(round.duration) && NotNegative(passes)
    ensures var d := ModelDuration(round, passes); d.Some? ==> 0.0 <= d.value
  {
    KeptAreAmong(passes, false);
    SumsAreNotNegative(if FirstOperator(passes) < |passes| then Keep(passes, false) else passes);
  }

  lemma {:induction false} Share(part: nat, whole: nat)
    requires part <= whole && 0 < whole
    ensures 0.0 <= part as real / whole as real <= 1.0
    ensures part as real / whole as real == 1.0 <==> part == whole
  {
    var share := part as real / whole as real;
    assert share * whole as real == part as real;
  }

  /**
   Merged evidence always passes the validator, whatever was merged: its totals are the sums of the two
   sides, and an exact cost is claimed exactly when there are passes and every one of them was priced.
   */
  lemma {:induction false} MergedMetricsAreAccepted(round: Rounding, base: seq<Pass>, extra: seq<Pass>)
    requires Rounds(round.duration) && Rounds(round.cost) && Rounds(round.share) && NotNegative(base + extra)
    ensures var m := Summary(round, base + extra);
            && Accepted(m)
            && (m.costUsd.Some? <==> base + extra != [] && forall p | p in base + extra :: p.costUsd.Some?)
            && m.providerRequests == Summary(round, base).providerRequests + Summary(round, extra).providerRequests
            && (forall f | f in Fields ::
                  m.tokens[f] == Summary(round, base).tokens[f] + Summary(round, extra).tokens[f])
  {
    var passes := base + extra;
    PricedAtMostAll(passes);
    SumsAreNotNegative(passes);
    DurationIsNotNegative(round, passes);
    if passes != [] { Share(Count(passes, PricedOf), |passes|); }
    CountConcat(base, extra, RequestsOf);
    forall f | f in Fields ensures Count(passes, TokensOf(f)) == Count(base, TokensOf(f)) + Count(extra, TokensOf(f)) {
      CountConcat(base, extra, TokensOf(f));
    }
  }

  lemma {:induction false} CountConcat(a: seq<Pass>, b: seq<Pass>, measure: Pass -> nat)
    ensures Count(a + b, measure) == Count(a, measure) + Count(b, measure)
    decreases |a|
  {
    if a == [] {
      assert a + b == b;
    } else {
      assert (a + b)[0] == a[0] && (a + b)[1..] == a[1..] + b;
      CountConcat(a[1..], b, measure);
    }
  }

  /** Behind the first operator come all delegates, and before it stands no delegate. */
  lemma {:induction false} DelegatesFollowTheOperator(passes: seq<Pass>)
    requires FirstOperator(passes) < |passes|
    ensures var r := Chronological(passes);
            var i, n := FirstOperator(Keep(passes, false)), |Keep(passes, true)|;
            n > 0 ==> i + 1 + n <= |r| && r[i + 1..i + 1 + n] == Keep(passes, true) && Keep(r[..i + 1], true) == []
  {
    OperatorIsKept(passes);
    var rest := Keep(passes, false);
    var i := FirstOperator(rest);
    KeepAgain(passes, false);
    KeepSplit(rest, i + 1, true);
    SpliceParts(rest[..i + 1], Keep(passes, true), rest[i + 1..]);
  }

  lemma {:induction false} SpliceParts<T>(a: seq<T>, b: seq<T>, c: seq<T>)
    ensures (a + b + c)[..|a|] == a && (a + b + c)[|a|..|a| + |b|] == b
  {
  }
}
