/** What the numbers over a turn's passes are, pass by pass. */
module PassTotals {
  import opened Prelude
  import opened Usage
  import opened Passes

  /** No rounding, to say what is rounded. */
  const Exact := Rounding((x: real) => x, (x: real) => x, (x: real) => x)

  predicate HasOperator(passes: seq<Pass>) {
    exists i | 0 <= i < |passes| :: passes[i].stage == "operator_response"
  }

  function OrZero(x: Option<real>): real {
    if x.Some? then x.value else 0.0
  }

  // ---- Adding up ----

  lemma {:induction false} CountOneMore(a: seq<Pass>, p: Pass, b: seq<Pass>, measure: Pass -> nat)
    ensures Count(a + [p] + b, measure) == Count(a + b, measure) + measure(p)
  {
    CountConcat(a + [p], b, measure);
    CountConcat(a, [p], measure);
    CountConcat(a, b, measure);
    assert Count([p][1..], measure) == 0;
  }

  lemma {:induction false} SumConcat(a: seq<Pass>, b: seq<Pass>, measure: Pass -> real)
    ensures Sum(a + b, measure) == Sum(a, measure) + Sum(b, measure)
    decreases |a|
  {
    if a == [] {
      assert a + b == b;
    } else {
      assert (a + b)[0] == a[0] && (a + b)[1..] == a[1..] + b;
      SumConcat(a[1..], b, measure);
    }
  }

  lemma {:induction false} SumOneMore(a: seq<Pass>, p: Pass, b: seq<Pass>, measure: Pass -> real)
    ensures Sum(a + [p] + b, measure) == Sum(a + b, measure) + measure(p)
  {
    SumConcat(a + [p], b, measure);
    SumConcat(a, [p], measure);
    SumConcat(a, b, measure);
    assert Sum([p][1..], measure) == 0.0;
  }

  lemma {:induction false} OperatorIsFound(passes: seq<Pass>)
    ensures HasOperator(passes) <==> FirstOperator(passes) < |passes|
  {
    if i :| 0 <= i < |passes| && passes[i].stage == "operator_response" {
      assert IsOperator(passes[i]);
    }
  }

  // ---- Durations ----

  /** The passes whose durations are counted. */
  function Counted(passes: seq<Pass>): seq<Pass> {
    if HasOperator(passes) then Keep(passes, false) else passes
  }

  lemma {:induction false} DurationOfCounted(passes: seq<Pass>)
    ensures ModelDuration(Exact, passes) ==
              if Count(Counted(passes), TimedOf) == 0 then None else Some(Sum(Counted(passes), DurationOf))
  {
    OperatorIsFound(passes);
  }

  lemma {:induction false} UntimedSum(passes: seq<Pass>)
    requires Count(passes, TimedOf) == 0
    ensures Sum(passes, DurationOf) == 0.0
  {
    if passes != [] { UntimedSum(passes[1..]); }
  }

  lemma {:induction false} DurationIsSum(passes: seq<Pass>)
    ensures OrZero(ModelDuration(Exact, passes)) == Sum(Counted(passes), DurationOf)
  {
    DurationOfCounted(passes);
    if Count(Counted(passes), TimedOf) == 0 { UntimedSum(Counted(passes)); }
  }

  lemma {:induction false} KeepOneMore(a: seq<Pass>, p: Pass, b: seq<Pass>)
    ensures var kept := Keep(a, false) + (if IsDelegate(p) then [] else [p]) + Keep(b, false);
            Keep(a + [p] + b, false) == kept && Keep(a + b, false) == Keep(a, false) + Keep(b, false)
  {
    KeepThree(a, [p], b, false);
    KeepConcat(a, b, false);
    assert Keep([p][1..], false) == [];
  }

  /**
   Each timed pass adds its duration to the turn's, wherever it stands, except a delegate beside an
   operator, which adds nothing.
   */
  lemma {:induction false} NestedDelegatesAddNothing(a: seq<Pass>, p: Pass, b: seq<Pass>)
    requires HasOperator(a + [p] + b) <==> HasOperator(a + b)
    ensures OrZero(ModelDuration(Exact, a + [p] + b)) == OrZero(ModelDuration(Exact, a + b)) +
              if p.stage == "analysis_delegate" && HasOperator(a + b) then 0.0 else OrZero(p.durationMs)
  {
    DurationIsSum(a + [p] + b);
    DurationIsSum(a + b);
    if HasOperator(a + b) {
      KeepOneMore(a, p, b);
      SumOneMore(Keep(a, false), p, Keep(b, false), DurationOf);
      assert Keep(a, false) + [] + Keep(b, false) == Keep(a, false) + Keep(b, false);
    } else {
      SumOneMore(a, p, b, DurationOf);
    }
  }

  /** The first pass of a turn counts whatever it is, and rounding comes last. */
  lemma {:induction false} DurationOfOne(round: Rounding, p: Pass, passes: seq<Pass>)
    ensures ModelDuration(Exact, [p]) == p.durationMs
    ensures ModelDuration(round, passes) ==
              if ModelDuration(Exact, passes).None? then None
              else Some(round.duration(ModelDuration(Exact, passes).value))
  {
    var one := [p];
    assert one[1..] == [];
    assert Keep(one[1..], false) == [] && Count(one[1..], TimedOf) == 0 && Sum(one[1..], DurationOf) == 0.0;
    assert Keep(one, false) == if IsDelegate(p) then [] else [p];
    OperatorIsFound(one);
    assert HasOperator(one) <==> one[0].stage == "operator_response";
  }

  lemma {:induction false} SomeTimed(passes: seq<Pass>)
    ensures 0 < Count(passes, TimedOf) <==> exists p :: p in passes && p.durationMs.Some?
  {
    if passes != [] {
      SomeTimed(passes[1..]);
      assert passes == [passes[0]] + passes[1..];
    }
  }

  lemma {:induction false} KeptExactly(passes: seq<Pass>)
    ensures forall p :: p in Keep(passes, false) <==> p in passes && p.stage != "analysis_delegate"
  {
    if passes != [] {
      KeptExactly(passes[1..]);
      assert passes == [passes[0]] + passes[1..];
    }
  }

  /** No duration is reported exactly when no pass that counts was timed. */
  lemma {:induction false} DurationMissingExactly(passes: seq<Pass>)
    ensures ModelDuration(Exact, passes).Some? <==>
              exists p :: p in passes && p.durationMs.Some? &&
                (p.stage == "analysis_delegate" ==> !HasOperator(passes))
  {
    DurationOfCounted(passes);
    SomeTimed(Counted(passes));
    KeptExactly(passes);
  }

  // ---- The other totals ----

  /** Each pass adds itself, its requests and its counters, delegate or not. */
  lemma {:induction false} EachPassIsSummed(a: seq<Pass>, p: Pass, b: seq<Pass>, f: Field)
    ensures var before, after := Summary(Exact, a + b), Summary(Exact, a + [p] + b);
            && after.passes == a + [p] + b && after.modelPasses == before.modelPasses + 1
            && after.providerRequests == before.providerRequests + p.requests
            && f in before.tokens && f in after.tokens
            && after.tokens[f] == before.tokens[f] + (if f in p.tokens then p.tokens[f] else 0)
    ensures var none := Summary(Exact, []);
            && none.modelPasses == 0 && none.providerRequests == 0 && f in none.tokens && none.tokens[f] == 0
            && none.costUsd == None && none.costCoverage == 0.0 && none.modelDurationMs == None
  {
    CountOneMore(a, p, b, RequestsOf);
    CountOneMore(a, p, b, TokensOf(f));
    assert Fields[0] == Input && Fields[1] == Output && Fields[2] == Usage.Total;
    assert Fields[3] == CacheRead && Fields[4] == CacheWrite && Fields[5] == Reasoning;
  }

  /** The cost is the sum of the costs, and is known exactly when every pass was priced. */
  lemma {:induction false} EachPassIsPriced(a: seq<Pass>, p: Pass, b: seq<Pass>)
    ensures var before, after := Summary(Exact, a + b).costUsd, Summary(Exact, a + [p] + b).costUsd;
            && (after.Some? <==> p.costUsd.Some? && (a + b == [] || before.Some?))
            && (after.Some? ==> after.value == OrZero(before) + p.costUsd.value)
  {
    CountOneMore(a, p, b, PricedOf);
    SumOneMore(a, p, b, CostOf);
    PricedAtMostAll(a + b);
  }

  /** The number of priced passes, from the share that is stored. */
  function PricedPasses(passes: seq<Pass>): real {
    Times(Summary(Exact, passes).costCoverage, |passes|)
  }

  function Times(share: real, whole: nat): real {
    share * whole as real
  }

  lemma {:induction false} TimesShare(part: nat, whole: nat)
    requires 0 < whole
    ensures Times(part as real / whole as real, whole) == part as real
  {
  }

  lemma {:induction false} CoverageTimesPasses(passes: seq<Pass>)
    ensures PricedPasses(passes) == Count(passes, PricedOf) as real
  {
    if passes != [] { TimesShare(Count(passes, PricedOf), |passes|); }
  }

  /** Each priced pass raises the share by one in as many as there are. */
  lemma {:induction false} CoverageIsShare(a: seq<Pass>, p: Pass, b: seq<Pass>)
    ensures PricedPasses(a + [p] + b) == PricedPasses(a + b) + if p.costUsd.Some? then 1.0 else 0.0
  {
    CountOneMore(a, p, b, PricedOf);
    CoverageTimesPasses(a + b);
    CoverageTimesPasses(a + [p] + b);
  }
}
