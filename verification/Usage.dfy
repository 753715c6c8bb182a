/**
 Request-usage accounting: snapshots of provider attempts, merged across retries, restarts and lost
 leases without counting an attempt twice or claiming more certainty than the evidence has.
 */
module Usage {
  import opened Prelude

  datatype Field = Input | Output | Total | CacheRead | CacheWrite | Reasoning

  const Fields := [Input, Output, Total, CacheRead, CacheWrite, Reasoning]

  /** One provider request. A counter that was not reported is absent from `tokens`. */
  datatype Attempt = Attempt(id: string, tokens: map<Field, nat>, detail: string)

  predicate Reported(a: Attempt) {
    Input in a.tokens && Output in a.tokens && Total in a.tokens
  }

  datatype Coverage = Complete | Partial | Unavailable | NotUsed | Interrupted

  /** How much of the history is in doubt: nothing, something, or a lost process. */
  datatype Doubt = NoDoubt | Unknown | Lost

  datatype RequestUsage = RequestUsage(
    coverage: Coverage,
    requestCount: nat,
    reportedRequests: nat,
    historyComplete: bool,
    totals: map<Field, nat>,
    requests: seq<Attempt>)

  // ---- Deduplication: `{item["attemptId"]: item for item in requests}` ----

  function Ids(requests: seq<Attempt>): seq<string> {
    seq(|requests|, i requires 0 <= i < |requests| => requests[i].id)
  }

  /** The distinct elements in the order of their first occurrence. */
  function Unique(s: seq<string>): (r: seq<string>)
    ensures Distinct(r) && Elements(r) == Elements(s)
  {
    if s == [] then [] else
    var rest := Unique(s[..|s| - 1]);
    var last := s[|s| - 1];
    assert s == s[..|s| - 1] + [last];
    assert Elements(s) == Elements(s[..|s| - 1]) + {last};
    assert last in rest <==> last in Elements(rest);
    if last in rest then rest else
      assert Elements(rest + [last]) == Elements(rest) + {last};
      rest + [last]
  }

  /** The last attempt of each id. */
  function Latest(requests: seq<Attempt>): (m: map<string, Attempt>)
    ensures m.Keys == Elements(Ids(requests))
    ensures forall id | id in m :: m[id].id == id
  {
    if requests == [] then map[] else
    var last := requests[|requests| - 1];
    assert Ids(requests) == Ids(requests[..|requests| - 1]) + [last.id];
    assert Elements(Ids(requests)) == Elements(Ids(requests[..|requests| - 1])) + {last.id};
    Latest(requests[..|requests| - 1])[last.id := last]
  }

  function Listing(order: seq<string>, latest: map<string, Attempt>): seq<Attempt>
    requires Elements(order) <= latest.Keys
  {
    assert forall i | 0 <= i < |order| :: order[i] in Elements(order);
    seq(|order|, i requires 0 <= i < |order| => latest[order[i]])
  }

  /** One entry per attempt id: where it first occurred, what it last said. */
  function Attempts(requests: seq<Attempt>): seq<Attempt> {
    Listing(Unique(Ids(requests)), Latest(requests))
  }

  lemma {:induction false} ListingFacts(order: seq<string>, latest: map<string, Attempt>)
    requires Elements(order) == latest.Keys && Distinct(order) && forall id | id in latest :: latest[id].id == id
    ensures |Listing(order, latest)| == |order| == |latest.Keys|
    ensures Ids(Listing(order, latest)) == order
    ensures forall a | a in Listing(order, latest) :: a.id in latest && latest[a.id] == a
    ensures forall id | id in latest :: latest[id] in Listing(order, latest)
  {
    DistinctSize(order);
    assert forall i | 0 <= i < |order| :: order[i] in Elements(order);
    forall id | id in latest ensures latest[id] in Listing(order, latest) {
      assert id in Elements(order);
      var i :| 0 <= i < |order| && order[i] == id;
      assert Listing(order, latest)[i] == latest[id];
    }
  }

  lemma {:induction false} LatestConcat(a: seq<Attempt>, b: seq<Attempt>)
    ensures Latest(a + b) == Latest(a) + Latest(b)
    decreases |b|
  {
    if b == [] {
      assert a + b == a;
    } else {
      assert (a + b)[..|a + b| - 1] == a + b[..|b| - 1];
      LatestConcat(a, b[..|b| - 1]);
    }
  }

  function Without(s: seq<string>, seen: seq<string>): seq<string> {
    if s == [] then [] else
    var rest := Without(s[..|s| - 1], seen);
    if s[|s| - 1] in seen then rest else rest + [s[|s| - 1]]
  }

  lemma {:induction false} WithoutElements(s: seq<string>, seen: seq<string>)
    ensures forall x :: x in Without(s, seen) <==> x in s && x !in seen
  {
    if s != [] {
      WithoutElements(s[..|s| - 1], seen);
      assert s == s[..|s| - 1] + [s[|s| - 1]];
    }
  }

  lemma {:induction false} UniqueConcat(a: seq<string>, b: seq<string>)
    ensures Unique(a + b) == Unique(a) + Without(Unique(b), a)
    decreases |b|
  {
    if b == [] {
      assert a + b == a;
    } else {
      var last, front := b[|b| - 1], b[..|b| - 1];
      assert (a + b)[..|a + b| - 1] == a + front;
      UniqueConcat(a, front);
      WithoutElements(Unique(front), a);
      assert last in Unique(a) <==> last in a by { assert last in Elements(Unique(a)) <==> last in Elements(a); }
      var extended := Unique(front) + [last];
      assert extended[..|extended| - 1] == Unique(front);
    }
  }

  lemma {:induction false} UniqueOfDistinct(s: seq<string>)
    requires Distinct(s)
    ensures Unique(s) == s
  {
    if s != [] {
      UniqueOfDistinct(s[..|s| - 1]);
      assert s == s[..|s| - 1] + [s[|s| - 1]];
    }
  }

  lemma {:induction false} WithoutSame(s: seq<string>, a: seq<string>, b: seq<string>)
    requires forall x :: x in a <==> x in b
    ensures Without(s, a) == Without(s, b)
  {
    if s != [] { WithoutSame(s[..|s| - 1], a, b); }
  }

  lemma {:induction false} AttemptsFacts(requests: seq<Attempt>)
    ensures Ids(Attempts(requests)) == Unique(Ids(requests))
    ensures Latest(Attempts(requests)) == Latest(requests)
    ensures Distinct(Ids(Attempts(requests)))
  {
    ListingFacts(Unique(Ids(requests)), Latest(requests));
    LatestOfDistinct(Attempts(requests), Latest(requests));
  }

  lemma {:induction false} LatestOfDistinct(s: seq<Attempt>, m: map<string, Attempt>)
    requires Distinct(Ids(s))
    requires forall i | 0 <= i < |s| :: s[i].id in m && m[s[i].id] == s[i]
    ensures forall id | id in Latest(s) :: id in m && Latest(s)[id] == m[id]
    ensures m.Keys == Elements(Ids(s)) ==> Latest(s) == m
  {
    if s != [] {
      var front := s[..|s| - 1];
      assert Ids(front) == Ids(s)[..|s| - 1];
      LatestOfDistinct(front, m);
    }
  }

  lemma {:induction false} UniqueOfParts(x: seq<string>, y: seq<string>)
    ensures Unique(Unique(x) + Unique(y)) == Unique(x + y)
  {
    UniqueConcat(x, y);
    UniqueConcat(Unique(x), Unique(y));
    UniqueOfDistinct(Unique(x));
    UniqueOfDistinct(Unique(y));
    forall s ensures s in Unique(x) <==> s in x {
      assert s in Elements(Unique(x)) <==> s in Elements(x);
    }
    WithoutSame(Unique(y), Unique(x), x);
  }

  lemma {:induction false} IdsConcat(a: seq<Attempt>, b: seq<Attempt>)
    ensures Ids(a + b) == Ids(a) + Ids(b)
  {
  }

  /** Attempts with the same ids in the same order and the same last words are the same attempts. */
  lemma {:induction false} SameAttempts(a: seq<Attempt>, b: seq<Attempt>)
    requires Unique(Ids(a)) == Unique(Ids(b)) && Latest(a) == Latest(b)
    ensures Attempts(a) == Attempts(b)
  {
  }

  /** Deduplicating a part first makes no difference to deduplicating the whole. */
  lemma {:induction false} AttemptsOfParts(a: seq<Attempt>, b: seq<Attempt>)
    ensures Attempts(Attempts(a) + Attempts(b)) == Attempts(a + b)
  {
    AttemptsFacts(a);
    AttemptsFacts(b);
    LatestConcat(a, b);
    LatestConcat(Attempts(a), Attempts(b));
    IdsConcat(a, b);
    IdsConcat(Attempts(a), Attempts(b));
    UniqueOfParts(Ids(a), Ids(b));
    SameAttempts(Attempts(a) + Attempts(b), a + b);
  }

  lemma {:induction false} AttemptsTwice(a: seq<Attempt>)
    ensures Attempts(Attempts(a)) == Attempts(a)
  {
    AttemptsOfParts(a, []);
    assert Attempts(a) + Attempts([]) == Attempts(a) && a + [] == a;
  }

  // ---- Snapshots ----

  function CountReported(values: seq<Attempt>): (n: nat)
    ensures n <= |values|
    ensures n == |values| <==> forall i | 0 <= i < |values| :: Reported(values[i])
  {
    if values == [] then 0
    else
      var n := CountReported(values[1..]);
      assert forall i | 1 <= i < |values| :: values[i] == values[1..][i - 1];
      n + if Reported(values[0]) then 1 else 0
  }

  function SumOf(values: seq<Attempt>, f: Field): nat {
    if values == [] then 0 else (if f in values[0].tokens then values[0].tokens[f] else 0) + SumOf(values[1..], f)
  }

  predicate Known(values: seq<Attempt>, f: Field) {
    exists i | 0 <= i < |values| :: f in values[i].tokens
  }

  function CoverageOf(values: seq<Attempt>, doubt: Doubt): Coverage {
    var reported := CountReported(values);
    if doubt.Lost? then Interrupted
    else if doubt.Unknown? && reported > 0 then Partial
    else if doubt.Unknown? then Unavailable
    else if values == [] then NotUsed
    else if reported == |values| then Complete
    else if reported > 0 then Partial
    else Unavailable
  }

  /** `request_usage_snapshot` */
  function Snapshot(requests: seq<Attempt>, doubt: Doubt): RequestUsage {
    var values := Attempts(requests);
    var coverage := CoverageOf(values, doubt);
    RequestUsage(
      coverage, |values|, CountReported(values), doubt.NoDoubt?,
      map f | f in Fields && (Known(values, f) || coverage.NotUsed?) :: SumOf(values, f),
      values)
  }

  /** The stored metrics of a run or work item: whether anything is stored, and its request usage. */
  datatype Metrics = Metrics(filled: bool, usage: Option<RequestUsage>)

  const NoMetrics := Metrics(false, None)

  function Requests(m: Metrics): seq<Attempt> {
    if m.usage.Some? then m.usage.value.requests else []
  }

  /** One round of the loop in `merge_request_usage`. */
  function Weigh(doubt: Doubt, m: Metrics): Doubt {
    if (m.usage.Some? && !m.usage.value.historyComplete) || (m.usage.None? && m.filled) then
      if m.usage.Some? && m.usage.value.coverage.Interrupted? then Lost
      else if doubt.NoDoubt? then Unknown else doubt
    else doubt
  }

  /** `merge_request_usage` */
  function MergeUsage(base: Metrics, extra: Metrics): RequestUsage {
    Snapshot(Requests(base) + Requests(extra), Weigh(Weigh(NoDoubt, base), extra))
  }

  /** The usage part of `merge_agent_metric_snapshots`, which always returns filled metrics. */
  function Merge(base: Metrics, extra: Metrics): Metrics {
    Metrics(true, Some(MergeUsage(base, extra)))
  }

  /** `interrupt_request_usage` */
  function Interrupt(m: Metrics): Metrics {
    Metrics(true, Some(Snapshot(Requests(m), Lost)))
  }

  // ---- What a snapshot claims ----

  lemma {:induction false} CompleteCoverage(values: seq<Attempt>, doubt: Doubt)
    ensures CoverageOf(values, doubt).Complete? <==>
              doubt.NoDoubt? && values != [] && forall i | 0 <= i < |values| :: Reported(values[i])
    ensures CoverageOf(values, doubt).Complete? ==>
              Known(values, Input) && Known(values, Output) && Known(values, Total)
  {
    if values != [] && forall i | 0 <= i < |values| :: Reported(values[i]) {
      assert Reported(values[0]);
    }
  }

  lemma {:induction false} AttemptsCounted(requests: seq<Attempt>)
    ensures |Attempts(requests)| == |Elements(Ids(requests))|
    ensures Attempts(requests) == [] <==> requests == []
    ensures (forall a | a in Attempts(requests) :: Reported(a)) <==>
            (forall id | id in Latest(requests) :: Reported(Latest(requests)[id]))
  {
    ListingFacts(Unique(Ids(requests)), Latest(requests));
    if requests != [] {
      assert requests[0].id == Ids(requests)[0];
      assert requests[0].id in Latest(requests);
    }
  }

  /**
   A snapshot claims complete coverage exactly when its history is not in doubt, something was requested
   and the last word on every attempt reports input, output and total. Each id is counted once.
   */
  lemma {:induction false} CompleteMeansAllReported(requests: seq<Attempt>, doubt: Doubt)
    ensures var u := Snapshot(requests, doubt);
            && u.requestCount == |u.requests| == |Elements(Ids(requests))| && u.reportedRequests <= u.requestCount
            && (u.coverage.Complete? <==>
                  doubt.NoDoubt? && requests != [] &&
                  forall id | id in Latest(requests) :: Reported(Latest(requests)[id]))
  {
    AttemptsCounted(requests);
    CompleteCoverage(Attempts(requests), doubt);
  }

  /** Complete coverage means exact, present input, output and total sums over an undoubted history. */
  lemma {:induction false} CompleteMeansExact(requests: seq<Attempt>, doubt: Doubt, f: Field)
    requires Snapshot(requests, doubt).coverage.Complete? && f in {Input, Output, Total}
    ensures var u := Snapshot(requests, doubt);
            && u.historyComplete && u.reportedRequests == u.requestCount
            && f in u.totals && u.totals[f] == SumOf(u.requests, f)
  {
    var values := Attempts(requests);
    CompleteCoverage(values, doubt);
    assert Fields[0] == Input && Fields[1] == Output && Fields[2] == Total;
    assert f in Fields && Known(values, f);
  }

  // ---- The merge algebra ----

  function Join(a: Doubt, b: Doubt): Doubt {
    if a.Lost? || b.Lost? then Lost else if a.Unknown? || b.Unknown? then Unknown else NoDoubt
  }

  function DoubtOf(m: Metrics): Doubt {
    Weigh(NoDoubt, m)
  }

  lemma {:induction false} WeighIsJoin(doubt: Doubt, m: Metrics)
    ensures Weigh(doubt, m) == Join(doubt, DoubtOf(m))
  {
  }

  /** A snapshot remembers its own doubt. */
  lemma {:induction false} SnapshotKeepsDoubt(requests: seq<Attempt>, doubt: Doubt, filled: bool)
    ensures DoubtOf(Metrics(filled, Some(Snapshot(requests, doubt)))) == doubt
  {
  }

  /** Any way of merging recorded metrics: which pairs are merged, and in what grouping. */
  datatype Tree = Leaf(metrics: Metrics) | Node(left: Tree, right: Tree)

  function Evaluate(t: Tree): Metrics {
    match t
    case Leaf(m) => m
    case Node(l, r) => Merge(Evaluate(l), Evaluate(r))
  }

  function Leaves(t: Tree): seq<Metrics> {
    match t
    case Leaf(m) => [m]
    case Node(l, r) => Leaves(l) + Leaves(r)
  }

  function AllRequests(ms: seq<Metrics>): seq<Attempt> {
    if ms == [] then [] else AllRequests(ms[..|ms| - 1]) + Requests(ms[|ms| - 1])
  }

  function AllDoubt(ms: seq<Metrics>): Doubt {
    if ms == [] then NoDoubt else Join(AllDoubt(ms[..|ms| - 1]), DoubtOf(ms[|ms| - 1]))
  }

  lemma {:induction false} LeavesConcat(a: seq<Metrics>, b: seq<Metrics>)
    ensures AllRequests(a + b) == AllRequests(a) + AllRequests(b)
    ensures AllDoubt(a + b) == Join(AllDoubt(a), AllDoubt(b))
    decreases |b|
  {
    if b == [] {
      assert a + b == a;
    } else {
      assert (a + b)[..|a + b| - 1] == a + b[..|b| - 1];
      LeavesConcat(a, b[..|b| - 1]);
    }
  }

  /**
   The result of merging depends only on the leaves: whatever the grouping, it is the snapshot of all
   their attempts, each id once, under the joined doubt. Associativity is the case of three leaves.
   */
  lemma {:induction false} MergeIsGroupingIndependent(t: Tree)
    ensures Attempts(Requests(Evaluate(t))) == Attempts(AllRequests(Leaves(t)))
    ensures DoubtOf(Evaluate(t)) == AllDoubt(Leaves(t))
    ensures t.Node? ==> Evaluate(t).usage == Some(Snapshot(AllRequests(Leaves(t)), AllDoubt(Leaves(t))))
  {
    match t {
      case Leaf(m) =>
        assert Leaves(t)[..0] == [];
        assert AllRequests([m]) == [] + Requests(m) == Requests(m);
      case Node(l, r) =>
        MergeIsGroupingIndependent(l);
        MergeIsGroupingIndependent(r);
        LeavesConcat(Leaves(l), Leaves(r));
        var a, b := Requests(Evaluate(l)), Requests(Evaluate(r));
        WeighIsJoin(DoubtOf(Evaluate(l)), Evaluate(r));
        AttemptsOfParts(a, b);
        AttemptsOfParts(AllRequests(Leaves(l)), AllRequests(Leaves(r)));
        AttemptsTwice(a + b);
        SnapshotKeepsDoubt(a + b, AllDoubt(Leaves(t)), true);
    }
  }

  /** A merge keeps every attempt of both sides, adds none, and joins their doubts. */
  lemma {:induction false} MergeLosesNothing(base: Metrics, extra: Metrics)
    ensures var m := Merge(base, extra);
            && Elements(Ids(Requests(m))) == Elements(Ids(Requests(base))) + Elements(Ids(Requests(extra)))
            && DoubtOf(m) == Join(DoubtOf(base), DoubtOf(extra))
  {
    var all := Requests(base) + Requests(extra);
    AttemptsFacts(all);
    IdsConcat(Requests(base), Requests(extra));
    assert Elements(Ids(all)) == Elements(Ids(Requests(base))) + Elements(Ids(Requests(extra)));
    WeighIsJoin(DoubtOf(base), extra);
    SnapshotKeepsDoubt(all, Weigh(DoubtOf(base), extra), true);
  }

  /** Metrics as they are stored: their usage, if any, is a snapshot. */
  ghost predicate Recorded(m: Metrics) {
    m.usage.Some? ==> exists requests, doubt :: m.usage.value == Snapshot(requests, doubt)
  }

  /** Merging under no new doubt and no new ids is taking the snapshot again. */
  lemma {:induction false} MergeOf(base: Metrics, extra: Metrics, requests: seq<Attempt>, doubt: Doubt)
    requires Join(DoubtOf(base), DoubtOf(extra)) == doubt
    requires Attempts(Requests(base) + Requests(extra)) == Attempts(requests)
    ensures MergeUsage(base, extra) == Snapshot(requests, doubt)
  {
    WeighIsJoin(DoubtOf(base), extra);
  }

  /** Empty metrics are an identity, and merging metrics with themselves counts nothing twice. */
  lemma {:induction false} MergeIdentityAndIdempotence(m: Metrics)
    requires Recorded(m) && m.usage.Some?
    ensures MergeUsage(NoMetrics, m) == MergeUsage(m, NoMetrics) == MergeUsage(m, m) == m.usage.value
  {
    var requests, doubt :| m.usage.value == Snapshot(requests, doubt);
    OwnRequests(requests, doubt, m);
    MergeOf(NoMetrics, m, requests, doubt);
    MergeOf(m, NoMetrics, requests, doubt);
    MergeOf(m, m, requests, doubt);
  }

  lemma {:induction false} OwnRequests(requests: seq<Attempt>, doubt: Doubt, m: Metrics)
    requires m.usage == Some(Snapshot(requests, doubt))
    ensures DoubtOf(m) == doubt
    ensures Attempts(Requests(m) + Requests(m)) == Attempts(requests)
    ensures Attempts(Requests(NoMetrics) + Requests(m)) == Attempts(requests)
    ensures Attempts(Requests(m) + Requests(NoMetrics)) == Attempts(requests)
  {
    SnapshotKeepsDoubt(requests, doubt, m.filled);
    AttemptsTwice(requests);
    var own := Requests(m);
    assert [] + own == own && own + [] == own;
    SelfMerge(own);
  }

  lemma {:induction false} SelfMerge(own: seq<Attempt>)
    ensures Attempts(own + own) == Attempts(own)
  {
    LatestConcat(own, own);
    IdsConcat(own, own);
    NothingNew(Ids(own));
    SameAttempts(own + own, own);
  }

  lemma {:induction false} FirstElement(s: seq<string>)
    ensures s != [] ==> s[0] in s
  {
  }

  lemma {:induction false} NothingNew(s: seq<string>)
    ensures Unique(s + s) == Unique(s)
  {
    UniqueConcat(s, s);
    WithoutElements(Unique(s), s);
    assert forall x :: x in Unique(s) ==> x in Elements(Unique(s));
    FirstElement(Without(Unique(s), s));
  }

  /** Interrupting either side before a merge is interrupting the result. */
  lemma {:induction false} InterruptCommutesWithMerge(base: Metrics, extra: Metrics)
    ensures MergeUsage(Interrupt(base), extra) == MergeUsage(base, Interrupt(extra)) ==
            Interrupt(Merge(base, extra)).usage.value
  {
    var a, b := Requests(base), Requests(extra);
    SnapshotKeepsDoubt(a, Lost, true);
    SnapshotKeepsDoubt(b, Lost, true);
    WeighIsJoin(Lost, extra);
    WeighIsJoin(DoubtOf(base), Interrupt(extra));
    AttemptsOfParts(a, b);
    AttemptsTwice(a);
    AttemptsTwice(b);
    AttemptsTwice(a + b);
    AttemptsOfParts(Attempts(a), b);
    AttemptsOfParts(a, Attempts(b));
  }

  lemma {:induction false} DoubtAccumulates(ms: seq<Metrics>, i: nat)
    requires i < |ms|
    ensures AllDoubt(ms) == Join(AllDoubt(ms), DoubtOf(ms[i]))
  {
    if i < |ms| - 1 { DoubtAccumulates(ms[..|ms| - 1], i); }
  }

  /** Evidence that was once interrupted never becomes complete, however much is merged around it. */
  lemma {:induction false} InterruptedStaysInterrupted(t: Tree, i: nat)
    requires t.Node? && i < |Leaves(t)| && DoubtOf(Leaves(t)[i]).Lost?
    ensures Evaluate(t).usage.value.coverage.Interrupted? && !Evaluate(t).usage.value.historyComplete
  {
    MergeIsGroupingIndependent(t);
    DoubtAccumulates(Leaves(t), i);
  }
}
