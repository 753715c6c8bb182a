/**
 What the numbers in a usage snapshot are: the last word on every attempt, each counted once. The laws
 fix every total, attempt by attempt, without reference to how the snapshot adds them up.
 */
module UsageTotals {
  import opened Prelude
  import opened Usage

  /** A counter, with absence read as zero. */
  function Reading(tokens: map<Field, nat>, f: Field): nat {
    if f in tokens then tokens[f] else 0
  }

  function TotalOf(requests: seq<Attempt>, doubt: Doubt, f: Field): nat {
    Reading(Snapshot(requests, doubt).totals, f)
  }

  /** No later observation is of the same attempt. */
  predicate LastWord(requests: seq<Attempt>, i: nat)
    requires i < |requests|
  {
    forall j | i < j < |requests| :: requests[j].id != requests[i].id
  }

  // ---- Adding up ----

  lemma {:induction false} SumConcat(a: seq<Attempt>, b: seq<Attempt>, f: Field)
    ensures SumOf(a + b, f) == SumOf(a, f) + SumOf(b, f)
  {
    if a == [] {
      assert a + b == b;
    } else {
      assert (a + b)[1..] == a[1..] + b;
      SumConcat(a[1..], b, f);
    }
  }

  lemma {:induction false} SumOfOne(x: Attempt, f: Field)
    ensures SumOf([x], f) == Reading(x.tokens, f)
  {
    assert SumOf([x][1..], f) == 0;
  }

  lemma {:induction false} SumOfReplaced(a: seq<Attempt>, k: nat, x: Attempt, f: Field)
    requires k < |a|
    ensures SumOf(a[k := x], f) + Reading(a[k].tokens, f) == SumOf(a, f) + Reading(x.tokens, f)
  {
    assert a == a[..k] + [a[k]] + a[k + 1..];
    assert a[k := x] == a[..k] + [x] + a[k + 1..];
    forall y ensures SumOf(a[..k] + [y] + a[k + 1..], f) ==
                       SumOf(a[..k], f) + Reading(y.tokens, f) + SumOf(a[k + 1..], f)
    {
      SumConcat(a[..k] + [y], a[k + 1..], f);
      SumConcat(a[..k], [y], f);
      SumOfOne(y, f);
    }
  }

  lemma {:induction false} SumOfUnknown(values: seq<Attempt>, f: Field)
    requires !Known(values, f)
    ensures SumOf(values, f) == 0
  {
    if values != [] {
      assert forall i | 0 <= i < |values[1..]| :: values[1..][i] == values[i + 1];
      SumOfUnknown(values[1..], f);
    }
  }

  lemma {:induction false} EveryFieldIsListed(f: Field)
    ensures f in Fields
  {
    assert Fields[0] == Input && Fields[1] == Output && Fields[2] == Total;
    assert Fields[3] == CacheRead && Fields[4] == CacheWrite && Fields[5] == Reasoning;
  }

  lemma {:induction false} TotalIsSum(requests: seq<Attempt>, doubt: Doubt, f: Field)
    ensures TotalOf(requests, doubt, f) == SumOf(Attempts(requests), f)
  {
    EveryFieldIsListed(f);
    if !Known(Attempts(requests), f) {
      SumOfUnknown(Attempts(requests), f);
    }
  }

  // ---- One more observation ----

  lemma {:induction false} LatestIsLastWord(requests: seq<Attempt>, i: nat)
    requires i < |requests| && LastWord(requests, i)
    ensures requests[i].id in Latest(requests) && Latest(requests)[requests[i].id] == requests[i]
  {
    var front := requests[..|requests| - 1];
    if i < |front| {
      assert requests[|requests| - 1].id != requests[i].id;
      LatestIsLastWord(front, i);
    }
  }

  lemma {:induction false} UniqueExtended(s: seq<string>, x: string)
    ensures x in s ==> Unique(s + [x]) == Unique(s)
    ensures x !in s ==> Unique(s + [x]) == Unique(s) + [x]
    ensures x in s <==> x in Unique(s)
  {
    assert (s + [x])[..|s|] == s;
    assert x in Unique(s) <==> x in Elements(Unique(s));
    assert x in s <==> x in Elements(s);
  }

  lemma {:induction false} AttemptsExtended(requests: seq<Attempt>, x: Attempt)
    requires x.id !in Ids(requests)
    ensures Attempts(requests + [x]) == Attempts(requests) + [x]
  {
    var all := requests + [x];
    UniqueExtended(Ids(requests), x.id);
    assert Ids(all) == Ids(requests) + [x.id];
    assert all[..|all| - 1] == requests;
    var order := Unique(Ids(requests));
    forall i | 0 <= i < |order| ensures order[i] in Elements(order) && order[i] != x.id {
      assert order[i] in Elements(Ids(requests));
    }
  }

  lemma {:induction false} PlaceOf(requests: seq<Attempt>, id: string) returns (k: nat)
    requires id in Ids(requests)
    ensures k < |Unique(Ids(requests))| && Unique(Ids(requests))[k] == id
  {
    UniqueExtended(Ids(requests), id);
    k :| k < |Unique(Ids(requests))| && Unique(Ids(requests))[k] == id;
  }

  lemma {:induction false} ListingReplaced(order: seq<string>, latest: map<string, Attempt>, k: nat, x: Attempt)
    requires Elements(order) == latest.Keys && Distinct(order) && k < |order| && order[k] == x.id
    ensures Listing(order, latest[x.id := x]) == Listing(order, latest)[k := x]
  {
    assert forall i | 0 <= i < |order| :: order[i] in Elements(order) && (order[i] == x.id ==> i == k);
  }

  lemma {:induction false} AttemptsReplaced(requests: seq<Attempt>, x: Attempt) returns (k: nat)
    requires x.id in Ids(requests)
    ensures k < |Attempts(requests)| && Attempts(requests)[k] == Latest(requests)[x.id]
    ensures Attempts(requests + [x]) == Attempts(requests)[k := x]
  {
    UniqueExtended(Ids(requests), x.id);
    assert Ids(requests + [x]) == Ids(requests) + [x.id];
    assert (requests + [x])[..|requests|] == requests;
    k := PlaceOf(requests, x.id);
    ListingReplaced(Unique(Ids(requests)), Latest(requests), k, x);
  }

  /** The first observation of an attempt adds its counters to the totals. */
  lemma {:induction false} NewAttemptIsAdded(requests: seq<Attempt>, x: Attempt, doubt: Doubt, f: Field)
    requires forall i | 0 <= i < |requests| :: requests[i].id != x.id
    ensures TotalOf(requests + [x], doubt, f) == TotalOf(requests, doubt, f) + Reading(x.tokens, f)
  {
    AttemptsExtended(requests, x);
    SumConcat(Attempts(requests), [x], f);
    SumOfOne(x, f);
    TotalIsSum(requests, doubt, f);
    TotalIsSum(requests + [x], doubt, f);
  }

  /** A further observation replaces what the last one said: an attempt is never counted twice. */
  lemma {:induction false} RepeatedAttemptIsReplaced(requests: seq<Attempt>, i: nat, x: Attempt, doubt: Doubt, f: Field)
    requires i < |requests| && LastWord(requests, i) && requests[i].id == x.id
    ensures TotalOf(requests + [x], doubt, f) + Reading(requests[i].tokens, f) ==
              TotalOf(requests, doubt, f) + Reading(x.tokens, f)
  {
    assert Ids(requests)[i] == x.id;
    LatestIsLastWord(requests, i);
    var k := AttemptsReplaced(requests, x);
    SumOfReplaced(Attempts(requests), k, x, f);
    TotalIsSum(requests, doubt, f);
    TotalIsSum(requests + [x], doubt, f);
  }

  // ---- Whole histories ----

  lemma {:induction false} HasLastWord(requests: seq<Attempt>, i: nat) returns (last: nat)
    requires i < |requests|
    ensures last < |requests| && requests[last].id == requests[i].id && LastWord(requests, last)
    decreases |requests| - i
  {
    if LastWord(requests, i) {
      last := i;
    } else {
      var j :| i < j < |requests| && requests[j].id == requests[i].id;
      last := HasLastWord(requests, j);
    }
  }

  /** Nothing requested, nothing counted; and one request is counted as it reported itself. */
  lemma {:induction false} TotalsOfFew(x: Attempt, doubt: Doubt, f: Field)
    ensures TotalOf([], doubt, f) == 0
    ensures TotalOf([x], doubt, f) == Reading(x.tokens, f)
  {
    TotalIsSum([], doubt, f);
    NewAttemptIsAdded([], x, doubt, f);
    assert [] + [x] == [x];
  }

  lemma {:induction false} OneMoreObservation(requests: seq<Attempt>, x: Attempt, doubt: Doubt, f: Field)
    ensures TotalOf(requests + [x], doubt, f) + Previous(Latest(requests), x.id, f) ==
              TotalOf(requests, doubt, f) + Reading(x.tokens, f)
  {
    assert x.id in Latest(requests) <==> x.id in Elements(Ids(requests));
    if x.id in Ids(requests) {
      var k := AttemptsReplaced(requests, x);
      SumOfReplaced(Attempts(requests), k, x, f);
      TotalIsSum(requests, doubt, f);
      TotalIsSum(requests + [x], doubt, f);
    } else {
      assert forall i | 0 <= i < |requests| :: Ids(requests)[i] == requests[i].id;
      NewAttemptIsAdded(requests, x, doubt, f);
    }
  }

  /** What the last word on an attempt, if there is one, contributes to a total. */
  function Previous(latest: map<string, Attempt>, id: string, f: Field): nat {
    if id in latest then Reading(latest[id].tokens, f) else 0
  }

  lemma {:induction false} SamePrevious(a: seq<Attempt>, b: seq<Attempt>, id: string, f: Field)
    requires forall i | 0 <= i < |a| :: a[i].id != id
    ensures Previous(Latest(a + b), id, f) == Previous(Latest(b), id, f)
  {
    LatestConcat(a, b);
    assert forall i | 0 <= i < |Ids(a)| :: Ids(a)[i] == a[i].id;
    assert id !in Latest(a);
  }

  /** Histories of different attempts add up, field by field. */
  lemma {:induction false} DisjointHistoriesAddUp(a: seq<Attempt>, b: seq<Attempt>, doubt: Doubt, f: Field)
    requires forall i, j | 0 <= i < |a| && 0 <= j < |b| :: a[i].id != b[j].id
    ensures TotalOf(a + b, doubt, f) == TotalOf(a, doubt, f) + TotalOf(b, doubt, f)
    decreases |b|
  {
    if b == [] {
      assert a + b == a;
      TotalIsSum([], doubt, f);
    } else {
      var front, x := b[..|b| - 1], b[|b| - 1];
      assert b == front + [x] && a + b == a + front + [x];
      DisjointHistoriesAddUp(a, front, doubt, f);
      SamePrevious(a, front, x.id, f);
      OneMoreObservation(front, x, doubt, f);
      OneMoreObservation(a + front, x, doubt, f);
    }
  }

  /** So merging the metrics of different attempts adds their totals, whatever is in doubt about either. */
  lemma {:induction false} MergedTotalsAddUp(base: Metrics, extra: Metrics, f: Field)
    requires Recorded(base) && Recorded(extra) && base.usage.Some? && extra.usage.Some?
    requires Elements(Ids(Requests(base))) !! Elements(Ids(Requests(extra)))
    ensures Reading(MergeUsage(base, extra).totals, f) ==
              Reading(base.usage.value.totals, f) + Reading(extra.usage.value.totals, f)
  {
    var a, b := Requests(base), Requests(extra);
    forall i, j | 0 <= i < |a| && 0 <= j < |b| ensures a[i].id != b[j].id {
      assert Ids(a)[i] in Elements(Ids(a)) && Ids(b)[j] in Elements(Ids(b));
    }
    var doubt := Weigh(Weigh(NoDoubt, base), extra);
    DisjointHistoriesAddUp(a, b, doubt, f);
    RecordedTotal(base, doubt, f);
    RecordedTotal(extra, doubt, f);
  }

  lemma {:induction false} RecordedTotal(m: Metrics, doubt: Doubt, f: Field)
    requires Recorded(m) && m.usage.Some?
    ensures TotalOf(Requests(m), doubt, f) == Reading(m.usage.value.totals, f)
  {
    var requests, own :| m.usage.value == Snapshot(requests, own);
    AttemptsTwice(requests);
    TotalIsSum(Requests(m), doubt, f);
    TotalIsSum(requests, own, f);
  }

  // ---- What is listed, and what is absent ----

  /** The snapshot lists the last word on every attempt and nothing else. */
  lemma {:induction false} LastWordsAreListed(requests: seq<Attempt>, doubt: Doubt, a: Attempt)
    ensures a in Snapshot(requests, doubt).requests <==>
              exists i | 0 <= i < |requests| :: requests[i] == a && LastWord(requests, i)
  {
    ListingFacts(Unique(Ids(requests)), Latest(requests));
    if i :| 0 <= i < |requests| && requests[i] == a && LastWord(requests, i) {
      LatestIsLastWord(requests, i);
    }
    if a in Attempts(requests) {
      assert a.id in Elements(Ids(requests));
      var i :| 0 <= i < |requests| && Ids(requests)[i] == a.id;
      var last := HasLastWord(requests, i);
      LatestIsLastWord(requests, last);
    }
  }

  lemma {:induction false} UniqueKeepsOrder(s: seq<string>, p: nat, q: nat) returns (i: nat, j: nat)
    requires p < q < |Unique(s)|
    ensures i < j < |s| && s[i] == Unique(s)[p] && s[j] == Unique(s)[q] && s[j] !in s[..j]
  {
    var front, last := s[..|s| - 1], s[|s| - 1];
    assert s == front + [last];
    UniqueExtended(front, last);
    if q < |Unique(front)| {
      i, j := UniqueKeepsOrder(front, p, q);
      assert s[..j] == front[..j];
    } else {
      assert Unique(s)[p] in Elements(Unique(front));
      i :| 0 <= i < |front| && front[i] == Unique(s)[p];
      j := |front|;
    }
  }

  /** Attempts are listed in the order they were first observed. */
  lemma {:induction false} ListedInOrder(requests: seq<Attempt>, doubt: Doubt, p: nat, q: nat) returns (i: nat, j: nat)
    requires p < q < |Snapshot(requests, doubt).requests|
    ensures var listed := Snapshot(requests, doubt).requests;
            && i < j < |requests| && requests[i].id == listed[p].id && requests[j].id == listed[q].id
            && forall k | 0 <= k < j :: requests[k].id != listed[q].id
  {
    AttemptsFacts(requests);
    var order := Ids(Attempts(requests));
    i, j := UniqueKeepsOrder(Ids(requests), p, q);
    assert order[p] == Attempts(requests)[p].id && order[q] == Attempts(requests)[q].id;
    forall k | 0 <= k < j ensures requests[k].id != order[q] {
      assert Ids(requests)[..j][k] == requests[k].id;
    }
  }

  lemma {:induction false} KnownFromLastWords(requests: seq<Attempt>, f: Field)
    ensures Known(Attempts(requests), f) <==>
              exists i | 0 <= i < |requests| :: LastWord(requests, i) && f in requests[i].tokens
  {
    var values := Attempts(requests);
    if i :| 0 <= i < |requests| && LastWord(requests, i) && f in requests[i].tokens {
      LastWordsAreListed(requests, NoDoubt, requests[i]);
      assert requests[i] in values;
      var k :| 0 <= k < |values| && values[k] == requests[i];
    }
    if k :| 0 <= k < |values| && f in values[k].tokens {
      LastWordsAreListed(requests, NoDoubt, values[k]);
    }
  }

  /**
   A total is absent exactly when no attempt's last word gave that counter, except that a history with no
   request in it and nothing in doubt reports zeros.
   */
  lemma {:induction false} AbsentExactlyWhenUnreported(requests: seq<Attempt>, doubt: Doubt, f: Field)
    ensures f in Snapshot(requests, doubt).totals <==>
              || (requests == [] && doubt.NoDoubt?)
              || exists i | 0 <= i < |requests| :: LastWord(requests, i) && f in requests[i].tokens
  {
    EveryFieldIsListed(f);
    AttemptsCounted(requests);
    KnownFromLastWords(requests, f);
  }

  // ---- Coverage ----

  lemma {:induction false} HeadIsNew(values: seq<Attempt>)
    requires Distinct(Ids(values)) && values != []
    ensures values[0] !in values[1..]
  {
    forall k | 0 <= k < |values[1..]| ensures values[1..][k] != values[0] {
      assert Ids(values)[k + 1] != Ids(values)[0];
    }
  }

  lemma {:induction false} CountReportedDistinct(values: seq<Attempt>)
    requires Distinct(Ids(values))
    ensures CountReported(values) == |set a | a in values && Reported(a)|
  {
    if values != [] {
      var rest := values[1..];
      assert values == [values[0]] + rest;
      assert Ids(rest) == Ids(values)[1..];
      CountReportedDistinct(rest);
      HeadIsNew(values);
      var before := set a | a in rest && Reported(a);
      assert (set a | a in values && Reported(a)) == if Reported(values[0]) then before + {values[0]} else before;
    }
  }

  lemma {:induction false} SomeReported(values: seq<Attempt>)
    ensures 0 < CountReported(values) <==> exists a :: a in values && Reported(a)
  {
    if values != [] {
      assert values == [values[0]] + values[1..];
      SomeReported(values[1..]);
    }
  }

  /** The count of reported requests is of the listed attempts with all three main counters. */
  lemma {:induction false} ReportedAreCounted(requests: seq<Attempt>, doubt: Doubt)
    ensures var u := Snapshot(requests, doubt);
            u.reportedRequests == |set a | a in u.requests && Reported(a)|
  {
    AttemptsFacts(requests);
    CountReportedDistinct(Attempts(requests));
  }

  /** The last word on some attempt gave all three main counters. */
  ghost predicate AnyReported(requests: seq<Attempt>) {
    exists i | 0 <= i < |requests| :: LastWord(requests, i) && Reported(requests[i])
  }

  lemma {:induction false} AnyReportedIsListed(requests: seq<Attempt>)
    ensures AnyReported(requests) <==> exists a :: a in Attempts(requests) && Reported(a)
  {
    if a :| a in Attempts(requests) && Reported(a) {
      LastWordsAreListed(requests, NoDoubt, a);
    }
    if i :| 0 <= i < |requests| && LastWord(requests, i) && Reported(requests[i]) {
      LastWordsAreListed(requests, NoDoubt, requests[i]);
    }
  }

  /** The coverage a snapshot claims, in the remaining cases. */
  lemma {:induction false} CoverageIsWhatWasReported(requests: seq<Attempt>, doubt: Doubt)
    ensures var coverage := Snapshot(requests, doubt).coverage;
            && (coverage.Interrupted? <==> doubt.Lost?)
            && (coverage.NotUsed? <==> doubt.NoDoubt? && requests == [])
            && (coverage.Partial? <==> !doubt.Lost? && AnyReported(requests) && !coverage.Complete?)
            && (coverage.Unavailable? <==> !doubt.Lost? && !AnyReported(requests) && !coverage.NotUsed?)
  {
    AttemptsCounted(requests);
    SomeReported(Attempts(requests));
    AnyReportedIsListed(requests);
  }

  // ---- What a merge remembers ----

  /** The history of these metrics is known to be whole: none was ever stored, or what is stored says so. */
  predicate Whole(m: Metrics) {
    if m.usage.Some? then m.usage.value.historyComplete else !m.filled
  }

  predicate CutOff(m: Metrics) {
    m.usage.Some? && !m.usage.value.historyComplete && m.usage.value.coverage.Interrupted?
  }

  /** A merged history is whole when both sides are, and interrupted when one of them was cut off. */
  lemma {:induction false} MergedHistory(base: Metrics, extra: Metrics)
    ensures MergeUsage(base, extra).historyComplete <==> Whole(base) && Whole(extra)
    ensures MergeUsage(base, extra).coverage.Interrupted? <==> CutOff(base) || CutOff(extra)
  {
    WeighIsJoin(DoubtOf(base), extra);
  }

  /** Interrupting keeps every attempt and every total, and claims no whole history. */
  lemma {:induction false} InterruptingKeepsNumbers(m: Metrics, f: Field)
    requires Recorded(m) && m.usage.Some?
    ensures var u := Interrupt(m).usage.value;
            && u.coverage.Interrupted? && !u.historyComplete
            && u.requests == m.usage.value.requests
            && Reading(u.totals, f) == Reading(m.usage.value.totals, f)
  {
    RecordedTotal(m, Lost, f);
    var requests, own :| m.usage.value == Snapshot(requests, own);
    AttemptsTwice(requests);
  }
}
