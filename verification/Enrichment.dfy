/**
 The leased enrichment queue: one optional work item per answered run, claimed by workers that may
 crash, stall past their lease, or report late.
 */
module Enrichment {
  import opened Prelude
  import opened Usage

  datatype Status = Pending | Running | Done | Skipped | Failed

  predicate Terminal(s: Status) {
    s.Done? || s.Skipped? || s.Failed?
  }

  /** The stored row. */
  datatype Item = Item(
    status: Status,
    attempts: nat,
    availableAt: int,
    claimedAt: Option<int>,
    finishedAt: Option<int>,
    errorCode: Option<string>,
    metrics: Metrics)

  /** `enqueue_related_questions` */
  function Enqueued(now: int): Item {
    Item(Pending, 0, now, None, None, None, NoMetrics)
  }

  // ---- Steps on the row ----

  predicate Claimable(item: Item, now: int, ttl: nat) {
    || (item.status.Pending? && item.availableAt <= now)
    || (item.status.Running? && (item.claimedAt.None? || item.claimedAt.value <= now - ttl))
  }

  /** `claim_agent_enrichment_work` on a claimable row. */
  function Claimed(item: Item, now: int, limit: nat): Item {
    var leased := if item.status.Running? then item.(metrics := Interrupt(item.metrics)) else item;
    if limit <= item.attempts then
      leased.(status := Failed, finishedAt := Some(now), claimedAt := None,
              errorCode := if item.errorCode.Some? && item.errorCode.value != ""
                           then item.errorCode
                           else Some("attempt_limit"))
    else
      leased.(status := Running, attempts := item.attempts + 1, claimedAt := Some(now), errorCode := None)
  }

  /** `_complete` */
  function Completed(item: Item, status: Status, now: int, metrics: Metrics, errorCode: Option<string>): Item {
    item.(status := status, claimedAt := None, finishedAt := Some(now), errorCode := errorCode,
          metrics := Merge(item.metrics, metrics))
  }

  /** `_record_failure`; `final` is an error that retrying cannot help. */
  function FailureRecorded(item: Item, now: int, limit: nat, retry: nat, final: bool, metrics: Metrics,
                           code: string): Item {
    WithFailure(item, now, limit, retry, final, code).(metrics := Merge(item.metrics, metrics))
  }

  function WithFailure(item: Item, now: int, limit: nat, retry: nat, final: bool, code: string): Item {
    var terminal := limit <= item.attempts || final;
    item.(status := if terminal then Failed else Pending,
          claimedAt := None,
          availableAt := now + retry,
          finishedAt := if terminal then Some(now) else None,
          errorCode := Some(code))
  }

  class EnrichmentRow {
    var status: Status
    var attempts: nat
    var availableAt: int
    var claimedAt: Option<int>
    var finishedAt: Option<int>
    var errorCode: Option<string>
    var metrics: Metrics

    constructor (now: int)
      ensures Row() == Enqueued(now)
    {
      status, attempts, availableAt := Pending, 0, now;
      claimedAt, finishedAt, errorCode, metrics := None, None, None, NoMetrics;
    }

    function Row(): Item
      reads this
    {
      Item(status, attempts, availableAt, claimedAt, finishedAt, errorCode, metrics)
    }

    /** The provider attempts on record. */
    ghost function Evidence(): set<string>
      reads this`metrics
    {
      Elements(Ids(Requests(metrics)))
    }

    /** The answer says whether there was work, and if so whether it is to be executed. */
    method Claim(now: int, ttl: nat, limit: nat) returns (work: Option<bool>)
      modifies this
      ensures work.Some? <==> Claimable(old(Row()), now, ttl)
      ensures Row() == if work.Some? then Claimed(old(Row()), now, limit) else old(Row())
      ensures work == Some(true) <==> Claimable(old(Row()), now, ttl) && old(attempts) < limit
    {
      if !Claimable(Row(), now, ttl) { return None; }
      if status.Running? { metrics := Interrupt(metrics); }
      if attempts >= limit {
        status, finishedAt, claimedAt := Failed, Some(now), None;
        if errorCode.None? || errorCode.value == "" { errorCode := Some("attempt_limit"); }
        return Some(false);
      }
      status, attempts, claimedAt, errorCode := Running, attempts + 1, Some(now), None;
      return Some(true);
    }

    method AddEvidence(observed: Metrics)
      modifies this`metrics
      ensures metrics == Merge(old(metrics), observed)
      ensures Evidence() == old(Evidence()) + Elements(Ids(Requests(observed)))
    {
      MergeLosesNothing(metrics, observed);
      metrics := Merge(metrics, observed);
    }

    method Complete(outcome: Status, now: int, observed: Metrics, code: Option<string>)
      modifies this
      ensures Row() == Completed(old(Row()), outcome, now, observed, code)
      ensures status == outcome && claimedAt.None? && finishedAt == Some(now) && attempts == old(attempts)
      ensures Evidence() == old(Evidence()) + Elements(Ids(Requests(observed)))
    {
      status, claimedAt, finishedAt, errorCode := outcome, None, Some(now), code;
      AddEvidence(observed);
    }

    method RecordFailure(now: int, limit: nat, retry: nat, final: bool, observed: Metrics, code: string)
      modifies this
      ensures Row() == FailureRecorded(old(Row()), now, limit, retry, final, observed, code)
      ensures if old(attempts) < limit && !final
              then status == Pending && finishedAt.None? && availableAt == now + retry
              else status == Failed && finishedAt == Some(now)
      ensures claimedAt.None? && errorCode == Some(code) && attempts == old(attempts)
      ensures Evidence() == old(Evidence()) + Elements(Ids(Requests(observed)))
    {
      if attempts >= limit || final {
        status, finishedAt := Failed, Some(now);
      } else {
        status, finishedAt := Pending, None;
      }
      claimedAt, availableAt, errorCode := None, now + retry, Some(code);
      assert Row() == WithFailure(old(Row()), now, limit, retry, final, code);
      AddEvidence(observed);
    }
  }

  // ---- The answer's widgets ----

  /** A stored widget: its id and whether its type is the related-questions type. */
  datatype Widget = Widget(id: string, related: bool)

  /** The answer message: the widget id reserved for suggestions, and its widgets. */
  datatype Message = Message(suggestionId: string, widgets: seq<Widget>)

  predicate IsSuggestion(m: Message, w: Widget) {
    w.related || w.id == m.suggestionId
  }

  /** `_stored_related_widget(message) is not None` */
  predicate HasSuggestion(m: Message) {
    exists i | 0 <= i < |m.widgets| :: IsSuggestion(m, m.widgets[i])
  }

  function SuggestionCount(m: Message): nat {
    |set i | 0 <= i < |m.widgets| && IsSuggestion(m, m.widgets[i])|
  }

  function WithSuggestion(m: Message): Message {
    m.(widgets := m.widgets + [Widget(m.suggestionId, true)])
  }

  // ---- The protocol ----

  /** A worker that was handed the item: before its first session block, or between the two. */
  datatype Phase = Started | Suggesting

  /**
   Everything that matters: the row, the message unless it was deleted, and the workers still at it.
   `limit` is the attempt limit, `retry` the retry delay, `ttl` the lease length.
   */
  datatype System = System(
    item: Item, message: Option<Message>, workers: map<nat, Phase>, limit: nat, ttl: nat, retry: nat)

  ghost predicate Claims(s: System, next: System, worker: nat, now: int) {
    && Claimable(s.item, now, s.ttl) && worker !in s.workers
    && next == s.(item := Claimed(s.item, now, s.limit),
                  workers := if s.item.attempts < s.limit then s.workers[worker := Started] else s.workers)
  }

  /** The first session block of `process_agent_enrichment`. */
  ghost predicate Begins(s: System, next: System, worker: nat, now: int, selected: bool, found: bool,
                         metrics: Metrics) {
    && worker in s.workers && s.workers[worker].Started?
    && if !s.item.status.Running? then next == s.(workers := s.workers - {worker})
       else if !selected then
         next == s.(item := Completed(s.item, Skipped, now, metrics, Some("rollout_control")),
                    workers := s.workers - {worker})
       else if !found || s.message.None? then
         next == s.(item := Completed(s.item, Skipped, now, metrics, Some("source_missing")),
                    workers := s.workers - {worker})
       else if HasSuggestion(s.message.value) then
         next == s.(item := Completed(s.item, Done, now, metrics, None), workers := s.workers - {worker})
       else next == s.(workers := s.workers[worker := Suggesting])
  }

  /** The second session block; `questions` says whether the provider suggested any. */
  ghost predicate Concludes(s: System, next: System, worker: nat, now: int, questions: bool, metrics: Metrics) {
    && worker in s.workers && s.workers[worker].Suggesting?
    && if !s.item.status.Running? then next == s.(workers := s.workers - {worker})
       else
         var message :=
           if s.message.Some? && !HasSuggestion(s.message.value) && questions
           then Some(WithSuggestion(s.message.value)) else s.message;
         var outcome := if message.Some? && HasSuggestion(message.value) then Done else Skipped;
         next == s.(item := Completed(s.item, outcome, now, metrics, None), message := message,
                    workers := s.workers - {worker})
  }

  /** A worker in either phase raises; the failure is recorded whatever state the row is in by now. */
  ghost predicate Raises(s: System, next: System, worker: nat, now: int, final: bool, metrics: Metrics, code: string) {
    && worker in s.workers
    && next == s.(item := FailureRecorded(s.item, now, s.limit, s.retry, final, metrics, code),
                  workers := s.workers - {worker})
  }

  /** A worker disappears, or its failure report does. */
  ghost predicate Vanishes(s: System, next: System, worker: nat) {
    worker in s.workers && next == s.(workers := s.workers - {worker})
  }

  ghost predicate Step(s: System, next: System) {
    || (exists w, now :: Claims(s, next, w, now))
    || (exists w, now, selected, found, m :: Begins(s, next, w, now, selected, found, m))
    || (exists w, now, questions, m :: Concludes(s, next, w, now, questions, m))
    || (exists w, now, final, m, code :: Raises(s, next, w, now, final, m, code))
    || (exists w :: Vanishes(s, next, w))
  }

  ghost predicate Initial(s: System) {
    && (exists now :: s.item == Enqueued(now))
    && s.message.Some? && !HasSuggestion(s.message.value) && s.workers == map[] && 1 <= s.limit
  }

  ghost predicate Behaviour(states: seq<System>) {
    states != [] && Initial(states[0]) && forall i | 0 <= i < |states| - 1 :: Step(states[i], states[i + 1])
  }

  // ---- The invariant ----

  ghost predicate Sound(s: System) {
    && 1 <= s.limit
    && s.item.attempts <= s.limit
    && (s.item.claimedAt.Some? <==> s.item.status.Running?)
    && (s.item.finishedAt.Some? <==> Terminal(s.item.status))
    && (s.item.status.Pending? ==> s.item.attempts < s.limit)
    && s.message.Some?
    && SuggestionCount(s.message.value) <= 1
    && (s.item.status.Done? ==> HasSuggestion(s.message.value))
  }

  lemma {:induction false} CountNone(m: Message)
    requires !HasSuggestion(m)
    ensures SuggestionCount(m) == 0
  {
    assert (set i | 0 <= i < |m.widgets| && IsSuggestion(m, m.widgets[i])) == {};
  }

  lemma {:induction false} CountOne(m: Message)
    requires !HasSuggestion(m)
    ensures HasSuggestion(WithSuggestion(m)) && SuggestionCount(WithSuggestion(m)) == 1
  {
    var more := WithSuggestion(m);
    var n := |m.widgets|;
    assert more.widgets[n] == Widget(m.suggestionId, true) && IsSuggestion(more, more.widgets[n]);
    assert forall i | 0 <= i < n :: more.widgets[i] == m.widgets[i] && !IsSuggestion(m, m.widgets[i]);
    assert (set i | 0 <= i < |more.widgets| && IsSuggestion(more, more.widgets[i])) == {n};
  }

  ghost predicate KeepsSound(s: System, next: System)
    requires Sound(s)
  {
    && Sound(next) && next.limit == s.limit
    && (HasSuggestion(s.message.value) ==> HasSuggestion(next.message.value))
    && s.message.value.widgets <= next.message.value.widgets
  }

  lemma {:induction false} ClaimKeepsSound(s: System, next: System, worker: nat, now: int)
    requires Sound(s) && Claims(s, next, worker, now)
    ensures KeepsSound(s, next)
  {
  }

  lemma {:induction false} BeginKeepsSound(s: System, next: System, worker: nat, now: int, selected: bool, found: bool,
                                           metrics: Metrics)
    requires Sound(s) && Begins(s, next, worker, now, selected, found, metrics)
    ensures KeepsSound(s, next)
  {
  }

  lemma {:induction false} ConclusionKeepsSound(s: System, next: System, worker: nat, now: int, questions: bool,
                                                metrics: Metrics)
    requires Sound(s) && Concludes(s, next, worker, now, questions, metrics)
    ensures KeepsSound(s, next)
  {
    if !HasSuggestion(s.message.value) {
      CountOne(s.message.value);
    }
  }

  lemma {:induction false} StepKeepsSound(s: System, next: System)
    requires Sound(s) && Step(s, next)
    ensures KeepsSound(s, next)
  {
    if w, now :| Claims(s, next, w, now) {
      ClaimKeepsSound(s, next, w, now);
    } else if w, now, selected, found, m :| Begins(s, next, w, now, selected, found, m) {
      BeginKeepsSound(s, next, w, now, selected, found, m);
    } else if w, now, questions, m :| Concludes(s, next, w, now, questions, m) {
      ConclusionKeepsSound(s, next, w, now, questions, m);
    }
  }

  /**
   In every reachable state a row is leased exactly while running and stamped finished exactly while
   terminal, a pending row has attempts left, the answer carries at most one suggestion widget, a completed
   item's answer carries one, and widgets once stored stay, in place.
   */
  lemma {:induction false} EveryStateIsSound(states: seq<System>, i: nat, j: nat)
    requires Behaviour(states) && i <= j < |states|
    ensures Sound(states[i]) && Sound(states[j])
    ensures states[i].message.value.widgets <= states[j].message.value.widgets
    decreases j
  {
    if j == 0 {
      CountNone(states[0].message.value);
    } else {
      EveryStateIsSound(states, if i < j then i else j - 1, j - 1);
      assert Step(states[j - 1], states[j - 1 + 1]);
      StepKeepsSound(states[j - 1], states[j]);
    }
  }

  // ---- Termination, with late workers ----

  function Weight(p: Phase): nat {
    match p case Started => 3 case Suggesting => 2
  }

  ghost function WorkerWeight(workers: map<nat, Phase>): nat
    decreases |workers|
  {
    if workers == map[] then 0 else
    var w :| w in workers;
    Weight(workers[w]) + WorkerWeight(workers - {w})
  }

  lemma {:induction false} WeightWithout(workers: map<nat, Phase>, w: nat)
    requires w in workers
    ensures WorkerWeight(workers) == Weight(workers[w]) + WorkerWeight(workers - {w})
    decreases |workers|
  {
    var v :| v in workers && WorkerWeight(workers) == Weight(workers[v]) + WorkerWeight(workers - {v});
    if v != w {
      WeightWithout(workers - {v}, w);
      WeightWithout(workers - {w}, v);
      assert workers - {v} - {w} == workers - {w} - {v};
    }
  }

  lemma {:induction false} WeightWith(workers: map<nat, Phase>, w: nat, p: Phase)
    ensures WorkerWeight(workers[w := p]) == Weight(p) + WorkerWeight(workers - {w})
  {
    WeightWithout(workers[w := p], w);
    assert workers[w := p] - {w} == workers - {w};
  }

  /** What is left to happen: attempts to spend, workers to return, and the row to settle. */
  ghost function Remaining(s: System): int {
    4 * (s.limit - s.item.attempts) + WorkerWeight(s.workers) + if Terminal(s.item.status) then 0 else 1
  }

  lemma {:induction false} ClaimDecreases(s: System, next: System, worker: nat, now: int)
    requires Sound(s) && Claims(s, next, worker, now)
    ensures Remaining(next) < Remaining(s)
  {
    WeightWith(s.workers, worker, Started);
    assert s.workers - {worker} == s.workers;
  }

  lemma {:induction false} BeginDecreases(s: System, next: System, worker: nat, now: int, selected: bool, found: bool,
                                          metrics: Metrics)
    requires Sound(s) && Begins(s, next, worker, now, selected, found, metrics)
    ensures Remaining(next) < Remaining(s)
  {
    WeightWithout(s.workers, worker);
    WeightWith(s.workers, worker, Suggesting);
  }

  lemma {:induction false} ConclusionDecreases(s: System, next: System, worker: nat, now: int, questions: bool,
                                               metrics: Metrics)
    requires Sound(s) && Concludes(s, next, worker, now, questions, metrics)
    ensures Remaining(next) < Remaining(s)
  {
    WeightWithout(s.workers, worker);
  }

  /** Every step spends an attempt, brings a worker closer to the end, or settles the row. */
  lemma {:induction false} StepDecreases(s: System, next: System)
    requires Sound(s) && Step(s, next)
    ensures Sound(next) && 0 <= Remaining(next) < Remaining(s)
  {
    StepKeepsSound(s, next);
    if w, now :| Claims(s, next, w, now) {
      ClaimDecreases(s, next, w, now);
    } else if w, now, selected, found, m :| Begins(s, next, w, now, selected, found, m) {
      BeginDecreases(s, next, w, now, selected, found, m);
    } else if w, now, questions, m :| Concludes(s, next, w, now, questions, m) {
      ConclusionDecreases(s, next, w, now, questions, m);
    } else if w, now, final, m, code :| Raises(s, next, w, now, final, m, code) {
      WeightWithout(s.workers, w);
    } else {
      var w :| Vanishes(s, next, w);
      WeightWithout(s.workers, w);
    }
  }

  /**
   Every run is finite, in every interleaving and even though a late failure may reopen a finished item:
   no behaviour has more than `4 * limit + 1` steps.
   */
  lemma {:induction false} BehavioursAreBounded(states: seq<System>, i: nat)
    requires Behaviour(states) && i < |states|
    ensures Sound(states[i])
    ensures i + Remaining(states[i]) <= 4 * states[0].limit + 1
    ensures i <= 4 * states[0].limit + 1
  {
    EveryStateIsSound(states, i, i);
    if i > 0 {
      BehavioursAreBounded(states, i - 1);
      assert Step(states[i - 1], states[i - 1 + 1]);
      StepDecreases(states[i - 1], states[i]);
    }
  }

  /** How many of the first `i` steps handed the item to a worker. */
  ghost function Executions(states: seq<System>, i: nat): nat
    requires i < |states|
  {
    if i == 0 then 0 else
    Executions(states, i - 1) + if states[i - 1].workers.Keys < states[i].workers.Keys then 1 else 0
  }

  /** One item is executed at most `limit` times: each execution is one attempt, and no other step is. */
  lemma {:induction false} ExecutionsAreAttempts(states: seq<System>, i: nat)
    requires Behaviour(states) && i < |states|
    ensures Executions(states, i) == states[i].item.attempts <= states[i].limit == states[0].limit
  {
    EveryStateIsSound(states, i, i);
    if i > 0 {
      ExecutionsAreAttempts(states, i - 1);
      EveryStateIsSound(states, i - 1, i - 1);
      assert Step(states[i - 1], states[i - 1 + 1]);
      HandoverIsAttempt(states[i - 1], states[i]);
    }
  }

  lemma {:induction false} HandoverIsAttempt(s: System, next: System)
    requires Step(s, next)
    ensures next.item.attempts == s.item.attempts + (if s.workers.Keys < next.workers.Keys then 1 else 0)
    ensures next.limit == s.limit
  {
    if w, now :| Claims(s, next, w, now) {
      if s.item.attempts < s.limit { assert w in next.workers.Keys && w !in s.workers.Keys; }
    }
  }

  // ---- Late workers and the evidence they leave ----

  /** A finished item is not safe from a worker that was outrun: its failure reopens the row. */
  lemma {:induction false} LateFailureReopens(s: System, worker: nat, now: int, metrics: Metrics, code: string)
    returns (next: System)
    requires Sound(s) && Terminal(s.item.status) && worker in s.workers
    ensures Raises(s, next, worker, now, false, metrics, code) && Step(s, next)
    ensures next.item.status == if s.item.attempts < s.limit then Pending else Failed
  {
    next := s.(item := FailureRecorded(s.item, now, s.limit, s.retry, false, metrics, code),
               workers := s.workers - {worker});
    assert Raises(s, next, worker, now, false, metrics, code);
  }

  ghost predicate Continues(run: seq<System>, s: System) {
    run != [] && run[0] == s && forall i | 0 <= i < |run| - 1 :: Step(run[i], run[i + 1])
  }

  /** Whatever happens next, and after that, the row keeps its status. */
  ghost predicate StaysSettled(s: System) {
    forall run: seq<System> | Continues(run, s) :: run[|run| - 1].item.status == s.item.status
  }

  /** Nobody is left who could report on the item, or the item has failed for good. */
  predicate OutOfReach(s: System) {
    s.workers == map[] || (s.item.status.Failed? && s.item.attempts == s.limit)
  }

  lemma {:induction false} StepOutOfReach(s: System, next: System)
    requires Terminal(s.item.status) && OutOfReach(s) && Step(s, next)
    ensures next.item.status == s.item.status && OutOfReach(next)
  {
  }

  lemma {:induction false} OutOfReachStays(run: seq<System>, s: System, i: nat)
    requires Continues(run, s) && Terminal(s.item.status) && OutOfReach(s) && i < |run|
    ensures run[i].item.status == s.item.status && OutOfReach(run[i])
  {
    if i > 0 {
      OutOfReachStays(run, s, i - 1);
      assert Step(run[i - 1], run[i - 1 + 1]);
      StepOutOfReach(run[i - 1], run[i]);
    }
  }

  /**
   When a settled item stays settled. A completed or skipped item keeps its status in every continuation if
   and only if no worker is outstanding; a failed one also when its attempts are used up.
   */
  lemma {:induction false} SettledExactlyWhenOutOfReach(s: System)
    requires Sound(s) && Terminal(s.item.status)
    ensures StaysSettled(s) <==> OutOfReach(s)
  {
    if OutOfReach(s) {
      forall run: seq<System> | Continues(run, s) ensures run[|run| - 1].item.status == s.item.status {
        OutOfReachStays(run, s, |run| - 1);
      }
    } else {
      var worker :| worker in s.workers;
      var next := LateFailureReopens(s, worker, 0, NoMetrics, "late");
      var run := [s, next];
      assert Continues(run, s) && run[|run| - 1] == next;
    }
  }

  /** A worker stalls past its lease and another takes over. */
  lemma {:induction false} LeaseTakenOver(ttl: nat, retry: nat) returns (s: System, stalled: System, taken: System)
    ensures Initial(s) && Step(s, stalled) && Step(stalled, taken)
    ensures taken.item.status.Running? && taken.item.attempts == 2 && taken.limit == 3
    ensures taken.message == Some(Message("suggestions", [])) && taken.workers == map[1 := Started, 2 := Started]
  {
    s := System(Enqueued(0), Some(Message("suggestions", [])), map[], 3, ttl, retry);
    stalled := s.(item := Claimed(s.item, 0, 3), workers := s.workers[1 := Started]);
    taken := stalled.(item := Claimed(stalled.item, ttl, 3), workers := stalled.workers[2 := Started]);
    assert Claims(s, stalled, 1, 0);
    assert Claims(stalled, taken, 2, ttl);
  }

  /** The new worker completes the item. */
  lemma {:induction false} SuccessorCompletes(taken: System, now: int) returns (begun: System, done: System)
    requires taken.item.status.Running? && taken.message == Some(Message("suggestions", []))
    requires taken.workers == map[1 := Started, 2 := Started]
    ensures Step(taken, begun) && Step(begun, done)
    ensures done.item.status.Done? && done.item.attempts == taken.item.attempts && done.limit == taken.limit
    ensures 1 in done.workers
  {
    CountOne(taken.message.value);
    begun := taken.(workers := taken.workers[2 := Suggesting]);
    done := begun.(item := Completed(begun.item, Done, now, NoMetrics, None),
                   message := Some(WithSuggestion(begun.message.value)), workers := begun.workers - {2});
    assert Begins(taken, begun, 2, now, true, true, NoMetrics);
    assert Concludes(begun, done, 2, now, true, NoMetrics);
  }

  lemma {:induction false} CompletedBesideAnother(ttl: nat, retry: nat) returns (states: seq<System>)
    ensures |states| == 5 && Behaviour(states)
    ensures var s := states[4];
            s.item.status.Done? && s.item.attempts < s.limit && 1 in s.workers
  {
    var s, stalled, taken := LeaseTakenOver(ttl, retry);
    var begun, done := SuccessorCompletes(taken, ttl);
    states := Extended([s], stalled);
    states := Extended(states, taken);
    states := Extended(states, begun);
    states := Extended(states, done);
  }

  /**
   It happens: a worker stalls past its lease, another takes over and completes the item, and the failure
   of the first makes the completed item pending again.
   */
  lemma {:induction false} CompletedItemIsReopened(ttl: nat, retry: nat) returns (states: seq<System>)
    ensures |states| == 6 && Behaviour(states)
    ensures states[4].item.status.Done? && states[5].item.status.Pending?
  {
    var before := CompletedBesideAnother(ttl, retry);
    EveryStateIsSound(before, 4, 4);
    var reopened := LateFailureReopens(before[4], 1, ttl, NoMetrics, "late");
    states := Extended(before, reopened);
  }

  lemma {:induction false} Extended(states: seq<System>, next: System) returns (longer: seq<System>)
    requires Behaviour(states) && Step(states[|states| - 1], next)
    ensures Behaviour(longer) && longer == states + [next]
  {
    longer := states + [next];
    forall i | 0 <= i < |longer| - 1 ensures Step(longer[i], longer[i + 1]) {
      if i < |states| - 1 {
        assert longer[i] == states[i] && longer[i + 1] == states[i + 1];
      }
    }
  }

  /** The evidence of a lost process is on record. */
  ghost predicate RemembersLoss(m: Metrics) {
    DoubtOf(m).Lost? && m.usage.Some? && m.usage.value.coverage.Interrupted?
  }

  /** Once a lease has been taken over, the row never again claims complete usage evidence. */
  lemma {:induction false} LostLeaseIsRemembered(states: seq<System>, i: nat, j: nat, worker: nat, now: int)
    requires Behaviour(states) && i < j < |states|
    requires Claims(states[i], states[i + 1], worker, now) && states[i].item.status.Running?
    ensures RemembersLoss(states[j].item.metrics)
    decreases j
  {
    if j == i + 1 {
      InterruptRemembersLoss(states[i].item.metrics);
    } else {
      LostLeaseIsRemembered(states, i, j - 1, worker, now);
      assert Step(states[j - 1], states[j - 1 + 1]);
      StepKeepsLoss(states[j - 1], states[j]);
    }
  }

  lemma {:induction false} InterruptRemembersLoss(m: Metrics)
    ensures RemembersLoss(Interrupt(m))
  {
    SnapshotKeepsDoubt(Requests(m), Lost, true);
  }

  lemma {:induction false} MergeKeepsLoss(m: Metrics, extra: Metrics)
    requires RemembersLoss(m)
    ensures RemembersLoss(Merge(m, extra))
  {
    WeighIsJoin(Lost, extra);
    SnapshotKeepsDoubt(Requests(m) + Requests(extra), Lost, true);
  }

  lemma {:induction false} StepKeepsLoss(s: System, next: System)
    requires Step(s, next) && RemembersLoss(s.item.metrics)
    ensures RemembersLoss(next.item.metrics)
  {
    var metrics := s.item.metrics;
    if w, now :| Claims(s, next, w, now) {
      InterruptRemembersLoss(metrics);
      assert next.item.metrics == metrics || next.item.metrics == Interrupt(metrics);
    } else if w, now, selected, found, m :| Begins(s, next, w, now, selected, found, m) {
      MergeKeepsLoss(metrics, m);
      assert next.item.metrics == metrics || next.item.metrics == Merge(metrics, m);
    } else if w, now, questions, m :| Concludes(s, next, w, now, questions, m) {
      MergeKeepsLoss(metrics, m);
      assert next.item.metrics == metrics || next.item.metrics == Merge(metrics, m);
    } else if w, now, final, m, code :| Raises(s, next, w, now, final, m, code) {
      MergeKeepsLoss(metrics, m);
    }
  }

  // ---- Leases on a clock ----

  ghost predicate ClaimedAt(s: System, next: System, now: int) {
    exists w :: Claims(s, next, w, now)
  }

  /** What may happen at time `now`. */
  ghost predicate StepAt(s: System, next: System, now: int) {
    || ClaimedAt(s, next, now)
    || (exists w, selected, found, m :: Begins(s, next, w, now, selected, found, m))
    || (exists w, questions, m :: Concludes(s, next, w, now, questions, m))
    || (exists w, final, m, code :: Raises(s, next, w, now, final, m, code))
    || (exists w :: Vanishes(s, next, w))
  }

  /** A behaviour in which step `i` happens at `times[i]`, on a clock that only moves on. */
  ghost predicate Timed(states: seq<System>, times: seq<int>) {
    && Behaviour(states) && |times| == |states| - 1
    && (forall i | 0 <= i < |times| :: StepAt(states[i], states[i + 1], times[i]))
    && forall i, j | 0 <= i < j < |times| :: times[i] <= times[j]
  }

  /** Step `i` claims the item; the claim hands it out when it is running afterwards. */
  ghost predicate ClaimAt(states: seq<System>, times: seq<int>, i: nat)
    requires |times| == |states| - 1
  {
    i < |times| && ClaimedAt(states[i], states[i + 1], times[i])
  }

  /** Nobody reports on the item and nobody claims it from state `i` to state `j`. */
  predicate Untouched(states: seq<System>, i: nat, j: nat)
    requires i <= j < |states|
  {
    forall k | i <= k <= j :: states[k].item == states[i].item
  }

  /**
   A lease is exclusive. When the item was handed out at one time and is claimed again with no report in
   between, the lease has run out in between.
   */
  lemma {:induction false} LeaseIsExclusive(states: seq<System>, times: seq<int>, i: nat, j: nat)
    requires Timed(states, times) && i < j && ClaimAt(states, times, i) && ClaimAt(states, times, j)
    requires states[i + 1].item.status.Running? && Untouched(states, i + 1, j)
    ensures times[i] + states[0].ttl <= times[j]
  {
    var w :| Claims(states[i], states[i + 1], w, times[i]);
    var v :| Claims(states[j], states[j + 1], v, times[j]);
    LimitsStay(states, j);
    assert states[j].item == states[i + 1].item;
  }

  /** A failure that is to be retried is not retried before its delay is over. */
  lemma {:induction false} RetryWaits(states: seq<System>, times: seq<int>, i: nat, j: nat, worker: nat, final: bool,
                                      metrics: Metrics, code: string)
    requires Timed(states, times) && i < j && j < |times| && ClaimAt(states, times, j)
    requires Raises(states[i], states[i + 1], worker, times[i], final, metrics, code)
    requires Untouched(states, i + 1, j)
    ensures times[i] + states[0].retry <= times[j]
  {
    var v :| Claims(states[j], states[j + 1], v, times[j]);
    LimitsStay(states, i);
    assert states[j].item == states[i + 1].item;
  }

  lemma {:induction false} LimitsStay(states: seq<System>, i: nat)
    requires Behaviour(states) && i < |states|
    ensures states[i].ttl == states[0].ttl && states[i].retry == states[0].retry
  {
    if i > 0 {
      LimitsStay(states, i - 1);
      assert Step(states[i - 1], states[i - 1 + 1]);
    }
  }

  /**
   Work can be claimed exactly when it is due: a pending row from its time on, a running row once its lease
   has lapsed, and no other row ever.
   */
  lemma {:induction false} ClaimableExactlyWhenDue(s: System, worker: nat, now: int)
    requires Sound(s) && worker !in s.workers
    ensures (exists next :: Claims(s, next, worker, now)) <==>
              || (s.item.status.Pending? && s.item.availableAt <= now)
              || (s.item.status.Running? && s.item.claimedAt.value + s.ttl <= now)
  {
    var next := s.(item := Claimed(s.item, now, s.limit),
                   workers := if s.item.attempts < s.limit then s.workers[worker := Started] else s.workers);
    assert Claimable(s.item, now, s.ttl) ==> Claims(s, next, worker, now);
  }

  /** No message ever carries two suggestions: neither two of the type nor two under the reserved id. */
  lemma {:induction false} SuggestionsAreUnique(states: seq<System>, i: nat, a: nat, b: nat)
    requires Behaviour(states) && i < |states| && states[i].message.Some?
    requires a < b < |states[i].message.value.widgets|
    ensures var m := states[i].message.value;
            !((m.widgets[a].related || m.widgets[a].id == m.suggestionId) &&
              (m.widgets[b].related || m.widgets[b].id == m.suggestionId))
  {
    EveryStateIsSound(states, i, i);
    var m := states[i].message.value;
    if IsSuggestion(m, m.widgets[a]) && IsSuggestion(m, m.widgets[b]) {
      var found := set k | 0 <= k < |m.widgets| && IsSuggestion(m, m.widgets[k]);
      assert {a, b} <= found;
      TwoAmong(found, a, b);
      assert false;
    }
  }

  lemma {:induction false} TwoAmong(found: set<int>, a: int, b: int)
    requires a != b && a in found && b in found
    ensures 2 <= |found|
  {
    assert |found - {a}| == |found| - 1 && b in found - {a};
  }
}
