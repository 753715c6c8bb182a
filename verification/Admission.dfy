/**
 Run admission: under the conversation's row lock a new run is queued behind the newest active run of
 its conversation, and a repeated run id or client message id replays the run it already has.
 */
module Admission {
  import opened Prelude

  datatype Run = Run(
    id: nat, conversation: nat, clientMessage: Option<nat>, blockedBy: Option<nat>, active: bool, created: nat)

  datatype Request = Request(id: nat, conversation: nat, clientMessage: Option<nat>)

  datatype Outcome = Admitted(run: Run) | Replayed(run: Run) | Conflict

  /** The user's runs, in the order they were admitted. */
  type Runs = seq<Run>

  function FindRun(runs: Runs, id: nat): (r: Option<Run>)
    ensures r.Some? ==> r.value in runs && r.value.id == id
    ensures r.None? ==> forall x | x in runs :: x.id != id
  {
    if runs == [] then None else if runs[0].id == id then Some(runs[0]) else FindRun(runs[1..], id)
  }

  function FindMessage(runs: Runs, message: nat): (r: Option<Run>)
    ensures r.Some? ==> r.value in runs && r.value.clientMessage == Some(message)
    ensures r.None? ==> forall x | x in runs :: x.clientMessage != Some(message)
  {
    if runs == [] then None
    else if runs[0].clientMessage == Some(message) then Some(runs[0])
    else FindMessage(runs[1..], message)
  }

  predicate Newer(a: Run, b: Run) {
    a.created > b.created || (a.created == b.created && a.id > b.id)
  }

  /** `ORDER BY created_at DESC, id DESC LIMIT 1` over the active runs of the conversation. */
  function Blocker(runs: Runs, conversation: nat): (r: Option<Run>)
    ensures r.Some? ==> r.value in runs && r.value.active && r.value.conversation == conversation
    ensures r.Some? ==> forall x | x in runs && x.active && x.conversation == conversation ::
                          x == r.value || Newer(r.value, x) || (x.id == r.value.id && x.created == r.value.created)
    ensures r.None? ==> forall x | x in runs :: !(x.active && x.conversation == conversation)
  {
    if runs == [] then None else
    var rest := Blocker(runs[1..], conversation);
    if !(runs[0].active && runs[0].conversation == conversation) then rest
    else if rest.Some? && Newer(rest.value, runs[0]) then rest else Some(runs[0])
  }

  /** The admission part of `run_agent`. */
  function Admit(runs: Runs, q: Request, now: nat): (Outcome, Runs) {
    var existing := FindRun(runs, q.id);
    if existing.Some? then
      (if existing.value.conversation != q.conversation then Conflict else Replayed(existing.value), runs)
    else
      var prior := if q.clientMessage.Some? then FindMessage(runs, q.clientMessage.value) else None;
      if prior.Some? then
        (if prior.value.conversation != q.conversation then Conflict else Replayed(prior.value), runs)
      else
        var blocker := Blocker(runs, q.conversation);
        var blockedBy := if blocker.Some? then Some(blocker.value.id) else None;
        var run := Run(q.id, q.conversation, q.clientMessage, blockedBy, true, now);
        (Admitted(run), runs + [run])
  }

  // ---- What an admission decides ----

  predicate SameMessage(x: Run, q: Request) {
    q.clientMessage.Some? && x.clientMessage == q.clientMessage
  }

  /** What a run that answers to the request makes of it. */
  function Answered(x: Run, q: Request): Outcome {
    if x.conversation == q.conversation then Replayed(x) else Conflict
  }

  /** The new run waits for the newest active run of its conversation, if there is one. */
  ghost predicate WaitsForNewest(runs: Runs, run: Run) {
    match run.blockedBy
    case None => forall x | x in runs :: !(x.active && x.conversation == run.conversation)
    case Some(id) =>
      exists b :: b in runs && b.active && b.conversation == run.conversation && b.id == id &&
        forall x | x in runs && x.active && x.conversation == run.conversation ::
          x.created < b.created || (x.created == b.created && x.id <= b.id)
  }

  /**
   An admission is decided by the run that has the requested id, failing that by the one that has the
   client message: it is replayed, or refused when it belongs to another conversation. Only when there is
   neither, one run is added: active, and waiting for the newest active run of its conversation.
   */
  lemma {:induction false} AdmissionDecides(runs: Runs, q: Request, now: nat)
    requires Founded(runs)
    ensures var (outcome, next) := Admit(runs, q, now);
            && (forall x | x in runs && x.id == q.id :: outcome == Answered(x, q))
            && ((forall x | x in runs :: x.id != q.id) ==>
                  forall x | x in runs && SameMessage(x, q) :: outcome == Answered(x, q))
            && (outcome.Admitted? <==> forall x | x in runs :: x.id != q.id && !SameMessage(x, q))
            && (!outcome.Admitted? ==> next == runs)
            && (outcome.Admitted? ==>
                  var run := outcome.run;
                  && next == runs + [run] && run == Run(q.id, q.conversation, q.clientMessage, run.blockedBy, true, now)
                  && WaitsForNewest(runs, run))
  {
    var existing := FindRun(runs, q.id);
    if existing.Some? {
      OnlyRun(runs, existing.value);
    } else {
      var prior := if q.clientMessage.Some? then FindMessage(runs, q.clientMessage.value) else None;
      if prior.Some? {
        OnlyRun(runs, prior.value);
      } else {
        var b := Blocker(runs, q.conversation);
        if b.Some? {
          assert forall x | x in runs && x.active && x.conversation == q.conversation :: !Newer(x, b.value);
        }
      }
    }
  }

  lemma {:induction false} OnlyRun(runs: Runs, found: Run)
    requires Founded(runs) && found in runs
    ensures forall x | x in runs && x.id == found.id :: x == found
    ensures forall x | x in runs && found.clientMessage.Some? && x.clientMessage == found.clientMessage :: x == found
  {
    var j :| 0 <= j < |runs| && runs[j] == found;
    forall x | x in runs && x.id == found.id ensures x == found {
      var i :| 0 <= i < |runs| && runs[i] == x;
    }
    forall x | x in runs && found.clientMessage.Some? && x.clientMessage == found.clientMessage ensures x == found {
      var i :| 0 <= i < |runs| && runs[i] == x;
    }
  }

  class RunTable {
    var runs: Runs

    constructor ()
      ensures runs == []
    {
      runs := [];
    }

    method RunAgent(q: Request, now: nat) returns (outcome: Outcome)
      modifies this
      ensures (outcome, runs) == Admit(old(runs), q, now)
    {
      var existing := FindRun(runs, q.id);
      if existing.Some? {
        return if existing.value.conversation != q.conversation then Conflict else Replayed(existing.value);
      }
      if q.clientMessage.Some? {
        var prior := FindMessage(runs, q.clientMessage.value);
        if prior.Some? {
          return if prior.value.conversation != q.conversation then Conflict else Replayed(prior.value);
        }
      }
      var blocker := Blocker(runs, q.conversation);
      var blockedBy := if blocker.Some? then Some(blocker.value.id) else None;
      var run := Run(q.id, q.conversation, q.clientMessage, blockedBy, true, now);
      runs := runs + [run];
      return Admitted(run);
    }
  }

  /** A run leaves the active statuses and never returns. */
  predicate Finishes(runs: Runs, next: Runs, i: nat) {
    i < |runs| && runs[i].active && next == runs[i := runs[i].(active := false)]
  }

  ghost predicate Step(runs: Runs, next: Runs) {
    || (exists q, now :: Admit(runs, q, now).1 == next)
    || (exists i :: Finishes(runs, next, i))
  }

  /** Ids and client messages are unique, and a run waits for an earlier run of its conversation. */
  predicate Founded(runs: Runs) {
    && (forall i, j | 0 <= i < j < |runs| :: runs[i].id != runs[j].id)
    && (forall i, j | 0 <= i < j < |runs| ::
          runs[i].clientMessage.Some? ==> runs[i].clientMessage != runs[j].clientMessage)
    && forall i | 0 <= i < |runs| && runs[i].blockedBy.Some? ::
         exists j | 0 <= j < i :: runs[j].id == runs[i].blockedBy.value && runs[j].conversation == runs[i].conversation
  }

  /** The waiting graph stays founded: edges never leave the conversation and always lead back in time. */
  lemma {:induction false} StepKeepsFounded(runs: Runs, next: Runs)
    requires Founded(runs) && Step(runs, next)
    ensures Founded(next)
  {
    if i :| Finishes(runs, next, i) {
      FinishingKeepsFounded(runs, next, i);
    } else {
      var q, now :| Admit(runs, q, now).1 == next;
      AdmissionKeepsFounded(runs, q, now);
    }
  }

  lemma {:induction false} FinishingKeepsFounded(runs: Runs, next: Runs, f: nat)
    requires Founded(runs) && Finishes(runs, next, f)
    ensures Founded(next)
  {
    forall i | 0 <= i < |next| && next[i].blockedBy.Some?
      ensures exists j | 0 <= j < i ::
                next[j].id == next[i].blockedBy.value && next[j].conversation == next[i].conversation
    {
      var j :| 0 <= j < i && runs[j].id == runs[i].blockedBy.value && runs[j].conversation == runs[i].conversation;
      assert next[j].id == runs[j].id;
    }
  }

  lemma {:induction false} AdmissionKeepsFounded(runs: Runs, q: Request, now: nat)
    requires Founded(runs)
    ensures Founded(Admit(runs, q, now).1)
  {
    var next := Admit(runs, q, now).1;
    if next != runs {
      assert forall i | 0 <= i < |runs| :: next[i] == runs[i] && runs[i] in runs;
      forall i | 0 <= i < |next| && next[i].blockedBy.Some?
        ensures exists j | 0 <= j < i ::
                  next[j].id == next[i].blockedBy.value && next[j].conversation == next[i].conversation
      {
        if i == |runs| {
          var b := Blocker(runs, q.conversation).value;
          var j :| 0 <= j < |runs| && runs[j] == b;
          assert next[j].id == next[i].blockedBy.value;
        } else {
          var j :| 0 <= j < i && runs[j].id == runs[i].blockedBy.value && runs[j].conversation == runs[i].conversation;
          assert next[j].id == next[i].blockedBy.value;
        }
      }
    }
  }

  ghost predicate History(states: seq<Runs>) {
    states != [] && states[0] == [] && forall i | 0 <= i < |states| - 1 :: Step(states[i], states[i + 1])
  }

  /** So is every state that admissions and finishing runs can lead to. */
  lemma {:induction false} EveryStateIsFounded(states: seq<Runs>, i: nat)
    requires History(states) && i < |states|
    ensures Founded(states[i])
  {
    if i > 0 {
      EveryStateIsFounded(states, i - 1);
      assert Step(states[i - 1], states[i - 1 + 1]);
      StepKeepsFounded(states[i - 1], states[i]);
    }
  }

  /** A run that is active and waits for no active run. */
  predicate Runnable(runs: Runs, i: nat) {
    i < |runs| && runs[i].active &&
    !exists j | 0 <= j < |runs| :: Some(runs[j].id) == runs[i].blockedBy && runs[j].active
  }

  /** Nobody waits forever: a conversation with an active run has one that may proceed. */
  lemma {:induction false} SomeRunMayProceed(runs: Runs, i: nat)
    requires Founded(runs) && i < |runs| && runs[i].active
    ensures exists j | 0 <= j <= i :: runs[j].conversation == runs[i].conversation && Runnable(runs, j)
  {
    if !Runnable(runs, i) {
      var j :| 0 <= j < |runs| && Some(runs[j].id) == runs[i].blockedBy && runs[j].active;
      var k :| 0 <= k < i && runs[k].id == runs[i].blockedBy.value && runs[k].conversation == runs[i].conversation;
      assert j == k;
      SomeRunMayProceed(runs, k);
    }
  }

  /** A run table in which `older` only had runs appended or finished. */
  ghost predicate Later(older: Runs, runs: Runs) {
    |older| <= |runs| && forall i | 0 <= i < |older| :: runs[i].(active := older[i].active) == older[i]
  }

  /**
   Asking again adds nothing, however much later: once a request has been admitted, the same run id, and
   the same client message under any run id not in use, replay that very run.
   */
  lemma {:induction false} AdmittingAgainReplays(runs: Runs, q: Request, now: nat, later: Runs, again: Request,
                                                 time: nat)
    requires Founded(runs) && Founded(later)
    requires Admit(runs, q, now).0.Admitted? && Later(Admit(runs, q, now).1, later)
    requires again.conversation == q.conversation
    requires again.id == q.id ||
             (q.clientMessage.Some? && again.clientMessage == q.clientMessage && FindRun(later, again.id).None?)
    ensures var (outcome, next) := Admit(later, again, time);
            next == later && outcome.Replayed? && outcome.run.id == q.id
  {
    var admitted := Admit(runs, q, now).1;
    var k := |runs|;
    assert admitted[k].id == q.id && admitted[k].clientMessage == q.clientMessage;
    assert later[k].id == q.id && later[k].clientMessage == q.clientMessage && later[k].conversation == q.conversation;
    assert later[k] in later;
    if again.id == q.id {
      var found := FindRun(later, q.id).value;
      var j :| 0 <= j < |later| && later[j] == found;
      assert j == k;
    } else {
      var found := FindMessage(later, q.clientMessage.value).value;
      var j :| 0 <= j < |later| && later[j] == found;
      assert j == k;
    }
  }

  // ---- One at a time ----

  /** Index `j` is the newest active run of its conversation before `i`. */
  predicate PreviousActive(runs: Runs, i: nat, j: nat)
    requires i <= |runs|
  {
    j < i && runs[j].active &&
    forall k | j < k < i :: !(runs[k].active && runs[k].conversation == runs[j].conversation)
  }

  /** Every active run of the conversation waits for the active run admitted just before it. */
  ghost predicate Serial(runs: Runs, conversation: nat) {
    forall i | 0 <= i < |runs| && runs[i].active && runs[i].conversation == conversation ::
      (forall j | 0 <= j < i && runs[j].conversation == conversation && PreviousActive(runs, i, j) ::
         runs[i].blockedBy == Some(runs[j].id))
  }

  /** At most one run of the conversation may proceed. */
  predicate Exclusive(runs: Runs, conversation: nat) {
    forall i, j | 0 <= i < j < |runs| && runs[i].conversation == conversation && runs[j].conversation == conversation ::
      !(Runnable(runs, i) && Runnable(runs, j))
  }

  lemma {:induction false} PreviousExists(runs: Runs, i: nat, k: nat) returns (j: nat)
    requires k < i <= |runs| && runs[k].active
    ensures j < i && runs[j].conversation == runs[k].conversation && PreviousActive(runs, i, j)
    decreases i - k
  {
    if m :| k < m < i && runs[m].active && runs[m].conversation == runs[k].conversation {
      j := PreviousExists(runs, i, m);
    } else {
      j := k;
    }
  }

  lemma {:induction false} SerialIsExclusive(runs: Runs, conversation: nat)
    requires Serial(runs, conversation)
    ensures Exclusive(runs, conversation)
  {
    forall i, j | 0 <= i < j < |runs| && runs[i].conversation == conversation && runs[j].conversation == conversation
      ensures !(Runnable(runs, i) && Runnable(runs, j))
    {
      if runs[i].active && runs[j].active {
        var p := PreviousExists(runs, j, i);
        assert Some(runs[p].id) == runs[j].blockedBy && runs[p].active;
      }
    }
  }

  /** In each conversation creation times grow with admission. */
  ghost predicate Growing(runs: Runs) {
    forall i, j | 0 <= i < j < |runs| && runs[i].conversation == runs[j].conversation ::
      runs[i].created < runs[j].created
  }

  /** When creation times grow with admission, the run queued behind is the one admitted last. */
  lemma {:induction false} BlockerIsPrevious(runs: Runs, conversation: nat, j: nat)
    requires Growing(runs)
    requires j < |runs| && runs[j].conversation == conversation && PreviousActive(runs, |runs|, j)
    ensures Blocker(runs, conversation) == Some(runs[j])
  {
    assert runs[j] in runs;
    var b := Blocker(runs, conversation).value;
    var k :| 0 <= k < |runs| && runs[k] == b;
  }

  /** With a clock that has moved on, admission queues behind the run admitted last. */
  lemma {:induction false} AdmissionKeepsSerial(runs: Runs, q: Request, now: nat, conversation: nat)
    requires Founded(runs) && Serial(runs, conversation) && Growing(runs)
    ensures Serial(Admit(runs, q, now).1, conversation)
  {
    var next := Admit(runs, q, now).1;
    if next != runs {
      var n := |runs|;
      assert forall i | 0 <= i < n :: next[i] == runs[i];
      forall i, j | 0 <= i < |next| && next[i].active && next[i].conversation == conversation
                    && 0 <= j < i && next[j].conversation == conversation && PreviousActive(next, i, j)
        ensures next[i].blockedBy == Some(next[j].id)
      {
        assert PreviousActive(runs, i, j) by {
          assert forall k | j <= k < i :: next[k] == runs[k];
        }
        if i == n {
          BlockerIsPrevious(runs, q.conversation, j);
        }
      }
    }
  }

  /**
   Exactly when the queue stays one at a time: finishing run `f` keeps the conversation exclusive unless
   `f` itself was still waiting for an active run while another active run was waiting for `f`. That is
   what cancelling a queued run does: the run behind it is released while the one in front still runs.
   */
  lemma {:induction false} FinishingKeepsExclusiveExactlyInOrder(runs: Runs, next: Runs, f: nat)
    requires Founded(runs) && Finishes(runs, next, f) && Serial(runs, runs[f].conversation)
    ensures Exclusive(next, runs[f].conversation) <==>
              Runnable(runs, f) ||
              !exists i | 0 <= i < |runs| :: runs[i].active && runs[i].blockedBy == Some(runs[f].id)
  {
    var c := runs[f].conversation;
    if Runnable(runs, f) || !exists i | 0 <= i < |runs| :: runs[i].active && runs[i].blockedBy == Some(runs[f].id) {
      forall i, j | 0 <= i < j < |next| && next[i].conversation == c && next[j].conversation == c
        ensures !(Runnable(next, i) && Runnable(next, j))
      {
        if next[i].active && next[j].active {
          EarlierActiveHolds(runs, next, f, i, j);
        }
      }
    } else {
      var i :| 0 <= i < |runs| && runs[i].active && runs[i].blockedBy == Some(runs[f].id);
      TwoAreReleased(runs, next, f, i);
    }
  }

  lemma {:induction false} EarlierActiveHolds(runs: Runs, next: Runs, f: nat, i: nat, j: nat)
    requires Founded(runs) && Finishes(runs, next, f) && Serial(runs, runs[f].conversation)
    requires i < j < |runs| && runs[i].conversation == runs[j].conversation == runs[f].conversation
    requires next[i].active && next[j].active
    requires Runnable(runs, f) || !exists k | 0 <= k < |runs| :: runs[k].active && runs[k].blockedBy == Some(runs[f].id)
    ensures !Runnable(next, j)
  {
    var p := PreviousExists(runs, j, i);
    assert runs[j].blockedBy == Some(runs[p].id);
    if p == f {
      assert i < f;
      var b := PreviousExists(runs, f, i);
      assert false;
    }
    assert Some(next[p].id) == next[j].blockedBy && next[p].active;
  }

  lemma {:induction false} TwoAreReleased(runs: Runs, next: Runs, f: nat, i: nat)
    requires Founded(runs) && Finishes(runs, next, f) && i < |runs| && !Runnable(runs, f)
    requires runs[i].active && runs[i].blockedBy == Some(runs[f].id)
    ensures !Exclusive(next, runs[f].conversation)
  {
    FinishingKeepsFounded(runs, next, f);
    var g :| 0 <= g < i && runs[g].id == runs[i].blockedBy.value && runs[g].conversation == runs[i].conversation;
    assert g == f;
    assert Runnable(next, i);
    var b :| 0 <= b < |runs| && Some(runs[b].id) == runs[f].blockedBy && runs[b].active;
    var e :| 0 <= e < f && runs[e].id == runs[f].blockedBy.value && runs[e].conversation == runs[f].conversation;
    assert b == e;
    SomeRunMayProceed(next, b);
    var k :| 0 <= k <= b && next[k].conversation == next[b].conversation && Runnable(next, k);
  }

  // ---- Whole histories in order ----

  /** Admissions on a clock that moves on, and runs that finish only when it is their turn. */
  ghost predicate OrderlyStep(runs: Runs, next: Runs) {
    || (exists q, now :: AdmitsLater(runs, next, q, now))
    || (exists i :: Finishes(runs, next, i) && Runnable(runs, i))
  }

  ghost predicate AdmitsLater(runs: Runs, next: Runs, q: Request, now: nat) {
    Admit(runs, q, now).1 == next && forall x | x in runs :: x.created < now
  }

  /** A run whose turn it is has no active run of its conversation before it. */
  lemma {:induction false} FirstInLine(runs: Runs, f: nat, k: nat)
    requires k < f < |runs| && Runnable(runs, f) && Serial(runs, runs[f].conversation)
    requires runs[k].conversation == runs[f].conversation
    ensures !runs[k].active
  {
    if runs[k].active {
      var p := PreviousExists(runs, f, k);
      assert false;
    }
  }

  lemma {:induction false} OrderlyFinishKeepsSerial(runs: Runs, next: Runs, f: nat, conversation: nat)
    requires Finishes(runs, next, f) && Runnable(runs, f) && Serial(runs, conversation)
    ensures Serial(next, conversation)
  {
    forall i, j | 0 <= i < |next| && next[i].active && next[i].conversation == conversation
                  && 0 <= j < i && next[j].conversation == conversation && PreviousActive(next, i, j)
      ensures next[i].blockedBy == Some(next[j].id)
    {
      if runs[f].conversation == conversation && j < f {
        FirstInLine(runs, f, j);
      }
      assert forall k | j < k < i :: k != f ==> next[k] == runs[k];
      assert PreviousActive(runs, i, j);
    }
  }

  /** With runs finishing in turn, every conversation has at most one run that may proceed, always. */
  lemma {:induction false} OneAtATime(states: seq<Runs>, i: nat, conversation: nat)
    requires states != [] && states[0] == [] && i < |states|
    requires forall k | 0 <= k < |states| - 1 :: OrderlyStep(states[k], states[k + 1])
    ensures Founded(states[i]) && Growing(states[i]) && Serial(states[i], conversation) &&
            Exclusive(states[i], conversation)
  {
    if i > 0 {
      OneAtATime(states, i - 1, conversation);
      assert OrderlyStep(states[i - 1], states[i - 1 + 1]);
      OrderlyStepKeepsOrder(states[i - 1], states[i], conversation);
    }
    SerialIsExclusive(states[i], conversation);
  }

  lemma {:induction false} OrderlyStepKeepsOrder(runs: Runs, next: Runs, conversation: nat)
    requires OrderlyStep(runs, next) && Founded(runs) && Growing(runs) && Serial(runs, conversation)
    ensures Founded(next) && Growing(next) && Serial(next, conversation)
  {
    if q, now :| AdmitsLater(runs, next, q, now) {
      AdmissionKeepsFounded(runs, q, now);
      AdmissionKeepsSerial(runs, q, now, conversation);
      assert forall i | 0 <= i < |runs| :: runs[i] in runs;
    } else {
      var f :| Finishes(runs, next, f) && Runnable(runs, f);
      FinishingKeepsFounded(runs, next, f);
      OrderlyFinishKeepsSerial(runs, next, f, conversation);
    }
  }

  // ---- Where it fails ----

  /** `n` runs queued one behind the other in conversation 0. */
  function Line(n: nat): (runs: Runs)
    ensures |runs| == n && forall i | 0 <= i < n :: runs[i] == InLine(i)
  {
    seq(n, i requires 0 <= i < n => InLine(i))
  }

  function InLine(i: nat): Run {
    Run(i + 1, 0, None, if i == 0 then None else Some(i), true, i + 1)
  }

  lemma {:induction false} LineGrows(n: nat)
    ensures Step(Line(n), Line(n + 1))
  {
    var runs := Line(n);
    var next := Admit(runs, Request(n + 1, 0, None), n + 1).1;
    assert Step(runs, next);
    if n > 0 {
      assert runs[n - 1] in runs;
      BlockerIsPrevious(runs, 0, n - 1);
    }
    assert next == runs + [InLine(n)];
    assert next == Line(n + 1);
  }

  /**
   Any run in the middle of any queue: when it is cancelled, the run behind it may proceed beside the first.
   */
  lemma {:induction false} CancellingInTheMiddleReleases(n: nat, f: nat) returns (states: seq<Runs>)
    requires 0 < f && f + 1 < n
    ensures History(states) && |states| == n + 2 && states[n] == Line(n) && Finishes(states[n], states[n + 1], f)
    ensures Runnable(states[n + 1], 0) && Runnable(states[n + 1], f + 1) && !Exclusive(states[n + 1], 0)
  {
    var line := Line(n);
    var cancelled := line[f := line[f].(active := false)];
    assert Finishes(line, cancelled, f);
    states := seq(n + 1, i requires 0 <= i <= n => Line(i)) + [cancelled];
    forall i | 0 <= i < |states| - 1 ensures Step(states[i], states[i + 1]) {
      if i < n { LineGrows(i); }
    }
    assert cancelled[f + 1].blockedBy == Some(cancelled[f].id);
  }
}
