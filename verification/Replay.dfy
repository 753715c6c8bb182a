/**
 Durable event replay: a client follows a run's persisted events with two queries per poll while
 publishers keep committing.
 */
module Replay {
  import opened Prelude

  datatype Event = Event(sequence: nat, started: bool, payload: string)

  /** The run's row and its events, as committed. */
  datatype Run = Run(events: seq<Event>, lastSequence: nat, terminal: bool)

  ghost predicate Ascending(events: seq<Event>) {
    && (forall i | 0 <= i < |events| :: 0 < events[i].sequence)
    && forall i, j | 0 <= i < j < |events| :: events[i].sequence < events[j].sequence
  }

  function Last(events: seq<Event>): nat {
    if events == [] then 0 else events[|events| - 1].sequence
  }

  /** The events with a sequence above `low` and at most `high`. */
  function Within(events: seq<Event>, low: nat, high: nat): seq<Event> {
    if events == [] then [] else
    var rest := Within(events[..|events| - 1], low, high);
    var e := events[|events| - 1];
    if low < e.sequence <= high then rest + [e] else rest
  }

  /** `sequence > cursor`, in order. */
  function Above(events: seq<Event>, cursor: nat): seq<Event> {
    if events == [] then [] else
    var rest := Above(events[..|events| - 1], cursor);
    var e := events[|events| - 1];
    if cursor < e.sequence then rest + [e] else rest
  }

  // ---- The stream ----

  /** A frame on the wire. The synthetic opening frame repeats the cursor as its id. */
  datatype Frame = Frame(id: nat, payload: string)

  /** What the second query returns: the run's status and last sequence, or nothing. */
  datatype RunState = Missing | Present(terminal: bool, lastSequence: nat)

  /** The generator's variables: the durable cursor, the frames sent, and whether it has returned. */
  datatype Stream = Stream(cursor: nat, opening: seq<Frame>, sent: seq<Event>, ended: bool)

  /** The first persisted RUN_STARTED event. */
  function FirstStarted(events: seq<Event>): Option<Event> {
    if events == [] then None else if events[0].started then Some(events[0]) else FirstStarted(events[1..])
  }

  function Open(events: seq<Event>, after: nat): Stream {
    var started := FirstStarted(events);
    Stream(after, if 0 < after && started.Some? then [Frame(after, started.value.payload)] else [], [], false)
  }

  /** One pass of the polling loop, from the results of its two queries. */
  function Poll(s: Stream, rows: seq<Event>, state: RunState): Stream {
    var cursor := if rows == [] then s.cursor else rows[|rows| - 1].sequence;
    Stream(cursor, s.opening, s.sent + rows, state.Missing? || (state.terminal && state.lastSequence <= cursor))
  }

  class ReplayResponse {
    var cursor: nat
    var opening: seq<Frame>
    var sent: seq<Event>
    var ended: bool

    function Now(): Stream
      reads this
    {
      Stream(cursor, opening, sent, ended)
    }

    constructor (events: seq<Event>, after: int)
      ensures Now() == Open(events, if after < 0 then 0 else after)
    {
      cursor := if after < 0 then 0 else after;
      sent, ended := [], false;
      var started := FirstStarted(events);
      opening := if after > 0 && started.Some? then [Frame(after, started.value.payload)] else [];
    }

    method Advance(rows: seq<Event>, state: RunState)
      requires !ended
      modifies this
      ensures Now() == Poll(old(Now()), rows, state)
    {
      for i := 0 to |rows|
        invariant cursor == if i == 0 then old(cursor) else rows[i - 1].sequence
        invariant sent == old(sent) + rows[..i]
        invariant opening == old(opening) && !ended
      {
        cursor := rows[i].sequence;
        sent := sent + [rows[i]];
      }
      assert rows[..|rows|] == rows;
      if state.Missing? {
        ended := true;
      } else if state.terminal && cursor >= state.lastSequence {
        ended := true;
      }
    }
  }

  // ---- Everything that can happen ----

  /**
   `log` remembers every event ever committed. `fetched` is the answer of the first query while the
   second has not been made yet.
   */
  datatype System = System(log: seq<Event>, run: Option<Run>, stream: Stream, fetched: Option<seq<Event>>)

  /** A publisher commits a batch together with the row's last sequence, in sequence order. */
  ghost predicate Publishes(s: System, next: System, batch: seq<Event>, terminal: bool) {
    && s.run.Some? && !s.run.value.terminal
    && Ascending(s.log + batch)
    && next == s.(log := s.log + batch,
                  run := Some(Run(s.run.value.events + batch,
                                  if batch == [] then s.run.value.lastSequence else Last(batch), terminal)))
  }

  /** The conversation is deleted with its runs and events. */
  ghost predicate Deletes(s: System, next: System) {
    next == s.(run := None)
  }

  ghost predicate Queries(s: System, next: System) {
    && !s.stream.ended && s.fetched.None?
    && next == s.(fetched := Some(if s.run.Some? then Above(s.run.value.events, s.stream.cursor) else []))
  }

  ghost predicate Delivers(s: System, next: System) {
    && !s.stream.ended && s.fetched.Some?
    && next == s.(fetched := None,
                  stream := Poll(s.stream, s.fetched.value,
                                 if s.run.Some?
                                 then Present(s.run.value.terminal, s.run.value.lastSequence)
                                 else Missing))
  }

  ghost predicate Step(s: System, next: System) {
    || (exists batch, terminal :: Publishes(s, next, batch, terminal))
    || Deletes(s, next) || Queries(s, next) || Delivers(s, next)
  }

  /** A reader opens at `after` on a run in any committed state. */
  ghost predicate Opens(s: System, after: nat) {
    && s.run.Some? && s.run.value.events == s.log && s.run.value.lastSequence == Last(s.log) && Ascending(s.log)
    && s.stream == Open(s.log, after) && s.fetched.None?
  }

  ghost predicate Behaviour(states: seq<System>, after: nat) {
    states != [] && Opens(states[0], after) && forall i | 0 <= i < |states| - 1 :: Step(states[i], states[i + 1])
  }

  // ---- Sequences in order ----

  lemma {:induction false} FilterBounds(events: seq<Event>, low: nat, high: nat)
    ensures forall e | e in Within(events, low, high) :: e in events && low < e.sequence <= high
    ensures forall e | e in Above(events, low) :: e in events && low < e.sequence
  {
    if events != [] {
      FilterBounds(events[..|events| - 1], low, high);
    }
  }

  /** Appended events come after every earlier one, so they extend both filters at the end. */
  lemma {:induction false} WithinAppend(events: seq<Event>, batch: seq<Event>, low: nat, high: nat)
    ensures Within(events + batch, low, high) == Within(events, low, high) + Within(batch, low, high)
    decreases |batch|
  {
    if batch == [] {
      assert events + batch == events;
    } else {
      var all := events + batch;
      assert all[..|all| - 1] == events + batch[..|batch| - 1];
      WithinAppend(events, batch[..|batch| - 1], low, high);
    }
  }

  lemma {:induction false} AboveAppend(events: seq<Event>, batch: seq<Event>, low: nat)
    ensures Above(events + batch, low) == Above(events, low) + Above(batch, low)
    decreases |batch|
  {
    if batch == [] {
      assert events + batch == events;
    } else {
      var all := events + batch;
      assert all[..|all| - 1] == events + batch[..|batch| - 1];
      AboveAppend(events, batch[..|batch| - 1], low);
    }
  }

  lemma {:induction false} NothingWithin(events: seq<Event>, low: nat, high: nat)
    requires forall e | e in events :: high < e.sequence || e.sequence <= low
    ensures Within(events, low, high) == []
  {
    if events != [] { NothingWithin(events[..|events| - 1], low, high); }
  }

  lemma {:induction false} AboveIsWithin(events: seq<Event>, low: nat, high: nat)
    requires forall e | e in events :: e.sequence <= high
    ensures Above(events, low) == Within(events, low, high)
  {
    if events != [] { AboveIsWithin(events[..|events| - 1], low, high); }
  }

  lemma {:induction false} WithinJoins(events: seq<Event>, low: nat, middle: nat, high: nat)
    requires Ascending(events) && low <= middle <= high
    ensures Within(events, low, high) == Within(events, low, middle) + Within(events, middle, high)
  {
    if events != [] {
      var rest, e := events[..|events| - 1], events[|events| - 1];
      WithinJoins(rest, low, middle, high);
      if low < e.sequence <= middle {
        assert forall x | x in rest :: x.sequence < e.sequence;
        NothingWithin(rest, middle, high);
      }
    }
  }

  lemma {:induction false} LastBounds(events: seq<Event>)
    requires Ascending(events)
    ensures forall e | e in events :: e.sequence <= Last(events)
  {
  }

  /** Taking a prefix of what lies above a cursor is stopping at the sequence of its last event. */
  lemma {:induction false} PrefixStopsAtLast(events: seq<Event>, low: nat, n: nat)
    requires Ascending(events) && n <= |Above(events, low)|
    ensures var rows := Above(events, low)[..n];
            rows == Within(events, low, if n == 0 then low else Last(rows))
    decreases |events|
  {
    var all := Above(events, low);
    FilterBounds(events, low, 0);
    if n == 0 {
      NothingWithin(events, low, low);
    } else if n == |all| {
      AboveOrdered(events, low);
      assert all[..n] == all;
      assert forall e | e in events :: low < e.sequence ==> e.sequence <= Last(all);
      SameWithin(events, low, Last(all));
    } else {
      var rest, e := events[..|events| - 1], events[|events| - 1];
      assert Above(events, low) == Above(rest, low) + (if low < e.sequence then [e] else []);
      assert all[..n] == Above(rest, low)[..n];
      PrefixStopsAtLast(rest, low, n);
      FilterBounds(rest, low, 0);
      assert Above(rest, low)[n - 1] in rest;
    }
  }

  lemma {:induction false} AboveOrdered(events: seq<Event>, low: nat)
    requires Ascending(events)
    ensures Ascending(Above(events, low))
    ensures forall e | e in events && low < e.sequence ::
              Above(events, low) != [] && e.sequence <= Last(Above(events, low))
  {
    if events != [] {
      AboveOrdered(events[..|events| - 1], low);
      FilterBounds(events[..|events| - 1], low, 0);
    }
  }

  lemma {:induction false} SameWithin(events: seq<Event>, low: nat, high: nat)
    requires forall e | e in events :: low < e.sequence ==> e.sequence <= high
    ensures Above(events, low) == Within(events, low, high)
  {
    if events != [] { SameWithin(events[..|events| - 1], low, high); }
  }

  // ---- The invariant ----

  /** Sent so far: exactly the events above `after` up to the cursor; fetched: what follows, so far. */
  ghost predicate Exact(s: System, after: nat) {
    && Ascending(s.log)
    && (s.run.Some? ==> s.run.value.events == s.log && s.run.value.lastSequence == Last(s.log))
    && after <= s.stream.cursor
    && s.stream.sent == Within(s.log, after, s.stream.cursor)
    && (s.stream.cursor == after || s.stream.cursor <= Last(s.log))
    && (s.fetched.Some? ==> s.fetched.value <= Above(s.log, s.stream.cursor))
    && (s.stream.ended && s.run.Some? ==> s.run.value.terminal && Last(s.log) <= s.stream.cursor)
  }

  lemma {:induction false} StepIsExact(s: System, next: System, after: nat)
    requires Exact(s, after) && Step(s, next)
    ensures Exact(next, after)
  {
    if batch, terminal :| Publishes(s, next, batch, terminal) {
      PublishingIsExact(s, next, after, batch, terminal);
    } else if Delivers(s, next) {
      DeliveryIsExact(s, next, after);
    }
  }

  lemma {:induction false} PublishingIsExact(s: System, next: System, after: nat, batch: seq<Event>, terminal: bool)
    requires Exact(s, after) && Publishes(s, next, batch, terminal)
    ensures Exact(next, after)
  {
    CutInFinalLog(s.log, s.log + batch, after, s.stream.cursor);
    AboveAppend(s.log, batch, s.stream.cursor);
    LastGrows(s.log, batch);
  }

  lemma {:induction false} LastGrows(log: seq<Event>, batch: seq<Event>)
    requires Ascending(log + batch)
    ensures Last(log + batch) == (if batch == [] then Last(log) else Last(batch)) && Last(log) <= Last(log + batch)
  {
    if batch == [] {
      assert log + batch == log;
    } else if log != [] {
      assert (log + batch)[|log| - 1] == log[|log| - 1];
    }
  }

  lemma {:induction false} DeliveryIsExact(s: System, next: System, after: nat)
    requires Exact(s, after) && Delivers(s, next)
    ensures Exact(next, after)
  {
    var rows := s.fetched.value;
    var cursor := s.stream.cursor;
    assert rows == Above(s.log, cursor)[..|rows|];
    PrefixStopsAtLast(s.log, cursor, |rows|);
    FilterBounds(s.log, cursor, 0);
    if rows != [] {
      assert rows[|rows| - 1] in Above(s.log, cursor);
      LastBounds(s.log);
      WithinJoins(s.log, after, cursor, Last(rows));
    }
  }

  // ---- Main results ----

  /**
   Replay is exact: in every interleaving of polls, publisher commits and deletion, what has been sent is
   precisely the committed events above `after` up to the cursor, each once and in order.
   */
  lemma {:induction false} ReplayIsExact(states: seq<System>, after: nat, i: nat)
    requires Behaviour(states, after) && i < |states|
    ensures Exact(states[i], after)
  {
    if i == 0 {
      NothingWithin(states[0].log, after, after);
    } else {
      ReplayIsExact(states, after, i - 1);
      assert Step(states[i - 1], states[i - 1 + 1]);
      StepIsExact(states[i - 1], states[i], after);
    }
  }

  /** While the run exists, the stream ends only after sending everything that will ever be committed. */
  lemma {:induction false} EndedMeansComplete(states: seq<System>, after: nat, i: nat)
    requires Behaviour(states, after) && i < |states|
    requires states[i].stream.ended && states[i].run.Some?
    ensures states[i].run.value.terminal
    ensures states[i].stream.sent == Above(states[i].log, after)
    ensures !exists next, batch, terminal :: Publishes(states[i], next, batch, terminal)
  {
    var s := states[i];
    ReplayIsExact(states, after, i);
    LastBounds(s.log);
    AboveIsWithin(s.log, after, s.stream.cursor);
  }

  /**
   Resuming loses and repeats nothing. Cut one stream after any number of its events and resume another
   at the last id received (the opening frame's id if no event came through); when the second stream
   has ended on a run that still exists, both parts together are the events above `after`.
   */
  lemma {:induction false} ResumingIsSeamless(first: seq<System>, after: nat, i: nat, received: nat,
                                              second: seq<System>, resumeAt: nat, j: nat)
    requires Behaviour(first, after) && i < |first| && received <= |first[i].stream.sent|
    requires resumeAt == if received == 0 then after else first[i].stream.sent[received - 1].sequence
    requires Behaviour(second, resumeAt) && j < |second| && first[i].log <= second[j].log
    requires second[j].stream.ended && second[j].run.Some?
    ensures first[i].stream.sent[..received] + second[j].stream.sent == Above(second[j].log, after)
  {
    ReplayIsExact(first, after, i);
    ReplayIsExact(second, resumeAt, j);
    EndedMeansComplete(second, resumeAt, j);
    CutStopsAtLast(first[i], after, received, resumeAt);
    CutInFinalLog(first[i].log, second[j].log, after, resumeAt);
    AboveSplits(second[j].log, after, resumeAt);
  }

  lemma {:induction false} CutInFinalLog(earlier: seq<Event>, all: seq<Event>, after: nat, resumeAt: nat)
    requires Ascending(all) && earlier <= all && (resumeAt == after || resumeAt <= Last(earlier))
    ensures Within(all, after, resumeAt) == Within(earlier, after, resumeAt)
  {
    var later := all[|earlier|..];
    assert all == earlier + later;
    WithinAppend(earlier, later, after, resumeAt);
    LaterIsAbove(earlier, all, resumeAt, after);
  }

  /** What lies above a cursor is what lies up to a later one, and what lies above that. */
  lemma {:induction false} AboveSplits(events: seq<Event>, low: nat, middle: nat)
    requires Ascending(events) && low <= middle
    ensures Above(events, low) == Within(events, low, middle) + Above(events, middle)
  {
    if events != [] {
      var rest, e := events[..|events| - 1], events[|events| - 1];
      AboveSplits(rest, low, middle);
      if e.sequence <= middle {
        NothingAbove(rest, middle);
      }
    }
  }

  lemma {:induction false} NothingAbove(events: seq<Event>, low: nat)
    requires forall e | e in events :: e.sequence <= low
    ensures Above(events, low) == []
  {
    if events != [] { NothingAbove(events[..|events| - 1], low); }
  }

  lemma {:induction false} CutStopsAtLast(s: System, after: nat, received: nat, resumeAt: nat)
    requires Exact(s, after) && received <= |s.stream.sent|
    requires resumeAt == if received == 0 then after else s.stream.sent[received - 1].sequence
    ensures s.stream.sent[..received] == Within(s.log, after, resumeAt)
    ensures after <= resumeAt <= s.stream.cursor
    ensures resumeAt == after || resumeAt <= Last(s.log)
  {
    SentIsPrefix(s.log, after, s.stream.cursor);
    assert s.stream.sent[..received] == Above(s.log, after)[..received];
    PrefixStopsAtLast(s.log, after, received);
    FilterBounds(s.log, after, s.stream.cursor);
    if received > 0 {
      assert s.stream.sent[received - 1] in s.stream.sent;
      LastBounds(s.log);
    }
  }

  lemma {:induction false} SentIsPrefix(events: seq<Event>, low: nat, high: nat)
    requires Ascending(events)
    ensures Within(events, low, high) <= Above(events, low)
  {
    if events != [] {
      var rest, e := events[..|events| - 1], events[|events| - 1];
      SentIsPrefix(rest, low, high);
      if low < e.sequence <= high {
        AboveIsWithin(rest, low, high);
      }
    }
  }

  lemma {:induction false} LaterIsAbove(earlier: seq<Event>, all: seq<Event>, resumeAt: nat, after: nat)
    requires Ascending(all) && earlier <= all && (resumeAt == after || resumeAt <= Last(earlier))
    ensures Within(all[|earlier|..], after, resumeAt) == []
  {
    var later := all[|earlier|..];
    if resumeAt != after && earlier != [] {
      forall e | e in later ensures resumeAt < e.sequence {
        var k :| 0 <= k < |later| && later[k] == e;
        assert all[|earlier| + k] == e && all[|earlier| - 1] == earlier[|earlier| - 1];
      }
    }
    NothingWithin(later, after, resumeAt);
  }

  /** A stream cannot idle behind a finished run: the first poll begun after the end is the last one. */
  lemma {:induction false} PollAfterTheEndEnds(s: System, fetched: System, delivered: System, after: nat)
    requires Exact(s, after) && s.run.Some? && s.run.value.terminal
    requires Queries(s, fetched) && Delivers(fetched, delivered)
    ensures delivered.stream.ended && delivered.stream.sent == Above(s.log, after)
  {
    StepIsExact(s, fetched, after);
    StepIsExact(fetched, delivered, after);
    var rows := Above(s.log, s.stream.cursor);
    AboveOrdered(s.log, s.stream.cursor);
    LastBounds(s.log);
    FilterBounds(s.log, s.stream.cursor, 0);
    assert rows != [] ==> rows[|rows| - 1] in rows;
    if s.log != [] && s.stream.cursor < Last(s.log) {
      assert s.log[|s.log| - 1] in s.log;
      assert rows != [] && Last(s.log) <= Last(rows);
    }
    assert delivered.stream.cursor == if rows == [] then s.stream.cursor else Last(rows);
    assert delivered.stream.ended;
    assert Last(s.log) <= delivered.stream.cursor;
    assert forall e | e in s.log :: e.sequence <= Last(s.log);
    AboveIsWithin(s.log, after, delivered.stream.cursor);
  }

  // ---- What a reader sees ----

  /** The rows of a query are the events above the cursor, all of them and in order. */
  lemma {:induction false} RowsAreTheEventsAbove(events: seq<Event>, cursor: nat)
    requires Ascending(events)
    ensures Ascending(Above(events, cursor))
    ensures forall e :: e in Above(events, cursor) <==> e in events && cursor < e.sequence
  {
    AboveOrdered(events, cursor);
    NothingAboveIsMissing(events, cursor);
    FilterBounds(events, cursor, 0);
  }

  lemma {:induction false} NothingAboveIsMissing(events: seq<Event>, cursor: nat)
    ensures forall e | e in events && cursor < e.sequence :: e in Above(events, cursor)
  {
    if events != [] {
      NothingAboveIsMissing(events[..|events| - 1], cursor);
    }
  }

  predicate IsFirstStart(events: seq<Event>, e: Event) {
    e in events && e.started && forall f | f in events && f.started :: e.sequence <= f.sequence
  }

  lemma {:induction false} FirstStartedIsFirst(events: seq<Event>)
    requires Ascending(events)
    ensures match FirstStarted(events)
            case None => forall e | e in events :: !e.started
            case Some(e) => IsFirstStart(events, e) && forall f | IsFirstStart(events, f) :: f == e
  {
    if events != [] && !events[0].started {
      assert events == [events[0]] + events[1..];
      FirstStartedIsFirst(events[1..]);
    }
  }

  lemma {:induction false} OpeningIsKept(states: seq<System>, after: nat, i: nat)
    requires Behaviour(states, after) && i < |states|
    ensures states[i].stream.opening == Open(states[0].log, after).opening
  {
    if i > 0 {
      OpeningIsKept(states, after, i - 1);
      assert Step(states[i - 1], states[i - 1 + 1]);
    }
  }

  /**
   A resumed stream opens with one frame, under the cursor it resumes at, that repeats the start of the run:
   the started event of the lowest sequence. A stream read from the beginning opens with none.
   */
  lemma {:induction false} ResumedStreamOpensWithTheStart(states: seq<System>, after: nat, i: nat)
    requires Behaviour(states, after) && i < |states|
    ensures after == 0 || (forall e | e in states[0].log :: !e.started) ==> states[i].stream.opening == []
    ensures forall e | 0 < after && IsFirstStart(states[0].log, e) ::
              states[i].stream.opening == [Frame(after, e.payload)]
  {
    OpeningIsKept(states, after, i);
    FirstStartedIsFirst(states[0].log);
  }

  /** A reader of a deleted run is let go with what was read before. */
  lemma {:induction false} DeletedRunEndsTheStream(s: System, next: System)
    requires s.run.None? && Delivers(s, next)
    ensures next.stream.ended && next.stream.sent == s.stream.sent + s.fetched.value
  {
  }
}
