/**
 What holds over whole schedules of the cache: exact accounting, silence of
 abandoned loads, justification of every answer, monotone entries and progress.
 */
module CacheRuns {
  import opened CacheProtocol
  import opened CacheSafety
  import opened Optional

  lemma {:induction false} PrefixSchedule(clock: Time, steps: seq<Step>, n: nat)
    requires Schedule(clock, steps) && n <= |steps|
    ensures Schedule(clock, steps[..n])
    decreases |steps|
  {
    if n == |steps| {
      assert steps[..n] == steps;
    } else {
      var before := steps[..|steps| - 1];
      PrefixSchedule(clock, before, n);
      assert before[..n] == steps[..n];
    }
  }

  /** The state before step `n` and the step itself are linked by `Apply`. */
  lemma StepAt(clock: Time, steps: seq<Step>, n: nat)
    requires Schedule(clock, steps) && n < |steps|
    ensures Schedule(clock, steps[..n]) && Schedule(clock, steps[..n + 1])
    ensures Enabled(After(clock, steps[..n]), steps[n])
    ensures After(clock, steps[..n + 1]) == Apply(After(clock, steps[..n]), steps[n])
  {
    PrefixSchedule(clock, steps, n);
    PrefixSchedule(clock, steps, n + 1);
    assert steps[..n + 1][..n] == steps[..n];
  }

  // ---------------------------------------------------------------------------
  // Single flight

  /**
   In every reachable state: no two pending calls share a key, the call in
   flight is pending and counts exactly its callers, and a parked caller waits
   for a call that is done or whose loader has still to finish.
   */
  lemma {:induction false} SingleFlight(clock: Time, steps: seq<Step>)
    requires Schedule(clock, steps)
    ensures var s := After(clock, steps);
      && WellFormed(s.shared) && |s.loaders| == |s.shared.calls|
      && (forall i, j | 0 <= i < |s.shared.calls| && 0 <= j < |s.shared.calls| ::
            Pending(s.shared.calls[i]) && Pending(s.shared.calls[j]) &&
                s.shared.calls[i].key == s.shared.calls[j].key ==>
              i == j)
      && (forall k <- s.shared.inFlight ::
            var call := s.shared.calls[s.shared.inFlight[k]];
            && !call.done && !call.abandoned
            && call.waiters == |Attendees(s, s.shared.inFlight[k])| && call.waiters >= 1)
      && (forall c <- s.callers :: s.callers[c].Parked? ==>
            && s.callers[c].call < |s.shared.calls|
            && (s.shared.calls[s.callers[c].call].done || Active(s.loaders[s.callers[c].call])))
  {
    ScheduleKeepsInv(clock, steps);
  }

  /** Until its loader is through, the load context is cancelled if and only if every caller has left. */
  lemma CancelledExactlyWhenDeserted(clock: Time, steps: seq<Step>, id: CallId)
    requires Schedule(clock, steps)
    requires var s := After(clock, steps); id < |s.loaders| && id < |s.shared.calls|
    ensures var s := After(clock, steps);
      && (Active(s.loaders[id]) ==> (s.shared.calls[id].cancelled <==> Attendees(s, id) == {}))
      && (s.loaders[id].Exited? ==> s.shared.calls[id].cancelled)
  {
    ScheduleKeepsInv(clock, steps);
    var s := After(clock, steps);
    if Active(s.loaders[id]) && s.shared.calls[id].cancelled {
      assert s.shared.calls[id].abandoned;
      assert forall c <- s.callers :: !Attends(s.callers[c], id);
    }
  }

  // ---------------------------------------------------------------------------
  // What later states inherit

  /** A finished call is frozen, an abandoned one stays abandoned, and the rest only advances. */
  ghost predicate CallLater(a: Call, b: Call) {
    && a.key == b.key
    && (a.abandoned ==> b.abandoned)
    && (a.done ==>
          b.done && b.outcome == a.outcome && b.loadedAt == a.loadedAt && b.stale == a.stale &&
              b.abandoned == a.abandoned)
  }

  ghost predicate EntriesLater(a: map<Key, Entry>, b: map<Key, Entry>) {
    forall k <- a :: k in b && a[k].storedAt <= b[k].storedAt
  }

  ghost predicate Later(a: System, b: System) {
    && a.clock <= b.clock
    && EntriesLater(a.shared.entries, b.shared.entries)
    && |a.shared.calls| <= |b.shared.calls|
    && (forall id {:trigger a.shared.calls[id]} {:trigger b.shared.calls[id]} :: 0 <= id < |a.shared.calls| ==>
          CallLater(a.shared.calls[id], b.shared.calls[id]))
    && (forall c <- a.callers :: a.callers[c].Answered? ==> c in b.callers && b.callers[c] == a.callers[c])
  }

  lemma EnterIsLater(s: System, c: CallerId)
    requires Inv(s) && Enabled(s, Enter(c))
    ensures Later(s, Apply(s, Enter(c)))
  {
    EnterShape(s, c);
  }

  lemma CompletionIsLater(s: System, id: CallId)
    requires Inv(s) && Enabled(s, LoaderCompletes(id))
    ensures Later(s, Apply(s, LoaderCompletes(id)))
  {
    CompleteShape(s, id);
  }

  lemma GivingUpIsLater(s: System, c: CallerId)
    requires Inv(s) && Enabled(s, GiveUp(c))
    ensures Later(s, Apply(s, GiveUp(c)))
  {
    GiveUpShape(s, c);
  }

  lemma OtherStepIsLater(s: System, step: Step)
    requires Inv(s) && Enabled(s, step) && !step.Enter? && !step.LoaderCompletes? && !step.GiveUp?
    ensures Later(s, Apply(s, step))
  {
  }

  lemma StepIsLater(s: System, step: Step)
    requires Inv(s) && Enabled(s, step)
    ensures Later(s, Apply(s, step))
  {
    match step
    case Enter(c) => EnterIsLater(s, c);
    case LoaderCompletes(id) => CompletionIsLater(s, id);
    case GiveUp(c) => GivingUpIsLater(s, c);
    case _ => OtherStepIsLater(s, step);
  }

  lemma LaterTransitive(a: System, b: System, c: System)
    requires Later(a, b) && Later(b, c)
    ensures Later(a, c)
  {
  }

  /**
   Per key, entries are never removed and their storage time never decreases;
   calls and answers are never rewritten.
   */
  lemma {:induction false} HistoryIsMonotone(clock: Time, steps: seq<Step>, n: nat)
    requires Schedule(clock, steps) && n <= |steps|
    ensures Schedule(clock, steps[..n]) && Later(After(clock, steps[..n]), After(clock, steps))
    decreases |steps|
  {
    if n == |steps| {
      assert steps[..n] == steps;
    } else {
      var before := steps[..|steps| - 1];
      HistoryIsMonotone(clock, before, n);
      assert before[..n] == steps[..n];
      ScheduleKeepsInv(clock, before);
      StepIsLater(After(clock, before), steps[|steps| - 1]);
      LaterTransitive(After(clock, steps[..n]), After(clock, before), After(clock, steps));
    }
  }

  // ---------------------------------------------------------------------------
  // Abandoned calls

  /**
   Once a call is abandoned, nobody waits for it or is answered from it in any
   later state, and when its loader completes after all, it changes neither the
   entries nor the flights, even if a replacement call for the key is in flight.
   */
  lemma AbandonedCallIsSilent(clock: Time, steps: seq<Step>, n: nat, id: CallId)
    requires Schedule(clock, steps) && n <= |steps|
    requires Schedule(clock, steps[..n])
    requires id < |After(clock, steps[..n]).shared.calls| && After(clock, steps[..n]).shared.calls[id].abandoned
    ensures forall c <- After(clock, steps).callers ::
              var caller := After(clock, steps).callers[c];
              !Attends(caller, id) && !(caller.Answered? && caller.source == FromCall(id))
    ensures Enabled(After(clock, steps), LoaderCompletes(id)) ==>
              var s, t := After(clock, steps), Apply(After(clock, steps), LoaderCompletes(id));
              t.shared.entries == s.shared.entries && t.shared.inFlight == s.shared.inFlight && t.callers == s.callers
  {
    HistoryIsMonotone(clock, steps, n);
    ScheduleKeepsInv(clock, steps);
    assert CallLater(After(clock, steps[..n]).shared.calls[id], After(clock, steps).shared.calls[id]);
  }

  // ---------------------------------------------------------------------------
  // Justification

  /** Step `n` completes call `id` with this outcome and clock reading. */
  ghost predicate CompletedAt(clock: Time, steps: seq<Step>, n: nat, id: CallId, outcome: Outcome, at: Time)
    requires Schedule(clock, steps)
  {
    && n < |steps| && steps[n] == LoaderCompletes(id)
    && Schedule(clock, steps[..n])
    && var s := After(clock, steps[..n]);
       && id < |s.loaders| && id < |s.shared.calls|
       && s.loaders[id] == Stamped(outcome, at)
       && !s.shared.calls[id].abandoned
  }

  ghost function EntryBefore(clock: Time, steps: seq<Step>, n: nat, key: Key): Option<Entry>
    requires n <= |steps| && Schedule(clock, steps[..n])
  {
    var entries := After(clock, steps[..n]).shared.entries;
    if key in entries then Some(entries[key]) else None
  }

  lemma CompletedAtExtends(clock: Time, steps: seq<Step>, m: nat, n: nat, id: CallId, outcome: Outcome, at: Time)
    requires Schedule(clock, steps) && m <= |steps| && Schedule(clock, steps[..m])
    requires CompletedAt(clock, steps[..m], n, id, outcome, at)
    ensures CompletedAt(clock, steps, n, id, outcome, at)
    ensures forall key :: EntryBefore(clock, steps[..m], n, key) == EntryBefore(clock, steps, n, key)
  {
    assert steps[..m][..n] == steps[..n];
  }

  /** A finished call that was never abandoned records the step that completed it. */
  lemma {:induction false} CallHistory(clock: Time, steps: seq<Step>, id: CallId) returns (n: nat)
    requires Schedule(clock, steps)
    requires id < |After(clock, steps).shared.calls|
    requires var call := After(clock, steps).shared.calls[id]; call.done && !call.abandoned
    ensures var call := After(clock, steps).shared.calls[id];
      && call.outcome.Some?
      && CompletedAt(clock, steps, n, id, call.outcome.value, call.loadedAt)
      && call.stale == if call.outcome.value.Failed? then EntryBefore(clock, steps, n, call.key) else None
    decreases |steps|
  {
    var last := |steps| - 1;
    var before := steps[..last];
    StepAt(clock, steps, last);
    assert steps[..last + 1] == steps;
    ScheduleKeepsInv(clock, before);
    var s := After(clock, before);
    StepIsLater(s, steps[last]);
    if id < |s.shared.calls| && s.shared.calls[id].done {
      n := CallHistory(clock, before, id);
      CompletedAtExtends(clock, steps, last, n, id, s.shared.calls[id].outcome.value, s.shared.calls[id].loadedAt);
    } else {
      n := last;
      DoneOnlyByCompleting(s, steps[last], id);
    }
  }

  lemma DoneOnlyByCompleting(s: System, step: Step, id: CallId)
    requires Inv(s) && Enabled(s, step)
    requires id < |Apply(s, step).shared.calls| && Apply(s, step).shared.calls[id].done
    requires !(id < |s.shared.calls| && s.shared.calls[id].done)
    ensures step == LoaderCompletes(id) && id < |s.shared.calls|
  {
    match step
    case Enter(c) => EnterShape(s, c);
    case LoaderCompletes(other) => CompleteShape(s, other);
    case _ =>
  }

  /** The outcome a loader carries is the one its callback returned. */
  lemma {:induction false} LoaderHistory(clock: Time, steps: seq<Step>, id: CallId) returns (n: nat)
    requires Schedule(clock, steps)
    requires id < |After(clock, steps).loaders|
    requires var loader := After(clock, steps).loaders[id]; loader.Returned? || loader.Stamped?
    ensures n < |steps| && steps[n] == LoaderReturns(id, After(clock, steps).loaders[id].outcome)
    decreases |steps|
  {
    var last := |steps| - 1;
    var before := steps[..last];
    if steps[last] == LoaderReturns(id, After(clock, steps).loaders[id].outcome) {
      n := last;
    } else {
      n := LoaderHistory(clock, before, id);
    }
  }

  /** The clock reading a loader carries was taken after its callback returned. */
  lemma {:induction false} StampHistory(clock: Time, steps: seq<Step>, id: CallId) returns (n: nat)
    requires Schedule(clock, steps)
    requires id < |After(clock, steps).loaders| && After(clock, steps).loaders[id].Stamped?
    ensures n < |steps| && steps[n] == LoaderReadsClock(id) && Schedule(clock, steps[..n])
    ensures After(clock, steps[..n]).clock == After(clock, steps).loaders[id].at
    ensures id < |After(clock, steps[..n]).loaders|
    ensures After(clock, steps[..n]).loaders[id] == Returned(After(clock, steps).loaders[id].outcome)
    decreases |steps|
  {
    var last := |steps| - 1;
    var before := steps[..last];
    if id < |After(clock, before).loaders| && After(clock, before).loaders[id].Stamped? {
      n := StampHistory(clock, before, id);
      assert before[..n] == steps[..n];
    } else {
      n := last;
    }
  }

  /**
   Every answer taken from a call is justified by the schedule: a fresh value was
   returned by the callback of that very call and is dated by the clock as read after
   it; a stale value was the key's entry when that call failed, and is no older than
   this caller's own bound; an error is the call's own and no entry young enough was
   present.
   */
  lemma WaitedAnswerIsJustified(clock: Time, steps: seq<Step>, c: CallerId)
      returns (completed: nat, read: nat, returned: nat)
    requires Schedule(clock, steps)
    requires var s := After(clock, steps); c in s.callers && s.callers[c].Answered? && s.callers[c].source.FromCall?
    ensures completed < |steps| && Schedule(clock, steps[..completed])
    ensures returned < read < completed && Schedule(clock, steps[..read])
    ensures var caller := After(clock, steps).callers[c]; var id := caller.source.call;
      exists outcome, at ::
        && CompletedAt(clock, steps, completed, id, outcome, at)
        && steps[returned] == LoaderReturns(id, outcome)
        && steps[read] == LoaderReadsClock(id) && After(clock, steps[..read]).clock == at
        && match caller.reply
           case Got(value, Fresh, storedAt) => outcome == Loaded(value) && storedAt == at
           case Got(value, Stale, storedAt) =>
             && outcome.Failed?
             && EntryBefore(clock, steps, completed, caller.request.key) == Some(Entry(value, storedAt))
             && at - storedAt <= caller.request.maxStale
           case LoadError(error) =>
             && outcome == Failed(error)
             && var entry := EntryBefore(clock, steps, completed, caller.request.key);
                entry.Some? ==> at - entry.value.storedAt > caller.request.maxStale
           case ContextError => false
  {
    ScheduleKeepsInv(clock, steps);
    var s := After(clock, steps);
    var id := s.callers[c].source.call;
    completed := CallHistory(clock, steps, id);
    StepAt(clock, steps, completed);
    read := StampHistory(clock, steps[..completed], id);
    assert steps[..completed][..read] == steps[..read];
    returned := LoaderHistory(clock, steps[..read], id);
    var call := s.shared.calls[id];
    assert CompletedAt(clock, steps, completed, id, call.outcome.value, call.loadedAt);
  }

  /** A hit was decided at the step in which the caller entered. */
  lemma {:induction false} HitHistory(clock: Time, steps: seq<Step>, c: CallerId) returns (n: nat)
    requires Schedule(clock, steps)
    requires var s := After(clock, steps); c in s.callers && s.callers[c].Answered? && s.callers[c].source.FromEntry?
    ensures n < |steps| && steps[n] == Enter(c) && Schedule(clock, steps[..n])
    ensures var caller := After(clock, steps).callers[c]; var s := After(clock, steps[..n]);
      && c in s.callers && s.callers[c] == Entering(caller.request, caller.source.readAt)
      && EntryBefore(clock, steps, n, caller.request.key) == Some(caller.source.entry)
      && caller.source.readAt - caller.source.entry.storedAt < caller.request.ttl
      && caller.reply == Got(caller.source.entry.value, Fresh, caller.source.entry.storedAt)
    decreases |steps|
  {
    var last := |steps| - 1;
    var before := steps[..last];
    var s := After(clock, before);
    if c in s.callers && s.callers[c].Answered? {
      ScheduleKeepsInv(clock, before);
      StepIsLater(s, steps[last]);
      n := HitHistory(clock, before, c);
      assert before[..n] == steps[..n];
    } else {
      n := last;
    }
  }

  /**
   A hit returns the entry present when the caller looked, younger than its ttl at its own clock
   reading, which is that of its arrival.
   */
  lemma HitIsJustified(clock: Time, steps: seq<Step>, c: CallerId) returns (arrived: nat, n: nat)
    requires Schedule(clock, steps)
    requires var s := After(clock, steps); c in s.callers && s.callers[c].Answered? && s.callers[c].source.FromEntry?
    ensures arrived < n < |steps| && steps[n] == Enter(c) && Schedule(clock, steps[..n])
    ensures steps[arrived] == Arrive(c, After(clock, steps).callers[c].request) && Schedule(clock, steps[..arrived])
    ensures var caller := After(clock, steps).callers[c]; var readAt := After(clock, steps[..arrived]).clock;
      && caller.source.readAt == readAt
      && EntryBefore(clock, steps, n, caller.request.key) == Some(caller.source.entry)
      && readAt - caller.source.entry.storedAt < caller.request.ttl
      && caller.reply == Got(caller.source.entry.value, Fresh, caller.source.entry.storedAt)
  {
    n := HitHistory(clock, steps, c);
    arrived := ArrivalHistory(clock, steps[..n], c);
    assert steps[..n][..arrived] == steps[..arrived];
  }

  /** In every schedule a caller that enters is answered from the entry of its key if and only if that is young. */
  lemma YoungEntryIsServed(clock: Time, steps: seq<Step>, c: CallerId, n: nat)
    requires Schedule(clock, steps) && n < |steps| && steps[n] == Enter(c)
    ensures Schedule(clock, steps[..n])
    ensures var s := After(clock, steps[..n]);
      && c in s.callers && s.callers[c].Entering? && c in After(clock, steps).callers
      && var request, now, later := s.callers[c].request, s.callers[c].now, After(clock, steps).callers[c];
         if Young(s.shared.entries, request, now) then
           var entry := s.shared.entries[request.key];
           later == Answered(request, FromEntry(now, entry), Got(entry.value, Fresh, entry.storedAt))
         else !(later.Answered? && later.source.FromEntry?)
  {
    StepAt(clock, steps, n);
    ScheduleKeepsInv(clock, steps[..n]);
    HitExactlyWhenYoung(After(clock, steps[..n]), c);
    HistoryIsMonotone(clock, steps, n + 1);
    if !Young(After(clock, steps[..n]).shared.entries, After(clock, steps[..n]).callers[c].request,
        After(clock, steps[..n]).callers[c].now) {
      WaitersAreNotHits(clock, steps, c, n + 1);
    }
  }

  lemma {:induction false} WaitersAreNotHits(clock: Time, steps: seq<Step>, c: CallerId, n: nat)
    requires Schedule(clock, steps) && n <= |steps| && Schedule(clock, steps[..n])
    requires c in After(clock, steps[..n]).callers && After(clock, steps[..n]).callers[c].Parked?
    ensures c in After(clock, steps).callers && !After(clock, steps).callers[c].Entering?
    ensures var later := After(clock, steps).callers[c]; !(later.Answered? && later.source.FromEntry?)
    decreases |steps|
  {
    if n == |steps| {
      assert steps[..n] == steps;
    } else {
      var before := steps[..|steps| - 1];
      assert before[..n] == steps[..n];
      WaitersAreNotHits(clock, before, c, n);
    }
  }

  /** A caller that has not entered yet still holds the time of its arrival. */
  lemma {:induction false} ArrivalHistory(clock: Time, steps: seq<Step>, c: CallerId) returns (n: nat)
    requires Schedule(clock, steps)
    requires c in After(clock, steps).callers && After(clock, steps).callers[c].Entering?
    ensures n < |steps| && steps[n] == Arrive(c, After(clock, steps).callers[c].request) && Schedule(clock, steps[..n])
    ensures After(clock, steps[..n]).clock == After(clock, steps).callers[c].now
    decreases |steps|
  {
    var last := |steps| - 1;
    var before := steps[..last];
    if c in After(clock, before).callers {
      n := ArrivalHistory(clock, before, c);
      assert before[..n] == steps[..n];
    } else {
      n := last;
    }
  }

  /** Whatever is cached was loaded for that key by a call that kept its callers. */
  lemma {:induction false} EntryHistory(clock: Time, steps: seq<Step>, key: Key) returns (n: nat, id: CallId)
    requires Schedule(clock, steps)
    requires key in After(clock, steps).shared.entries
    ensures var entry := After(clock, steps).shared.entries[key];
      && CompletedAt(clock, steps, n, id, Loaded(entry.value), entry.storedAt)
      && After(clock, steps[..n]).shared.calls[id].key == key
    decreases |steps|
  {
    var last := |steps| - 1;
    var before := steps[..last];
    ScheduleKeepsInv(clock, before);
    var s := After(clock, before);
    if key in s.shared.entries && s.shared.entries[key] == After(clock, steps).shared.entries[key] {
      n, id := EntryHistory(clock, before, key);
      var entry := s.shared.entries[key];
      CompletedAtExtends(clock, steps, last, n, id, Loaded(entry.value), entry.storedAt);
      assert before[..n] == steps[..n];
    } else {
      EntriesChangeOnlyByCompleting(s, steps[last]);
      n, id := last, steps[last].call;
      CompleteShape(s, id);
    }
  }

  lemma EntriesChangeOnlyByCompleting(s: System, step: Step)
    requires Inv(s) && Enabled(s, step)
    requires Apply(s, step).shared.entries != s.shared.entries
    ensures step.LoaderCompletes?
  {
    if step.Enter? { EnterShape(s, step.caller); }
  }

  // ---------------------------------------------------------------------------
  // Progress

  lemma Extend(clock: Time, steps: seq<Step>, step: Step) returns (more: seq<Step>)
    requires Schedule(clock, steps) && Enabled(After(clock, steps), step)
    ensures more == steps + [step] && Schedule(clock, more)
    ensures After(clock, more) == Apply(After(clock, steps), step)
    ensures Inv(After(clock, more))
  {
    more := steps + [step];
    assert more[..|more| - 1] == steps;
    ScheduleKeepsInv(clock, more);
  }

  /** The next step of a call's loader, if it has not closed the call yet. */
  function NextLoaderStep(loader: Loader, id: CallId, outcome: Outcome): Step
    requires Active(loader)
  {
    match loader
    case Running => LoaderReturns(id, outcome)
    case Returned(_) => LoaderReadsClock(id)
    case Stamped(_, _) => LoaderCompletes(id)
  }

  function Remaining(loader: Loader): nat {
    match loader
    case Running => 3
    case Returned(_) => 2
    case Stamped(_, _) => 1
    case Closed => 0
    case Exited => 0
  }

  /** How many loader steps caller `c` still has to wait for. */
  function Ahead(s: System, c: CallerId): nat
    requires c in s.callers && s.callers[c].Parked?
  {
    var id := s.callers[c].call;
    if id < |s.loaders| then Remaining(s.loaders[id]) else 0
  }

  lemma LoaderStepIsNearer(s: System, c: CallerId, outcome: Outcome)
    requires Inv(s) && c in s.callers && s.callers[c].Parked? && Ahead(s, c) > 0
    ensures s.callers[c].call < |s.loaders| && Active(s.loaders[s.callers[c].call])
    ensures var step := NextLoaderStep(s.loaders[s.callers[c].call], s.callers[c].call, outcome);
      Enabled(s, step) && Apply(s, step).callers == s.callers && Ahead(Apply(s, step), c) == Ahead(s, c) - 1
  {
  }

  /** One loader step nearer to the answer; no caller has moved. */
  lemma {:induction false} LoaderAdvances(clock: Time, steps: seq<Step>, c: CallerId, outcome: Outcome)
      returns (next: seq<Step>)
    requires Schedule(clock, steps)
    requires c in After(clock, steps).callers && After(clock, steps).callers[c].Parked?
    requires Ahead(After(clock, steps), c) > 0
    ensures |next| == |steps| + 1 && next[..|steps|] == steps && Schedule(clock, next)
    ensures After(clock, next).callers == After(clock, steps).callers
    ensures Ahead(After(clock, next), c) == Ahead(After(clock, steps), c) - 1
  {
    ScheduleKeepsInv(clock, steps);
    var s := After(clock, steps);
    var id := s.callers[c].call;
    LoaderStepIsNearer(s, c, outcome);
    next := Extend(clock, steps, NextLoaderStep(s.loaders[id], id, outcome));
  }

  /** Nobody is stuck: whatever the callback returns, a parked caller can be answered from its call. */
  lemma {:induction false} ParkedCallerCanFinish(clock: Time, steps: seq<Step>, c: CallerId, outcome: Outcome)
    returns (more: seq<Step>)
    requires Schedule(clock, steps)
    requires c in After(clock, steps).callers && After(clock, steps).callers[c].Parked?
    ensures |steps| < |more| && more[..|steps|] == steps && Schedule(clock, more)
    ensures |more| == |steps| + Ahead(After(clock, steps), c) + 1
    ensures c in After(clock, more).callers
    ensures After(clock, more).callers[c].Answered?
    ensures After(clock, more).callers[c].source == FromCall(After(clock, steps).callers[c].call)
    decreases Ahead(After(clock, steps), c)
  {
    if Ahead(After(clock, steps), c) > 0 {
      var next := LoaderAdvances(clock, steps, c, outcome);
      more := ParkedCallerCanFinish(clock, next, c, outcome);
      assert more[..|steps|] == more[..|next|][..|steps|];
    } else {
      ScheduleKeepsInv(clock, steps);
      more := Extend(clock, steps, Wake(c));
    }
  }
}
