/**
 Every step of the cache protocol keeps the invariant of `CacheProtocol`.
 One lemma per step that matters; the step lemma puts them together.
 */
module CacheSafety {
  import opened CacheProtocol

  lemma AttendeesFrame(s: System, t: System, id: CallId)
    requires forall c :: (c in s.callers && Attends(s.callers[c], id)) <==>
        (c in t.callers && Attends(t.callers[c], id))
    ensures Attendees(s, id) == Attendees(t, id)
  {
  }

  /** When one caller changes, only the calls it attended before or after see a difference. */
  lemma AttendeesChange(s: System, t: System, c: CallerId, id: CallId)
    requires c in t.callers && t.callers == s.callers[c := t.callers[c]]
    ensures !Attends(t.callers[c], id) ==> Attendees(t, id) == Attendees(s, id) - {c}
    ensures Attends(t.callers[c], id) ==> Attendees(t, id) == Attendees(s, id) + {c}
    ensures !(c in s.callers && Attends(s.callers[c], id)) ==> c !in Attendees(s, id)
    ensures c in s.callers && Attends(s.callers[c], id) ==> c in Attendees(s, id)
  {
  }

  // ---------------------------------------------------------------------------
  // The calls in flight are the pending calls

  lemma LookupKeepsFlights(s: Shared, key: Key, ttl: int, now: Time)
    requires FlightInv(s)
    ensures FlightInv(Lookup(s, key, ttl, now).0)
  {
  }

  lemma CompleteKeepsFlights(s: Shared, id: CallId, outcome: Outcome, now: Time)
    requires FlightInv(s) && id < |s.calls|
    ensures FlightInv(Complete(s, id, outcome, now))
  {
  }

  lemma LeaveKeepsFlights(s: Shared, id: CallId)
    requires FlightInv(s) && id < |s.calls|
    ensures FlightInv(Leave(s, id))
  {
  }

  // ---------------------------------------------------------------------------
  // Entering

  /** What entering does to the calls: join one pending call, start one, or nothing. */
  lemma EnterShape(s: System, c: CallerId)
    requires Inv(s) && Enabled(s, Enter(c))
    ensures var t := Apply(s, Enter(c));
      && t.callers == s.callers[c := t.callers[c]] && t.clock == s.clock && t.shared.entries == s.shared.entries
      && (t.callers[c].Answered? ==> t.shared == s.shared && t.loaders == s.loaders)
      && (t.callers[c].Parked? ==>
            var id := t.callers[c].call;
            && t.callers[c].request == s.callers[c].request
            && (if id < |s.shared.calls|
                then && Pending(s.shared.calls[id]) && s.shared.calls[id].key == s.callers[c].request.key
                     && t.shared.calls ==
                        s.shared.calls[id := s.shared.calls[id].(waiters := s.shared.calls[id].waiters + 1)]
                     && t.loaders == s.loaders
                else && id == |s.shared.calls| && t.shared.calls == s.shared.calls + [NewCall(s.callers[c].request.key)]
                     && t.loaders == s.loaders + [Running]))
      && !t.callers[c].Leaving? && !t.callers[c].Entering?
  {
  }

  /** The entry of the key is younger than the caller asks for, by the caller's own clock reading. */
  predicate Young(entries: map<Key, Entry>, request: Request, now: Time) {
    request.key in entries && now - entries[request.key].storedAt < request.ttl
  }

  /** A caller is answered from the cache if and only if there is a young entry; otherwise it waits. */
  lemma HitExactlyWhenYoung(s: System, c: CallerId)
    requires Inv(s) && Enabled(s, Enter(c))
    ensures var request, now := s.callers[c].request, s.callers[c].now;
      var caller := Apply(s, Enter(c)).callers[c];
      if Young(s.shared.entries, request, now) then
        var entry := s.shared.entries[request.key];
        caller == Answered(request, FromEntry(now, entry), Got(entry.value, Fresh, entry.storedAt))
      else
        caller.Parked? && caller.request == request
  {
  }

  lemma EnterKeepsCounts(s: System, c: CallerId)
    requires Inv(s) && Enabled(s, Enter(c))
    ensures CountInv(Apply(s, Enter(c)))
  {
    var t := Apply(s, Enter(c));
    EnterShape(s, c);
    assert Attendees(s, |s.shared.calls|) == {};
    forall id {:trigger t.shared.calls[id]} | 0 <= id < |t.shared.calls| && Pending(t.shared.calls[id])
      ensures t.shared.calls[id].waiters == |Attendees(t, id)| >= 1
    {
      AttendeesChange(s, t, c, id);
      if !Attends(t.callers[c], id) {
        assert Attendees(t, id) == Attendees(s, id);
      }
    }
  }

  lemma EnterKeepsCallers(s: System, c: CallerId)
    requires Inv(s) && Enabled(s, Enter(c))
    ensures CallerInv(Apply(s, Enter(c)))
  {
    EnterShape(s, c);
  }

  lemma EnterKeepsLoaders(s: System, c: CallerId)
    requires Inv(s) && Enabled(s, Enter(c))
    ensures LoaderInv(Apply(s, Enter(c))) && ClockInv(Apply(s, Enter(c)))
  {
    EnterShape(s, c);
    var t := Apply(s, Enter(c));
    assert LoaderInv(t);
    assert ClockInv(t);
  }

  // ---------------------------------------------------------------------------
  // Completing

  /** Completing closes one call that was open, and touches no other. */
  lemma CompleteShape(s: System, id: CallId)
    requires Inv(s) && Enabled(s, LoaderCompletes(id))
    ensures var t := Apply(s, LoaderCompletes(id)); var call := s.shared.calls[id];
      && !call.done
      && t.callers == s.callers && t.clock == s.clock && t.loaders == s.loaders[id := Closed]
      && |t.shared.calls| == |s.shared.calls|
      && (forall i {:trigger t.shared.calls[i]} :: 0 <= i < |s.shared.calls| && i != id ==>
           t.shared.calls[i] == s.shared.calls[i])
      && t.shared.calls[id].done && t.shared.calls[id].outcome.Some?
      && t.shared.calls[id].key == call.key
      && t.shared.calls[id].abandoned == call.abandoned && t.shared.calls[id].cancelled == call.cancelled
      && (call.abandoned || s.loaders[id].outcome.Failed? ==> t.shared.entries == s.shared.entries)
      && (!call.abandoned && s.loaders[id].outcome.Loaded? ==>
            t.shared.entries == s.shared.entries[call.key := Entry(s.loaders[id].outcome.value, s.loaders[id].at)])
  {
  }

  lemma CompleteKeepsCounts(s: System, id: CallId)
    requires Inv(s) && Enabled(s, LoaderCompletes(id))
    ensures CountInv(Apply(s, LoaderCompletes(id)))
  {
    var t := Apply(s, LoaderCompletes(id));
    forall other: CallId ensures Attendees(s, other) == Attendees(t, other) {}
  }

  lemma CompleteKeepsCallers(s: System, id: CallId)
    requires Inv(s) && Enabled(s, LoaderCompletes(id))
    ensures CallerInv(Apply(s, LoaderCompletes(id)))
  {
    CompleteShape(s, id);
  }

  lemma CompleteKeepsLoaders(s: System, id: CallId)
    requires Inv(s) && Enabled(s, LoaderCompletes(id))
    ensures LoaderInv(Apply(s, LoaderCompletes(id)))
  {
    CompleteShape(s, id);
  }

  /** The only other loader that could hold a reading for this key is not pending. */
  lemma CompleteKeepsClock(s: System, id: CallId)
    requires Inv(s) && Enabled(s, LoaderCompletes(id))
    ensures ClockInv(Apply(s, LoaderCompletes(id)))
  {
    CompleteShape(s, id);
    var t := Apply(s, LoaderCompletes(id));
    forall i {:trigger t.loaders[i]} | 0 <= i < |t.loaders| && t.loaders[i].Stamped?
      ensures && t.loaders[i].at <= t.clock
              && var call := t.shared.calls[i];
                 Pending(call) && call.key in t.shared.entries ==>
                     t.shared.entries[call.key].storedAt <= t.loaders[i].at
    {
      assert t.loaders[i] == s.loaders[i] && i != id;
      if Pending(s.shared.calls[i]) && s.shared.calls[i].key == s.shared.calls[id].key {
        assert s.shared.inFlight[s.shared.calls[i].key] == i;
        assert s.shared.calls[id].abandoned;
      }
    }
  }

  // ---------------------------------------------------------------------------
  // Giving up

  /** Giving up touches one call at most, and no entry and no loader. */
  lemma GiveUpShape(s: System, c: CallerId)
    requires Inv(s) && Enabled(s, GiveUp(c))
    ensures var t := Apply(s, GiveUp(c)); var left := s.callers[c].call; var call := s.shared.calls[left];
      && t.callers == s.callers[c := Answered(s.callers[c].request, GaveUp, ContextError)]
      && t.clock == s.clock && t.loaders == s.loaders && t.shared.entries == s.shared.entries
      && |t.shared.calls| == |s.shared.calls|
      && (forall i {:trigger t.shared.calls[i]} :: 0 <= i < |s.shared.calls| && i != left ==>
            t.shared.calls[i] == s.shared.calls[i])
      && (if !Pending(call) then t.shared.calls[left] == call
          else if call.waiters == 1 then
            t.shared.calls[left] == call.(waiters := 0, abandoned := true, cancelled := true)
          else t.shared.calls[left] == call.(waiters := call.waiters - 1))
  {
  }

  lemma GiveUpKeepsCounts(s: System, c: CallerId)
    requires Inv(s) && Enabled(s, GiveUp(c))
    ensures CountInv(Apply(s, GiveUp(c)))
  {
    var t := Apply(s, GiveUp(c));
    var left := s.callers[c].call;
    GiveUpShape(s, c);
    forall id {:trigger t.shared.calls[id]} | 0 <= id < |t.shared.calls| && Pending(t.shared.calls[id])
      ensures t.shared.calls[id].waiters == |Attendees(t, id)| >= 1
    {
      AttendeesChange(s, t, c, id);
      if id != left {
        assert Attendees(s, id) - {c} == Attendees(s, id);
      }
    }
  }

  /** The call is abandoned only with its last caller, so nobody holds on to it. */
  lemma GiveUpKeepsCallers(s: System, c: CallerId)
    requires Inv(s) && Enabled(s, GiveUp(c))
    ensures CallerInv(Apply(s, GiveUp(c)))
  {
    var t := Apply(s, GiveUp(c));
    var left := s.callers[c].call;
    GiveUpShape(s, c);
    AttendeesChange(s, t, c, left);
    if t.shared.calls[left].abandoned {
      assert |Attendees(s, left)| == 1;
      assert |Attendees(s, left) - {c}| == 0;
      assert Attendees(t, left) == {};
      assert forall d <- t.callers :: Attends(t.callers[d], left) ==> d in Attendees(t, left);
    }
  }

  lemma GiveUpKeepsLoaders(s: System, c: CallerId)
    requires Inv(s) && Enabled(s, GiveUp(c))
    ensures LoaderInv(Apply(s, GiveUp(c))) && ClockInv(Apply(s, GiveUp(c)))
  {
    GiveUpShape(s, c);
  }

  /** A caller that wakes leaves a call that is done, so no pending count is touched. */
  lemma WakeKeepsCounts(s: System, c: CallerId)
    requires Inv(s) && Enabled(s, Wake(c))
    ensures CountInv(Apply(s, Wake(c)))
  {
    var t := Apply(s, Wake(c));
    assert t.callers == s.callers[c := t.callers[c]];
    forall id {:trigger t.shared.calls[id]} | 0 <= id < |t.shared.calls| && Pending(t.shared.calls[id])
      ensures t.shared.calls[id].waiters == |Attendees(t, id)| >= 1
    {
      AttendeesChange(s, t, c, id);
      assert Attendees(t, id) == Attendees(s, id);
    }
  }

  lemma WakeKeepsInv(s: System, c: CallerId)
    requires Inv(s) && Enabled(s, Wake(c))
    ensures Inv(Apply(s, Wake(c)))
  {
    WakeKeepsCounts(s, c);
    assert CallerInv(Apply(s, Wake(c)));
  }

  /** A caller that starts to leave is still counted. */
  lemma CancelKeepsCounts(s: System, c: CallerId)
    requires Inv(s) && Enabled(s, Cancel(c))
    ensures CountInv(Apply(s, Cancel(c)))
  {
    var t := Apply(s, Cancel(c));
    assert t.callers == s.callers[c := t.callers[c]];
    forall id {:trigger t.shared.calls[id]} | 0 <= id < |t.shared.calls| && Pending(t.shared.calls[id])
      ensures t.shared.calls[id].waiters == |Attendees(t, id)| >= 1
    {
      AttendeesChange(s, t, c, id);
      assert Attendees(t, id) == Attendees(s, id);
    }
  }

  lemma CancelKeepsInv(s: System, c: CallerId)
    requires Inv(s) && Enabled(s, Cancel(c))
    ensures Inv(Apply(s, Cancel(c)))
  {
    CancelKeepsCounts(s, c);
    assert CallerInv(Apply(s, Cancel(c)));
  }

  lemma OutsideStepKeepsInv(s: System, step: Step)
    requires Inv(s) && Enabled(s, step) && (step.Tick? || step.Arrive?)
    ensures Inv(Apply(s, step))
  {
    var t := Apply(s, step);
    forall id: CallId ensures Attendees(s, id) == Attendees(t, id) {
      AttendeesFrame(s, t, id);
    }
    assert CallerInv(t);
  }

  /** A loader on its way: the callers stay where they are. */
  lemma LoaderStepKeepsCallers(s: System, step: Step)
    requires Inv(s) && Enabled(s, step) && (step.LoaderReturns? || step.LoaderReadsClock? || step.LoaderExits?)
    ensures var t := Apply(s, step); FlightInv(t.shared) && CountInv(t) && CallerInv(t)
  {
    var t := Apply(s, step);
    forall id: CallId ensures Attendees(s, id) == Attendees(t, id) {
      AttendeesFrame(s, t, id);
    }
  }

  lemma LoaderStepKeepsLoaders(s: System, step: Step)
    requires Inv(s) && Enabled(s, step) && (step.LoaderReturns? || step.LoaderReadsClock? || step.LoaderExits?)
    ensures var t := Apply(s, step); LoaderInv(t) && ClockInv(t)
  {
  }

  /** No step of any caller or loader breaks the invariant. */
  lemma StepKeepsInv(s: System, step: Step)
    requires Inv(s) && Enabled(s, step)
    ensures Inv(Apply(s, step))
  {
    match step
    case Enter(c) =>
      LookupKeepsFlights(s.shared, s.callers[c].request.key, s.callers[c].request.ttl, s.callers[c].now);
      EnterKeepsCounts(s, c);
      EnterKeepsCallers(s, c);
      EnterKeepsLoaders(s, c);
    case GiveUp(c) =>
      LeaveKeepsFlights(s.shared, s.callers[c].call);
      GiveUpKeepsCounts(s, c);
      GiveUpKeepsCallers(s, c);
      GiveUpKeepsLoaders(s, c);
    case LoaderCompletes(id) =>
      CompleteKeepsFlights(s.shared, id, s.loaders[id].outcome, s.loaders[id].at);
      CompleteKeepsCounts(s, id);
      CompleteKeepsCallers(s, id);
      CompleteKeepsLoaders(s, id);
      CompleteKeepsClock(s, id);
    case Cancel(c) => CancelKeepsInv(s, c);
    case Wake(c) => WakeKeepsInv(s, c);
    case Tick(_) => OutsideStepKeepsInv(s, step);
    case Arrive(_, _) => OutsideStepKeepsInv(s, step);
    case _ =>
      LoaderStepKeepsCallers(s, step);
      LoaderStepKeepsLoaders(s, step);
  }

  lemma {:induction false} ScheduleKeepsInv(clock: Time, steps: seq<Step>)
    requires Schedule(clock, steps)
    ensures Inv(After(clock, steps))
    decreases |steps|
  {
    if |steps| > 0 {
      var before := steps[..|steps| - 1];
      ScheduleKeepsInv(clock, before);
      StepKeepsInv(After(clock, before), steps[|steps| - 1]);
    }
  }
}
