/**
 The single-flight, stale-tolerant cache as a transition system.

 Every critical section of the store is one function on the shared data
 (`Lookup`, `Complete`, `Leave`).  Around them stand the callers and the loader
 goroutines, whose private progress between two critical sections is kept in
 `Caller` and `Loader`.  A schedule is any sequence of enabled steps, so a
 property of all schedules holds for every interleaving.
 */
module CacheProtocol {
  import opened Optional

  type Key = string
  type Value = int   // stands for the untyped payload
  type Error = int   // stands for an error value
  type Time = int    // an instant
  type CallId = nat  // the position of a call in the order of creation
  type CallerId = nat

  datatype Outcome = Loaded(value: Value) | Failed(error: Error)

  datatype Entry = Entry(value: Value, storedAt: Time)

  /** The record shared by the callers of one load and its loader. */
  datatype Call = Call(
    key: Key,
    waiters: int,
    abandoned: bool,
    cancelled: bool,
    done: bool,
    outcome: Option<Outcome>,
    loadedAt: Time,
    stale: Option<Entry>)

  /** The data protected by the mutex; `calls` lists every call ever created. */
  datatype Shared = Shared(
    entries: map<Key, Entry>,
    inFlight: map<Key, CallId>,
    calls: seq<Call>)

  datatype LookupReply = Hit(entry: Entry) | Attached(call: CallId)

  ghost predicate WellFormed(s: Shared) {
    forall k <- s.inFlight :: s.inFlight[k] < |s.calls| && s.calls[s.inFlight[k]].key == k
  }

  // ---------------------------------------------------------------------------
  // Critical sections

  function NewCall(key: Key): Call {
    Call(key, 1, false, false, false, None, 0, None)
  }

  /** The first critical section: answer from the cache, join, or start a call. */
  function Lookup(s: Shared, key: Key, ttl: int, now: Time): (Shared, LookupReply)
    requires WellFormed(s)
  {
    if key in s.entries && now - s.entries[key].storedAt < ttl then
      (s, Hit(s.entries[key]))
    else if key in s.inFlight then
      var id := s.inFlight[key];
      var joined := s.calls[id].(waiters := s.calls[id].waiters + 1);
      (s.(calls := s.calls[id := joined]), Attached(id))
    else
      (s.(inFlight := s.inFlight[key := |s.calls|], calls := s.calls + [NewCall(key)]), Attached(|s.calls|))
  }

  /** The loader's critical section, entered with its outcome and clock reading. */
  function Complete(s: Shared, id: CallId, outcome: Outcome, now: Time): Shared
    requires id < |s.calls|
  {
    var call := s.calls[id].(outcome := Some(outcome), loadedAt := now, done := true);
    if call.abandoned || !(call.key in s.inFlight && s.inFlight[call.key] == id) then
      s.(calls := s.calls[id := call])
    else
      var inFlight := s.inFlight - {call.key};
      match outcome
      case Loaded(value) =>
        Shared(s.entries[call.key := Entry(value, now)], inFlight, s.calls[id := call])
      case Failed(_) =>
        var stale := if call.key in s.entries then Some(s.entries[call.key]) else call.stale;
        Shared(s.entries, inFlight, s.calls[id := call.(stale := stale)])
  }

  /** The critical section of a caller whose context ended. */
  function Leave(s: Shared, id: CallId): Shared
    requires id < |s.calls|
  {
    var call := s.calls[id];
    if !(call.key in s.inFlight && s.inFlight[call.key] == id) then s
    else if call.waiters == 1 then
      Shared(s.entries, s.inFlight - {call.key},
             s.calls[id := call.(waiters := 0, abandoned := true, cancelled := true)])
    else
      s.(calls := s.calls[id := call.(waiters := call.waiters - 1)])
  }

  datatype State = Fresh | Stale

  datatype Reply =
    | Got(value: Value, state: State, storedAt: Time)
    | LoadError(error: Error)
    | ContextError

  /** What a caller reads from its call once the call is done. */
  function Answer(call: Call, maxStale: int): Reply
    requires call.outcome.Some?
  {
    match call.outcome.value
    case Loaded(value) => Got(value, Fresh, call.loadedAt)
    case Failed(error) =>
      if call.stale.Some? && call.loadedAt - call.stale.value.storedAt <= maxStale
      then Got(call.stale.value.value, Stale, call.stale.value.storedAt)
      else LoadError(error)
  }

  // ---------------------------------------------------------------------------
  // Callers, loaders and steps

  datatype Request = Request(key: Key, ttl: int, maxStale: int)

  datatype Source = FromEntry(readAt: Time, entry: Entry) | FromCall(call: CallId) | GaveUp

  datatype Caller =
    | Entering(request: Request, now: Time)          // clock read, lock not taken yet
    | Parked(request: Request, call: CallId)         // inside the select statement
    | Leaving(request: Request, call: CallId)        // context ended, lock not taken yet
    | Answered(request: Request, source: Source, reply: Reply)

  datatype Loader =
    | Running                                        // inside the loader callback
    | Returned(outcome: Outcome)                     // callback returned, clock not read yet
    | Stamped(outcome: Outcome, at: Time)            // clock read, lock not taken yet
    | Closed                                         // lock released, deferred cancel pending
    | Exited

  datatype System = System(
    shared: Shared,
    callers: map<CallerId, Caller>,
    loaders: seq<Loader>,
    clock: Time)

  datatype Step =
    | Tick(to: Time)
    | Arrive(caller: CallerId, request: Request)
    | Enter(caller: CallerId)
    | LoaderReturns(call: CallId, outcome: Outcome)
    | LoaderReadsClock(call: CallId)
    | LoaderCompletes(call: CallId)
    | LoaderExits(call: CallId)
    | Cancel(caller: CallerId)
    | GiveUp(caller: CallerId)
    | Wake(caller: CallerId)

  function Initial(clock: Time): System {
    System(Shared(map[], map[], []), map[], [], clock)
  }

  ghost predicate Enabled(s: System, step: Step) {
    && WellFormed(s.shared)
    && |s.loaders| == |s.shared.calls|
    && match step
       case Tick(to) => s.clock <= to
       case Arrive(c, _) => c !in s.callers
       case Enter(c) => c in s.callers && s.callers[c].Entering?
       case LoaderReturns(id, _) => id < |s.loaders| && s.loaders[id].Running?
       case LoaderReadsClock(id) => id < |s.loaders| && s.loaders[id].Returned?
       case LoaderCompletes(id) => id < |s.loaders| && s.loaders[id].Stamped?
       case LoaderExits(id) => id < |s.loaders| && s.loaders[id].Closed?
       case Cancel(c) => c in s.callers && s.callers[c].Parked?
       case GiveUp(c) => c in s.callers && s.callers[c].Leaving? && s.callers[c].call < |s.shared.calls|
       case Wake(c) =>
         && c in s.callers && s.callers[c].Parked? && s.callers[c].call < |s.shared.calls|
         && s.shared.calls[s.callers[c].call].done
         && s.shared.calls[s.callers[c].call].outcome.Some?
  }

  ghost function EnterEffect(s: System, c: CallerId): System
    requires Enabled(s, Enter(c))
  {
    var request, now := s.callers[c].request, s.callers[c].now;
    var (shared, reply) := Lookup(s.shared, request.key, request.ttl, now);
    var caller := match reply
      case Hit(entry) => Answered(request, FromEntry(now, entry), Got(entry.value, Fresh, entry.storedAt))
      case Attached(id) => Parked(request, id);
    var loaders := if |shared.calls| > |s.shared.calls| then s.loaders + [Running] else s.loaders;
    System(shared, s.callers[c := caller], loaders, s.clock)
  }

  ghost function Apply(s: System, step: Step): System
    requires Enabled(s, step)
  {
    match step
    case Tick(to) => s.(clock := to)
    case Arrive(c, request) => s.(callers := s.callers[c := Entering(request, s.clock)])
    case Enter(c) => EnterEffect(s, c)
    case LoaderReturns(id, outcome) => s.(loaders := s.loaders[id := Returned(outcome)])
    case LoaderReadsClock(id) => s.(loaders := s.loaders[id := Stamped(s.loaders[id].outcome, s.clock)])
    case LoaderCompletes(id) =>
      s.(shared := Complete(s.shared, id, s.loaders[id].outcome, s.loaders[id].at),
         loaders := s.loaders[id := Closed])
    case LoaderExits(id) =>
      var calls := s.shared.calls[id := s.shared.calls[id].(cancelled := true)];
      s.(shared := s.shared.(calls := calls), loaders := s.loaders[id := Exited])
    case Cancel(c) => s.(callers := s.callers[c := Leaving(s.callers[c].request, s.callers[c].call)])
    case GiveUp(c) =>
      s.(shared := Leave(s.shared, s.callers[c].call),
         callers := s.callers[c := Answered(s.callers[c].request, GaveUp, ContextError)])
    case Wake(c) =>
      var caller := s.callers[c];
      var reply := Answer(s.shared.calls[caller.call], caller.request.maxStale);
      s.(callers := s.callers[c := Answered(caller.request, FromCall(caller.call), reply)])
  }

  /** A schedule: every step is enabled where it is taken. */
  ghost predicate Schedule(clock: Time, steps: seq<Step>)
    decreases |steps|, 0
  {
    |steps| == 0 ||
    var before := steps[..|steps| - 1];
    Schedule(clock, before) && Enabled(After(clock, before), steps[|steps| - 1])
  }

  /** The system after all steps of a schedule. */
  ghost function After(clock: Time, steps: seq<Step>): System
    requires Schedule(clock, steps)
    decreases |steps|, 1
  {
    if |steps| == 0 then Initial(clock)
    else Apply(After(clock, steps[..|steps| - 1]), steps[|steps| - 1])
  }

  // ---------------------------------------------------------------------------
  // The invariant

  predicate Attends(caller: Caller, id: CallId) {
    (caller.Parked? || caller.Leaving?) && caller.call == id
  }

  /** The callers a call still has: parked, or on their way out. */
  function Attendees(s: System, id: CallId): set<CallerId> {
    set c | c in s.callers && Attends(s.callers[c], id)
  }

  predicate Pending(call: Call) {
    !call.done && !call.abandoned
  }

  predicate Active(loader: Loader) {
    loader.Running? || loader.Returned? || loader.Stamped?
  }

  /** The calls in flight are exactly the pending ones: not done, not abandoned. */
  ghost predicate FlightInv(s: Shared) {
    && WellFormed(s)
    && (forall k <- s.inFlight :: Pending(s.calls[s.inFlight[k]]))
    && (forall id {:trigger s.calls[id]} :: 0 <= id < |s.calls| && Pending(s.calls[id]) ==>
          s.calls[id].key in s.inFlight && s.inFlight[s.calls[id].key] == id)
  }

  /** A pending call counts its callers exactly, and has at least one. */
  ghost predicate CountInv(s: System) {
    forall id {:trigger s.shared.calls[id]} :: 0 <= id < |s.shared.calls| && Pending(s.shared.calls[id]) ==>
      s.shared.calls[id].waiters == |Attendees(s, id)| >= 1
  }

  /** Callers hold on to calls of their own key that were never abandoned. */
  ghost predicate CallerInv(s: System) {
    && (forall c <- s.callers :: s.callers[c].Parked? || s.callers[c].Leaving? ==>
          && s.callers[c].call < |s.shared.calls|
          && s.shared.calls[s.callers[c].call].key == s.callers[c].request.key
          && !s.shared.calls[s.callers[c].call].abandoned)
    && (forall c <- s.callers :: s.callers[c].Answered? && s.callers[c].source.FromCall? ==>
          && s.callers[c].source.call < |s.shared.calls|
          && s.shared.calls[s.callers[c].source.call].done
          && s.shared.calls[s.callers[c].source.call].outcome.Some?
          && s.shared.calls[s.callers[c].source.call].key == s.callers[c].request.key
          && !s.shared.calls[s.callers[c].source.call].abandoned
          && s.callers[c].reply == Answer(s.shared.calls[s.callers[c].source.call], s.callers[c].request.maxStale))
    && (forall c <- s.callers :: s.callers[c].Answered? && s.callers[c].source.FromEntry? ==>
          var source := s.callers[c].source;
          && source.readAt - source.entry.storedAt < s.callers[c].request.ttl
          && s.callers[c].reply == Got(source.entry.value, Fresh, source.entry.storedAt))
    && (forall c <- s.callers :: s.callers[c].Answered? && s.callers[c].source.GaveUp? ==>
          s.callers[c].reply == ContextError)
  }

  /** A call is done exactly when its loader is past its critical section. */
  ghost predicate LoaderInv(s: System) {
    && |s.loaders| == |s.shared.calls|
    && (forall id {:trigger s.loaders[id]} {:trigger s.shared.calls[id]} :: 0 <= id < |s.loaders| ==>
          && (s.shared.calls[id].done <==> !Active(s.loaders[id]))
          && (s.shared.calls[id].done ==> s.shared.calls[id].outcome.Some?)
          && (s.shared.calls[id].cancelled <==> s.shared.calls[id].abandoned || s.loaders[id].Exited?)
          && (!s.shared.calls[id].done ==> s.shared.calls[id].stale == None))
  }

  /** Clock readings lie in the past and follow the entry they may replace. */
  ghost predicate ClockInv(s: System) {
    && |s.loaders| == |s.shared.calls|
    && (forall k <- s.shared.entries :: s.shared.entries[k].storedAt <= s.clock)
    && (forall id {:trigger s.loaders[id]} :: 0 <= id < |s.loaders| && s.loaders[id].Stamped? ==>
          && s.loaders[id].at <= s.clock
          && var call := s.shared.calls[id];
             Pending(call) && call.key in s.shared.entries ==> s.shared.entries[call.key].storedAt <= s.loaders[id].at)
  }

  ghost predicate Inv(s: System) {
    FlightInv(s.shared) && CountInv(s) && CallerInv(s) && LoaderInv(s) && ClockInv(s)
  }
}
