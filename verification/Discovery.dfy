/**
 Discovery of the metric datasource: the first caller loads, later callers wait for
 its flight, and a positive id is remembered for good.  Unlike the cache, the load
 runs in the goroutine of the caller that opened the flight.
 */
module Discovery {
  import opened Optional

  type CallerId = nat
  type FlightId = nat

  datatype Answer = Found(id: int) | Unavailable

  /** Zero values stand for an id not set and an error not set, as in the program. */
  datatype Flight = Flight(done: bool, id: int, failed: bool)

  datatype Shared = Shared(storedId: int, open: Option<FlightId>, flights: seq<Flight>)

  datatype EnterReply = Known(id: int) | Join(flight: FlightId) | Lead(flight: FlightId)

  // ---------------------------------------------------------------------------
  // Critical sections

  function Enter(s: Shared): (Shared, EnterReply) {
    if s.storedId > 0 then (s, Known(s.storedId))
    else match s.open
      case Some(flight) => (s, Join(flight))
      case None => (s.(open := Some(|s.flights|), flights := s.flights + [Flight(false, 0, false)]), Lead(|s.flights|))
  }

  /** The leader publishes; a load without error but without a positive id counts as failed. */
  function Publish(s: Shared, flight: FlightId, loaded: Option<int>): (Shared, Answer)
    requires flight < |s.flights|
  {
    var f := s.flights[flight];
    if loaded.Some? && loaded.value > 0 then
      (Shared(loaded.value, None, s.flights[flight := Flight(true, loaded.value, f.failed)]), Found(loaded.value))
    else
      (Shared(s.storedId, None, s.flights[flight := Flight(true, f.id, true)]), Unavailable)
  }

  /** What a waiter reads from a closed flight. */
  function Await(f: Flight): Answer {
    if f.failed || f.id <= 0 then Unavailable else Found(f.id)
  }

  // ---------------------------------------------------------------------------
  // Callers and steps

  datatype Caller =
    | Waiting(flight: FlightId)
    | Leading(flight: FlightId)                        // loading, no lock held
    | Publishing(flight: FlightId, loaded: Option<int>)   // loaded; None is an error
    | Returned(answer: Answer)

  datatype System = System(shared: Shared, callers: map<CallerId, Caller>)

  datatype Step =
    | Arrive(caller: CallerId)
    | Load(caller: CallerId, loaded: Option<int>)
    | Close(caller: CallerId)
    | Wake(caller: CallerId)
    | Cancel(caller: CallerId)

  const INITIAL := System(Shared(0, None, []), map[])

  ghost predicate Enabled(s: System, step: Step) {
    match step
    case Arrive(c) => c !in s.callers
    case Load(c, _) => c in s.callers && s.callers[c].Leading?
    case Close(c) => c in s.callers && s.callers[c].Publishing? && s.callers[c].flight < |s.shared.flights|
    case Wake(c) =>
      c in s.callers && s.callers[c].Waiting? && s.callers[c].flight < |s.shared.flights| &&
          s.shared.flights[s.callers[c].flight].done
    case Cancel(c) => c in s.callers && s.callers[c].Waiting?
  }

  ghost function Apply(s: System, step: Step): System
    requires Enabled(s, step)
  {
    match step
    case Arrive(c) =>
      var (shared, reply) := Enter(s.shared);
      var caller := match reply
        case Known(id) => Returned(Found(id))
        case Join(flight) => Waiting(flight)
        case Lead(flight) => Leading(flight);
      System(shared, s.callers[c := caller])
    case Load(c, loaded) => s.(callers := s.callers[c := Publishing(s.callers[c].flight, loaded)])
    case Close(c) =>
      var (shared, answer) := Publish(s.shared, s.callers[c].flight, s.callers[c].loaded);
      System(shared, s.callers[c := Returned(answer)])
    case Wake(c) => s.(callers := s.callers[c := Returned(Await(s.shared.flights[s.callers[c].flight]))])
    case Cancel(c) => s.(callers := s.callers[c := Returned(Unavailable)])
  }

  ghost predicate Schedule(steps: seq<Step>)
    decreases |steps|, 0
  {
    |steps| == 0 ||
    (Schedule(steps[..|steps| - 1]) && Enabled(After(steps[..|steps| - 1]), steps[|steps| - 1]))
  }

  ghost function After(steps: seq<Step>): System
    requires Schedule(steps)
    decreases |steps|, 1
  {
    if |steps| == 0 then INITIAL else Apply(After(steps[..|steps| - 1]), steps[|steps| - 1])
  }

  // ---------------------------------------------------------------------------
  // Invariant

  /** The caller that is loading for a flight, or about to publish its load. */
  predicate Leads(caller: Caller, flight: FlightId) {
    AtWork(caller) && caller.flight == flight
  }

  predicate AtWork(caller: Caller) {
    caller.Leading? || caller.Publishing?
  }

  ghost predicate FlightInv(s: Shared) {
    && s.storedId >= 0
    && (s.open.Some? ==> s.open.value < |s.flights| && s.storedId == 0)
    && (forall f | 0 <= f < |s.flights| :: !s.flights[f].done <==> s.open == Some(f))
    && (forall f | 0 <= f < |s.flights| :: !s.flights[f].done ==> s.flights[f] == Flight(false, 0, false))
    && (forall f | 0 <= f < |s.flights| && s.flights[f].done ::
          (s.flights[f].failed && s.flights[f].id == 0) || (!s.flights[f].failed && s.flights[f].id == s.storedId > 0))
  }

  ghost predicate CallerInv(s: System) {
    && (forall c <- s.callers :: s.callers[c].Waiting? ==> s.callers[c].flight < |s.shared.flights|)
    && (forall c <- s.callers :: AtWork(s.callers[c]) ==> s.shared.open == Some(s.callers[c].flight))
    && (forall c, d | c in s.callers && d in s.callers && AtWork(s.callers[c]) && AtWork(s.callers[d]) :: c == d)
    && (s.shared.open.Some? ==> exists c :: c in s.callers && Leads(s.callers[c], s.shared.open.value))
    && (forall c <- s.callers :: s.callers[c].Returned? && s.callers[c].answer.Found? ==>
          s.callers[c].answer.id == s.shared.storedId > 0)
  }

  ghost predicate Inv(s: System) {
    FlightInv(s.shared) && CallerInv(s)
  }

  lemma ArriveKeepsInv(s: System, c: CallerId)
    requires Inv(s) && Enabled(s, Arrive(c))
    ensures Inv(Apply(s, Arrive(c)))
  {
    var t := Apply(s, Arrive(c));
    assert FlightInv(t.shared);
    if s.shared.open.Some? && s.shared.storedId == 0 {
      var leader :| leader in s.callers && Leads(s.callers[leader], s.shared.open.value);
      assert leader in t.callers && Leads(t.callers[leader], t.shared.open.value);
    } else if s.shared.storedId == 0 {
      assert Leads(t.callers[c], t.shared.open.value);
    }
  }

  lemma MoveKeepsInv(s: System, step: Step)
    requires Inv(s) && Enabled(s, step) && !step.Arrive? && !step.Close?
    ensures Inv(Apply(s, step))
  {
    var t := Apply(s, step);
    if s.shared.open.Some? {
      var leader :| leader in s.callers && Leads(s.callers[leader], s.shared.open.value);
      assert leader in t.callers && Leads(t.callers[leader], t.shared.open.value);
    }
  }

  lemma CloseKeepsInv(s: System, c: CallerId)
    requires Inv(s) && Enabled(s, Close(c))
    ensures Inv(Apply(s, Close(c)))
  {
  }

  // ---------------------------------------------------------------------------
  // Schedules

  /** A stored id is never replaced, and a closed flight never changes again. */
  ghost predicate Later(a: System, b: System) {
    && (a.shared.storedId > 0 ==> b.shared.storedId == a.shared.storedId)
    && |a.shared.flights| <= |b.shared.flights|
    && (forall f | 0 <= f < |a.shared.flights| && a.shared.flights[f].done ::
          b.shared.flights[f] == a.shared.flights[f])
    && (forall c <- a.callers :: a.callers[c].Returned? ==> c in b.callers && b.callers[c] == a.callers[c])
  }

  lemma StepKeepsInv(s: System, step: Step)
    requires Inv(s) && Enabled(s, step)
    ensures Inv(Apply(s, step)) && Later(s, Apply(s, step))
  {
    match step
    case Arrive(c) => ArriveKeepsInv(s, c);
    case Close(c) => CloseKeepsInv(s, c);
    case _ => MoveKeepsInv(s, step);
  }

  lemma {:induction false} ScheduleKeepsInv(steps: seq<Step>)
    requires Schedule(steps)
    ensures Inv(After(steps))
    decreases |steps|
  {
    if |steps| > 0 {
      ScheduleKeepsInv(steps[..|steps| - 1]);
      StepKeepsInv(After(steps[..|steps| - 1]), steps[|steps| - 1]);
    }
  }

  lemma {:induction false} DiscoveryIsFinal(steps: seq<Step>, n: nat)
    requires Schedule(steps) && n <= |steps|
    ensures Schedule(steps[..n]) && Later(After(steps[..n]), After(steps))
    decreases |steps|
  {
    if n == |steps| {
      assert steps[..n] == steps;
    } else {
      var before := steps[..|steps| - 1];
      DiscoveryIsFinal(before, n);
      assert before[..n] == steps[..n];
      ScheduleKeepsInv(before);
      StepKeepsInv(After(before), steps[|steps| - 1]);
    }
  }

  /**
   In every reachable state at most one flight is open and none once an id is
   stored; a closed flight carries either an error or the positive stored id.
   */
  lemma AtMostOneOpenFlight(steps: seq<Step>)
    requires Schedule(steps)
    ensures var s := After(steps).shared;
      && (forall f, g | 0 <= f < |s.flights| && 0 <= g < |s.flights| && !s.flights[f].done && !s.flights[g].done ::
            f == g)
      && (s.storedId != 0 ==> s.storedId > 0 && s.open == None && forall f | 0 <= f < |s.flights| :: s.flights[f].done)
      && (forall f | 0 <= f < |s.flights| && s.flights[f].done ::
            Await(s.flights[f]) == (if s.flights[f].failed then Unavailable else Found(s.storedId)))
  {
    ScheduleKeepsInv(steps);
  }

  /** Over a whole schedule, every caller that succeeds gets the same positive id. */
  lemma AllCallersAgree(steps: seq<Step>, m: nat, n: nat, c: CallerId, d: CallerId)
    requires Schedule(steps) && m <= |steps| && n <= |steps|
    requires Schedule(steps[..m]) && Schedule(steps[..n])
    requires c in After(steps[..m]).callers && d in After(steps[..n]).callers
    requires After(steps[..m]).callers[c].Returned? && After(steps[..m]).callers[c].answer.Found?
    requires After(steps[..n]).callers[d].Returned? && After(steps[..n]).callers[d].answer.Found?
    ensures After(steps[..m]).callers[c].answer.id == After(steps[..n]).callers[d].answer.id > 0
  {
    DiscoveryIsFinal(steps, m);
    DiscoveryIsFinal(steps, n);
    ScheduleKeepsInv(steps);
  }

  // ---------------------------------------------------------------------------
  // The loaded id

  /** The leader that loaded a positive id stores it and gets it; any other load is answered as unavailable. */
  lemma CloseTellsLoad(s: System, c: CallerId)
    requires Inv(s) && Enabled(s, Close(c))
    ensures var loaded, f, t := s.callers[c].loaded, s.callers[c].flight, Apply(s, Close(c));
      && t.shared.open == None && |t.shared.flights| == |s.shared.flights|
      && t.shared.flights == s.shared.flights[f := t.shared.flights[f]]
      && (forall d <- t.callers :: d == c || (d in s.callers && t.callers[d] == s.callers[d]))
      && if loaded.Some? && loaded.value > 0
         then t.callers[c] == Returned(Found(loaded.value)) && t.shared.storedId == loaded.value &&
              t.shared.flights[f] == Flight(true, loaded.value, false)
         else t.callers[c] == Returned(Unavailable) && t.shared.storedId == s.shared.storedId == 0 &&
              t.shared.flights[f] == Flight(true, 0, true)
  {
  }

  /** What an arriving caller finds: the stored id, a flight to wait for, or a flight of its own. */
  lemma ArriveShape(s: System, c: CallerId)
    requires Inv(s) && Enabled(s, Arrive(c))
    ensures var t := Apply(s, Arrive(c));
      && t.shared.storedId == s.shared.storedId
      && if s.shared.storedId > 0 then t.callers[c] == Returned(Found(s.shared.storedId)) && t.shared == s.shared
         else if s.shared.open.Some? then t.callers[c] == Waiting(s.shared.open.value) && t.shared == s.shared
         else t.callers[c] == Leading(|s.shared.flights|) && t.shared.open == Some(|s.shared.flights|)
  {
  }

  /** A load that waits to be published is the one its caller made. */
  lemma {:induction false} LoadHistory(steps: seq<Step>, c: CallerId) returns (n: nat)
    requires Schedule(steps)
    requires c in After(steps).callers && After(steps).callers[c].Publishing?
    ensures n < |steps| && steps[n] == Load(c, After(steps).callers[c].loaded)
    decreases |steps|
  {
    var before, last := steps[..|steps| - 1], |steps| - 1;
    if steps[last] == Load(c, After(steps).callers[c].loaded) {
      n := last;
    } else {
      n := LoadHistory(before, c);
    }
  }

  /** Step n closes this flight after this load by its caller. */
  ghost predicate ClosedAt(steps: seq<Step>, n: nat, f: FlightId, loaded: Option<int>)
    requires Schedule(steps)
  {
    && n < |steps| && steps[n].Close? && Schedule(steps[..n])
    && var s, c := After(steps[..n]), steps[n].caller;
       c in s.callers && s.callers[c] == Publishing(f, loaded)
  }

  /** Every closed flight carries the load of the caller that closed it: its positive id, or else a failure. */
  lemma {:induction false} FlightHistory(steps: seq<Step>, f: FlightId) returns (n: nat, loaded: Option<int>)
    requires Schedule(steps)
    requires f < |After(steps).shared.flights| && After(steps).shared.flights[f].done
    ensures ClosedAt(steps, n, f, loaded)
    ensures After(steps).shared.flights[f] ==
            if loaded.Some? && loaded.value > 0 then Flight(true, loaded.value, false) else Flight(true, 0, true)
    decreases |steps|
  {
    var before, last := steps[..|steps| - 1], |steps| - 1;
    ScheduleKeepsInv(before);
    var s := After(before);
    StepKeepsInv(s, steps[last]);
    if f < |s.shared.flights| && s.shared.flights[f].done {
      n, loaded := FlightHistory(before, f);
      assert before[..n] == steps[..n];
    } else {
      OnlyCloseCloses(s, steps[last], f);
      n, loaded := last, s.callers[steps[last].caller].loaded;
      CloseTellsLoad(s, steps[last].caller);
    }
  }

  lemma OnlyCloseCloses(s: System, step: Step, f: FlightId)
    requires Inv(s) && Enabled(s, step)
    requires f < |Apply(s, step).shared.flights| && Apply(s, step).shared.flights[f].done
    requires !(f < |s.shared.flights| && s.shared.flights[f].done)
    ensures step.Close? && s.callers[step.caller].flight == f
  {
  }

  /** A stored id was loaded, and so was the id any caller got. */
  lemma {:induction false} StoredIdWasLoaded(steps: seq<Step>) returns (n: nat, c: CallerId)
    requires Schedule(steps) && After(steps).shared.storedId != 0
    ensures n < |steps| && steps[n] == Load(c, Some(After(steps).shared.storedId))
    decreases |steps|
  {
    var before, last := steps[..|steps| - 1], |steps| - 1;
    ScheduleKeepsInv(before);
    var s := After(before);
    if s.shared.storedId != 0 {
      StepKeepsInv(s, steps[last]);
      n, c := StoredIdWasLoaded(before);
    } else if steps[last].Close? {
      c := steps[last].caller;
      CloseTellsLoad(s, c);
      n := LoadHistory(before, c);
    } else if steps[last].Arrive? {
      ArriveShape(s, steps[last].caller);
    }
  }

  lemma FoundWasLoaded(steps: seq<Step>, d: CallerId) returns (n: nat, c: CallerId)
    requires Schedule(steps)
    requires d in After(steps).callers && After(steps).callers[d].Returned? && After(steps).callers[d].answer.Found?
    ensures n < |steps| && steps[n] == Load(c, Some(After(steps).callers[d].answer.id))
    ensures After(steps).callers[d].answer.id > 0
  {
    ScheduleKeepsInv(steps);
    n, c := StoredIdWasLoaded(steps);
  }

  /** In every schedule the caller that closes a flight gets what it loaded, and a positive id is stored for good. */
  lemma LeaderGetsLoad(steps: seq<Step>, n: nat, f: FlightId, loaded: Option<int>) returns (m: nat)
    requires Schedule(steps) && ClosedAt(steps, n, f, loaded)
    ensures m < n && steps[m] == Load(steps[n].caller, loaded)
    ensures steps[n].caller in After(steps).callers
    ensures After(steps).callers[steps[n].caller] ==
            Returned(if loaded.Some? && loaded.value > 0 then Found(loaded.value) else Unavailable)
    ensures loaded.Some? && loaded.value > 0 ==> After(steps).shared.storedId == loaded.value
  {
    DiscoveryIsFinal(steps, n + 1);
    DiscoveryIsFinal(steps, n);
    assert steps[..n + 1][..n] == steps[..n];
    ScheduleKeepsInv(steps[..n]);
    CloseTellsLoad(After(steps[..n]), steps[n].caller);
    m := LoadHistory(steps[..n], steps[n].caller);
  }

  /** A waiter that wakes gets what the caller that closed its flight had loaded. */
  lemma WaiterGetsLoad(steps: seq<Step>, c: CallerId) returns (n: nat, loaded: Option<int>)
    requires Schedule(steps) && Enabled(After(steps), Wake(c))
    ensures ClosedAt(steps, n, After(steps).callers[c].flight, loaded)
    ensures Apply(After(steps), Wake(c)).callers[c] ==
            Returned(if loaded.Some? && loaded.value > 0 then Found(loaded.value) else Unavailable)
  {
    n, loaded := FlightHistory(steps, After(steps).callers[c].flight);
  }

  /** A waiting caller is never stuck: its flight is closed, or a leader is at work on it. */
  lemma WaiterHasLeader(steps: seq<Step>, c: CallerId)
    requires Schedule(steps)
    requires c in After(steps).callers && After(steps).callers[c].Waiting?
    ensures var s := After(steps); var f := s.callers[c].flight;
      && f < |s.shared.flights|
      && (s.shared.flights[f].done || exists leader :: leader in s.callers && Leads(s.callers[leader], f))
  {
    ScheduleKeepsInv(steps);
  }

  // ---------------------------------------------------------------------------
  // The provider's fields

  class FlightRecord {
    ghost const number: FlightId
    var done: bool
    var id: int
    var failed: bool

    constructor (ghost number: FlightId)
      ensures this.number == number && View() == Flight(false, 0, false)
    {
      this.number := number;
      done, id, failed := false, 0, false;
    }

    ghost function View(): Flight
      reads this
    {
      Flight(done, id, failed)
    }
  }

  class Provider {
    var datasourceId: int
    var datasourceFlight: FlightRecord?
    ghost var issued: seq<FlightRecord>

    ghost predicate Valid()
      reads this, issued
    {
      && (forall i | 0 <= i < |issued| :: issued[i].number == i)
      && (datasourceFlight != null ==> Issued(datasourceFlight))
    }

    ghost predicate Issued(flight: FlightRecord)
      reads this
    {
      flight.number < |issued| && issued[flight.number] == flight
    }

    ghost function Flights(): (views: seq<Flight>)
      reads this, issued
      ensures |views| == |issued| && forall i | 0 <= i < |issued| :: views[i] == issued[i].View()
    {
      seq(|issued|, i requires 0 <= i < |issued| reads this, issued => issued[i].View())
    }

    ghost function View(): Shared
      reads this, issued, datasourceFlight
    {
      Shared(datasourceId, if datasourceFlight == null then None else Some(datasourceFlight.number), Flights())
    }

    constructor ()
      ensures Valid() && View() == INITIAL.shared
    {
      datasourceId, datasourceFlight, issued := 0, null, [];
    }

    /** Under the lock: a remembered id, a flight to wait for, or a new flight to lead. */
    method EnterDiscovery() returns (known: int, join: FlightRecord?, lead: FlightRecord?)
      requires Valid()
      modifies this`datasourceFlight, this`issued
      ensures Valid() && old(issued) <= issued
      ensures View() == Enter(old(View())).0
      ensures known == if old(datasourceId) > 0 then old(datasourceId) else 0
      ensures join == if old(datasourceId) > 0 then null else old(datasourceFlight)
      ensures lead != null <==> old(datasourceId) <= 0 && old(datasourceFlight) == null
      ensures datasourceFlight == if lead != null then lead else old(datasourceFlight)
      ensures match Enter(old(View())).1
        case Known(id) => known == id && join == null && lead == null
        case Join(flight) => known == 0 && join != null && Issued(join) && join.number == flight && lead == null
        case Lead(flight) => known == 0 && join == null && lead != null && Issued(lead) && lead.number == flight
    {
      known, join, lead := 0, null, null;
      if datasourceId > 0 {
        known := datasourceId;
      } else if datasourceFlight != null {
        join := datasourceFlight;
      } else {
        lead := new FlightRecord(|issued|);
        datasourceFlight := lead;
        issued := issued + [lead];
        assert Flights() == old(Flights()) + [lead.View()];
      }
    }

    /** Under the lock again, after the load: store the id or the error and close the flight. */
    method PublishDiscovery(flight: FlightRecord, loaded: Option<int>) returns (answer: Answer)
      requires Valid() && Issued(flight)
      modifies this`datasourceId, this`datasourceFlight, flight
      ensures Valid() && issued == old(issued)
      ensures (View(), answer) == Publish(old(View()), flight.number, loaded)
      ensures datasourceFlight == null && flight.done
      ensures if loaded.Some? && loaded.value > 0
        then datasourceId == flight.id == loaded.value && answer == Found(loaded.value)
        else datasourceId == old(datasourceId) && flight.failed && answer == Unavailable
    {
      if loaded.Some? && loaded.value > 0 {
        datasourceId := loaded.value;
        flight.id := loaded.value;
        answer := Found(loaded.value);
      } else {
        flight.failed := true;
        answer := Unavailable;
      }
      datasourceFlight := null;
      flight.done := true;
      assert Flights() == old(Flights())[flight.number := flight.View()];
    }

    method AwaitFlight(flight: FlightRecord) returns (answer: Answer)
      ensures answer == Await(flight.View())
      ensures answer == if flight.failed || flight.id <= 0 then Unavailable else Found(flight.id)
    {
      if flight.failed {
        return Unavailable;
      }
      if flight.id <= 0 {
        return Unavailable;
      }
      return Found(flight.id);
    }
  }
}
