/**
 The login failure limiter: one failure window per address, pruned on every call,
 bounded in number by evicting a window before a new one is stored.
 */
module LoginLimiter {
  import opened Optional

  type Time = int
  type Ip = string

  const CAPACITY := 4096

  datatype Window = Window(startedAt: Time, count: int)

  type Failures = map<Ip, Window>

  // ---------------------------------------------------------------------------
  // Pruning and eviction

  function Pruned(failures: Failures, now: Time, length: int): Failures {
    map ip <- failures | now - failures[ip].startedAt < length :: failures[ip]
  }

  /**
   The eviction scan over one order of the addresses.  The empty address doubles as
   the mark for nothing chosen yet.
   */
  function Scan(order: seq<Ip>, failures: Failures): (chosen: Ip)
    requires forall ip <- order :: ip in failures
    ensures chosen == "" || chosen in order
  {
    if order == [] then ""
    else
      var chosen, ip := Scan(order[..|order| - 1], failures), order[|order| - 1];
      if chosen == "" || failures[ip].startedAt < failures[chosen].startedAt then ip else chosen
  }

  /** An order in which a map may be ranged over. */
  ghost predicate Ranges(order: seq<Ip>, failures: Failures) {
    && (forall ip :: ip in order <==> ip in failures)
    && (forall i, j | 0 <= i < j < |order| :: order[i] != order[j])
  }

  predicate Oldest(failures: Failures, ip: Ip) {
    ip in failures && forall other <- failures :: failures[ip].startedAt <= failures[other].startedAt
  }

  /** The empty address, if present, is at least as young as some other one. */
  predicate EmptyIsHarmless(failures: Failures) {
    "" in failures ==> exists ip <- failures :: ip != "" && failures[ip].startedAt <= failures[""].startedAt
  }

  /**
   After a harmless empty address the scan is a minimum: nothing seen is older than the
   choice, except that the empty address may have hidden windows younger than itself.
   */
  lemma {:induction false} ScanTracks(order: seq<Ip>, failures: Failures)
    requires forall ip <- order :: ip in failures
    requires forall i, j | 0 <= i < j < |order| :: order[i] != order[j]
    ensures var chosen := Scan(order, failures);
      forall ip <- order :: ip != "" ==>
        || (chosen != "" && failures[chosen].startedAt <= failures[ip].startedAt)
        || ("" in order && failures[""].startedAt < failures[ip].startedAt)
    ensures "" !in order && order != [] ==> Scan(order, failures) != ""
  {
    if order != [] {
      var before := order[..|order| - 1];
      assert order == before + [order[|order| - 1]];
      ScanTracks(before, failures);
    }
  }

  lemma HarmlessScanIsOldest(order: seq<Ip>, failures: Failures)
    requires Ranges(order, failures) && failures.Keys != {} && EmptyIsHarmless(failures)
    ensures Oldest(failures, Scan(order, failures))
  {
    var chosen := Scan(order, failures);
    ScanTracks(order, failures);
    if "" in failures {
      var elder :| elder in failures && elder != "" && failures[elder].startedAt <= failures[""].startedAt;
      assert chosen != "" && failures[chosen].startedAt <= failures[elder].startedAt;
    } else {
      var ip :| ip in failures.Keys;
      assert ip in order;
    }
  }

  /** With a strictly oldest empty address and one more window, some order evicts the wrong one. */
  lemma HarmfulScan(failures: Failures, order: seq<Ip>)
    requires Ranges(order, failures) && "" in failures && |failures.Keys| >= 2
    requires !EmptyIsHarmless(failures)
    requires order[|order| - 1] != ""
    ensures !Oldest(failures, Scan(order, failures))
  {
    LastNonEmptyWins(order, failures);
  }

  lemma LastNonEmptyWins(order: seq<Ip>, failures: Failures)
    requires order != [] && (forall ip <- order :: ip in failures) && order[|order| - 1] != ""
    ensures Scan(order, failures) != ""
  {
  }

  lemma {:induction false} SomeOrder(keys: set<Ip>) returns (order: seq<Ip>)
    ensures forall ip :: ip in order <==> ip in keys
    ensures forall i, j | 0 <= i < j < |order| :: order[i] != order[j]
    decreases keys
  {
    if keys == {} {
      order := [];
    } else {
      var ip :| ip in keys;
      var rest := SomeOrder(keys - {ip});
      order := rest + [ip];
    }
  }

  /** Whatever the map order, eviction removes an oldest window: exactly when the empty address is harmless. */
  lemma EvictionIsSound(failures: Failures)
    requires |failures.Keys| >= 2
    ensures (forall order | Ranges(order, failures) ::
        Oldest(failures, Scan(order, failures))) <==> EmptyIsHarmless(failures)
  {
    if EmptyIsHarmless(failures) {
      forall order | Ranges(order, failures) ensures Oldest(failures, Scan(order, failures)) {
        HarmlessScanIsOldest(order, failures);
      }
    } else {
      assert failures.Keys - {""} != {} by {
        if failures.Keys <= {""} {
          KeysCount(failures.Keys, {""});
        }
      }
      var last :| last in failures.Keys - {""};
      var rest := SomeOrder(failures.Keys - {last});
      var order := rest + [last];
      assert Ranges(order, failures);
      HarmfulScan(failures, order);
    }
  }

  /** A window the eviction may remove. */
  ghost predicate Evictable(failures: Failures, victim: Ip) {
    exists order :: Ranges(order, failures) && Scan(order, failures) == victim
  }

  // ---------------------------------------------------------------------------
  // The operations on values

  /** Recording one failure; `victim` matters only when a new window meets a full table. */
  function Recorded(failures: Failures, limit: int, ip: Ip, now: Time, victim: Ip): Failures {
    if ip in failures then
      if failures[ip].count >= limit then failures
      else failures[ip := failures[ip].(count := failures[ip].count + 1)]
    else
      var room := if |failures| < CAPACITY then failures else failures - {victim};
      if 0 >= limit then room else room[ip := Window(now, 1)]
  }

  predicate Blocked(failures: Failures, limit: int, ip: Ip) {
    ip in failures && failures[ip].count >= limit
  }

  datatype Op =
    | Allow(ip: Ip, at: Time)
    | RecordFailure(ip: Ip, at: Time, victim: Ip)
    | Attempt(ip: Ip, at: Time, verdict: bool, victim: Ip)
    | Reset(ip: Ip, at: Time)

  datatype Config = Config(limit: int, window: int)

  function Apply(config: Config, failures: Failures, op: Op): Failures {
    var pruned := Pruned(failures, op.at, config.window);
    match op
    case Allow(_, _) => pruned
    case RecordFailure(ip, at, victim) => Recorded(pruned, config.limit, ip, at, victim)
    case Attempt(ip, at, verdict, victim) =>
      if Blocked(pruned, config.limit, ip) then pruned
      else if verdict then pruned - {ip}
      else Recorded(pruned, config.limit, ip, at, victim)
    case Reset(ip, _) => pruned - {ip}
  }

  /** Whether the operation runs the verification of this address, and it fails. */
  predicate FailsVerification(config: Config, failures: Failures, op: Op, ip: Ip) {
    op.Attempt? && op.ip == ip && !op.verdict && !Blocked(Pruned(failures, op.at, config.window), config.limit, ip)
  }

  // ---------------------------------------------------------------------------
  // Runs

  /** The table after the first n operations of a run. */
  function Table(config: Config, ops: seq<Op>, n: nat): Failures
    requires n <= |ops|
  {
    if n == 0 then map[] else Apply(config, Table(config, ops, n - 1), ops[n - 1])
  }

  function After(config: Config, ops: seq<Op>): Failures {
    Table(config, ops, |ops|)
  }

  /** A full table always loses a window the scan may choose. */
  ghost predicate RealVictims(config: Config, ops: seq<Op>) {
    forall i | 0 <= i < |ops| :: VictimIsReal(config, ops, i)
  }

  ghost predicate VictimIsReal(config: Config, ops: seq<Op>, i: nat)
    requires i < |ops|
  {
    RealVictim(config, Table(config, ops, i), ops[i])
  }

  /** When the operation has to make room in a full table, it names a window the scan may choose. */
  ghost predicate RealVictim(config: Config, failures: Failures, op: Op) {
    var pruned := Pruned(failures, op.at, config.window);
    MakesRoom(op) && op.ip !in pruned && |pruned| >= CAPACITY ==>
      op.victim in pruned && Evictable(pruned, op.victim)
  }

  /** Only a recorded failure opens a window. */
  predicate MakesRoom(op: Op) {
    op.RecordFailure? || (op.Attempt? && !op.verdict)
  }

  lemma PrunedIsSmaller(failures: Failures, now: Time, length: int)
    ensures |Pruned(failures, now, length)| <= |failures|
  {
    var pruned := Pruned(failures, now, length);
    assert pruned.Keys <= failures.Keys;
    KeysCount(pruned.Keys, failures.Keys);
  }

  lemma KeysCount(a: set<Ip>, b: set<Ip>)
    requires a <= b
    ensures |a| <= |b|
  {
    assert |b - a| >= 0 && b == a + (b - a);
  }

  lemma RecordedFits(failures: Failures, limit: int, ip: Ip, now: Time, victim: Ip)
    requires |failures| <= CAPACITY
    requires ip !in failures && |failures| >= CAPACITY ==> victim in failures
    ensures |Recorded(failures, limit, ip, now, victim)| <= CAPACITY
  {
    var r := Recorded(failures, limit, ip, now, victim);
    if ip in failures {
      assert r.Keys == failures.Keys;
    } else if |failures| < CAPACITY {
      assert r.Keys <= failures.Keys + {ip};
      KeysCount(r.Keys, failures.Keys + {ip});
    } else {
      assert (failures - {victim}).Keys == failures.Keys - {victim};
      assert r.Keys <= failures.Keys - {victim} + {ip};
      KeysCount(r.Keys, failures.Keys - {victim} + {ip});
    }
  }

  predicate Bounded(failures: Failures, limit: int) {
    |failures| <= 4096 && forall ip <- failures :: 1 <= failures[ip].count <= limit
  }

  /** One operation keeps the bounds; the clock plays no part. */
  lemma OperationKeepsBounds(config: Config, before: Failures, op: Op)
    requires Bounded(before, config.limit)
    requires var pruned := Pruned(before, op.at, config.window);
             MakesRoom(op) && op.ip !in pruned && |pruned| >= CAPACITY ==> op.victim in pruned
    ensures Bounded(Apply(config, before, op), config.limit)
  {
    var pruned := Pruned(before, op.at, config.window);
    PrunedIsSmaller(before, op.at, config.window);
    KeysCount((pruned - {op.ip}).Keys, pruned.Keys);
    if MakesRoom(op) {
      RecordedFits(pruned, config.limit, op.ip, op.at, op.victim);
    }
  }

  /**
   Over every sequence of operations, whatever their times, stored counts lie between 1
   and the limit and at most 4096 windows exist.
   */
  lemma {:induction false} CountsAreBounded(config: Config, ops: seq<Op>, n: nat)
    requires RealVictims(config, ops) && n <= |ops|
    ensures Bounded(Table(config, ops, n), config.limit)
  {
    if n > 0 {
      assert VictimIsReal(config, ops, n - 1);
      CountsAreBounded(config, ops, n - 1);
      OperationKeepsBounds(config, Table(config, ops, n - 1), ops[n - 1]);
    }
  }

  lemma {:induction false} TableOfPrefix(config: Config, ops: seq<Op>, more: seq<Op>, n: nat)
    requires n <= |ops|
    ensures Table(config, ops + more, n) == Table(config, ops, n)
  {
    if n > 0 {
      TableOfPrefix(config, ops, more, n - 1);
    }
  }

  /** A run may be continued by any operation whose victim is real. */
  lemma RunExtends(config: Config, ops: seq<Op>, op: Op)
    requires RealVictims(config, ops) && RealVictim(config, After(config, ops), op)
    ensures RealVictims(config, ops + [op]) && After(config, ops + [op]) == Apply(config, After(config, ops), op)
  {
    var all := ops + [op];
    TableOfPrefix(config, ops, [op], |ops|);
    forall i | 0 <= i < |all| ensures VictimIsReal(config, all, i) {
      if i < |ops| {
        TableOfPrefix(config, ops, [op], i);
        assert VictimIsReal(config, ops, i);
      }
    }
  }

  /** Operation k takes the window of this address away other than by expiry. */
  predicate Clears(config: Config, ops: seq<Op>, k: nat, ip: Ip)
    requires k < |ops|
  {
    ip in Pruned(Table(config, ops, k), ops[k].at, config.window) && ip !in Table(config, ops, k + 1)
  }

  /** A live window goes away exactly by a reset, an admitted success, or eviction from a full table. */
  lemma ClearedOnlyBy(config: Config, ops: seq<Op>, k: nat, ip: Ip)
    requires RealVictims(config, ops) && config.limit >= 1 && k < |ops|
    ensures
      var pruned := Pruned(Table(config, ops, k), ops[k].at, config.window);
      Clears(config, ops, k, ip) <==>
        && ip in pruned
        && ( || (ops[k].Reset? && ops[k].ip == ip)
             || (ops[k].Attempt? && ops[k].ip == ip && ops[k].verdict && !Blocked(pruned, config.limit, ip))
             || ( && (ops[k].RecordFailure? || (ops[k].Attempt? && !ops[k].verdict))
                  && ops[k].ip !in pruned && |pruned| >= 4096 && ops[k].victim == ip))
  {
    assert VictimIsReal(config, ops, k);
  }

  predicate NeverCleared(config: Config, ops: seq<Op>, ip: Ip, i: nat, j: nat)
    requires j <= |ops|
  {
    forall k | i <= k < j :: !Clears(config, ops, k, ip)
  }

  /** How many verifications of the address ran and failed in operations i to j - 1. */
  function FailuresBetween(config: Config, ops: seq<Op>, ip: Ip, i: nat, j: nat): nat
    requires i <= j <= |ops|
    decreases j
  {
    if i == j then 0
    else FailuresBetween(config, ops, ip, i, j - 1) + (if FailsVerification(config, Table(config, ops, j - 1),
        ops[j - 1], ip) then 1 else 0)
  }

  // ---------------------------------------------------------------------------
  // How often an address may fail
  //
  // Each call reads the clock before it takes the lock, so readings need not be in the
  // order of the calls.

  /** A reading that ends the window of an earlier one, with more calls from there on than the limit. */
  predicate Lapse(config: Config, times: seq<Time>, m: nat, k: nat) {
    m < k < |times| && times[k] - times[m] >= config.window && |times| - m > config.limit
  }

  ghost predicate Timely(config: Config, times: seq<Time>) {
    forall m: nat, k: nat :: !Lapse(config, times, m, k)
  }

  function Times(ops: seq<Op>): seq<Time> {
    seq(|ops|, i requires 0 <= i < |ops| => ops[i].at)
  }

  /** The address has no live window before the first of these calls, and none is taken from it. */
  ghost predicate Undisturbed(config: Config, ops: seq<Op>, ip: Ip, i: nat, j: nat)
    requires i <= j <= |ops|
  {
    && (i < j ==> ip !in Pruned(Table(config, ops, i), ops[i].at, config.window))
    && NeverCleared(config, ops, ip, i, j)
  }

  /**
   Among calls i to j - 1 at most `limit` verifications of the address fail, if it has no
   window at the start, its window is not cleared, and no reading ends the window of an
   earlier one with more than `limit` calls to come.
   */
  lemma AtMostLimitPerWindow(config: Config, ops: seq<Op>, ip: Ip, i: nat, j: nat)
    requires RealVictims(config, ops) && config.limit >= 1
    requires i <= j <= |ops| && Undisturbed(config, ops, ip, i, j)
    requires Timely(config, Times(ops[i..j]))
    ensures FailuresBetween(config, ops, ip, i, j) <= config.limit
  {
    var c := FirstWindow(config, ops, ip, i, j);
    FailuresSplit(config, ops, ip, i, c, j);
    if j - c <= config.limit {
      FailuresAreCalls(config, ops, ip, c, j);
    } else {
      TimelyIsSteady(config, ops, i, c, j);
      WindowCounts(config, ops, ip, c, j);
      CountsAreBounded(config, ops, j);
    }
  }

  lemma TimelyIsSteady(config: Config, ops: seq<Op>, i: nat, c: nat, j: nat)
    requires i <= c < j <= |ops| && j - c > config.limit && Timely(config, Times(ops[i..j]))
    ensures Steady(config, ops, c, j)
  {
    forall k | c < k < j ensures ops[k].at - ops[c].at < config.window {
      assert !Lapse(config, Times(ops[i..j]), c - i, k - i);
    }
  }

  /** Call c opens a window for the address. */
  ghost predicate Opens(config: Config, ops: seq<Op>, ip: Ip, c: nat)
    requires c < |ops|
  {
    ip !in Pruned(Table(config, ops, c), ops[c].at, config.window) && ip in Table(config, ops, c + 1)
  }

  /** From call i up to c no verification of the address fails, and it has no window. */
  ghost predicate Idle(config: Config, ops: seq<Op>, ip: Ip, i: nat, c: nat)
    requires i <= c <= |ops|
  {
    FailuresBetween(config, ops, ip, i, c) == 0 && (i < c ==> ip !in Table(config, ops, c))
  }

  lemma StaysIdle(config: Config, ops: seq<Op>, ip: Ip, i: nat, c: nat)
    requires config.limit >= 1 && i <= c < |ops| && Idle(config, ops, ip, i, c)
    requires ip !in Pruned(Table(config, ops, c), ops[c].at, config.window)
    ensures Opens(config, ops, ip, c) || Idle(config, ops, ip, i, c + 1)
  {
    FirstAccounts(config, Table(config, ops, c), ops[c], ip);
  }

  /** The call that opens the first window of the address, or the end. */
  lemma {:induction false} FirstWindow(config: Config, ops: seq<Op>, ip: Ip, i: nat, j: nat) returns (c: nat)
    requires config.limit >= 1 && i <= j <= |ops|
    requires i < j ==> ip !in Pruned(Table(config, ops, i), ops[i].at, config.window)
    ensures i <= c <= j && Idle(config, ops, ip, i, c) && (c < j ==> Opens(config, ops, ip, c))
    decreases j
  {
    c := j;
    if i < j {
      c := FirstWindow(config, ops, ip, i, j - 1);
      if c == j - 1 {
        StaysIdle(config, ops, ip, i, c);
        if !Opens(config, ops, ip, c) {
          c := j;
        }
      }
    }
  }

  lemma {:induction false} FailuresSplit(config: Config, ops: seq<Op>, ip: Ip, i: nat, c: nat, j: nat)
    requires i <= c <= j <= |ops|
    ensures FailuresBetween(config, ops, ip, i, j) ==
            FailuresBetween(config, ops, ip, i, c) + FailuresBetween(config, ops, ip, c, j)
    decreases j
  {
    if c < j {
      FailuresSplit(config, ops, ip, i, c, j - 1);
    }
  }

  lemma {:induction false} FailuresAreCalls(config: Config, ops: seq<Op>, ip: Ip, i: nat, j: nat)
    requires i <= j <= |ops|
    ensures FailuresBetween(config, ops, ip, i, j) <= j - i
    decreases j
  {
    if i < j {
      FailuresAreCalls(config, ops, ip, i, j - 1);
    }
  }

  /** The window that call c opened is still there and holds the verifications failed since. */
  ghost predicate HoldsWindow(config: Config, ops: seq<Op>, ip: Ip, c: nat, j: nat)
    requires c < j <= |ops|
  {
    var table := Table(config, ops, j);
    && ip in table && table[ip].startedAt == ops[c].at
    && FailuresBetween(config, ops, ip, c, j) <= table[ip].count
  }

  /** No reading ends a window that call c opens. */
  ghost predicate Steady(config: Config, ops: seq<Op>, c: nat, j: nat)
    requires c < j <= |ops|
  {
    forall k | c < k < j :: ops[k].at - ops[c].at < config.window
  }

  /**
   From the call that opens a window, and as long as the window is not cleared and no
   reading ends it, it stays and holds at least the verifications failed since.
   */
  lemma {:induction false} WindowCounts(config: Config, ops: seq<Op>, ip: Ip, c: nat, j: nat)
    requires config.limit >= 1 && c < j <= |ops|
    requires Opens(config, ops, ip, c)
    requires Steady(config, ops, c, j) && NeverCleared(config, ops, ip, c, j)
    ensures HoldsWindow(config, ops, ip, c, j)
    decreases j
  {
    if c + 1 == j {
      WindowOpens(config, ops, ip, c);
    } else {
      WindowCounts(config, ops, ip, c, j - 1);
      WindowStays(config, ops, ip, c, j - 1);
    }
  }

  lemma WindowOpens(config: Config, ops: seq<Op>, ip: Ip, c: nat)
    requires config.limit >= 1 && c < |ops| && Opens(config, ops, ip, c)
    ensures HoldsWindow(config, ops, ip, c, c + 1)
  {
    FailuresAreCalls(config, ops, ip, c, c + 1);
    OpensWith(config, Table(config, ops, c), ops[c], ip);
  }

  lemma WindowStays(config: Config, ops: seq<Op>, ip: Ip, c: nat, k: nat)
    requires config.limit >= 1 && c < k < |ops| && HoldsWindow(config, ops, ip, c, k)
    requires ops[k].at - ops[c].at < config.window && !Clears(config, ops, k, ip)
    ensures HoldsWindow(config, ops, ip, c, k + 1)
  {
    StepCounts(config, Table(config, ops, k), ops[k], ip);
  }

  /** One operation on an address without a live window. */
  lemma FirstAccounts(config: Config, before: Failures, op: Op, ip: Ip)
    requires config.limit >= 1 && ip !in Pruned(before, op.at, config.window)
    ensures FailsVerification(config, before, op, ip) ==> ip in Apply(config, before, op)
  {
  }

  lemma OpensWith(config: Config, before: Failures, op: Op, ip: Ip)
    requires config.limit >= 1 && ip !in Pruned(before, op.at, config.window) && ip in Apply(config, before, op)
    ensures Apply(config, before, op)[ip] == Window(op.at, 1)
  {
  }

  /** One operation that leaves a live window adds its failed verification to it. */
  lemma StepCounts(config: Config, before: Failures, op: Op, ip: Ip)
    requires config.limit >= 1
    requires ip in Pruned(before, op.at, config.window) && ip in Apply(config, before, op)
    ensures var after := Apply(config, before, op);
      && after[ip].startedAt == before[ip].startedAt
      && after[ip].count >= before[ip].count + (if FailsVerification(config, before, op, ip) then 1 else 0)
  {
  }

  /** Readings that do not go back and span less than a window are timely. */
  lemma OrderedReadingsAreTimely(config: Config, times: seq<Time>)
    requires forall m, k | 0 <= m < k < |times| :: times[m] <= times[k]
    requires times != [] ==> times[|times| - 1] - times[0] < config.window
    ensures Timely(config, times)
  {
  }

  // ---------------------------------------------------------------------------
  // What a window counts

  /** The operation reports a failure of the address, by record or by attempt. */
  predicate Reports(op: Op, ip: Ip) {
    op.ip == ip && (op.RecordFailure? || (op.Attempt? && !op.verdict))
  }

  /** How many operations from i to j - 1 do. */
  function Reported(ops: seq<Op>, ip: Ip, i: nat, j: nat): nat
    requires i <= j <= |ops|
    decreases j
  {
    if i == j then 0
    else Reported(ops, ip, i, j - 1) + (if Reports(ops[j - 1], ip) then 1 else 0)
  }

  /** The window of the address, if it has one. */
  function WindowIn(failures: Failures, ip: Ip): Option<Window> {
    if ip in failures then Some(failures[ip]) else None
  }

  /** A window that lives counts a report up to the limit; a new one starts with a report. */
  predicate WindowMoves(config: Config, op: Op, ip: Ip, before: Option<Window>, after: Option<Window>) {
    after.Some? ==>
      if before.Some? && op.at - before.value.startedAt < config.window then
        var counted := Reports(op, ip) && before.value.count < config.limit;
        after.value == Window(before.value.startedAt, before.value.count + if counted then 1 else 0)
      else Reports(op, ip) && after.value == Window(op.at, 1)
  }

  lemma OperationMovesWindow(config: Config, before: Failures, op: Op, ip: Ip)
    requires config.limit >= 1
    ensures WindowMoves(config, op, ip, WindowIn(before, ip), WindowIn(Apply(config, before, op), ip))
  {
  }

  /** Operation c reported a failure when this window was not alive, and no reading since then ended it. */
  ghost predicate OpenedAt(config: Config, ops: seq<Op>, ip: Ip, n: nat, c: nat, before: Option<Window>) {
    && c < n <= |ops| && Reports(ops[c], ip)
    && (before.Some? ==> ops[c].at - before.value.startedAt >= config.window)
    && (forall k | c < k < n :: ops[k].at - ops[c].at < config.window)
  }

  /** The window started with operation c and counts the reports since then, up to the limit. */
  ghost predicate CountsFrom(config: Config, ops: seq<Op>, ip: Ip, n: nat, c: nat, window: Window)
    requires c < n <= |ops|
  {
    var reports := Reported(ops, ip, c, n);
    window == Window(ops[c].at, if reports < config.limit then reports else config.limit)
  }

  lemma {:induction false} MovedWindowCounts(config: Config, ops: seq<Op>, ip: Ip, windows: seq<Option<Window>>, n: nat)
      returns (c: nat)
    requires config.limit >= 1 && n <= |ops| && |windows| == |ops| + 1 && windows[0] == None
    requires forall i | 0 <= i < |ops| :: WindowMoves(config, ops[i], ip, windows[i], windows[i + 1])
    requires windows[n].Some?
    ensures c < |ops| && OpenedAt(config, ops, ip, n, c, windows[c])
    ensures CountsFrom(config, ops, ip, n, c, windows[n].value)
  {
    var before, op := windows[n - 1], ops[n - 1];
    assert WindowMoves(config, op, ip, before, windows[n - 1 + 1]);
    if before.Some? && op.at - before.value.startedAt < config.window {
      c := MovedWindowCounts(config, ops, ip, windows, n - 1);
    } else {
      c := n - 1;
      assert Reported(ops, ip, c, c) == 0;
    }
  }

  /**
   A window starts with the report that opened it and counts exactly the reports since then, up to the
   limit: nobody is blocked before so many failures were reported in his window.
   */
  lemma CountIsExact(config: Config, ops: seq<Op>, ip: Ip, n: nat) returns (c: nat)
    requires config.limit >= 1 && n <= |ops| && ip in Table(config, ops, n)
    ensures c < |ops| && OpenedAt(config, ops, ip, n, c, WindowIn(Table(config, ops, c), ip))
    ensures CountsFrom(config, ops, ip, n, c, Table(config, ops, n)[ip])
  {
    var windows := seq(|ops| + 1, i requires 0 <= i <= |ops| => WindowIn(Table(config, ops, i), ip));
    forall i | 0 <= i < |ops| ensures WindowMoves(config, ops[i], ip, windows[i], windows[i + 1]) {
      OperationMovesWindow(config, Table(config, ops, i), ops[i], ip);
    }
    c := MovedWindowCounts(config, ops, ip, windows, n);
  }

  // ---------------------------------------------------------------------------
  // When readings allow more

  /** Wrong attempts from one address at these times, the first m only asking whether it may try. */
  function Guesses(ip: Ip, times: seq<Time>, m: nat): (ops: seq<Op>)
    ensures |ops| == |times| && Times(ops) == times
  {
    seq(|times|, i requires 0 <= i < |times| => if i < m then Allow(ip, times[i]) else Attempt(ip, times[i], false, ""))
  }

  lemma StaysAlone(config: Config, before: Failures, op: Op)
    requires before.Keys <= {op.ip}
    ensures Apply(config, before, op).Keys <= {op.ip}
    ensures op.Allow? && before == map[] ==> Apply(config, before, op) == map[]
  {
    assert Pruned(before, op.at, config.window).Keys <= {op.ip};
  }

  /** Only this address ever has a window, so the table never fills up and nothing is cleared. */
  lemma {:induction false} GuessesAlone(config: Config, ip: Ip, times: seq<Time>, m: nat, n: nat)
    requires n <= |times|
    ensures Table(config, Guesses(ip, times, m), n).Keys <= {ip}
    ensures n <= m ==> Table(config, Guesses(ip, times, m), n) == map[]
  {
    if n > 0 {
      GuessesAlone(config, ip, times, m, n - 1);
      StaysAlone(config, Table(config, Guesses(ip, times, m), n - 1), Guesses(ip, times, m)[n - 1]);
    }
  }

  lemma GuessesAreUndisturbed(config: Config, ip: Ip, times: seq<Time>, m: nat)
    requires config.limit >= 1
    ensures var ops := Guesses(ip, times, m);
      RealVictims(config, ops) && Undisturbed(config, ops, ip, 0, |ops|)
  {
    var ops := Guesses(ip, times, m);
    forall k | 0 <= k < |ops|
      ensures VictimIsReal(config, ops, k) && !Clears(config, ops, k, ip)
    {
      GuessesAlone(config, ip, times, m, k);
      PrunedIsSmaller(Table(config, ops, k), ops[k].at, config.window);
      KeysCount(Table(config, ops, k).Keys, {ip});
    }
  }

  /** Without a live window, the next `limit` attempts all run and fail. */
  lemma {:induction false} GuessesFail(config: Config, ip: Ip, times: seq<Time>, m: nat, x: nat, n: nat)
    requires config.limit >= 1 && m <= x < n <= |times|
    requires ip !in Pruned(Table(config, Guesses(ip, times, m), x), times[x], config.window)
    ensures var ops := Guesses(ip, times, m); var failed := FailuresBetween(config, ops, ip, x, n);
      && (failed >= config.limit || failed == n - x)
      && var table := Table(config, ops, n);
         failed < config.limit && ip in table ==> table[ip].count <= failed
    decreases n
  {
    var ops, last := Guesses(ip, times, m), n - 1;
    assert FailuresBetween(config, ops, ip, x, x) == 0;
    if last > x {
      GuessesFail(config, ip, times, m, x, last);
    }
  }

  /** A lapse lets more verifications fail than the limit. */
  lemma LapseAllowsMore(config: Config, ip: Ip, times: seq<Time>, m: nat, k: nat)
    requires config.limit >= 1 && Lapse(config, times, m, k)
    ensures FailuresBetween(config, Guesses(ip, times, m), ip, 0, |times|) > config.limit
    decreases k
  {
    if l: nat :| m < l < k && times[l] - times[m] >= config.window {
      LapseAllowsMore(config, ip, times, m, l);
    } else {
      var ops, n := Guesses(ip, times, m), |times|;
      GuessesAlone(config, ip, times, m, m);
      GuessesAreUndisturbed(config, ip, times, m);
      GuessesFail(config, ip, times, m, m, k);
      WindowCounts(config, ops, ip, m, k);
      GuessesFail(config, ip, times, m, k, n);
      FailuresSplit(config, ops, ip, 0, m, n);
      FailuresSplit(config, ops, ip, m, k, n);
    }
  }

  /** Runs with these readings in which nothing takes a window from the address. */
  ghost predicate RunsAt(config: Config, ops: seq<Op>, ip: Ip, times: seq<Time>) {
    Times(ops) == times && RealVictims(config, ops) && Undisturbed(config, ops, ip, 0, |ops|)
  }

  /** Every run with these readings stays within the limit if and only if the readings are timely. */
  lemma LimitHoldsExactlyIfTimely(config: Config, ip: Ip, times: seq<Time>)
    requires config.limit >= 1
    ensures (forall ops | RunsAt(config, ops, ip, times) :: FailuresBetween(config, ops, ip, 0, |ops|) <= config.limit)
            <==> Timely(config, times)
  {
    if Timely(config, times) {
      forall ops | RunsAt(config, ops, ip, times)
        ensures FailuresBetween(config, ops, ip, 0, |ops|) <= config.limit
      {
        assert ops[0..|ops|] == ops;
        AtMostLimitPerWindow(config, ops, ip, 0, |ops|);
      }
    } else {
      var m: nat, k: nat :| Lapse(config, times, m, k);
      GuessesAreUndisturbed(config, ip, times, m);
      LapseAllowsMore(config, ip, times, m, k);
      assert RunsAt(config, Guesses(ip, times, m), ip, times);
    }
  }

  /** Limit one: a call that read the clock late but got the lock early lets two attempts of one moment fail. */
  lemma LateReadingReopens(ip: Ip, window: int)
    requires window >= 1
    ensures var config := Config(1, window);
      var ops := [Attempt(ip, 0, false, ""), Allow(ip, window), Attempt(ip, 0, false, "")];
      && RunsAt(config, ops, ip, [0, window, 0])
      && FailuresBetween(config, ops, ip, 0, 3) == 2
  {
    var config := Config(1, window);
    var ops := [Attempt(ip, 0, false, ""), Allow(ip, window), Attempt(ip, 0, false, "")];
    assert Table(config, ops, 1) == map[ip := Window(0, 1)];
    assert Table(config, ops, 2) == map[];
    assert Table(config, ops, 3) == map[ip := Window(0, 1)];
    assert FailuresBetween(config, ops, ip, 0, 0) == 0;
    assert FailuresBetween(config, ops, ip, 0, 1) == 1;
    assert FailuresBetween(config, ops, ip, 0, 2) == 1;
  }

  /** Without a positive limit nothing is ever stored, so nobody is ever blocked. */
  lemma {:induction false} NoLimitNoBlock(config: Config, ops: seq<Op>, n: nat)
    requires config.limit <= 0 && n <= |ops|
    ensures Table(config, ops, n) == map[]
  {
    if n > 0 {
      NoLimitNoBlock(config, ops, n - 1);
    }
  }

  // ---------------------------------------------------------------------------
  // The limiter

  class Limiter {
    const limit: int
    const window: int
    var failures: Failures
    ghost var history: seq<Op>   // every call so far, oldest first

    ghost function Settings(): Config {
      Config(limit, window)
    }

    /** The operation, with a victim that was real, led here from this table after these calls. */
    ghost predicate Did(calls: seq<Op>, before: Failures, op: Op)
      reads this
    {
      && history == calls + [op] && RealVictim(Settings(), before, op)
      && failures == Apply(Settings(), before, op)
    }

    /** The table is what the calls so far make of an empty one. */
    ghost predicate Valid()
      reads this
    {
      RealVictims(Settings(), history) && failures == After(Settings(), history)
    }

    constructor (limit: int, window: int)
      ensures this.limit == limit && this.window == window && failures == map[]
      ensures Valid() && history == []
    {
      this.limit, this.window, failures, history := limit, window, map[], [];
    }

    method PruneExpired(now: Time)
      modifies this`failures
      ensures failures == Pruned(old(failures), now, window)
    {
      var rest := failures.Keys;
      while rest != {}
        invariant rest <= failures.Keys <= old(failures).Keys
        invariant forall ip <- failures :: failures[ip] == old(failures)[ip]
        invariant forall ip <- old(failures) :: ip !in failures ==> now - old(failures)[ip].startedAt >= window
        invariant forall ip <- failures :: ip !in rest ==> now - failures[ip].startedAt < window
        decreases rest
      {
        var ip :| ip in rest;
        rest := rest - {ip};
        if now - failures[ip].startedAt >= window {
          failures := failures - {ip};
        }
      }
    }

    /** Makes room for one window. */
    method EnsureCapacity()
      modifies this`failures
      ensures |old(failures)| < CAPACITY ==> failures == old(failures)
      ensures |old(failures)| >= CAPACITY ==>
                exists victim :: victim in old(failures) && Evictable(old(failures), victim) &&
                    failures == old(failures) - {victim}
    {
      if |failures| < CAPACITY {
        return;
      }
      var oldest := "";
      var oldestStartedAt := 0;
      var rest := failures.Keys;
      ghost var order: seq<Ip> := [];
      while rest != {}
        invariant rest <= failures.Keys
        invariant forall ip :: ip in order <==> ip in failures && ip !in rest
        invariant forall i, j | 0 <= i < j < |order| :: order[i] != order[j]
        invariant oldest == Scan(order, failures)
        invariant oldest != "" ==> oldestStartedAt == failures[oldest].startedAt
        invariant order != [] && oldest == "" ==> "" in order
        decreases rest
      {
        var ip :| ip in rest;
        rest := rest - {ip};
        assert (order + [ip])[..|order|] == order;
        if oldest == "" || failures[ip].startedAt < oldestStartedAt {
          oldest := ip;
          oldestStartedAt := failures[ip].startedAt;
        }
        order := order + [ip];
      }
      assert Ranges(order, failures);
      assert order != [] by {
        assert failures.Keys != {};
        var ip :| ip in failures.Keys;
        assert ip in order;
      }
      failures := failures - {oldest};
    }

    method Record(ip: Ip, now: Time) returns (ghost victim: Ip)
      modifies this`failures
      ensures failures == Recorded(old(failures), limit, ip, now, victim)
      ensures ip !in old(failures) && |old(failures)| >= CAPACITY ==>
                victim in old(failures) && Evictable(old(failures), victim)
    {
      var current := Window(now, 0);
      victim := "";
      if ip in failures {
        current := failures[ip];
      } else {
        EnsureCapacity();
        if |old(failures)| >= CAPACITY {
          victim :| victim in old(failures) && Evictable(old(failures), victim) && failures == old(failures) - {victim};
        }
      }
      if current.count < limit {
        failures := failures[ip := current.(count := current.count + 1)];
      }
    }

    method AllowLogin(ip: Ip, now: Time) returns (allowed: bool)
      requires Valid()
      modifies this
      ensures Valid() && history == old(history) + [Allow(ip, now)]
      ensures failures == Apply(Settings(), old(failures), Allow(ip, now))
      ensures Bounded(failures, limit)
      ensures allowed <==>
                !(&& ip in old(failures) && now - old(failures)[ip].startedAt < window
                  && old(failures)[ip].count >= limit)
    {
      PruneExpired(now);
      allowed := ip !in failures || failures[ip].count < limit;
      Log(old(failures), Allow(ip, now));
    }

    method RecordLoginFailure(ip: Ip, now: Time)
      requires Valid()
      modifies this
      ensures Valid() && exists victim :: Did(old(history), old(failures), RecordFailure(ip, now, victim))
      ensures Bounded(failures, limit)
    {
      PruneExpired(now);
      ghost var victim := Record(ip, now);
      Log(old(failures), RecordFailure(ip, now, victim));
    }

    /** `verdict` is what the verification would say; `verified` tells whether it was asked. */
    method AttemptLogin(ip: Ip, verdict: bool, now: Time) returns (allowed: bool, success: bool, verified: bool)
      requires Valid()
      modifies this
      ensures Valid() && exists victim :: Did(old(history), old(failures), Attempt(ip, now, verdict, victim))
      ensures Bounded(failures, limit)
      ensures allowed == verified
      ensures allowed <==>
                !(&& ip in old(failures) && now - old(failures)[ip].startedAt < window
                  && old(failures)[ip].count >= limit)
      ensures success == (allowed && verdict)
      ensures success ==> ip !in failures
    {
      PruneExpired(now);
      if ip in failures && failures[ip].count >= limit {
        Log(old(failures), Attempt(ip, now, verdict, ""));
        return false, false, false;
      }
      if verdict {
        failures := failures - {ip};
        Log(old(failures), Attempt(ip, now, verdict, ""));
        return true, true, true;
      }
      ghost var victim := Record(ip, now);
      Log(old(failures), Attempt(ip, now, verdict, victim));
      return true, false, true;
    }

    method ResetLogin(ip: Ip, now: Time)
      requires Valid()
      modifies this
      ensures Valid() && history == old(history) + [Reset(ip, now)]
      ensures failures == Apply(Settings(), old(failures), Reset(ip, now))
      ensures ip !in failures
      ensures Bounded(failures, limit)
    {
      PruneExpired(now);
      failures := failures - {ip};
      Log(old(failures), Reset(ip, now));
    }

    /** Closes a call: the new table is the old one after the operation, which joins the history. */
    ghost method Log(before: Failures, op: Op)
      requires RealVictims(Settings(), history) && before == After(Settings(), history)
      requires RealVictim(Settings(), before, op) && failures == Apply(Settings(), before, op)
      modifies this`history
      ensures history == old(history) + [op]
      ensures Valid() && Bounded(failures, limit) && Did(old(history), before, op)
    {
      RunExtends(Settings(), history, op);
      history := history + [op];
      CountsAreBounded(Settings(), history, |history|);
    }
  }
}
