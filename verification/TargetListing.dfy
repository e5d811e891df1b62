/**
 Reading the monitored targets page by page from the upstream, and choosing the data
 source that later queries use.
 */
module TargetListing {
  import opened Optional
  import opened SortedPages

  const TARGET_PAGE_SIZE := 100
  const MAX_PAGES := 10000

  /** The first second past the years the program can represent. */
  const TIME_LIMIT := 253402300800

  datatype Record = Record(ident: string, hostIp: string, os: string, beatTime: int, updateAt: int, targetUp: int,
      cpuNum: int)

  /** What one request for a page yields; a body without list or total is incomplete. */
  datatype Response = Failed | Incomplete | Listed(list: seq<Record>, total: int)

  /** The answer to the request for each page, counted from one. */
  type Upstream = nat -> Response

  // ---------------------------------------------------------------------------
  // The paging loop

  /** The records of pages 1 to n. */
  function Gathered(fetch: Upstream, n: nat): seq<Record> {
    if n == 0 then []
    else Gathered(fetch, n - 1) + (if fetch(n).Listed? then fetch(n).list else [])
  }

  predicate Reports(response: Response, total: int) {
    response.Listed? && response.total == total >= 0
  }

  /** Pages 1 to n agree on the total, none is empty, and their records do not reach it. */
  ghost predicate Pending(fetch: Upstream, n: nat, total: int) {
    forall page | 1 <= page <= n ::
      Reports(fetch(page), total) && fetch(page).list != [] && |Gathered(fetch, page)| < total
  }

  /** Page n completes the list: the records of the pages reach the common total exactly there. */
  ghost predicate CompletesAt(fetch: Upstream, n: nat, total: int) {
    n >= 1 && Pending(fetch, n - 1, total) && Reports(fetch(n), total) && |Gathered(fetch, n)| == total
  }

  lemma CompletionIsUnique(fetch: Upstream, m: nat, t: int, n: nat, u: int)
    requires CompletesAt(fetch, m, t) && CompletesAt(fetch, n, u)
    ensures m == n && t == u
  {
    assert Reports(fetch(1), t) && Reports(fetch(1), u);
  }

  /** Success exactly when some page among the first 10000 completes the list; then its records are all of it. */
  method ListTargetRecords(fetch: Upstream) returns (result: Option<seq<Record>>)
    ensures result.Some? <==> exists n: nat, total: int :: n <= 10_000 && CompletesAt(fetch, n, total)
    ensures forall n: nat, total: int :: n <= 10_000 && CompletesAt(fetch, n, total) ==>
        result == Some(Gathered(fetch, n))
  {
    var records: seq<Record> := [];
    var wantTotal := -1;
    var page := 1;
    while true
      invariant 1 <= page <= MAX_PAGES
      invariant records == Gathered(fetch, page - 1)
      invariant Pending(fetch, page - 1, wantTotal)
      invariant if page == 1 then wantTotal == -1 else wantTotal >= 0
      decreases MAX_PAGES - page
    {
      var response := fetch(page);
      if !response.Listed? {
        NeverCompletes(fetch, page, wantTotal);
        return None;
      }
      var list, total := response.list, response.total;
      if total < 0 || (wantTotal >= 0 && total != wantTotal) {
        NeverCompletes(fetch, page, wantTotal);
        return None;
      }
      wantTotal := total;
      if |list| == 0 && |records| < wantTotal {
        NeverCompletes(fetch, page, wantTotal);
        return None;
      }
      records := records + list;
      if |records| >= wantTotal {
        if |records| != wantTotal {
          NeverCompletes(fetch, page, wantTotal);
          return None;
        }
        assert CompletesAt(fetch, page, wantTotal);
        forall n: nat, t: int | CompletesAt(fetch, n, t) ensures n == page {
          CompletionIsUnique(fetch, n, t, page, wantTotal);
        }
        return Some(records);
      }
      if page >= MAX_PAGES {
        NeverCompletes(fetch, page, wantTotal);
        return None;
      }
      page := page + 1;
    }
  }

  /** When a page neither completes the list nor may be followed by another, no page completes it. */
  lemma NeverCompletes(fetch: Upstream, page: nat, wantTotal: int)
    requires page >= 1 && Pending(fetch, page - 1, wantTotal)
    requires page == MAX_PAGES || forall total :: !(Pending(fetch, page - 1, total) && Pending(fetch, page, total))
    requires forall total :: !CompletesAt(fetch, page, total)
    ensures forall n: nat, total: int :: n <= MAX_PAGES ==> !CompletesAt(fetch, n, total)
  {
    forall n: nat, total: int | n <= MAX_PAGES && CompletesAt(fetch, n, total) ensures false {
      if n < page {
        assert false;
      } else if n > page {
        assert Pending(fetch, page, total) && Pending(fetch, page - 1, total);
      }
    }
  }

  // ---------------------------------------------------------------------------
  // An upstream that serves one list

  /** Every page is cut from one list, whose length is reported each time. */
  ghost predicate Serves(fetch: Upstream, all: seq<Record>) {
    forall page: nat | page >= 1 :: fetch(page) == Listed(Page(all, page, 100), |all|)
  }

  lemma {:induction false} GatheredIsFirstPages(fetch: Upstream, all: seq<Record>, n: nat)
    requires Serves(fetch, all)
    ensures Gathered(fetch, n) == FirstPages(all, n, TARGET_PAGE_SIZE)
  {
    if n > 0 {
      GatheredIsFirstPages(fetch, all, n - 1);
    }
  }

  /** From such an upstream the loop reads back the whole list exactly when 10000 pages can hold it. */
  lemma ServedListIsReadBack(fetch: Upstream, all: seq<Record>)
    requires Serves(fetch, all)
    ensures (exists n: nat, total: int :: n <= 10_000 && CompletesAt(fetch, n, total)) <==> |all| <= 1_000_000
    ensures forall n: nat, total: int :: CompletesAt(fetch, n, total) ==> Gathered(fetch, n) == all
  {
    forall n: nat, total: int | CompletesAt(fetch, n, total)
      ensures Gathered(fetch, n) == all
      ensures |all| <= n * TARGET_PAGE_SIZE
    {
      GatheredIsFirstPages(fetch, all, n);
      FirstPagesArePrefix(all, n, TARGET_PAGE_SIZE);
      assert fetch(n).total == |all|;
    }
    if |all| <= MAX_PAGES * TARGET_PAGE_SIZE {
      CompletesOnLastPage(fetch, all);
    }
  }

  lemma CompletesOnLastPage(fetch: Upstream, all: seq<Record>)
    requires Serves(fetch, all)
    ensures var last := if all == [] then 1 else TotalPages(|all|, TARGET_PAGE_SIZE);
      CompletesAt(fetch, last, |all|) && (|all| <= MAX_PAGES * TARGET_PAGE_SIZE ==> last <= MAX_PAGES)
  {
    var last := if all == [] then 1 else TotalPages(|all|, TARGET_PAGE_SIZE);
    LastPageEnds(|all|, TARGET_PAGE_SIZE);
    forall page | 1 <= page < last
      ensures |Gathered(fetch, page)| < |all| && fetch(page).list != []
    {
      GatheredIsFirstPages(fetch, all, page);
      FirstPagesArePrefix(all, page, TARGET_PAGE_SIZE);
      PageShape(all, page, TARGET_PAGE_SIZE);
    }
    GatheredIsFirstPages(fetch, all, last);
    FirstPagesArePrefix(all, last, TARGET_PAGE_SIZE);
  }

  // ---------------------------------------------------------------------------
  // Hosts

  datatype Status = Online | Offline | UnknownStatus

  datatype Host = Host(id: string, name: string, ip: string, os: string, status: Status, statusTime: Option<int>,
      cpuCores: Option<int>, memory: Option<int>, uptime: int)

  function StatusOf(value: int): Status {
    if value == 2 then Online else if value == 0 then Offline else UnknownStatus
  }

  predicate UsableTime(seconds: int) {
    0 < seconds < TIME_LIMIT
  }

  /** The heartbeat when it is usable, failing that the last update. */
  function StatusTime(record: Record): Option<int> {
    if UsableTime(record.beatTime) then Some(record.beatTime)
    else if UsableTime(record.updateAt) then Some(record.updateAt)
    else None
  }

  function HostOf(record: Record): Host {
    Host(record.ident, record.ident, record.hostIp, record.os, StatusOf(record.targetUp), StatusTime(record),
         if record.cpuNum > 0 then Some(record.cpuNum) else None, None, 0)
  }

  /** The host shows the record, field by field. */
  ghost predicate Pictures(host: Host, record: Record) {
    && host.id == host.name == record.ident && host.ip == record.hostIp && host.os == record.os
    && (host.status == Online <==> record.targetUp == 2) && (host.status == Offline <==> record.targetUp == 0)
    && host.cpuCores == (if record.cpuNum > 0 then Some(record.cpuNum) else None)
    && (match host.statusTime
        case Some(t) =>
          && 0 < t < 253402300800
          && (t == record.beatTime || (t == record.updateAt && !(0 < record.beatTime < 253402300800)))
        case None => !(0 < record.beatTime < 253402300800) && !(0 < record.updateAt < 253402300800))
  }

  function HostsOf(records: seq<Record>): seq<Host> {
    seq(|records|, i requires 0 <= i < |records| => HostOf(records[i]))
  }

  function Idents(records: seq<Record>): seq<string> {
    seq(|records|, i requires 0 <= i < |records| => records[i].ident)
  }

  predicate SoundIdents(records: seq<Record>, blank: string -> bool) {
    && (forall r <- records :: !blank(r.ident))
    && (forall i, j | 0 <= i < j < |records| :: records[i].ident != records[j].ident)
  }

  /** The hosts of the records: refused when an identifier is blank or occurs twice. */
  method MapTargetRecords(records: seq<Record>, blank: string -> bool)
      returns (result: Option<(seq<Host>, seq<string>)>)
    ensures result == if SoundIdents(records, blank) then Some((HostsOf(records), Idents(records))) else None
    ensures result.Some? <==>
              && (forall r <- records :: !blank(r.ident))
              && forall i, j | 0 <= i < j < |records| :: records[i].ident != records[j].ident
    ensures result.Some? ==>
              && |result.value.0| == |result.value.1| == |records|
              && forall i | 0 <= i < |records| ::
                   && Pictures(result.value.0[i], records[i])
                   && result.value.0[i].memory == None && result.value.0[i].uptime == 0
                   && result.value.1[i] == records[i].ident
  {
    var hosts: seq<Host> := [];
    var ids: seq<string> := [];
    var seen: set<string> := {};
    for i := 0 to |records|
      invariant hosts == HostsOf(records[..i]) && ids == Idents(records[..i])
      invariant forall id :: id in seen <==> exists k | 0 <= k < i :: records[k].ident == id
      invariant forall k | 0 <= k < i :: !blank(records[k].ident)
      invariant forall j, k | 0 <= j < k < i :: records[j].ident != records[k].ident
    {
      var record := records[i];
      if blank(record.ident) {
        return None;
      }
      if record.ident in seen {
        return None;
      }
      seen := seen + {record.ident};
      hosts := hosts + [HostOf(record)];
      ids := ids + [record.ident];
    }
    assert records[..|records|] == records;
    return Some((hosts, ids));
  }

  // ---------------------------------------------------------------------------
  // Memory and uptime

  const INT64_LIMIT := 0x8000_0000_0000_0000
  const SECOND := 1_000_000_000

  /** A sample of one host; no value when it is malformed. */
  datatype Reading = Reading(ident: string, value: Option<real>)

  /** What the parser hands on: zero for a malformed sample. */
  function Parsed(reading: Reading): real {
    if reading.value.Some? then reading.value.value else 0.0
  }

  /** Halves are rounded away from zero. */
  function Rounded(value: real): int {
    if value >= 0.0 then (value + 0.5).Floor else -(-value + 0.5).Floor
  }

  /** A memory size: positive and within 64 bits. */
  function MemoryOf(value: real): Option<int> {
    if 0 < Rounded(value) < INT64_LIMIT then Some(Rounded(value)) else None
  }

  /** A duration: not negative and within 64 bits of nanoseconds. */
  function UptimeOf(value: real): Option<int> {
    var nanoseconds := (value * SECOND as real).Floor;
    if value >= 0.0 && nanoseconds < INT64_LIMIT then Some(nanoseconds) else None
  }

  /** The nearest integer, and of two equally near ones the one farther from zero. */
  lemma RoundedIsNearest(value: real)
    ensures -0.5 <= value - Rounded(value) as real <= 0.5
    ensures value - Rounded(value) as real == 0.5 ==> value < 0.0
    ensures value - Rounded(value) as real == -0.5 ==> value > 0.0
  {
  }

  /** A memory size is the nearest integer, if that is positive and fits; an uptime is cut to whole nanoseconds. */
  lemma ValuesInRange(value: real)
    ensures MemoryOf(value) == None <==> value < 0.5 || value >= 9_223_372_036_854_775_807.5
    ensures MemoryOf(value).Some? ==> -0.5 <= value - MemoryOf(value).value as real < 0.5
    ensures UptimeOf(value) == None <==> value < 0.0 || value * 1_000_000_000.0 >= 9_223_372_036_854_775_808.0
    ensures UptimeOf(value).Some? ==> 0.0 <= value * 1_000_000_000.0 - UptimeOf(value).value as real < 1.0
  {
  }

  datatype Column = Memory | Uptime

  function Accepted(column: Column, value: real): Option<int> {
    match column
    case Memory => MemoryOf(value)
    case Uptime => UptimeOf(value)
  }

  /** The loop takes this reading for the host: malformed or not, what was parsed is in range. */
  predicate Takes(column: Column, reading: Reading, id: string) {
    reading.ident == id && Accepted(column, Parsed(reading)).Some?
  }

  /** The last value the loop takes for a host. */
  function LastTaken(column: Column, readings: seq<Reading>, id: string): (value: Option<int>)
    ensures value.None? <==> forall r <- readings :: !Takes(column, r, id)
    ensures value.Some? ==>
              exists i :: 0 <= i < |readings| && Takes(column, readings[i], id) &&
                value == Accepted(column, Parsed(readings[i])) &&
                forall j | i < j < |readings| :: !Takes(column, readings[j], id)
  {
    if readings == [] then None
    else
      var before, last := readings[..|readings| - 1], readings[|readings| - 1];
      assert readings == before + [last];
      if Takes(column, last, id) then Accepted(column, Parsed(last)) else LastTaken(column, before, id)
  }

  /** The last value that was really read for a host: a malformed sample is no reading. */
  function LastValid(column: Column, readings: seq<Reading>, id: string): (value: Option<int>)
    ensures value.None? <==> forall r <- readings :: r.value.Some? ==> !Takes(column, r, id)
    ensures value.Some? ==>
              exists i :: 0 <= i < |readings| && readings[i].value.Some? && Takes(column, readings[i], id) &&
                value == Accepted(column, readings[i].value.value) &&
                forall j | i < j < |readings| && readings[j].value.Some? :: !Takes(column, readings[j], id)
  {
    if readings == [] then None
    else
      var before, last := readings[..|readings| - 1], readings[|readings| - 1];
      assert readings == before + [last];
      if last.value.Some? && Takes(column, last, id) then Accepted(column, last.value.value)
      else LastValid(column, before, id)
  }

  /** For memory a malformed sample never leaves a trace, as zero is no memory size. */
  lemma {:induction false} MemoryIsLastValid(readings: seq<Reading>, id: string)
    ensures LastTaken(Memory, readings, id) == LastValid(Memory, readings, id)
  {
    if readings != [] {
      MemoryIsLastValid(readings[..|readings| - 1], id);
      assert (0.0 + 0.5).Floor == 0;
    }
  }

  /** Reading i is malformed, and the loop takes no later one for the host. */
  predicate MalformedLast(readings: seq<Reading>, id: string, i: nat) {
    && i < |readings| && readings[i] == Reading(id, None)
    && forall j | i < j < |readings| :: !Takes(Uptime, readings[j], id)
  }

  ghost predicate EndsMalformed(readings: seq<Reading>, id: string) {
    exists i: nat :: MalformedLast(readings, id, i)
  }

  /** The last reading in range is malformed although a time other than zero was read. */
  ghost predicate Spoiled(readings: seq<Reading>, id: string) {
    && EndsMalformed(readings, id)
    && LastValid(Uptime, readings, id).Some? && LastValid(Uptime, readings, id).value != 0
  }

  function OrZero(value: Option<int>): int {
    if value.Some? then value.value else 0
  }

  /** A malformed sample counts as an uptime of zero. */
  lemma MalformedIsZeroUptime(id: string)
    ensures Takes(Uptime, Reading(id, None), id) && Accepted(Uptime, Parsed(Reading(id, None))) == Some(0)
  {
    assert (0.0 * SECOND as real).Floor == 0;
  }

  /** The uptime shown is the last one read if and only if no malformed sample came after it in its stead. */
  lemma UptimeIsLastValidUnlessSpoiled(readings: seq<Reading>, id: string)
    ensures OrZero(LastTaken(Uptime, readings, id)) == OrZero(LastValid(Uptime, readings, id)) <==>
            !Spoiled(readings, id)
  {
    MalformedIsZeroUptime(id);
    TakenOrMalformed(readings, id);
  }

  lemma EndsMalformedStep(before: seq<Reading>, last: Reading, id: string)
    ensures EndsMalformed(before + [last], id) <==>
            last == Reading(id, None) || (EndsMalformed(before, id) && !Takes(Uptime, last, id))
  {
    var all := before + [last];
    if i: nat :| MalformedLast(all, id, i) && last != Reading(id, None) {
      assert all[|before|] == last;
      assert forall j | i < j < |before| :: before[j] == all[j];
      assert MalformedLast(before, id, i);
    }
    if last == Reading(id, None) {
      assert MalformedLast(all, id, |before|);
    }
    if i: nat :| MalformedLast(before, id, i) && !Takes(Uptime, last, id) {
      assert forall j | i < j < |all| :: all[j] == if j < |before| then before[j] else last;
      assert MalformedLast(all, id, i);
    }
  }

  /** What the loop takes last is the last valid reading, or zero from a malformed one. */
  lemma {:induction false} TakenOrMalformed(readings: seq<Reading>, id: string)
    ensures if EndsMalformed(readings, id) then LastTaken(Uptime, readings, id) == Some(0)
            else LastTaken(Uptime, readings, id) == LastValid(Uptime, readings, id)
  {
    if readings != [] {
      var before, last := readings[..|readings| - 1], readings[|readings| - 1];
      assert readings == before + [last];
      TakenOrMalformed(before, id);
      EndsMalformedStep(before, last, id);
      MalformedIsZeroUptime(id);
    }
  }

  /** Two series of one host, the second not a number: ninety seconds and a half read as zero. */
  lemma MalformedSampleSpoilsUptime(id: string)
    ensures var readings := [Reading(id, Some(90.5)), Reading(id, None)];
      && LastTaken(Uptime, readings, id) == Some(0)
      && LastValid(Uptime, readings, id) == Some(90_500_000_000)
      && Spoiled(readings, id)
  {
    var readings := [Reading(id, Some(90.5)), Reading(id, None)];
    MalformedIsZeroUptime(id);
    assert readings[..1] == [readings[0]] && readings[..1][..0] == [];
    assert UptimeOf(90.5) == Some(90_500_000_000);
    assert MalformedLast(readings, id, 1);
  }

  function WithMemory(host: Host, readings: seq<Reading>): Host {
    var value := LastTaken(Memory, readings, host.id);
    if value.Some? then host.(memory := value) else host
  }

  function WithUptime(host: Host, readings: seq<Reading>): Host {
    var value := LastTaken(Uptime, readings, host.id);
    if value.Some? then host.(uptime := value.value) else host
  }

  ghost predicate DistinctHosts(hosts: seq<Host>) {
    forall i, j | 0 <= i < j < |hosts| :: hosts[i].id != hosts[j].id
  }

  /** Where each host stands. */
  ghost predicate Indexes(index: map<string, nat>, hosts: seq<Host>) {
    && (forall i | 0 <= i < |hosts| :: hosts[i].id in index && index[hosts[i].id] == i)
    && (forall id <- index :: index[id] < |hosts| && hosts[index[id]].id == id)
  }

  method IndexHosts(hosts: seq<Host>) returns (index: map<string, nat>)
    requires DistinctHosts(hosts)
    ensures Indexes(index, hosts)
  {
    index := map[];
    for i := 0 to |hosts|
      invariant Indexes(index, hosts[..i])
    {
      index := index[hosts[i].id := i];
    }
    assert hosts[..|hosts|] == hosts;
  }

  /** Samples of unknown hosts leave no trace; otherwise the last size in range counts. */
  method ApplyMemory(hosts: array<Host>, index: map<string, nat>, readings: seq<Reading>)
    requires Indexes(index, hosts[..])
    modifies hosts
    ensures forall i | 0 <= i < hosts.Length :: hosts[i] == WithMemory(old(hosts[i]), readings)
  {
    for k := 0 to |readings|
      invariant forall i | 0 <= i < hosts.Length :: hosts[i] == WithMemory(old(hosts[i]), readings[..k])
    {
      assert readings[..k + 1][..k] == readings[..k];
      var reading := readings[k];
      if reading.ident in index {
        assert old(hosts[..])[index[reading.ident]].id == reading.ident;
        var memory := MemoryOf(Parsed(reading));
        if memory.Some? {
          hosts[index[reading.ident]] := hosts[index[reading.ident]].(memory := memory);
        }
      }
      assert forall i | 0 <= i < hosts.Length :: reading.ident == old(hosts[i]).id <==>
          reading.ident in index && index[reading.ident] == i by {
        assert forall i | 0 <= i < hosts.Length :: old(hosts[..])[i] == old(hosts[i]);
      }
    }
    assert readings[..|readings|] == readings;
  }

  /** The parser's verdict on a sample is overwritten by the range test, so a malformed sample counts as zero. */
  method ApplyUptime(hosts: array<Host>, index: map<string, nat>, readings: seq<Reading>)
    requires Indexes(index, hosts[..])
    modifies hosts
    ensures forall i | 0 <= i < hosts.Length :: hosts[i] == WithUptime(old(hosts[i]), readings)
  {
    for k := 0 to |readings|
      invariant forall i | 0 <= i < hosts.Length :: hosts[i] == WithUptime(old(hosts[i]), readings[..k])
    {
      assert readings[..k + 1][..k] == readings[..k];
      var reading := readings[k];
      if reading.ident in index {
        assert old(hosts[..])[index[reading.ident]].id == reading.ident;
        var uptime := UptimeOf(Parsed(reading));
        if uptime.Some? {
          hosts[index[reading.ident]] := hosts[index[reading.ident]].(uptime := uptime.value);
        }
      }
      assert forall i | 0 <= i < hosts.Length :: reading.ident == old(hosts[i]).id <==>
          reading.ident in index && index[reading.ident] == i by {
        assert forall i | 0 <= i < hosts.Length :: old(hosts[..])[i] == old(hosts[i]);
      }
    }
    assert readings[..|readings|] == readings;
  }

  /** What the upstream says about memory and uptime of these hosts, if it answers. */
  type Query = seq<string> -> Option<(seq<Reading>, seq<Reading>)>

  /** The hosts of a list of records, given that answer. */
  function Expected(all: seq<Record>, blank: string -> bool, query: Query): Option<seq<Host>> {
    if !SoundIdents(all, blank) then None
    else if all == [] then Some([])
    else match query(Idents(all))
      case None => None
      case Some((memory, uptime)) =>
        Some(seq(|all|, i requires 0 <= i < |all| => WithUptime(WithMemory(HostOf(all[i]), memory), uptime)))
  }

  /**
   Of each host shown the fields are those of its record, the memory is the last one read, and the uptime too
   unless a malformed sample spoiled it.
   */
  lemma ExpectedReadings(all: seq<Record>, memory: seq<Reading>, uptime: seq<Reading>, i: nat)
    requires i < |all|
    ensures var host := WithUptime(WithMemory(HostOf(all[i]), memory), uptime);
      && Pictures(host, all[i])
      && host.memory == LastValid(Memory, memory, all[i].ident)
      && (host.uptime == OrZero(LastValid(Uptime, uptime, all[i].ident)) <==> !Spoiled(uptime, all[i].ident))
  {
    MemoryIsLastValid(memory, all[i].ident);
    UptimeIsLastValidUnlessSpoiled(uptime, all[i].ident);
  }

  /** Whose hosts a list of records yields, and when it yields any. */
  ghost predicate Yields(all: seq<Record>, blank: string -> bool, query: Query, result: Option<seq<Host>>) {
    && (result.Some? <==>
          && (forall r <- all :: !blank(r.ident))
          && (forall i, j | 0 <= i < j < |all| :: all[i].ident != all[j].ident)
          && (all == [] || query(Idents(all)).Some?))
    && (result.Some? ==>
          && |result.value| == |all|
          && forall i | 0 <= i < |all| ::
               var (memory, uptime) := query(Idents(all)).value;
               var id, host := all[i].ident, result.value[i];
               && Pictures(host, all[i])
               && host.memory == LastValid(Memory, memory, id)
               && (host.uptime == OrZero(LastValid(Uptime, uptime, id)) <==> !Spoiled(uptime, id)))
  }

  lemma ExpectedIsYielded(all: seq<Record>, blank: string -> bool, query: Query)
    ensures Yields(all, blank, query, Expected(all, blank, query))
  {
    if Expected(all, blank, query).Some? && all != [] {
      var (memory, uptime) := query(Idents(all)).value;
      forall i | 0 <= i < |all|
        ensures Pictures(Expected(all, blank, query).value[i], all[i])
        ensures Expected(all, blank, query).value[i].memory == LastValid(Memory, memory, all[i].ident)
        ensures Expected(all, blank, query).value[i].uptime == OrZero(LastValid(Uptime, uptime, all[i].ident)) <==>
                !Spoiled(uptime, all[i].ident)
      {
        ExpectedReadings(all, memory, uptime, i);
      }
    }
  }

  /** The whole reading: of a served list the hosts are its records, in order, with the last readings taken. */
  method ListHosts(fetch: Upstream, blank: string -> bool, query: Query) returns (result: Option<seq<Host>>)
    ensures forall all: seq<Record> :: Serves(fetch, all) ==>
              result == if |all| <= 1_000_000 then Expected(all, blank, query) else None
    ensures forall all: seq<Record> :: Serves(fetch, all) && |all| <= 1_000_000 ==> Yields(all, blank, query, result)
  {
    var records := ListTargetRecords(fetch);
    forall all: seq<Record> | Serves(fetch, all)
      ensures records == if |all| <= MAX_PAGES * TARGET_PAGE_SIZE then Some(all) else None
    {
      ServedListIsReadBack(fetch, all);
    }
    if records.None? {
      return None;
    }
    result := HostsOfRecords(records.value, blank, query);
    ExpectedIsYielded(records.value, blank, query);
  }

  method HostsOfRecords(records: seq<Record>, blank: string -> bool, query: Query) returns (result: Option<seq<Host>>)
    ensures result == Expected(records, blank, query)
  {
    var mapped := MapTargetRecords(records, blank);
    if mapped.None? {
      return None;
    }
    var (listed, ids) := mapped.value;
    if |ids| == 0 {
      return Some(listed);
    }
    var answer := query(ids);
    if answer.None? {
      return None;
    }
    var hosts := ApplyReadings(listed, answer.value.0, answer.value.1);
    assert hosts == Expected(records, blank, query).value;
    return Some(hosts);
  }

  method ApplyReadings(listed: seq<Host>, memory: seq<Reading>, uptime: seq<Reading>) returns (shown: seq<Host>)
    requires DistinctHosts(listed)
    ensures |shown| == |listed|
    ensures forall i | 0 <= i < |listed| :: shown[i] == WithUptime(WithMemory(listed[i], memory), uptime)
  {
    var index := IndexHosts(listed);
    var hosts := new Host[|listed|](i requires 0 <= i < |listed| => listed[i]);
    assert hosts[..] == listed;
    ApplyMemory(hosts, index, memory);
    ghost var middle := hosts[..];
    assert Indexes(index, middle);
    ApplyUptime(hosts, index, uptime);
    assert forall i | 0 <= i < |listed| :: middle[i] == WithMemory(listed[i], memory);
    return hosts[..];
  }

  // ---------------------------------------------------------------------------
  // The data source

  datatype Source = Source(id: int, plugin: string, isDefault: bool, name: string)

  predicate Eligible(source: Source) {
    source.plugin == "prometheus" && source.id > 0
  }

  /** The comparator of the sort: default sources first, then by identifier. */
  predicate SourceLess(a: Source, b: Source) {
    if a.isDefault != b.isDefault then a.isDefault else a.id < b.id
  }

  /** A result of sorting: the order of sources the comparator does not tell apart is free. */
  ghost predicate IsSorting(sorted: seq<Source>, sources: seq<Source>) {
    multiset(sorted) == multiset(sources) && forall i, j | 0 <= i < j < |sorted| :: !SourceLess(sorted[j], sorted[i])
  }

  function Candidates(sources: seq<Source>): (kept: seq<Source>)
    ensures forall s :: s in kept <==> s in sources && Eligible(s)
  {
    if sources == [] then []
    else
      var before, last := Candidates(sources[..|sources| - 1]), sources[|sources| - 1];
      before + (if Eligible(last) then [last] else [])
  }

  /** The smallest identifier among the default candidates, or among all when none is a default. */
  ghost predicate IsChoice(sources: seq<Source>, id: int) {
    exists best <- sources ::
      && best.plugin == "prometheus" && best.id > 0 && best.id == id
      && forall s <- sources | s.plugin == "prometheus" && s.id > 0 ::
           (s.isDefault ==> best.isDefault) && (s.isDefault == best.isDefault ==> id <= s.id)
  }

  /** However the sort orders equal sources, its first identifier is the choice. */
  lemma FirstOfSortingIsChoice(sources: seq<Source>, sorted: seq<Source>)
    requires IsSorting(sorted, Candidates(sources))
    ensures sorted == [] <==> forall s <- sources :: s.plugin != "prometheus" || s.id <= 0
    ensures sorted != [] ==> IsChoice(sources, sorted[0].id)
  {
    var kept := Candidates(sources);
    assert forall s :: s in sorted <==> s in multiset(sorted);
    assert forall s :: s in kept <==> s in multiset(kept);
    if sorted == [] {
      return;
    }
    var best := sorted[0];
    assert best in kept;
    forall s <- sources | Eligible(s)
      ensures (s.isDefault ==> best.isDefault) && (s.isDefault == best.isDefault ==> best.id <= s.id)
    {
      assert s in sorted;
      var i :| 0 <= i < |sorted| && sorted[i] == s;
      if i > 0 {
        assert !SourceLess(sorted[i], sorted[0]);
      }
    }
  }

  /** The choice is one identifier, whatever the order of the listing. */
  lemma ChoiceIgnoresOrder(a: seq<Source>, b: seq<Source>, idA: int, idB: int)
    requires multiset(a) == multiset(b) && IsChoice(a, idA) && IsChoice(b, idB)
    ensures idA == idB
  {
    assert forall s :: s in a <==> s in multiset(a);
    assert forall s :: s in b <==> s in multiset(b);
  }
}
