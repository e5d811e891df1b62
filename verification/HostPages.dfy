/**
 The host list: a sort closure that looks for an integer, then a measured value, then a
 text before it falls back to plain comparison, and pages of any positive number.
 */
module HostPages {
  import opened Integers
  import opened NaturalOrder
  import opened Optional
  import opened SortedPages

  datatype Level = Normal | Warning | Critical | Unknown

  datatype HostStatus = Online | Offline | StatusUnknown

  datatype Host = Host(
    id: Bytes, name: Bytes, ip: Bytes,
    cpuCores: Option<int>, memoryTotal: Option<int>,
    cpu: Option<real>, memory: Option<real>, load: Option<real>, ioBusy: Option<real>,
    transmit: Option<real>, receive: Option<real>,
    uptime: int,
    status: HostStatus, collection: Level)

  datatype Field =
    | Id | Name | Ip | CpuCores | MemoryTotal | Cpu | Memory | Load | IoBusy
    | Network | Transmit | Receive | Uptime | Status

  function IntegerValue(h: Host, field: Field): Sortable<int> {
    match field
    case CpuCores => if h.cpuCores.None? then (0, false, true) else (h.cpuCores.value, true, true)
    case MemoryTotal => if h.memoryTotal.None? then (0, false, true) else (h.memoryTotal.value, true, true)
    case _ => (0, false, false)
  }

  function Measured(value: Option<real>): Sortable<real> {
    if value.None? then (0.0, false, true) else (value.value, true, true)
  }

  function OrZero(value: Option<real>): real {
    if value.None? then 0.0 else value.value
  }

  function MetricValue(h: Host, field: Field): Sortable<real> {
    match field
    case Cpu => Measured(h.cpu)
    case Memory => Measured(h.memory)
    case Load => Measured(h.load)
    case IoBusy => Measured(h.ioBusy)
    case Network => (OrZero(h.transmit) + OrZero(h.receive), h.transmit.Some? || h.receive.Some?, true)
    case Transmit => Measured(h.transmit)
    case Receive => Measured(h.receive)
    case _ => (0.0, false, false)
  }

  function TextValue(text: Text, h: Host, field: Field): Sortable<Bytes> {
    match field
    case Name => (text.trim(h.name), text.trim(h.name) != [], true)
    case Ip => (text.trim(h.ip), text.trim(h.ip) != [], true)
    case _ => ([], false, false)
  }

  function StatusRank(h: Host): int {
    if h.collection == Warning then 1
    else if h.collection == Critical then 2
    else match h.status
      case Online => 0
      case Offline => 2
      case StatusUnknown => 3
  }

  function CompareHosts(a: Host, b: Host, field: Field): int {
    match field
    case Id => CompareBytes(a.id, b.id)
    case Status => CompareInts(StatusRank(a), StatusRank(b))
    case Uptime => CompareInts(a.uptime, b.uptime)
    case _ => 0
  }

  /** The less-function handed to the library's sort. */
  predicate Less(text: Text, field: Field, descending: bool, a: Host, b: Host) {
    var (leftInteger, leftHas, integerSort) := IntegerValue(a, field);
    var (rightInteger, rightHas, _) := IntegerValue(b, field);
    if integerSort && leftHas != rightHas then leftHas
    else if integerSort && leftHas then Decide(CompareInts(leftInteger, rightInteger), descending, a.id, b.id)
    else
      var (leftMetric, leftHas, metricSort) := MetricValue(a, field);
      var (rightMetric, rightHas, _) := MetricValue(b, field);
      if metricSort && leftHas != rightHas then leftHas
      else if metricSort && leftHas then Decide(CompareAmounts(leftMetric, rightMetric), descending, a.id, b.id)
      else
        var (leftText, leftHas, textSort) := TextValue(text, a, field);
        var (rightText, rightHas, _) := TextValue(text, b, field);
        if textSort && leftHas != rightHas then leftHas
        else
          var comparison :=
            if textSort && leftHas then Compare(text.lower(leftText), text.lower(rightText))
            else if !textSort then CompareHosts(a, b, field)
            else 0;
          Decide(comparison, descending, a.id, b.id)
  }

  function NameOf(text: Text, raw: Bytes): Key {
    if text.trim(raw) == [] then Absent else Names(text.lower(text.trim(raw)), [])
  }

  function KeyOf(text: Text, field: Field, h: Host): Key {
    match field
    case Id => Raw(h.id, [])
    case Name => NameOf(text, h.name)
    case Ip => NameOf(text, h.ip)
    case CpuCores => if h.cpuCores.None? then Absent else Amount(h.cpuCores.value as real)
    case MemoryTotal => if h.memoryTotal.None? then Absent else Amount(h.memoryTotal.value as real)
    case Cpu => AmountOf(h.cpu)
    case Memory => AmountOf(h.memory)
    case Load => AmountOf(h.load)
    case IoBusy => AmountOf(h.ioBusy)
    case Network =>
      if h.transmit.None? && h.receive.None? then Absent else Amount(OrZero(h.transmit) + OrZero(h.receive))
    case Transmit => AmountOf(h.transmit)
    case Receive => AmountOf(h.receive)
    case Uptime => Amount(h.uptime as real)
    case Status => Amount(StatusRank(h) as real)
  }

  predicate IsText(field: Field) {
    field.Name? || field.Ip?
  }

  lemma TextColumn(text: Text, field: Field, descending: bool, a: Host, b: Host)
    requires IsText(field)
    ensures SameShape(KeyOf(text, field, a), KeyOf(text, field, b))
    ensures Less(text, field, descending, a, b) <==>
            Precedes(descending, Row(KeyOf(text, field, a), a.id), Row(KeyOf(text, field, b), b.id))
  {
    assert Compare([], []) == 0;
  }

  lemma PlainColumn(text: Text, field: Field, descending: bool, a: Host, b: Host)
    requires field.Id? || field.Status? || field.Uptime? || field.CpuCores? || field.MemoryTotal?
    ensures SameShape(KeyOf(text, field, a), KeyOf(text, field, b))
    ensures Less(text, field, descending, a, b) <==>
            Precedes(descending, Row(KeyOf(text, field, a), a.id), Row(KeyOf(text, field, b), b.id))
  {
  }

  lemma MetricColumn(text: Text, field: Field, descending: bool, a: Host, b: Host)
    requires MetricValue(a, field).2
    ensures SameShape(KeyOf(text, field, a), KeyOf(text, field, b))
    ensures Less(text, field, descending, a, b) <==>
            Precedes(descending, Row(KeyOf(text, field, a), a.id), Row(KeyOf(text, field, b), b.id))
  {
  }

  /** The three-tier closure is the one order on keys in every column. */
  lemma LessIsKeyOrder(text: Text, field: Field, descending: bool, a: Host, b: Host)
    ensures SameShape(KeyOf(text, field, a), KeyOf(text, field, b))
    ensures Less(text, field, descending, a, b) <==>
            Precedes(descending, Row(KeyOf(text, field, a), a.id), Row(KeyOf(text, field, b), b.id))
  {
    if IsText(field) {
      TextColumn(text, field, descending, a, b);
    } else if MetricValue(a, field).2 {
      MetricColumn(text, field, descending, a, b);
    } else {
      PlainColumn(text, field, descending, a, b);
    }
  }

  function LessFunction(text: Text, field: Field, descending: bool): (Host, Host) -> bool {
    (a, b) => Less(text, field, descending, a, b)
  }

  function IdOf(h: Host): Bytes {
    h.id
  }

  lemma LessIsStrictTotalOrder(text: Text, field: Field, descending: bool, hosts: seq<Host>)
    requires DistinctIds(IdOf, hosts)
    ensures StrictOrder(LessFunction(text, field, descending))
    ensures Decides(hosts, LessFunction(text, field, descending))
  {
    var less := LessFunction(text, field, descending);
    var row := (h: Host) => Row(KeyOf(text, field, h), h.id);
    forall a, b
      ensures SameShape(row(a).key, row(b).key) && (less(a, b) <==> Precedes(descending, row(a), row(b)))
    {
      LessIsKeyOrder(text, field, descending, a, b);
    }
    KeyOrderIsTotal(hosts, less, row, descending);
  }

  /** The filtered, sorted hosts; `keep` is the search and status filter. */
  function Listing(text: Text, hosts: seq<Host>, keep: Host -> bool, field: Field, descending: bool): seq<Host> {
    Sort(Filter(hosts, keep), LessFunction(text, field, descending))
  }

  /** The inventory order never shows through, whatever the filter. */
  lemma ListingIgnoresInventoryOrder(text: Text, s: seq<Host>, t: seq<Host>, keep: Host -> bool, field: Field,
      descending: bool)
    requires multiset(s) == multiset(t) && DistinctIds(IdOf, s)
    ensures Listing(text, s, keep, field, descending) == Listing(text, t, keep, field, descending)
  {
    LessIsStrictTotalOrder(text, field, descending, s);
    ListingIsCanonical(s, t, keep, LessFunction(text, field, descending));
  }

  /** In either direction every host without a value comes after every host with one. */
  lemma MissingValuesComeLast(text: Text, field: Field, descending: bool, sorted: seq<Host>, i: nat, j: nat)
    requires NoInversion(sorted, LessFunction(text, field, descending))
    requires i < j < |sorted| && KeyOf(text, field, sorted[i]).Absent?
    ensures KeyOf(text, field, sorted[j]).Absent?
  {
    var less := LessFunction(text, field, descending);
    assert !less(sorted[j], sorted[i]);
    LessIsKeyOrder(text, field, descending, sorted[j], sorted[i]);
  }
  // ---------------------------------------------------------------------------
  // Queries

  datatype Query = Query(search: Bytes, status: string, sort: string, order: string, page: Int, pageSize: Int)

  /** Several columns go by two names. */
  function ParseField(sort: string): Option<Field> {
    match sort
    case "" => Some(Name)
    case "id" => Some(Id)
    case "name" => Some(Name)
    case "ip" => Some(Ip)
    case "cpu_cores" => Some(CpuCores)
    case "memory_total" => Some(MemoryTotal)
    case "cpu" => Some(Cpu)
    case "cpu_usage" => Some(Cpu)
    case "memory" => Some(Memory)
    case "memory_usage" => Some(Memory)
    case "load" => Some(Load)
    case "io" => Some(IoBusy)
    case "io_busy_percent" => Some(IoBusy)
    case "network" => Some(Network)
    case "network_transmit" => Some(Transmit)
    case "network_receive" => Some(Receive)
    case "uptime" => Some(Uptime)
    case "status" => Some(Status)
    case _ => None
  }

  function ParseStatus(status: string): Option<Option<HostStatus>> {
    match status
    case "" => Some(None)
    case "online" => Some(Some(Online))
    case "offline" => Some(Some(Offline))
    case "unknown" => Some(Some(StatusUnknown))
    case _ => None
  }

  /** Any positive page may be asked for. */
  predicate Acceptable(query: Query) {
    && AcceptedPage(Clamped, query.page as int, query.pageSize as int)
    && ParseStatus(query.status).Some?
    && ParseField(query.sort).Some?
    && query.order in ["", "asc", "desc"]
  }

  predicate Keep(text: Text, query: Query, h: Host)
    requires ParseStatus(query.status).Some?
  {
    var search, status := text.lower(text.trim(query.search)), ParseStatus(query.status).value;
    && (search == [] || Contains(text.lower(h.name), search) || Contains(text.lower(h.ip), search))
    && (status.None? || h.status == status.value)
  }

  function KeepFunction(text: Text, query: Query): Host -> bool
    requires ParseStatus(query.status).Some?
  {
    (h: Host) => ParseStatus(query.status).Some? && Keep(text, query, h)
  }

  // ---------------------------------------------------------------------------
  // What a query asks for, in its own texts

  predicate ValidQuery(query: Query) {
    && query.page >= 1 && query.pageSize in {20, 50, 100, 500}
    && query.status in {"", "online", "offline", "unknown"}
    && query.sort in {"", "id", "name", "ip", "cpu_cores", "memory_total", "cpu", "cpu_usage", "memory",
                      "memory_usage", "load", "io", "io_busy_percent", "network", "network_transmit",
                      "network_receive", "uptime", "status"}
    && query.order in {"", "asc", "desc"}
  }

  /** Hosts of the status asked for, with the text asked for in their name or address. */
  ghost predicate Selected(text: Text, query: Query, h: Host) {
    var search := text.lower(text.trim(query.search));
    && (query.status == "online" ==> h.status.Online?)
    && (query.status == "offline" ==> h.status.Offline?)
    && (query.status == "unknown" ==> h.status.StatusUnknown?)
    && (Occurs(search, text.lower(h.name)) || Occurs(search, text.lower(h.ip)))
  }

  predicate CountsInOrder(descending: bool, x: Option<int>, y: Option<int>) {
    y.None? || (x.Some? && if descending then x.value >= y.value else x.value <= y.value)
  }

  predicate TextsInOrder(text: Text, descending: bool, x: Bytes, y: Bytes) {
    text.trim(y) == [] ||
    (text.trim(x) != [] && NamesInOrder(descending, text.lower(text.trim(x)), text.lower(text.trim(y))))
  }

  /** What one host sends and receives together, if it reports either. */
  function Traffic(h: Host): Option<real> {
    match (h.transmit, h.receive)
    case (None, None) => None
    case (Some(sent), None) => Some(sent)
    case (None, Some(received)) => Some(received)
    case (Some(sent), Some(received)) => Some(sent + received)
  }

  predicate Troubled(h: Host) {
    h.collection == Critical || (h.collection != Warning && h.status.Offline?)
  }

  predicate Sound(h: Host) {
    h.collection != Critical && h.collection != Warning && h.status.Online?
  }

  predicate Unclear(h: Host) {
    h.collection != Critical && h.collection != Warning && h.status.StatusUnknown?
  }

  /** Sound hosts, then those that report late, then those offline or silent, then those of no known status. */
  predicate StatusesInOrder(descending: bool, a: Host, b: Host) {
    var first, second := if descending then b else a, if descending then a else b;
    || Sound(first) || Unclear(second)
    || (first.collection == Warning && (second.collection == Warning || Troubled(second)))
    || (Troubled(first) && Troubled(second))
  }

  /** The column a query names; several have two names. */
  ghost predicate NamesColumn(sort: string, field: Field) {
    && (field == Id <==> sort == "id")
    && (field == Name <==> sort in {"", "name"})
    && (field == Ip <==> sort == "ip")
    && (field == CpuCores <==> sort == "cpu_cores")
    && (field == MemoryTotal <==> sort == "memory_total")
    && (field == Cpu <==> sort in {"cpu", "cpu_usage"})
    && (field == Memory <==> sort in {"memory", "memory_usage"})
    && (field == Load <==> sort == "load")
    && (field == IoBusy <==> sort in {"io", "io_busy_percent"})
    && (field == Network <==> sort == "network")
    && (field == Transmit <==> sort == "network_transmit")
    && (field == Receive <==> sort == "network_receive")
    && (field == Uptime <==> sort == "uptime")
    && (field == Status <==> sort == "status")
  }

  /** The first host may stand before the second in a list sorted by this column. */
  predicate MayPrecede(text: Text, field: Field, descending: bool, a: Host, b: Host) {
    match field
    case Id => if descending then CompareBytes(a.id, b.id) >= 0 else CompareBytes(a.id, b.id) <= 0
    case Name => TextsInOrder(text, descending, a.name, b.name)
    case Ip => TextsInOrder(text, descending, a.ip, b.ip)
    case CpuCores => CountsInOrder(descending, a.cpuCores, b.cpuCores)
    case MemoryTotal => CountsInOrder(descending, a.memoryTotal, b.memoryTotal)
    case Cpu => OptionsInOrder(descending, a.cpu, b.cpu)
    case Memory => OptionsInOrder(descending, a.memory, b.memory)
    case Load => OptionsInOrder(descending, a.load, b.load)
    case IoBusy => OptionsInOrder(descending, a.ioBusy, b.ioBusy)
    case Network => OptionsInOrder(descending, Traffic(a), Traffic(b))
    case Transmit => OptionsInOrder(descending, a.transmit, b.transmit)
    case Receive => OptionsInOrder(descending, a.receive, b.receive)
    case Uptime => if descending then a.uptime >= b.uptime else a.uptime <= b.uptime
    case Status => StatusesInOrder(descending, a, b)
  }

  lemma TextsByName(text: Text, field: Field, descending: bool, a: Host, b: Host, x: Bytes, y: Bytes)
    requires KeyOf(text, field, a) == NameOf(text, x) && KeyOf(text, field, b) == NameOf(text, y)
    requires !Less(text, field, descending, b, a)
    ensures TextsInOrder(text, descending, x, y)
    ensures TextsInOrder(text, descending, y, x) ==> CompareBytes(a.id, b.id) <= 0
  {
    BytesAntisymmetric(a.id, b.id);
    CompareAntisymmetric(text.lower(text.trim(x)), text.lower(text.trim(y)));
    assert Compare([], []) == 0;
    LessIsKeyOrder(text, field, descending, b, a);
  }

  lemma StatusesByRank(text: Text, descending: bool, a: Host, b: Host)
    requires !Less(text, Status, descending, b, a)
    ensures StatusesInOrder(descending, a, b)
    ensures StatusesInOrder(descending, b, a) ==> CompareBytes(a.id, b.id) <= 0
  {
    BytesAntisymmetric(a.id, b.id);
  }

  function AsReal(count: Option<int>): Option<real> {
    if count.Some? then Some(count.value as real) else None
  }

  /** What the closure does not put the other way may stand as it is. */
  lemma LessMeansColumn(text: Text, field: Field, descending: bool, a: Host, b: Host)
    requires !Less(text, field, descending, b, a)
    ensures MayPrecede(text, field, descending, a, b)
    ensures MayPrecede(text, field, descending, b, a) ==> CompareBytes(a.id, b.id) <= 0
  {
    LessIsKeyOrder(text, field, descending, b, a);
    var r, q := Row(KeyOf(text, field, a), a.id), Row(KeyOf(text, field, b), b.id);
    match field
    case Id => BytesAntisymmetric(a.id, b.id);
    case Name => TextsByName(text, field, descending, a, b, a.name, b.name);
    case Ip => TextsByName(text, field, descending, a, b, a.ip, b.ip);
    case CpuCores => NumbersByKey(descending, r, q, AsReal(a.cpuCores), AsReal(b.cpuCores));
    case MemoryTotal => NumbersByKey(descending, r, q, AsReal(a.memoryTotal), AsReal(b.memoryTotal));
    case Cpu => NumbersByKey(descending, r, q, a.cpu, b.cpu);
    case Memory => NumbersByKey(descending, r, q, a.memory, b.memory);
    case Load => NumbersByKey(descending, r, q, a.load, b.load);
    case IoBusy => NumbersByKey(descending, r, q, a.ioBusy, b.ioBusy);
    case Network => NumbersByKey(descending, r, q, Traffic(a), Traffic(b));
    case Transmit => NumbersByKey(descending, r, q, a.transmit, b.transmit);
    case Receive => NumbersByKey(descending, r, q, a.receive, b.receive);
    case Uptime => BytesAntisymmetric(a.id, b.id);
    case Status => StatusesByRank(text, descending, a, b);
  }

  /** In the chosen direction by the column, ties by id. */
  ghost predicate InOrder(text: Text, field: Field, descending: bool, listing: seq<Host>) {
    Ordered(listing, (a: Host, b: Host) => MayPrecede(text, field, descending, a, b), IdOf)
  }

  /** The hosts a query asks for, in the order it asks for. */
  ghost predicate Answers(text: Text, inventory: seq<Host>, query: Query, listing: seq<Host>) {
    && Collects(listing, inventory, (h: Host) => Selected(text, query, h))
    && (DistinctIds(IdOf, inventory) ==>
          forall field | NamesColumn(query.sort, field) :: InOrder(text, field, query.order == "desc", listing))
  }

  lemma SortedIsInOrder(text: Text, field: Field, descending: bool, listing: seq<Host>)
    requires NoInversion(listing, LessFunction(text, field, descending))
    ensures InOrder(text, field, descending, listing)
  {
    var less := LessFunction(text, field, descending);
    var may := (a: Host, b: Host) => MayPrecede(text, field, descending, a, b);
    forall a, b | !less(b, a) ensures may(a, b) && (may(b, a) ==> CompareBytes(IdOf(a), IdOf(b)) <= 0) {
      LessMeansColumn(text, field, descending, a, b);
    }
    NoInversionOrders(listing, less, may, IdOf);
  }

  lemma ListingIsInOrder(text: Text, inventory: seq<Host>, keep: Host -> bool, field: Field, descending: bool)
    requires DistinctIds(IdOf, inventory)
    ensures InOrder(text, field, descending, Listing(text, inventory, keep, field, descending))
  {
    LessIsStrictTotalOrder(text, field, descending, inventory);
    SortSorts(Filter(inventory, keep), LessFunction(text, field, descending));
    SortedIsInOrder(text, field, descending, Listing(text, inventory, keep, field, descending));
  }

  lemma KeepMeansSelected(text: Text, query: Query, h: Host)
    requires Acceptable(query)
    ensures Keep(text, query, h) <==> Selected(text, query, h)
  {
    var search := text.lower(text.trim(query.search));
    ContainsIsOccurs(text.lower(h.name), search);
    ContainsIsOccurs(text.lower(h.ip), search);
    assert search == [] ==> text.lower(h.name) == [] + search + text.lower(h.name);
  }

  lemma NamedIsParsed(sort: string)
    ensures forall field :: NamesColumn(sort, field) <==> ParseField(sort) == Some(field)
  {
  }

  lemma ValidIsAcceptable(query: Query)
    ensures ValidQuery(query) <==> Acceptable(query)
  {
  }

  lemma ListingAnswers(text: Text, inventory: seq<Host>, query: Query, field: Field, descending: bool)
    requires Acceptable(query) && ParseField(query.sort) == Some(field) && descending == (query.order == "desc")
    ensures Answers(text, inventory, query, Listing(text, inventory, KeepFunction(text, query), field, descending))
  {
    var keep := KeepFunction(text, query);
    SortCollects(inventory, keep, LessFunction(text, field, descending));
    forall h ensures keep(h) <==> Selected(text, query, h) {
      KeepMeansSelected(text, query, h);
    }
    if DistinctIds(IdOf, inventory) {
      ListingIsInOrder(text, inventory, keep, field, descending);
      NamedIsParsed(query.sort);
    }
  }

  /** A valid query gets its page of a list that answers it and the length of that list, and any other is refused. */
  method Hosts(text: Text, inventory: seq<Host>, query: Query) returns (result: Option<(seq<Host>, nat)>)
    requires |inventory| <= MAX_INT - 500
    ensures result.Some? <==> ValidQuery(query)
    ensures result.Some? ==>
              exists listing :: Answers(text, inventory, query, listing) &&
                result.value == (Page(listing, query.page as int, query.pageSize as int), |listing|)
  {
    ValidIsAcceptable(query);
    var inRange := AcceptPage(Clamped, query.page, query.pageSize);
    var status, field := ParseStatus(query.status), ParseField(query.sort);
    if !inRange || status.None? || field.None? {
      return None;
    }
    var order := if query.order == "" then "asc" else query.order;
    if order != "asc" && order != "desc" {
      return None;
    }
    var descending := order == "desc";
    ListingAnswers(text, inventory, query, field.value, descending);
    var keep, less := KeepFunction(text, query), LessFunction(text, field.value, descending);
    var rows, total := ServePage(inventory, keep, less, Clamped, query.page, query.pageSize);
    return Some((rows, total));
  }
}
