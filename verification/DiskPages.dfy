/**
 The disk device list: query validation, filtering, the sort closure with its
 per-column special cases, and paging.
 */
module DiskPages {
  import opened Integers
  import opened NaturalOrder
  import opened Optional
  import opened Rearrangement
  import opened SortedPages

  datatype Level = Normal | Warning | Critical | Unknown

  datatype Health = Healthy | Failed | HealthUnknown

  /** `errors` holds the seven counters that are summed for sorting. */
  datatype Device = Device(
    id: Bytes, host: Bytes, device: Bytes, model: Bytes,
    capacity: Option<int>,
    smart: Health,
    temperature: Option<real>, lifetime: Option<real>, powerOnHours: Option<real>,
    errors: seq<Option<real>>,
    status: Level)

  datatype Field =
    | DefaultOrder | Host | DeviceName | Model | Capacity | Smart
    | Temperature | Lifetime | PowerOnHours | Errors | Status

  // ---------------------------------------------------------------------------
  // The sort closure

  function CompareNames(text: Text, left: Bytes, right: Bytes): int {
    Compare(text.lower(left), text.lower(right))
  }

  function HealthRank(health: Health): int {
    match health
    case Healthy => 0
    case Failed => 2
    case HealthUnknown => 3
  }

  function LevelRank(level: Level): int {
    match level
    case Normal => 0
    case Warning => 1
    case Critical => 2
    case Unknown => 3
  }

  /** The sum of the counters present, and whether any is. */
  function ErrorTotal(counters: seq<Option<real>>): (result: (real, bool))
    ensures result.1 <==> exists c <- counters :: c.Some?
  {
    if counters == [] then (0.0, false)
    else
      var before, last := counters[..|counters| - 1], counters[|counters| - 1];
      assert counters == before + [last] && last in counters;
      var (total, available) := ErrorTotal(before);
      match last
      case Some(value) => (total + value, true)
      case None => (total, available)
  }

  method DiskErrorSortValue(counters: seq<Option<real>>) returns (total: real, available: bool)
    ensures available <==> exists c <- counters :: c.Some?
    ensures (total, available) == ErrorTotal(counters)
  {
    total, available := 0.0, false;
    for i := 0 to |counters|
      invariant (total, available) == ErrorTotal(counters[..i])
    {
      assert counters[..i + 1][..i] == counters[..i];
      if counters[i].Some? {
        total := total + counters[i].value;
        available := true;
      }
    }
    assert counters[..|counters|] == counters;
  }

  function MetricValue(value: Option<real>): (real, bool, bool) {
    if value.None? then (0.0, false, true) else (value.value, true, true)
  }

  /** The value of a numeric column, whether the row has one, and whether the column is numeric. */
  function NumericValue(d: Device, field: Field): (real, bool, bool) {
    match field
    case Temperature => MetricValue(d.temperature)
    case Lifetime => MetricValue(d.lifetime)
    case PowerOnHours => MetricValue(d.powerOnHours)
    case Errors => (ErrorTotal(d.errors).0, ErrorTotal(d.errors).1, true)
    case _ => (0.0, false, false)
  }

  function CompareDevices(text: Text, a: Device, b: Device, field: Field): int {
    match field
    case DefaultOrder =>
      if CompareNames(text, a.host, b.host) != 0 then CompareNames(text, a.host, b.host)
      else CompareNames(text, a.device, b.device)
    case Host =>
      if CompareNames(text, a.host, b.host) != 0 then CompareNames(text, a.host, b.host)
      else CompareNames(text, a.device, b.device)
    case DeviceName => CompareNames(text, a.device, b.device)
    case Smart => HealthRank(a.smart) - HealthRank(b.smart)
    case Status => LevelRank(a.status) - LevelRank(b.status)
    case _ => 0
  }

  /** The less-function handed to the library's sort. */
  predicate Less(text: Text, field: Field, descending: bool, a: Device, b: Device) {
    if field == Capacity then
      if a.capacity.None? != b.capacity.None? then a.capacity.Some?
      else
        var comparison :=
          if a.capacity.None? then 0 else CompareInts(a.capacity.value, b.capacity.value);
        Decide(comparison, descending, a.id, b.id)
    else if field == Model then
      var left, right := text.trim(a.model) != [], text.trim(b.model) != [];
      if left != right then left
      else Decide(if left then CompareNames(text, a.model, b.model) else 0, descending, a.id, b.id)
    else
      var (leftValue, left, numeric) := NumericValue(a, field);
      var (rightValue, right, _) := NumericValue(b, field);
      if numeric && left != right then left
      else Decide(
        if numeric && left then CompareAmounts(leftValue, rightValue) else CompareDevices(text, a, b, field),
        descending, a.id, b.id)
  }

  /** What the closure orders by. */
  function KeyOf(text: Text, field: Field, d: Device): Key {
    match field
    case DefaultOrder => Names(text.lower(d.host), text.lower(d.device))
    case Host => Names(text.lower(d.host), text.lower(d.device))
    case DeviceName => Names(text.lower(d.device), [])
    case Model => if text.trim(d.model) == [] then Absent else Names(text.lower(d.model), [])
    case Capacity => if d.capacity.None? then Absent else Amount(d.capacity.value as real)
    case Smart => Amount(HealthRank(d.smart) as real)
    case Temperature => if d.temperature.None? then Absent else Amount(d.temperature.value)
    case Lifetime => if d.lifetime.None? then Absent else Amount(d.lifetime.value)
    case PowerOnHours => if d.powerOnHours.None? then Absent else Amount(d.powerOnHours.value)
    case Errors => if !ErrorTotal(d.errors).1 then Absent else Amount(ErrorTotal(d.errors).0)
    case Status => Amount(LevelRank(d.status) as real)
  }

  function RowOf(text: Text, field: Field, d: Device): Row {
    Row(KeyOf(text, field, d), d.id)
  }

  /** Every column of the closure is the one order on keys: missing last, ties by id. */
  lemma LessIsKeyOrder(text: Text, field: Field, descending: bool, a: Device, b: Device)
    ensures SameShape(KeyOf(text, field, a), KeyOf(text, field, b))
    ensures Less(text, field, descending, a, b) <==> Precedes(descending, RowOf(text, field, a), RowOf(text, field, b))
  {
    assert Compare([], []) == 0;
  }

  function LessFunction(text: Text, field: Field, descending: bool): (Device, Device) -> bool {
    (a, b) => Less(text, field, descending, a, b)
  }

  function IdOf(d: Device): Bytes {
    d.id
  }

  /** The closure is a strict order, and total on rows with distinct ids, in every column and direction. */
  lemma LessIsStrictTotalOrder(text: Text, field: Field, descending: bool, devices: seq<Device>)
    requires DistinctIds(IdOf, devices)
    ensures StrictOrder(LessFunction(text, field, descending))
    ensures Decides(devices, LessFunction(text, field, descending))
  {
    var less := LessFunction(text, field, descending);
    var row := (d: Device) => RowOf(text, field, d);
    forall a, b
      ensures SameShape(row(a).key, row(b).key) && (less(a, b) <==> Precedes(descending, row(a), row(b)))
    {
      LessIsKeyOrder(text, field, descending, a, b);
    }
    KeyOrderIsTotal(devices, less, row, descending);
  }

  // ---------------------------------------------------------------------------
  // Queries

  datatype Query = Query(search: Bytes, status: string, sort: string, order: string, page: Int, pageSize: Int)

  datatype Accepted = Accepted(search: Bytes, status: Option<Level>, field: Field, descending: bool, page: Int,
      pageSize: Int)

  function ParseField(sort: string): Option<Field> {
    match sort
    case "" => Some(DefaultOrder)
    case "host" => Some(Host)
    case "device" => Some(DeviceName)
    case "model" => Some(Model)
    case "capacity" => Some(Capacity)
    case "smart" => Some(Smart)
    case "temperature" => Some(Temperature)
    case "lifetime" => Some(Lifetime)
    case "power_on_hours" => Some(PowerOnHours)
    case "errors" => Some(Errors)
    case "status" => Some(Status)
    case _ => None
  }

  function ParseStatus(status: string): Option<Option<Level>> {
    match status
    case "" => Some(None)
    case "normal" => Some(Some(Normal))
    case "warning" => Some(Some(Warning))
    case "critical" => Some(Some(Critical))
    case "unknown" => Some(Some(Unknown))
    case _ => None
  }

  /** The queries a caller may send: the first row asked for has a machine-size index. */
  predicate Acceptable(query: Query) {
    && AcceptedPage(ByOffset, query.page as int, query.pageSize as int)
    && ParseStatus(query.status).Some?
    && ParseField(query.sort).Some?
    && query.order in ["", "asc", "desc"]
  }

  function Normalized(query: Query): Accepted
    requires Acceptable(query)
  {
    Accepted(query.search, ParseStatus(query.status).value, ParseField(query.sort).value,
             query.order == "desc", query.page, query.pageSize)
  }

  method NormalizeDiskQuery(query: Query) returns (result: Option<Accepted>)
    ensures result == if Acceptable(query) then Some(Normalized(query)) else None
  {
    var inRange := AcceptPage(ByOffset, query.page, query.pageSize);
    if !inRange {
      return None;
    }
    var status := ParseStatus(query.status);
    if status.None? {
      return None;
    }
    var field := ParseField(query.sort);
    if field.None? {
      return None;
    }
    var order := if query.order == "" then "asc" else query.order;
    if order != "asc" && order != "desc" {
      return None;
    }
    return Some(Accepted(query.search, status.value, field.value, order == "desc", query.page, query.pageSize));
  }

  // ---------------------------------------------------------------------------
  // The listing

  predicate Keep(text: Text, accepted: Accepted, d: Device) {
    var search := text.lower(text.trim(accepted.search));
    && (accepted.status.None? || d.status == accepted.status.value)
    && (search == []
        || Contains(text.lower(d.host), search)
        || Contains(text.lower(d.device), search)
        || Contains(text.lower(d.model), search))
  }

  /** The filtered, sorted list the pages are cut from. */
  function Listing(text: Text, devices: seq<Device>, accepted: Accepted): seq<Device> {
    Sort(Filter(devices, (d: Device) => Keep(text, accepted, d)),
          LessFunction(text, accepted.field, accepted.descending))
  }

  datatype DiskPage = DiskPage(devices: seq<Device>, total: int, page: int, pageSize: int, totalPages: int)

  // ---------------------------------------------------------------------------
  // What a query asks for, in its own texts

  predicate ValidQuery(query: Query) {
    && query.page >= 1 && query.pageSize in {20, 50, 100, 500}
    && (query.page as int - 1) * query.pageSize as int <= 0x7FFF_FFFF_FFFF_FFFF
    && query.status in {"", "normal", "warning", "critical", "unknown"}
    && query.sort in {"", "host", "device", "model", "capacity", "smart", "temperature", "lifetime",
                      "power_on_hours", "errors", "status"}
    && query.order in {"", "asc", "desc"}
  }

  /** Devices of the status asked for, with the text asked for in their host, name or model. */
  ghost predicate Selected(text: Text, query: Query, d: Device) {
    var search := text.lower(text.trim(query.search));
    && (query.status == "normal" ==> d.status.Normal?)
    && (query.status == "warning" ==> d.status.Warning?)
    && (query.status == "critical" ==> d.status.Critical?)
    && (query.status == "unknown" ==> d.status.Unknown?)
    && (Occurs(search, text.lower(d.host)) || Occurs(search, text.lower(d.device)) ||
        Occurs(search, text.lower(d.model)))
  }

  function OrNothing(counter: Option<real>): real {
    if counter.Some? then counter.value else 0.0
  }

  /** By host, and devices of one host by name. */
  predicate HostsInOrder(text: Text, descending: bool, a: Device, b: Device) {
    if text.lower(a.host) == text.lower(b.host)
    then NamesInOrder(descending, text.lower(a.device), text.lower(b.device))
    else NamesInOrder(descending, text.lower(a.host), text.lower(b.host))
  }

  predicate HealthsInOrder(descending: bool, a: Health, b: Health) {
    a == b || (if descending then a.HealthUnknown? || b.Healthy? else a.Healthy? || b.HealthUnknown?)
  }

  predicate LevelsInOrder(descending: bool, a: Level, b: Level) {
    a == b ||
    (if descending then a.Unknown? || b.Normal? || (a.Critical? && b.Warning?)
     else a.Normal? || b.Unknown? || (a.Warning? && b.Critical?))
  }

  /** The column a query names. */
  ghost predicate NamesColumn(sort: string, field: Field) {
    && (field == DefaultOrder <==> sort == "")
    && (field == Host <==> sort == "host")
    && (field == DeviceName <==> sort == "device")
    && (field == Model <==> sort == "model")
    && (field == Capacity <==> sort == "capacity")
    && (field == Smart <==> sort == "smart")
    && (field == Temperature <==> sort == "temperature")
    && (field == Lifetime <==> sort == "lifetime")
    && (field == PowerOnHours <==> sort == "power_on_hours")
    && (field == Errors <==> sort == "errors")
    && (field == Status <==> sort == "status")
  }

  /** The first device may stand before the second in a list sorted by this column. */
  predicate MayPrecede(text: Text, field: Field, descending: bool, a: Device, b: Device) {
    match field
    case DefaultOrder => HostsInOrder(text, descending, a, b)
    case Host => HostsInOrder(text, descending, a, b)
    case DeviceName => NamesInOrder(descending, text.lower(a.device), text.lower(b.device))
    case Model =>
      text.trim(b.model) == [] ||
      (text.trim(a.model) != [] && NamesInOrder(descending, text.lower(a.model), text.lower(b.model)))
    case Capacity =>
      b.capacity.None? ||
      (a.capacity.Some? && NumbersInOrder(descending, a.capacity.value as real, b.capacity.value as real))
    case Smart => HealthsInOrder(descending, a.smart, b.smart)
    case Temperature => OptionsInOrder(descending, a.temperature, b.temperature)
    case Lifetime => OptionsInOrder(descending, a.lifetime, b.lifetime)
    case PowerOnHours => OptionsInOrder(descending, a.powerOnHours, b.powerOnHours)
    case Errors =>
      (forall c <- b.errors :: c.None?) ||
      ((exists c <- a.errors :: c.Some?) &&
       NumbersInOrder(descending, ErrorTotal(a.errors).0, ErrorTotal(b.errors).0))
    case Status => LevelsInOrder(descending, a.status, b.status)
  }

  /** The error column of the seven counters is their sum, a missing one counting as nothing. */
  lemma ErrorsAddUp(counters: seq<Option<real>>)
    requires |counters| == 7
    ensures ErrorTotal(counters).0 ==
            OrNothing(counters[0]) + OrNothing(counters[1]) + OrNothing(counters[2]) + OrNothing(counters[3]) +
            OrNothing(counters[4]) + OrNothing(counters[5]) + OrNothing(counters[6])
  {
    assert ErrorTotal(counters[..0]).0 == 0.0;
    forall n: nat | n < 7
      ensures ErrorTotal(counters[..n + 1]).0 == ErrorTotal(counters[..n]).0 + OrNothing(counters[n])
    {
      assert counters[..n + 1][..n] == counters[..n];
    }
    assert counters[..7] == counters;
  }

  function CapacityOf(d: Device): Option<real> {
    if d.capacity.None? then None else Some(d.capacity.value as real)
  }

  function ErrorCount(d: Device): Option<real> {
    if ErrorTotal(d.errors).1 then Some(ErrorTotal(d.errors).0) else None
  }

  lemma NamesByOrder(text: Text, field: Field, descending: bool, a: Device, b: Device)
    requires !Less(text, field, descending, b, a)
    requires field.DefaultOrder? || field.Host? || field.DeviceName? || field.Model?
    ensures MayPrecede(text, field, descending, a, b)
    ensures MayPrecede(text, field, descending, b, a) ==> CompareBytes(a.id, b.id) <= 0
  {
    BytesAntisymmetric(a.id, b.id);
    CompareAntisymmetric(text.lower(a.host), text.lower(b.host));
    CompareAntisymmetric(text.lower(a.device), text.lower(b.device));
    CompareAntisymmetric(text.lower(a.model), text.lower(b.model));
  }

  lemma RanksByLevel(text: Text, field: Field, descending: bool, a: Device, b: Device)
    requires !Less(text, field, descending, b, a)
    ensures field.Smart? ==> HealthsInOrder(descending, a.smart, b.smart)
    ensures field.Smart? && HealthsInOrder(descending, b.smart, a.smart) ==> CompareBytes(a.id, b.id) <= 0
    ensures field.Status? ==> LevelsInOrder(descending, a.status, b.status)
    ensures field.Status? && LevelsInOrder(descending, b.status, a.status) ==> CompareBytes(a.id, b.id) <= 0
  {
    BytesAntisymmetric(a.id, b.id);
  }

  /** What the closure does not put the other way may stand as it is. */
  lemma LessMeansColumn(text: Text, field: Field, descending: bool, a: Device, b: Device)
    requires !Less(text, field, descending, b, a)
    ensures MayPrecede(text, field, descending, a, b)
    ensures MayPrecede(text, field, descending, b, a) ==> CompareBytes(a.id, b.id) <= 0
  {
    LessIsKeyOrder(text, field, descending, b, a);
    var r, q := RowOf(text, field, a), RowOf(text, field, b);
    match field
    case Capacity => NumbersByKey(descending, r, q, CapacityOf(a), CapacityOf(b));
    case Temperature => NumbersByKey(descending, r, q, a.temperature, b.temperature);
    case Lifetime => NumbersByKey(descending, r, q, a.lifetime, b.lifetime);
    case PowerOnHours => NumbersByKey(descending, r, q, a.powerOnHours, b.powerOnHours);
    case Errors => NumbersByKey(descending, r, q, ErrorCount(a), ErrorCount(b));
    case Smart => RanksByLevel(text, field, descending, a, b);
    case Status => RanksByLevel(text, field, descending, a, b);
    case _ => NamesByOrder(text, field, descending, a, b);
  }

  /** In the chosen direction by the column, ties by id. */
  ghost predicate InOrder(text: Text, field: Field, descending: bool, listing: seq<Device>) {
    Ordered(listing, (a: Device, b: Device) => MayPrecede(text, field, descending, a, b), IdOf)
  }

  /** The rows a query asks for, each as often as the snapshot has it, in the order it asks for. */
  ghost predicate Answers(text: Text, snapshot: seq<Device>, query: Query, listing: seq<Device>) {
    && Collects(listing, snapshot, (d: Device) => Selected(text, query, d))
    && (DistinctIds(IdOf, snapshot) ==>
          forall field | NamesColumn(query.sort, field) :: InOrder(text, field, query.order == "desc", listing))
  }

  lemma SortedIsInOrder(text: Text, field: Field, descending: bool, listing: seq<Device>)
    requires NoInversion(listing, LessFunction(text, field, descending))
    ensures InOrder(text, field, descending, listing)
  {
    var less := LessFunction(text, field, descending);
    var may := (a: Device, b: Device) => MayPrecede(text, field, descending, a, b);
    forall a, b | !less(b, a) ensures may(a, b) && (may(b, a) ==> CompareBytes(IdOf(a), IdOf(b)) <= 0) {
      LessMeansColumn(text, field, descending, a, b);
    }
    NoInversionOrders(listing, less, may, IdOf);
  }

  lemma ListingIsInOrder(text: Text, snapshot: seq<Device>, accepted: Accepted)
    requires DistinctIds(IdOf, snapshot)
    ensures InOrder(text, accepted.field, accepted.descending, Listing(text, snapshot, accepted))
  {
    var keep, less := (d: Device) => Keep(text, accepted, d), LessFunction(text, accepted.field, accepted.descending);
    LessIsStrictTotalOrder(text, accepted.field, accepted.descending, snapshot);
    SortSorts(Filter(snapshot, keep), less);
    SortedIsInOrder(text, accepted.field, accepted.descending, Listing(text, snapshot, accepted));
  }

  lemma KeepMeansSelected(text: Text, query: Query, d: Device)
    requires Acceptable(query)
    ensures Keep(text, Normalized(query), d) <==> Selected(text, query, d)
  {
    var search := text.lower(text.trim(query.search));
    ContainsIsOccurs(text.lower(d.host), search);
    ContainsIsOccurs(text.lower(d.device), search);
    ContainsIsOccurs(text.lower(d.model), search);
    assert search == [] ==> text.lower(d.host) == [] + search + text.lower(d.host);
  }

  lemma ListingAnswers(text: Text, snapshot: seq<Device>, query: Query)
    requires Acceptable(query)
    ensures Answers(text, snapshot, query, Listing(text, snapshot, Normalized(query)))
  {
    var accepted := Normalized(query);
    var keep := (d: Device) => Keep(text, accepted, d);
    SortCollects(snapshot, keep, LessFunction(text, accepted.field, accepted.descending));
    forall d ensures keep(d) <==> Selected(text, query, d) {
      KeepMeansSelected(text, query, d);
    }
    if DistinctIds(IdOf, snapshot) {
      ListingIsInOrder(text, snapshot, accepted);
      NamedIsParsed(query.sort);
    }
  }

  lemma NamedIsParsed(sort: string)
    ensures forall field :: NamesColumn(sort, field) <==> ParseField(sort) == Some(field)
  {
  }

  lemma ValidIsAcceptable(query: Query)
    ensures ValidQuery(query) <==> Acceptable(query)
  {
  }

  /** One page of the listing, with its totals. */
  method ListDevices(text: Text, snapshot: seq<Device>, accepted: Accepted) returns (result: DiskPage)
    requires |snapshot| <= MAX_INT - 500
    requires AcceptedPage(ByOffset, accepted.page as int, accepted.pageSize as int)
    ensures result == PageOf(Listing(text, snapshot, accepted), accepted.page as int, accepted.pageSize as int)
  {
    var keep := (d: Device) => Keep(text, accepted, d);
    var less := LessFunction(text, accepted.field, accepted.descending);
    var rows, total := ServePage(snapshot, keep, less, ByOffset, accepted.page, accepted.pageSize);
    var pages := CountPages(total as Int, accepted.pageSize);
    result := DiskPage(rows, total, accepted.page as int, accepted.pageSize as int, pages as int);
  }

  function PageOf(listing: seq<Device>, page: int, size: int): DiskPage
    requires page >= 1 && size >= 1
  {
    DiskPage(Page(listing, page, size), |listing|, page, size, TotalPages(|listing|, size))
  }

  /** A valid query gets its page of a list that answers it, and any other is refused. */
  method Devices(text: Text, snapshot: seq<Device>, query: Query) returns (result: Option<DiskPage>)
    requires |snapshot| <= MAX_INT - 500
    ensures result.Some? <==> ValidQuery(query)
    ensures result.Some? ==>
              exists listing :: Answers(text, snapshot, query, listing) &&
                result.value == PageOf(listing, query.page as int, query.pageSize as int)
  {
    ValidIsAcceptable(query);
    var normalized := NormalizeDiskQuery(query);
    if normalized.None? {
      return None;
    }
    ListingAnswers(text, snapshot, query);
    var page := ListDevices(text, snapshot, normalized.value);
    return Some(page);
  }

  /** The same rows in another snapshot order give the same listing, hence the same pages. */
  lemma ListingIgnoresSnapshotOrder(text: Text, s: seq<Device>, t: seq<Device>, accepted: Accepted)
    requires multiset(s) == multiset(t) && DistinctIds(IdOf, s)
    ensures Listing(text, s, accepted) == Listing(text, t, accepted)
  {
    LessIsStrictTotalOrder(text, accepted.field, accepted.descending, s);
    ListingIsCanonical(s, t, (d: Device) => Keep(text, accepted, d), LessFunction(text, accepted.field,
        accepted.descending));
  }

  /** In both directions, rows without a value in the sorted column come last. */
  lemma MissingValuesComeLast(text: Text, devices: seq<Device>, accepted: Accepted, i: nat, j: nat)
    requires DistinctIds(IdOf, devices)
    requires i < j < |Listing(text, devices, accepted)|
    requires KeyOf(text, accepted.field, Listing(text, devices, accepted)[i]).Absent?
    ensures KeyOf(text, accepted.field, Listing(text, devices, accepted)[j]).Absent?
  {
    var less := LessFunction(text, accepted.field, accepted.descending);
    var kept := Filter(devices, (d: Device) => Keep(text, accepted, d));
    LessIsStrictTotalOrder(text, accepted.field, accepted.descending, devices);
    SortSorts(kept, less);
    var listing := Listing(text, devices, accepted);
    assert !less(listing[j], listing[i]);
    LessIsKeyOrder(text, accepted.field, accepted.descending, listing[j], listing[i]);
  }

  /** The listing holds exactly the rows that pass the filter. */
  lemma ListingIsComplete(text: Text, devices: seq<Device>, accepted: Accepted, d: Device)
    requires DistinctIds(IdOf, devices)
    ensures d in Listing(text, devices, accepted) <==> d in devices && Keep(text, accepted, d)
  {
    var keep := (d: Device) => Keep(text, accepted, d);
    var kept := Filter(devices, keep);
    LessIsStrictTotalOrder(text, accepted.field, accepted.descending, devices);
    SortSorts(kept, LessFunction(text, accepted.field, accepted.descending));
    SameElements(Listing(text, devices, accepted), kept);
    FilterMembers(devices, keep, d);
  }
}
