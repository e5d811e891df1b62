/**
 The sort closures of the RabbitMQ, Elasticsearch, Java, Redis and MySQL lists.  Each
 asks by column kind for an integer, a number, a flag or a text before it falls back
 to comparing fields; all of them are the one order on keys.  Only the address column,
 by which the Redis and MySQL lists are sorted unless asked otherwise, has no key.
 */
module ServicePages {
  import A = AddressOrder
  import opened Integers
  import opened NaturalOrder
  import opened Optional
  import opened Rearrangement
  import opened SortedPages

  /** What a sort field reads from a row.  A number that is not finite reads as missing. */
  datatype Column<!T> =
    | Integer(integer: T -> Option<int>)
    | Number(number: T -> Option<real>)
    | Flag(flag: T -> Option<bool>)
    | Label(caption: T -> Bytes)                     // a blank text is missing
    | Version(version: T -> Bytes)                   // likewise, and compared without surrounding space
    | Natural(first: T -> Bytes, second: T -> Bytes)
    | Bytewise(major: T -> Bytes, minor: T -> Bytes)
    | Ranked(rank: T -> nat, subrank: T -> nat)      // the second rank is below four
    | Located(address: T -> Bytes, parse: Bytes -> Option<A.Address>)
    | Unordered

  function IntegerValue<T>(column: Column<T>, item: T): Sortable<int> {
    if !column.Integer? then (0, false, false)
    else match column.integer(item)
      case None => (0, false, true)
      case Some(value) => (value, true, true)
  }

  function NumberValue<T>(column: Column<T>, item: T): Sortable<real> {
    if !column.Number? then (0.0, false, false)
    else match column.number(item)
      case None => (0.0, false, true)
      case Some(value) => (value, true, true)
  }

  function FlagValue<T>(column: Column<T>, item: T): Sortable<int> {
    if !column.Flag? then (0, false, false)
    else match column.flag(item)
      case None => (0, false, true)
      case Some(value) => (if value then 1 else 0, true, true)
  }

  function LabelAvailable<T>(text: Text, column: Column<T>, item: T): (bool, bool) {
    if column.Label? then (text.trim(column.caption(item)) != [], true) else (false, false)
  }

  /** The natural comparison, which lower-cases its arguments once more. */
  function CompareNatural(text: Text, left: Bytes, right: Bytes): int {
    Compare(text.lower(left), text.lower(right))
  }

  /** The comparison of fields that are neither counts nor measurements. */
  function CompareFields<T>(text: Text, column: Column<T>, a: T, b: T): int {
    match column
    case Label(f) => CompareNatural(text, text.lower(f(a)), text.lower(f(b)))
    case Version(f) => CompareNatural(text, text.trim(f(a)), text.trim(f(b)))
    case Natural(f, g) =>
      var c := CompareNatural(text, text.lower(f(a)), text.lower(f(b)));
      if c != 0 then c else CompareNatural(text, text.lower(g(a)), text.lower(g(b)))
    case Bytewise(f, g) =>
      var c := CompareBytes(text.lower(f(a)), text.lower(f(b)));
      if c != 0 then c else CompareBytes(text.lower(g(a)), text.lower(g(b)))
    case Ranked(f, g) => if f(a) != f(b) then f(a) - f(b) else g(a) - g(b)
    case Located(f, parse) => A.CompareAddresses(A.Library(parse, text.lower), f(a), f(b))
    case _ => 0
  }

  /** RabbitMQ and Elasticsearch nodes. */
  predicate NodeLess<T>(text: Text, column: Column<T>, descending: bool, id: T -> Bytes, a: T, b: T) {
    var (leftInteger, leftIntegerHas, integer) := IntegerValue(column, a);
    var (rightInteger, rightIntegerHas, _) := IntegerValue(column, b);
    if integer && leftIntegerHas != rightIntegerHas then leftIntegerHas
    else
      var (leftNumber, leftHas, numeric) := NumberValue(column, a);
      var (rightNumber, rightHas, _) := NumberValue(column, b);
      if numeric && leftHas != rightHas then leftHas
      else
        var comparison :=
          if integer && leftIntegerHas then CompareInts(leftInteger, rightInteger)
          else if numeric && leftHas then CompareAmounts(leftNumber, rightNumber)
          else if !integer && !numeric then CompareFields(text, column, a, b)
          else 0;
        Decide(comparison, descending, id(a), id(b))
  }

  /** Java services. */
  predicate JavaLess<T>(text: Text, column: Column<T>, descending: bool, id: T -> Bytes, a: T, b: T) {
    var (leftTextHas, textual) := LabelAvailable(text, column, a);
    var (rightTextHas, _) := LabelAvailable(text, column, b);
    if textual && leftTextHas != rightTextHas then leftTextHas
    else if textual && !leftTextHas then CompareBytes(id(a), id(b)) < 0
    else
      var (leftFlag, leftFlagHas, boolean) := FlagValue(column, a);
      var (rightFlag, rightFlagHas, _) := FlagValue(column, b);
      if boolean && leftFlagHas != rightFlagHas then leftFlagHas
      else
        var (leftInteger, leftIntegerHas, integer) := IntegerValue(column, a);
        var (rightInteger, rightIntegerHas, _) := IntegerValue(column, b);
        if integer && leftIntegerHas != rightIntegerHas then leftIntegerHas
        else
          var (leftNumber, leftHas, numeric) := NumberValue(column, a);
          var (rightNumber, rightHas, _) := NumberValue(column, b);
          if numeric && leftHas != rightHas then leftHas
          else
            var comparison :=
              if boolean && leftFlagHas then leftFlag - rightFlag
              else if integer && leftIntegerHas then CompareInts(leftInteger, rightInteger)
              else if numeric && leftHas then CompareAmounts(leftNumber, rightNumber)
              else CompareFields(text, column, a, b);
            Decide(comparison, descending, id(a), id(b))
  }

  /** Redis instances. */
  predicate RedisLess<T>(text: Text, column: Column<T>, descending: bool, id: T -> Bytes, a: T, b: T) {
    var (leftInteger, leftIntegerHas, integer) := IntegerValue(column, a);
    var (rightInteger, rightIntegerHas, _) := IntegerValue(column, b);
    if integer && leftIntegerHas != rightIntegerHas then leftIntegerHas
    else if integer then
      Decide(if leftIntegerHas then CompareInts(leftInteger, rightInteger) else 0, descending, id(a), id(b))
    else
      var (leftNumber, leftHas, numeric) := NumberValue(column, a);
      var (rightNumber, rightHas, _) := NumberValue(column, b);
      if numeric && leftHas != rightHas then leftHas
      else
        var comparison := if numeric && leftHas then CompareAmounts(leftNumber, rightNumber)
            else CompareFields(text, column, a, b);
        Decide(comparison, descending, id(a), id(b))
  }

  /** MySQL instances. */
  predicate MySqlLess<T>(text: Text, column: Column<T>, descending: bool, id: T -> Bytes, a: T, b: T) {
    var (leftNumber, leftHas, numeric) := NumberValue(column, a);
    var (rightNumber, rightHas, _) := NumberValue(column, b);
    if numeric && leftHas != rightHas then leftHas
    else if column.Version? && (text.trim(column.version(a)) != []) != (text.trim(column.version(b)) != []) then
      text.trim(column.version(a)) != []
    else
      var comparison := if numeric && leftHas then CompareAmounts(leftNumber, rightNumber)
          else CompareFields(text, column, a, b);
      Decide(comparison, descending, id(a), id(b))
  }

  // ---------------------------------------------------------------------------
  // One order

  /** Lower-cased for the comparison, and once more inside it. */
  function Lowered(text: Text, name: Bytes): Bytes {
    text.lower(text.lower(name))
  }

  function KeyOf<T>(text: Text, column: Column<T>, item: T): Key
    requires !column.Located?
  {
    match column
    case Integer(f) => (match f(item) case None => Absent case Some(value) => Amount(value as real))
    case Number(f) => (match f(item) case None => Absent case Some(value) => Amount(value))
    case Flag(f) => (match f(item) case None => Absent case Some(value) => Amount(if value then 1.0 else 0.0))
    case Label(f) => if text.trim(f(item)) == [] then Absent else Names(Lowered(text, f(item)), [])
    case Version(f) => if text.trim(f(item)) == [] then Absent else Names(text.lower(text.trim(f(item))), [])
    case Natural(f, g) => Names(Lowered(text, f(item)), Lowered(text, g(item)))
    case Bytewise(f, g) => Raw(text.lower(f(item)), text.lower(g(item)))
    case Ranked(f, g) => Amount((4 * f(item) + g(item)) as real)
    case Unordered => Amount(0.0)
  }

  datatype Service = RabbitMq | Elasticsearch | Java | Redis | MySql

  /** The columns a list offers. */
  predicate Offers<T>(service: Service, column: Column<T>) {
    match service
    case RabbitMq | Elasticsearch => !column.Flag? && !column.Label? && !column.Version? && !column.Located?
    case Java => !column.Version? && !column.Located?
    case Redis => column.Integer? || column.Number? || column.Ranked? || column.Located? || column.Unordered?
    case MySql => column.Number? || column.Version? || column.Ranked? || column.Located? || column.Unordered?
  }

  predicate SmallSubranks<T>(column: Column<T>, a: T) {
    column.Ranked? ==> column.subrank(a) < 4
  }

  predicate Less<T>(service: Service, text: Text, column: Column<T>, descending: bool, id: T -> Bytes, a: T, b: T) {
    match service
    case RabbitMq | Elasticsearch => NodeLess(text, column, descending, id, a, b)
    case Java => JavaLess(text, column, descending, id, a, b)
    case Redis => RedisLess(text, column, descending, id, a, b)
    case MySql => MySqlLess(text, column, descending, id, a, b)
  }

  predicate SameSign(c: int, k: int) {
    (c < 0 <==> k < 0) && (c > 0 <==> k > 0)
  }

  lemma RanksCompareByKey<T>(text: Text, column: Column<T>, a: T, b: T)
    requires column.Ranked? && SmallSubranks(column, a) && SmallSubranks(column, b)
    ensures SameSign(CompareFields(text, column, a, b), CompareKeys(KeyOf(text, column, a), KeyOf(text, column, b)))
  {
  }

  lemma FieldsCompareByKey<T>(text: Text, column: Column<T>, a: T, b: T)
    requires SmallSubranks(column, a) && SmallSubranks(column, b)
    requires column.Label? || column.Version? || column.Natural? || column.Bytewise? || column.Ranked? ||
        column.Unordered?
    requires KeyOf(text, column, a).Absent? == KeyOf(text, column, b).Absent?
    ensures SameShape(KeyOf(text, column, a), KeyOf(text, column, b))
    ensures !KeyOf(text, column, a).Absent? || column.Version? ==>
              SameSign(CompareFields(text, column, a, b),
                       CompareKeys(KeyOf(text, column, a), KeyOf(text, column, b)))
  {
    assert Compare([], []) == 0;
    match column
    case Ranked(_, _) => RanksCompareByKey(text, column, a, b);
    case Version(f) =>
      CompareAntisymmetric(text.lower([]), text.lower([]));
    case _ =>
  }

  predicate Measured<T>(column: Column<T>) {
    column.Integer? || column.Number? || column.Flag?
  }

  lemma NodeOrder<T>(text: Text, column: Column<T>, descending: bool, id: T -> Bytes, a: T, b: T)
    requires Offers(RabbitMq, column) && !column.Located? && SmallSubranks(column, a) && SmallSubranks(column, b)
    ensures SameShape(KeyOf(text, column, a), KeyOf(text, column, b))
    ensures NodeLess(text, column, descending, id, a, b) <==>
            Precedes(descending, Row(KeyOf(text, column, a), id(a)), Row(KeyOf(text, column, b), id(b)))
  {
    if !Measured(column) && KeyOf(text, column, a).Absent? == KeyOf(text, column, b).Absent? {
      FieldsCompareByKey(text, column, a, b);
    }
  }

  lemma JavaMeasuredOrder<T>(text: Text, column: Column<T>, descending: bool, id: T -> Bytes, a: T, b: T)
    requires Offers(Java, column) && !column.Located? && SmallSubranks(column, a) && SmallSubranks(column, b)
    requires Measured(column)
    ensures SameShape(KeyOf(text, column, a), KeyOf(text, column, b))
    ensures JavaLess(text, column, descending, id, a, b) <==>
            Precedes(descending, Row(KeyOf(text, column, a), id(a)), Row(KeyOf(text, column, b), id(b)))
  {
  }

  lemma JavaFieldOrder<T>(text: Text, column: Column<T>, descending: bool, id: T -> Bytes, a: T, b: T)
    requires Offers(Java, column) && !column.Located? && SmallSubranks(column, a) && SmallSubranks(column, b)
    requires !Measured(column)
    ensures SameShape(KeyOf(text, column, a), KeyOf(text, column, b))
    ensures JavaLess(text, column, descending, id, a, b) <==>
            Precedes(descending, Row(KeyOf(text, column, a), id(a)), Row(KeyOf(text, column, b), id(b)))
  {
    if KeyOf(text, column, a).Absent? == KeyOf(text, column, b).Absent? {
      FieldsCompareByKey(text, column, a, b);
    }
  }

  lemma JavaOrder<T>(text: Text, column: Column<T>, descending: bool, id: T -> Bytes, a: T, b: T)
    requires Offers(Java, column) && !column.Located? && SmallSubranks(column, a) && SmallSubranks(column, b)
    ensures SameShape(KeyOf(text, column, a), KeyOf(text, column, b))
    ensures JavaLess(text, column, descending, id, a, b) <==>
            Precedes(descending, Row(KeyOf(text, column, a), id(a)), Row(KeyOf(text, column, b), id(b)))
  {
    if Measured(column) {
      JavaMeasuredOrder(text, column, descending, id, a, b);
    } else {
      JavaFieldOrder(text, column, descending, id, a, b);
    }
  }

  lemma RedisOrder<T>(text: Text, column: Column<T>, descending: bool, id: T -> Bytes, a: T, b: T)
    requires Offers(Redis, column) && !column.Located? && SmallSubranks(column, a) && SmallSubranks(column, b)
    ensures SameShape(KeyOf(text, column, a), KeyOf(text, column, b))
    ensures RedisLess(text, column, descending, id, a, b) <==>
            Precedes(descending, Row(KeyOf(text, column, a), id(a)), Row(KeyOf(text, column, b), id(b)))
  {
    if !Measured(column) && KeyOf(text, column, a).Absent? == KeyOf(text, column, b).Absent? {
      FieldsCompareByKey(text, column, a, b);
    }
  }

  lemma MySqlOrder<T>(text: Text, column: Column<T>, descending: bool, id: T -> Bytes, a: T, b: T)
    requires Offers(MySql, column) && !column.Located? && SmallSubranks(column, a) && SmallSubranks(column, b)
    ensures SameShape(KeyOf(text, column, a), KeyOf(text, column, b))
    ensures MySqlLess(text, column, descending, id, a, b) <==>
            Precedes(descending, Row(KeyOf(text, column, a), id(a)), Row(KeyOf(text, column, b), id(b)))
  {
    if !Measured(column) && KeyOf(text, column, a).Absent? == KeyOf(text, column, b).Absent? {
      FieldsCompareByKey(text, column, a, b);
    }
  }

  /** Every closure is the one order on keys, for each column its list offers that has keys. */
  lemma LessIsKeyOrder<T>(service: Service, text: Text, column: Column<T>, descending: bool, id: T -> Bytes, a: T, b: T)
    requires Offers(service, column) && !column.Located? && SmallSubranks(column, a) && SmallSubranks(column, b)
    ensures SameShape(KeyOf(text, column, a), KeyOf(text, column, b))
    ensures Less(service, text, column, descending, id, a, b) <==>
            Precedes(descending, Row(KeyOf(text, column, a), id(a)), Row(KeyOf(text, column, b), id(b)))
  {
    match service
    case RabbitMq | Elasticsearch => NodeOrder(text, column, descending, id, a, b);
    case Java => JavaOrder(text, column, descending, id, a, b);
    case Redis => RedisOrder(text, column, descending, id, a, b);
    case MySql => MySqlOrder(text, column, descending, id, a, b);
  }

  function LessFunction<T>(service: Service, text: Text, column: Column<T>, descending: bool, id: T -> Bytes)
    : (T, T) -> bool
  {
    (a, b) => Less(service, text, column, descending, id, a, b)
  }

  // ---------------------------------------------------------------------------
  // The address column

  function Lib<T>(text: Text, column: Column<T>): A.Library
    requires column.Located?
  {
    A.Library(column.parse, text.lower)
  }

  function AddressRow<T>(column: Column<T>, id: T -> Bytes, item: T): A.Row
    requires column.Located?
  {
    A.Row(column.address(item), id(item))
  }

  function AddressRows<T>(column: Column<T>, id: T -> Bytes, items: seq<T>): set<A.Row>
    requires column.Located?
  {
    set i | 0 <= i < |items| :: AddressRow(column, id, items[i])
  }

  ghost predicate PortsFit<T>(text: Text, column: Column<T>, id: T -> Bytes, items: seq<T>)
    requires column.Located?
  {
    var rows := AddressRows(column, id, items);
    forall r, q | r in rows && q in rows :: A.PortsFit(Lib(text, column), r, q)
  }

  /** Some unparseable address lies by text between two that text and number order differently. */
  ghost predicate Straddled<T>(text: Text, column: Column<T>, descending: bool, id: T -> Bytes, items: seq<T>)
    requires column.Located?
  {
    var rows := AddressRows(column, id, items);
    exists u, p, q :: u in rows && p in rows && q in rows && A.Straddles(Lib(text, column), descending, u, p, q)
  }

  /** In both lists the closure on addresses is the mixed order of the address comparison. */
  lemma LocatedIsAddressOrder<T>(service: Service, text: Text, column: Column<T>, descending: bool, id: T -> Bytes,
      a: T, b: T)
    requires Offers(service, column) && column.Located?
    ensures Less(service, text, column, descending, id, a, b) <==>
            A.Less(Lib(text, column), descending, AddressRow(column, id, a), AddressRow(column, id, b))
  {
  }

  /** The rows that stand in the list. */
  lemma RowsComparable<T(!new)>(text: Text, column: Column<T>, id: T -> Bytes, items: seq<T>)
    requires column.Located? && DistinctIds(id, items) && PortsFit(text, column, id, items)
    ensures A.Comparable(Lib(text, column), AddressRows(column, id, items))
    ensures forall a <- items :: AddressRow(column, id, a) in AddressRows(column, id, items)
  {
    var rows := AddressRows(column, id, items);
    forall r, q | r in rows && q in rows && r != q ensures r.id != q.id {
      var i :| 0 <= i < |items| && r == AddressRow(column, id, items[i]);
      var j :| 0 <= j < |items| && q == AddressRow(column, id, items[j]);
      assert items[i] in items && items[j] in items;
    }
  }

  /** Whatever parses, of two rows with different ids exactly one comes before the other. */
  lemma LocatedDecides<T(!new)>(service: Service, text: Text, column: Column<T>, descending: bool, id: T -> Bytes,
      items: seq<T>)
    requires Offers(service, column) && column.Located?
    requires DistinctIds(id, items) && PortsFit(text, column, id, items)
    ensures var less := LessFunction(service, text, column, descending, id);
      && Decides(items, less)
      && (forall a, b | a in items && b in items && less(a, b) :: !less(b, a))
  {
    var less := LessFunction(service, text, column, descending, id);
    RowsComparable(text, column, id, items);
    forall a, b | a in items && b in items
      ensures a != b ==> less(a, b) || less(b, a)
      ensures less(a, b) ==> !less(b, a)
    {
      var r, q := AddressRow(column, id, a), AddressRow(column, id, b);
      LocatedIsAddressOrder(service, text, column, descending, id, a, b);
      LocatedIsAddressOrder(service, text, column, descending, id, b, a);
      if a != b {
        A.LessDecides(Lib(text, column), descending, r, q);
      }
      if less(a, b) {
        A.DecidesOnce(Lib(text, column), descending, q, r);
      }
    }
  }

  /** The closure on the list is transitive exactly when the address order on its rows is. */
  lemma LocatedTransitive<T(!new)>(service: Service, text: Text, column: Column<T>, descending: bool, id: T -> Bytes,
      items: seq<T>)
    requires Offers(service, column) && column.Located?
    ensures var less := LessFunction(service, text, column, descending, id);
      (forall a, b, c | a in items && b in items && c in items && less(a, b) && less(b, c) :: less(a, c)) <==>
      A.Transitive(Lib(text, column), descending, AddressRows(column, id, items))
  {
    var less, rows := LessFunction(service, text, column, descending, id), AddressRows(column, id, items);
    var row := (a: T) => if column.Located? then AddressRow(column, id, a) else A.Row([], []);
    forall a, b ensures less(a, b) <==> A.Less(Lib(text, column), descending, row(a), row(b)) {
      LocatedIsAddressOrder(service, text, column, descending, id, a, b);
    }
    forall a | a in items ensures row(a) in rows {
      var i :| 0 <= i < |items| && items[i] == a;
    }
    forall r | r in rows ensures exists a :: a in items && row(a) == r {
      var i :| 0 <= i < |items| && r == AddressRow(column, id, items[i]);
      assert items[i] in items && row(items[i]) == r;
    }
    TransitiveThroughRows(items, rows, row, less, Lib(text, column), descending);
  }

  lemma TransitiveThroughRows<T(!new)>(items: seq<T>, rows: set<A.Row>, row: T -> A.Row, less: (T, T) -> bool,
      lib: A.Library, descending: bool)
    requires forall r :: r in rows <==> exists a :: a in items && row(a) == r
    requires forall a, b :: less(a, b) <==> A.Less(lib, descending, row(a), row(b))
    ensures (forall a, b, c | a in items && b in items && c in items && less(a, b) && less(b, c) :: less(a, c)) <==>
            A.Transitive(lib, descending, rows)
  {
    if forall a, b, c | a in items && b in items && c in items && less(a, b) && less(b, c) :: less(a, c) {
      forall r, q, p | r in rows && q in rows && p in rows && A.Less(lib, descending, r, q) &&
          A.Less(lib, descending, q, p)
        ensures A.Less(lib, descending, r, p)
      {
        var a :| a in items && row(a) == r;
        var b :| b in items && row(b) == q;
        var c :| c in items && row(c) == p;
        assert less(a, b) && less(b, c);
      }
    }
  }

  /** The rows of a list are strictly ordered by address exactly when none straddles. */
  lemma LocatedOrderedUnlessStraddled<T(!new)>(service: Service, text: Text, column: Column<T>, descending: bool,
      id: T -> Bytes, items: seq<T>)
    requires Offers(service, column) && column.Located?
    requires DistinctIds(id, items) && PortsFit(text, column, id, items)
    ensures StrictOrderOn(items, LessFunction(service, text, column, descending, id)) <==>
            !Straddled(text, column, descending, id, items)
  {
    RowsComparable(text, column, id, items);
    LocatedDecides(service, text, column, descending, id, items);
    LocatedTransitive(service, text, column, descending, id, items);
    A.TransitiveUnlessStraddled(Lib(text, column), descending, AddressRows(column, id, items));
  }

  // ---------------------------------------------------------------------------
  // The lists

  /** What a column asks of the rows: that no address straddles; of other columns nothing. */
  ghost predicate Orderable<T>(text: Text, column: Column<T>, descending: bool, id: T -> Bytes, items: seq<T>) {
    column.Located? ==> !Straddled(text, column, descending, id, items)
  }

  /** The rows have an order to be sorted by. */
  ghost predicate HaveOrder<T(!new)>(text: Text, column: Column<T>, descending: bool, id: T -> Bytes, items: seq<T>) {
    && DistinctIds(id, items)
    && (column.Located? ==> PortsFit(text, column, id, items))
    && Orderable(text, column, descending, id, items)
  }

  /**
   On the rows of a list every closure is a strict order, total on different rows, if and only if
   they are orderable.
   */
  lemma ClosureIsStrictOrder<T(!new)>(service: Service, text: Text, column: Column<T>, descending: bool, id: T -> Bytes,
      items: seq<T>)
    requires Offers(service, column) && forall a :: SmallSubranks(column, a)
    requires DistinctIds(id, items) && (column.Located? ==> PortsFit(text, column, id, items))
    ensures var less := LessFunction(service, text, column, descending, id);
      && Decides(items, less)
      && (forall a, b | a in items && b in items && less(a, b) :: !less(b, a))
      && (StrictOrderOn(items, less) <==> Orderable(text, column, descending, id, items))
  {
    var less := LessFunction(service, text, column, descending, id);
    if column.Located? {
      LocatedDecides(service, text, column, descending, id, items);
      LocatedOrderedUnlessStraddled(service, text, column, descending, id, items);
    } else {
      KeyedIsStrictOrder(service, text, column, descending, id, items);
    }
  }

  lemma KeyedIsStrictOrder<T(!new)>(service: Service, text: Text, column: Column<T>, descending: bool, id: T -> Bytes,
      items: seq<T>)
    requires Offers(service, column) && !column.Located? && forall a :: SmallSubranks(column, a)
    requires DistinctIds(id, items)
    ensures StrictOrder(LessFunction(service, text, column, descending, id))
    ensures Decides(items, LessFunction(service, text, column, descending, id))
  {
    var less := LessFunction(service, text, column, descending, id);
    var row := (a: T) => Row(if column.Located? then Absent else KeyOf(text, column, a), id(a));
    forall a, b
      ensures SameShape(row(a).key, row(b).key) && (less(a, b) <==> Precedes(descending, row(a), row(b)))
    {
      LessIsKeyOrder(service, text, column, descending, id, a, b);
    }
    KeyOrderIsTotal(items, less, row, descending);
  }

  /** A list has a sorted arrangement if and only if its rows are orderable. */
  lemma SortedExactlyIfOrderable<T(!new)>(service: Service, text: Text, column: Column<T>, descending: bool,
      id: T -> Bytes, items: seq<T>)
    requires Offers(service, column) && forall a :: SmallSubranks(column, a)
    requires DistinctIds(id, items) && (column.Located? ==> PortsFit(text, column, id, items))
    ensures (exists sorted :: SortsTo(items, sorted, LessFunction(service, text, column, descending, id))) <==>
            Orderable(text, column, descending, id, items)
  {
    var less := LessFunction(service, text, column, descending, id);
    ClosureIsStrictOrder(service, text, column, descending, id, items);
    if sorted :| SortsTo(items, sorted, less) {
      SortableMeansOrdered(items, sorted, less);
    }
    if Orderable(text, column, descending, id, items) {
      SortSorts(items, less);
    }
  }

  /** The sorted page content depends on the rows alone, not on the order they arrive in. */
  lemma ListingIgnoresArrival<T(!new)>(service: Service, text: Text, column: Column<T>, descending: bool,
      id: T -> Bytes, s: seq<T>, t: seq<T>, keep: T -> bool)
    requires Offers(service, column) && forall a :: SmallSubranks(column, a)
    requires HaveOrder(text, column, descending, id, Filter(s, keep)) && multiset(s) == multiset(t)
    ensures var less := LessFunction(service, text, column, descending, id);
      Sort(Filter(s, keep), less) == Sort(Filter(t, keep), less)
  {
    ClosureIsStrictOrder(service, text, column, descending, id, Filter(s, keep));
    ListingIsCanonical(s, t, keep, LessFunction(service, text, column, descending, id));
  }

  /** Lists by address are orderable, in both directions, when all addresses parse or none does. */
  lemma UniformListsAreOrderable<T(!new)>(text: Text, column: Column<T>, descending: bool, id: T -> Bytes,
      items: seq<T>)
    requires column.Located?
    requires || (forall a <- items :: column.parse(column.address(a)).Some?)
             || (forall a <- items :: column.parse(column.address(a)).None?)
    ensures Orderable(text, column, descending, id, items)
  {
    var rows := AddressRows(column, id, items);
    forall r, q | r in rows && q in rows ensures column.parse(r.address).Some? == column.parse(q.address).Some? {
      var i :| 0 <= i < |items| && r == AddressRow(column, id, items[i]);
      var j :| 0 <= j < |items| && q == AddressRow(column, id, items[j]);
      assert items[i] in items && items[j] in items;
    }
  }

  /** In either direction every row without a value comes after every row with one. */
  lemma MissingRowsComeLast<T(!new)>(service: Service, text: Text, column: Column<T>, descending: bool, id: T -> Bytes,
      sorted: seq<T>, i: nat, j: nat)
    requires Offers(service, column) && !column.Located? && forall a :: SmallSubranks(column, a)
    requires NoInversion(sorted, LessFunction(service, text, column, descending, id))
    requires i < j < |sorted| && KeyOf(text, column, sorted[i]).Absent?
    ensures KeyOf(text, column, sorted[j]).Absent?
  {
    var less := LessFunction(service, text, column, descending, id);
    assert !less(sorted[j], sorted[i]);
    LessIsKeyOrder(service, text, column, descending, id, sorted[j], sorted[i]);
  }
  // ---------------------------------------------------------------------------
  // Queries

  /** RabbitMQ asks that the end of the page has an index, MySQL nothing, the others that its first row has. */
  function PagingOf(service: Service): Paging {
    match service
    case RabbitMq => ByEnd
    case MySql => Clamped
    case Elasticsearch | Java | Redis => ByOffset
  }

  /** Three of the lists read a missing number as their default. */
  function Asked(service: Service, number: Int, default: Int): Int {
    if number == 0 && !service.Redis? && !service.MySql? then default else number
  }

  /** The page and the number of rows a request comes to, with the defaults of the lists that have any. */
  ghost predicate ComesTo(service: Service, page: Int, size: Int, p: int, n: int) {
    match service
    case RabbitMq | Elasticsearch | Java =>
      && (if page == 0 then p == 1 else p == page as int)
      && (if size == 0 then n == 20 else n == size as int)
    case Redis | MySql => p == page as int && n == size as int
  }

  /** The pages a list serves: RabbitMQ bounds the last row, MySQL nothing, the others the first row. */
  ghost predicate Serves(service: Service, p: int, n: int) {
    && p >= 1 && n in {20, 50, 100, 500}
    && match service
       case RabbitMq => p * n <= 0x7FFF_FFFF_FFFF_FFFF
       case MySql => true
       case Elasticsearch | Java | Redis => (p - 1) * n <= 0x7FFF_FFFF_FFFF_FFFF
  }

  // ---------------------------------------------------------------------------
  // What a list shows

  /** Flags that are down come before those that are up. */
  predicate FlagsInOrder(descending: bool, x: Option<bool>, y: Option<bool>) {
    y.None? || (x.Some? && if descending then x.value || !y.value else !x.value || y.value)
  }

  predicate CountsInOrder(descending: bool, x: Option<int>, y: Option<int>) {
    y.None? || (x.Some? && if descending then x.value >= y.value else x.value <= y.value)
  }

  predicate BytesInOrder(descending: bool, x: Bytes, y: Bytes) {
    if descending then CompareBytes(x, y) >= 0 else CompareBytes(x, y) <= 0
  }

  /** By address and port when both addresses parse, by text otherwise. */
  predicate AddressesInOrder(text: Text, parse: Bytes -> Option<A.Address>, descending: bool, x: Bytes, y: Bytes) {
    match (parse(x), parse(y))
    case (Some(l), Some(r)) =>
      if l.host == r.host then (if descending then l.port >= r.port else l.port <= r.port)
      else if descending then l.host > r.host else l.host < r.host
    case _ => BytesInOrder(descending, text.lower(x), text.lower(y))
  }

  /** The first row may stand before the second in a list sorted by this column. */
  predicate MayPrecede<T>(text: Text, column: Column<T>, descending: bool, a: T, b: T) {
    match column
    case Integer(f) => CountsInOrder(descending, f(a), f(b))
    case Number(f) => OptionsInOrder(descending, f(a), f(b))
    case Flag(f) => FlagsInOrder(descending, f(a), f(b))
    case Label(f) =>
      text.trim(f(b)) == [] ||
      (text.trim(f(a)) != [] && NamesInOrder(descending, Lowered(text, f(a)), Lowered(text, f(b))))
    case Version(f) =>
      text.trim(f(b)) == [] ||
      (text.trim(f(a)) != [] && NamesInOrder(descending, text.lower(text.trim(f(a))), text.lower(text.trim(f(b)))))
    case Natural(f, g) =>
      if Lowered(text, f(a)) == Lowered(text, f(b))
      then NamesInOrder(descending, Lowered(text, g(a)), Lowered(text, g(b)))
      else NamesInOrder(descending, Lowered(text, f(a)), Lowered(text, f(b)))
    case Bytewise(f, g) =>
      if text.lower(f(a)) == text.lower(f(b)) then BytesInOrder(descending, text.lower(g(a)), text.lower(g(b)))
      else BytesInOrder(descending, text.lower(f(a)), text.lower(f(b)))
    case Ranked(f, g) =>
      if f(a) == f(b) then (if descending then g(a) >= g(b) else g(a) <= g(b))
      else if descending then f(a) > f(b) else f(a) < f(b)
    case Located(f, parse) => AddressesInOrder(text, parse, descending, f(a), f(b))
    case Unordered => true
  }

  /** What the order on keys does not put the other way may stand as it is. */
  lemma KeysMeanColumn<T>(text: Text, column: Column<T>, descending: bool, id: T -> Bytes, a: T, b: T)
    requires !column.Located? && SmallSubranks(column, a) && SmallSubranks(column, b)
    requires SameShape(KeyOf(text, column, b), KeyOf(text, column, a))
    requires !Precedes(descending, Row(KeyOf(text, column, b), id(b)), Row(KeyOf(text, column, a), id(a)))
    ensures MayPrecede(text, column, descending, a, b)
    ensures MayPrecede(text, column, descending, b, a) ==> CompareBytes(id(a), id(b)) <= 0
  {
    BytesAntisymmetric(id(a), id(b));
    if KeyOf(text, column, a).Absent? == KeyOf(text, column, b).Absent? {
      KeysAntisymmetric(KeyOf(text, column, a), KeyOf(text, column, b));
      PartsAntisymmetric(KeyOf(text, column, a), KeyOf(text, column, b));
    }
    assert Compare([], []) == 0;
  }

  lemma PartsAntisymmetric(a: Key, b: Key)
    requires SameShape(a, b) && a.Absent? == b.Absent?
    ensures a.Names? ==>
              && Compare(a.first, b.first) == -Compare(b.first, a.first)
              && (Compare(a.first, b.first) == 0 <==> a.first == b.first)
              && Compare(a.second, b.second) == -Compare(b.second, a.second)
              && (Compare(a.second, b.second) == 0 <==> a.second == b.second)
    ensures a.Raw? ==>
              && CompareBytes(a.text, b.text) == -CompareBytes(b.text, a.text)
              && (CompareBytes(a.text, b.text) == 0 <==> a.text == b.text)
              && CompareBytes(a.rest, b.rest) == -CompareBytes(b.rest, a.rest)
              && (CompareBytes(a.rest, b.rest) == 0 <==> a.rest == b.rest)
  {
    if a.Names? {
      CompareAntisymmetric(a.first, b.first);
      CompareAntisymmetric(a.second, b.second);
    } else if a.Raw? {
      BytesAntisymmetric(a.text, b.text);
      BytesAntisymmetric(a.rest, b.rest);
    }
  }

  lemma AddressesMeanColumn<T>(service: Service, text: Text, column: Column<T>, descending: bool, id: T -> Bytes,
      a: T, b: T)
    requires Offers(service, column) && column.Located?
    requires A.PortsFit(Lib(text, column), AddressRow(column, id, b), AddressRow(column, id, a))
    requires !Less(service, text, column, descending, id, b, a)
    ensures MayPrecede(text, column, descending, a, b)
    ensures MayPrecede(text, column, descending, b, a) ==> CompareBytes(id(a), id(b)) <= 0
  {
    LocatedIsAddressOrder(service, text, column, descending, id, b, a);
    A.LessSwitches(Lib(text, column), descending, AddressRow(column, id, b), AddressRow(column, id, a));
    BytesAntisymmetric(id(a), id(b));
    BytesAntisymmetric(text.lower(column.address(a)), text.lower(column.address(b)));
  }

  lemma LessMeansColumn<T>(service: Service, text: Text, column: Column<T>, descending: bool, id: T -> Bytes,
      a: T, b: T)
    requires Offers(service, column) && SmallSubranks(column, a) && SmallSubranks(column, b)
    requires column.Located? ==>
        A.PortsFit(Lib(text, column), AddressRow(column, id, b), AddressRow(column, id, a))
    requires !Less(service, text, column, descending, id, b, a)
    ensures MayPrecede(text, column, descending, a, b)
    ensures MayPrecede(text, column, descending, b, a) ==> CompareBytes(id(a), id(b)) <= 0
  {
    if column.Located? {
      AddressesMeanColumn(service, text, column, descending, id, a, b);
    } else {
      LessIsKeyOrder(service, text, column, descending, id, b, a);
      KeysMeanColumn(text, column, descending, id, a, b);
    }
  }

  /** A sorted arrangement of rows stands in the order of its column. */
  lemma SortedIsOrdered<T(!new)>(service: Service, text: Text, column: Column<T>, descending: bool, id: T -> Bytes,
      items: seq<T>, sorted: seq<T>)
    requires Offers(service, column) && forall a :: SmallSubranks(column, a)
    requires column.Located? ==> PortsFit(text, column, id, items)
    requires SortsTo(items, sorted, LessFunction(service, text, column, descending, id))
    ensures Ordered(sorted, (a: T, b: T) => MayPrecede(text, column, descending, a, b), id)
  {
    var less := LessFunction(service, text, column, descending, id);
    SameElements(sorted, items);
    forall i, j | 0 <= i < j < |sorted|
      ensures MayPrecede(text, column, descending, sorted[i], sorted[j])
      ensures MayPrecede(text, column, descending, sorted[j], sorted[i]) ==>
              CompareBytes(id(sorted[i]), id(sorted[j])) <= 0
    {
      assert !less(sorted[j], sorted[i]);
      assert sorted[i] in items && sorted[j] in items;
      LessMeansColumn(service, text, column, descending, id, sorted[i], sorted[j]);
    }
  }

  /**
   One list request.  An accepted one gets its page of an arrangement of the kept rows and their number; if the
   kept rows have an order, the arrangement is the sorted one.
   */
  method List<T(!new)>(service: Service, text: Text, snapshot: seq<T>, keep: T -> bool, column: Column<T>,
      descending: bool, id: T -> Bytes, page: Int, size: Int) returns (result: Option<(seq<T>, nat)>)
    requires Offers(service, column) && forall a :: SmallSubranks(column, a)
    requires |snapshot| <= MAX_INT - 500
    ensures var p, n := Asked(service, page, 1) as int, Asked(service, size, 20) as int;
      var kept, less := Filter(snapshot, keep), LessFunction(service, text, column, descending, id);
      && ComesTo(service, page, size, p, n)
      && (result.Some? <==> Serves(service, p, n))
      && (result.Some? ==>
        && result.value.1 == |kept|
        && (exists listing ::
              && Collects(listing, snapshot, keep) && result.value.0 == Page(listing, p, n)
              && (HaveOrder(text, column, descending, id, kept) ==>
                    && SortsTo(kept, listing, less)
                    && Ordered(listing, (a: T, b: T) => MayPrecede(text, column, descending, a, b), id))))
  {
    var asked, rowsAsked := Asked(service, page, 1), Asked(service, size, 20);
    var accepted := AcceptPage(PagingOf(service), asked, rowsAsked);
    if !accepted {
      return None;
    }
    var less := LessFunction(service, text, column, descending, id);
    var rows, total := ServePage(snapshot, keep, less, PagingOf(service), asked, rowsAsked);
    ghost var kept := Filter(snapshot, keep);
    SortCollects(snapshot, keep, less);
    if HaveOrder(text, column, descending, id, kept) {
      ClosureIsStrictOrder(service, text, column, descending, id, kept);
      SortSorts(kept, less);
      SortedIsOrdered(service, text, column, descending, id, kept, Sort(kept, less));
    }
    return Some((rows, total));
  }
}
