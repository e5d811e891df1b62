/**
 Sorting MySQL and Redis rows by address.  Two parseable addresses are compared by
 host and port; as soon as one of them does not parse, both are compared as text.
 Mixing the two orders is not always an order, and this module says exactly when it is.
 */
module AddressOrder {
  import opened Integers
  import opened NaturalOrder
  import opened Optional

  const TWO_TO_THE_64 := 0x1_0000_0000_0000_0000

  /** A parsed address; hosts are numbered in the order of the library's comparison, a port is any machine integer. */
  datatype Address = Address(host: int, port: Int)

  datatype Row = Row(address: Bytes, id: Bytes)

  /** The library functions the comparison relies on. */
  datatype Library = Library(parse: Bytes -> Option<Address>, lower: Bytes -> Bytes)

  /** Subtraction of machine integers. */
  function WrapMinus(a: int, b: int): int {
    var d := a - b;
    if d > MAX_INT then d - TWO_TO_THE_64 else if d < -MAX_INT - 1 then d + TWO_TO_THE_64 else d
  }

  function CompareAddresses(lib: Library, left: Bytes, right: Bytes): int {
    var l, r := lib.parse(left), lib.parse(right);
    if l.Some? && r.Some? then
      if l.value.host < r.value.host then -1
      else if l.value.host > r.value.host then 1
      else WrapMinus(l.value.port as int, r.value.port as int)
    else CompareBytes(lib.lower(left), lib.lower(right))
  }

  /** The less-function of the sort: direction first, ties by id. */
  predicate Less(lib: Library, descending: bool, a: Row, b: Row) {
    var c := CompareAddresses(lib, a.address, b.address);
    if c == 0 then CompareBytes(a.id, b.id) < 0 else if descending then c > 0 else c < 0
  }

  /** The two orders that `Less` switches between. */
  predicate ByNumber(lib: Library, descending: bool, a: Row, b: Row)
    requires lib.parse(a.address).Some? && lib.parse(b.address).Some?
  {
    var l, r := lib.parse(a.address).value, lib.parse(b.address).value;
    if l == r then CompareBytes(a.id, b.id) < 0
    else if descending then l.host > r.host || (l.host == r.host && l.port > r.port)
    else l.host < r.host || (l.host == r.host && l.port < r.port)
  }

  predicate ByText(lib: Library, descending: bool, a: Row, b: Row) {
    var c := CompareBytes(lib.lower(a.address), lib.lower(b.address));
    if c == 0 then CompareBytes(a.id, b.id) < 0 else if descending then c > 0 else c < 0
  }

  function PortDifference(a: Address, b: Address): int {
    a.port as int - b.port as int
  }

  /** Subtracting the ports of one host does not leave the machine's integers, either way round. */
  predicate PortsFit(lib: Library, a: Row, b: Row) {
    var l, r := lib.parse(a.address), lib.parse(b.address);
    l.Some? && r.Some? && l.value.host == r.value.host ==> -MAX_INT <= PortDifference(l.value, r.value) <= MAX_INT
  }

  lemma LessSwitches(lib: Library, descending: bool, a: Row, b: Row)
    requires PortsFit(lib, a, b)
    ensures Less(lib, descending, a, b) <==>
            if lib.parse(a.address).Some? && lib.parse(b.address).Some?
            then ByNumber(lib, descending, a, b) else ByText(lib, descending, a, b)
  {
  }

  lemma ByNumberTransitive(lib: Library, descending: bool, a: Row, b: Row, c: Row)
    requires lib.parse(a.address).Some? && lib.parse(b.address).Some? && lib.parse(c.address).Some?
    requires ByNumber(lib, descending, a, b) && ByNumber(lib, descending, b, c)
    ensures ByNumber(lib, descending, a, c)
  {
    if CompareBytes(a.id, b.id) < 0 && CompareBytes(b.id, c.id) < 0 {
      BytesTransitive(a.id, b.id, c.id);
    }
  }

  lemma ByTextTransitive(lib: Library, descending: bool, a: Row, b: Row, c: Row)
    requires ByText(lib, descending, a, b) && ByText(lib, descending, b, c)
    ensures ByText(lib, descending, a, c)
  {
    var x, y, z := lib.lower(a.address), lib.lower(b.address), lib.lower(c.address);
    BytesAntisymmetric(x, y);
    BytesAntisymmetric(y, z);
    BytesAntisymmetric(x, z);
    if x == y && y == z {
      BytesTransitive(a.id, b.id, c.id);
    } else if x != y && y != z {
      if descending {
        BytesAntisymmetric(z, y);
        BytesTransitive(z, y, x);
      } else {
        BytesTransitive(x, y, z);
      }
    }
  }

  lemma ByTextTotal(lib: Library, descending: bool, a: Row, b: Row)
    requires a.id != b.id
    ensures ByText(lib, descending, a, b) != ByText(lib, descending, b, a)
  {
    BytesAntisymmetric(lib.lower(a.address), lib.lower(b.address));
    BytesAntisymmetric(a.id, b.id);
  }

  lemma ByNumberTotal(lib: Library, descending: bool, a: Row, b: Row)
    requires a.id != b.id && lib.parse(a.address).Some? && lib.parse(b.address).Some?
    ensures ByNumber(lib, descending, a, b) != ByNumber(lib, descending, b, a)
  {
    BytesAntisymmetric(a.id, b.id);
  }

  /** Two ports of one host that are half of all machine integers apart: each minus the other is the least integer. */
  predicate Opposite(lib: Library, a: Row, b: Row) {
    var l, r := lib.parse(a.address), lib.parse(b.address);
    && l.Some? && r.Some? && l.value.host == r.value.host
    && (PortDifference(l.value, r.value) == MAX_INT + 1 || PortDifference(r.value, l.value) == MAX_INT + 1)
  }

  /** Whatever the mix, exactly one of two rows with different ids comes first unless their ports are opposite. */
  lemma LessDecides(lib: Library, descending: bool, a: Row, b: Row)
    requires a.id != b.id
    ensures Less(lib, descending, a, b) != Less(lib, descending, b, a) <==> !Opposite(lib, a, b)
  {
    BytesAntisymmetric(lib.lower(a.address), lib.lower(b.address));
    BytesAntisymmetric(a.id, b.id);
  }

  ghost predicate Transitive(lib: Library, descending: bool, rows: set<Row>) {
    forall a, b, c | a in rows && b in rows && c in rows && Less(lib, descending, a, b) &&
        Less(lib, descending, b, c) ::
      Less(lib, descending, a, c)
  }

  /**
   An unparseable address whose text lies between two parseable ones that text and
   number put in opposite orders.
   */
  predicate Straddles(lib: Library, descending: bool, u: Row, p: Row, q: Row) {
    && lib.parse(u.address).None? && lib.parse(p.address).Some? && lib.parse(q.address).Some?
    && ByNumber(lib, descending, p, q)
    && ByText(lib, descending, q, u) && ByText(lib, descending, u, p)
  }

  ghost predicate Comparable(lib: Library, rows: set<Row>) {
    && (forall a, b | a in rows && b in rows && a != b :: a.id != b.id)
    && (forall a, b | a in rows && b in rows :: PortsFit(lib, a, b))
  }

  /** With distinct ids and port differences that fit, the sort has an order if and only if no address straddles. */
  lemma TransitiveUnlessStraddled(lib: Library, descending: bool, rows: set<Row>)
    requires Comparable(lib, rows)
    ensures Transitive(lib, descending, rows) <==>
            !(exists u, p, q :: u in rows && p in rows && q in rows && Straddles(lib, descending, u, p, q))
  {
    forall u, p, q | u in rows && p in rows && q in rows && Straddles(lib, descending, u, p, q)
      ensures !Transitive(lib, descending, rows)
    {
      LessSwitches(lib, descending, p, q);
      LessSwitches(lib, descending, q, u);
      LessSwitches(lib, descending, p, u);
      ByTextTotal(lib, descending, p, u);
      assert Less(lib, descending, p, q) && Less(lib, descending, q, u) && !Less(lib, descending, p, u);
    }
    if !(exists u, p, q :: u in rows && p in rows && q in rows && Straddles(lib, descending, u, p, q)) {
      forall a, b, c | a in rows && b in rows && c in rows && Less(lib, descending, a, b) && Less(lib, descending, b, c)
        ensures Less(lib, descending, a, c)
      {
        UnstraddledTriple(lib, descending, rows, a, b, c);
      }
    }
  }

  lemma UnstraddledTriple(lib: Library, descending: bool, rows: set<Row>, a: Row, b: Row, c: Row)
    requires Comparable(lib, rows) && a in rows && b in rows && c in rows
    requires Less(lib, descending, a, b) && Less(lib, descending, b, c)
    requires !Straddles(lib, descending, c, a, b) && !Straddles(lib, descending, b, c, a) &&
        !Straddles(lib, descending, a, b, c)
    ensures Less(lib, descending, a, c)
  {
    LessSwitches(lib, descending, a, b);
    LessSwitches(lib, descending, b, c);
    LessSwitches(lib, descending, a, c);
    var p, q, r := lib.parse(a.address).Some?, lib.parse(b.address).Some?, lib.parse(c.address).Some?;
    if a == c {
      DecidesOnce(lib, descending, a, b);
    } else if p && q && r {
      ByNumberTransitive(lib, descending, a, b, c);
    } else if (if p then !q && !r else !(q && r)) {
      ByTextTransitive(lib, descending, a, b, c);
    } else {
      ByTextTotal(lib, descending, a, c);
      if p && r { ByNumberTotal(lib, descending, a, c); }
    }
  }

  lemma DecidesOnce(lib: Library, descending: bool, a: Row, b: Row)
    requires PortsFit(lib, a, b)
    requires Less(lib, descending, b, a)
    ensures !Less(lib, descending, a, b)
  {
    LessSwitches(lib, descending, a, b);
    LessSwitches(lib, descending, b, a);
    BytesAntisymmetric(lib.lower(a.address), lib.lower(b.address));
    BytesAntisymmetric(a.id, b.id);
  }

  /** In particular the order is sound when all addresses parse, and when none does. */
  lemma UniformAddressesAreOrdered(lib: Library, descending: bool, rows: set<Row>)
    requires Comparable(lib, rows)
    requires (forall a <- rows :: lib.parse(a.address).Some?) || (forall a <- rows :: lib.parse(a.address).None?)
    ensures Transitive(lib, descending, rows)
  {
    TransitiveUnlessStraddled(lib, descending, rows);
  }

  const SUBNET: Bytes := [49, 48, 46, 48, 46, 48, 46]   // 10.0.0.
  const NINE: Bytes := SUBNET + [57, 58, 49]            // 10.0.0.9:1
  const TEN: Bytes := SUBNET + [49, 48, 58, 49]         // 10.0.0.10:1
  const BROKEN: Bytes := SUBNET + [49, 120]             // 10.0.0.1x

  /** Three addresses that chase each other: by number, then twice by text. */
  lemma MixedAddressesCanCycle(lib: Library, idA: Bytes, idB: Bytes, idC: Bytes)
    requires lib.lower(NINE) == NINE && lib.lower(TEN) == TEN && lib.lower(BROKEN) == BROKEN
    requires lib.parse(NINE) == Some(Address(9, 1)) && lib.parse(TEN) == Some(Address(10, 1)) &&
        lib.parse(BROKEN) == None
    ensures var a, b, c := Row(NINE, idA), Row(TEN, idB), Row(BROKEN, idC);
      Less(lib, false, a, b) && Less(lib, false, b, c) && Less(lib, false, c, a)
  {
    CommonPrefix(SUBNET, [49, 48, 58, 49], [49, 120]);
    CommonPrefix(SUBNET, [49, 120], [57, 58, 49]);
  }

  /** Ports that lie too far apart chase each other as well: the difference of the outer two wraps around. */
  lemma FarPortsCanCycle(lib: Library, descending: bool, a: Row, b: Row, c: Row)
    requires lib.parse(a.address).Some? && lib.parse(b.address).Some? && lib.parse(c.address).Some?
    requires lib.parse(a.address).value.host == lib.parse(b.address).value.host == lib.parse(c.address).value.host
    requires lib.parse(a.address).value.port as int == -0x4000_0000_0000_0000
    requires lib.parse(b.address).value.port == 0
    requires lib.parse(c.address).value.port == 0x4000_0000_0000_0001
    ensures if descending then Less(lib, true, b, a) && Less(lib, true, c, b) && Less(lib, true, a, c)
            else Less(lib, false, a, b) && Less(lib, false, b, c) && Less(lib, false, c, a)
  {
  }
}
