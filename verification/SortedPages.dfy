/**
 What every list page shares: a sort key per row, an order on keys that puts missing
 values last in both directions and breaks ties by row id, and pages cut from the
 sorted list.
 */
module SortedPages {
  import opened Integers
  import opened NaturalOrder
  import opened Optional
  import opened Rearrangement

  /** The library's lower-casing and white-space trimming. */
  datatype Text = Text(lower: Bytes -> Bytes, trim: Bytes -> Bytes)

  /** A value, whether the row has it, and whether the column is of this kind at all. */
  type Sortable<V> = (V, bool, bool)

  predicate Contains(text: Bytes, part: Bytes) {
    |part| <= |text| && (text[..|part|] == part || (text != [] && Contains(text[1..], part)))
  }

  // ---------------------------------------------------------------------------
  // Keys

  /** The value of a row in the sorted column.  Rows of one column have keys of one shape. */
  datatype Key =
    | Absent
    | Amount(amount: real)
    | Names(first: Bytes, second: Bytes)   // lower-cased, compared in natural order
    | Raw(text: Bytes, rest: Bytes)        // compared byte by byte

  predicate SameShape(a: Key, b: Key) {
    a.Absent? || b.Absent? || (a.Amount? && b.Amount?) || (a.Names? && b.Names?) || (a.Raw? && b.Raw?)
  }

  function CompareInts(a: int, b: int): int {
    if a < b then -1 else if a > b then 1 else 0
  }

  function CompareAmounts(a: real, b: real): int {
    if a < b then -1 else if a > b then 1 else 0
  }

  function CompareKeys(a: Key, b: Key): int
    requires SameShape(a, b) && a.Absent? == b.Absent?
  {
    match a
    case Absent => 0
    case Amount(x) => CompareAmounts(x, b.amount)
    case Names(first, second) =>
      if Compare(first, b.first) != 0 then Compare(first, b.first) else Compare(second, b.second)
    case Raw(text, rest) => if CompareBytes(text, b.text) != 0 then CompareBytes(text, b.text)
        else CompareBytes(rest, b.rest)
  }

  /** A row as the order sees it. */
  datatype Row = Row(key: Key, id: Bytes)

  /** How every closure ends: the comparison in the chosen direction, ties by id in either. */
  predicate Decide(comparison: int, descending: bool, a: Bytes, b: Bytes) {
    if comparison == 0 then CompareBytes(a, b) < 0
    else if descending then comparison > 0
    else comparison < 0
  }

  predicate Precedes(descending: bool, a: Row, b: Row)
    requires SameShape(a.key, b.key)
  {
    if a.key.Absent? != b.key.Absent? then b.key.Absent?
    else Decide(CompareKeys(a.key, b.key), descending, a.id, b.id)
  }

  lemma KeysAntisymmetric(a: Key, b: Key)
    requires SameShape(a, b) && a.Absent? == b.Absent?
    ensures CompareKeys(a, b) == -CompareKeys(b, a)
    ensures CompareKeys(a, b) == 0 <==> a == b
  {
    match a
    case Names(first, second) =>
      CompareAntisymmetric(first, b.first);
      CompareAntisymmetric(second, b.second);
    case Raw(text, rest) =>
      BytesAntisymmetric(text, b.text);
      BytesAntisymmetric(rest, b.rest);
    case _ =>
  }

  lemma KeysTransitive(a: Key, b: Key, c: Key)
    requires SameShape(a, b) && SameShape(b, c) && SameShape(a, c) && a.Absent? == b.Absent? == c.Absent?
    requires CompareKeys(a, b) < 0 && CompareKeys(b, c) < 0
    ensures CompareKeys(a, c) < 0
  {
    match a
    case Names(first, second) =>
      CompareAntisymmetric(first, b.first);
      CompareAntisymmetric(b.first, c.first);
      if first != b.first && b.first != c.first {
        CompareTransitive(first, b.first, c.first);
      } else if first == b.first && b.first == c.first {
        CompareTransitive(second, b.second, c.second);
      }
    case Raw(text, rest) =>
      BytesAntisymmetric(text, b.text);
      BytesAntisymmetric(b.text, c.text);
      if text != b.text && b.text != c.text {
        BytesTransitive(text, b.text, c.text);
      } else if text == b.text && b.text == c.text {
        BytesTransitive(rest, b.rest, c.rest);
      }
    case _ =>
  }

  /** Exactly one of two rows with different ids precedes the other. */
  lemma PrecedesTotal(descending: bool, a: Row, b: Row)
    requires SameShape(a.key, b.key)
    ensures a.id != b.id ==> Precedes(descending, a, b) != Precedes(descending, b, a)
    ensures !(Precedes(descending, a, b) && Precedes(descending, b, a))
    ensures !Precedes(descending, a, a)
  {
    if a.key.Absent? == b.key.Absent? {
      KeysAntisymmetric(a.key, b.key);
    }
    KeysAntisymmetric(a.key, a.key);
    BytesAntisymmetric(a.id, b.id);
    BytesAntisymmetric(a.id, a.id);
  }

  lemma PrecedesTransitive(descending: bool, a: Row, b: Row, c: Row)
    requires SameShape(a.key, b.key) && SameShape(b.key, c.key) && SameShape(a.key, c.key)
    requires Precedes(descending, a, b) && Precedes(descending, b, c)
    ensures Precedes(descending, a, c)
  {
    if a.key.Absent? == b.key.Absent? == c.key.Absent? {
      KeysAntisymmetric(a.key, b.key);
      KeysAntisymmetric(b.key, c.key);
      KeysAntisymmetric(a.key, c.key);
      if a.key == b.key && b.key == c.key {
        BytesTransitive(a.id, b.id, c.id);
      } else if a.key != b.key && b.key != c.key {
        if descending {
          KeysTransitive(c.key, b.key, a.key);
          KeysAntisymmetric(c.key, b.key);
          KeysAntisymmetric(b.key, a.key);
        } else {
          KeysTransitive(a.key, b.key, c.key);
        }
      }
    }
  }

  // ---------------------------------------------------------------------------
  // Sorting

  /** The contract of the library's stable sort: a rearrangement without inversions. */
  ghost predicate SortsTo<T(!new)>(items: seq<T>, sorted: seq<T>, less: (T, T) -> bool) {
    multiset(sorted) == multiset(items) && NoInversion(sorted, less)
  }

  ghost predicate NoInversion<T(!new)>(s: seq<T>, less: (T, T) -> bool) {
    forall i, j | 0 <= i < j < |s| :: !less(s[j], s[i])
  }

  /** Asymmetric and transitive. */
  ghost predicate StrictOrder<T(!new)>(less: (T, T) -> bool) {
    && (forall a, b :: less(a, b) ==> !less(b, a))
    && (forall a, b, c :: less(a, b) && less(b, c) ==> less(a, c))
  }

  /** The same among the rows of a list. */
  ghost predicate StrictOrderOn<T(!new)>(items: seq<T>, less: (T, T) -> bool) {
    && (forall a, b | a in items && b in items && less(a, b) :: !less(b, a))
    && (forall a, b, c | a in items && b in items && c in items && less(a, b) && less(b, c) :: less(a, c))
  }

  /** Any two different rows of the list are ordered. */
  ghost predicate Decides<T(!new)>(items: seq<T>, less: (T, T) -> bool) {
    forall a, b | a in items && b in items && a != b :: less(a, b) || less(b, a)
  }

  ghost predicate DistinctIds<T(!new)>(id: T -> Bytes, items: seq<T>) {
    forall a, b | a in items && b in items && a != b :: id(a) != id(b)
  }

  ghost predicate LowerBound<T(!new)>(x: T, s: seq<T>, less: (T, T) -> bool) {
    forall y <- s :: !less(y, x)
  }

  /** A closure that orders rows by their keys is a strict order, and decides rows with distinct ids. */
  lemma KeyOrderIsTotal<T(!new)>(items: seq<T>, less: (T, T) -> bool, row: T -> Row, descending: bool)
    requires forall a, b :: SameShape(row(a).key, row(b).key) && (less(a, b) <==> Precedes(descending, row(a), row(b)))
    requires forall a, b | a in items && b in items && a != b :: row(a).id != row(b).id
    ensures StrictOrder(less) && Decides(items, less)
  {
    forall a, b
      ensures less(a, b) ==> !less(b, a)
      ensures row(a).id != row(b).id ==> less(a, b) || less(b, a)
    {
      PrecedesTotal(descending, row(a), row(b));
      assert less(b, a) <==> Precedes(descending, row(b), row(a));
    }
    forall a, b, c | less(a, b) && less(b, c)
      ensures less(a, c)
    {
      assert SameShape(row(a).key, row(c).key);
      PrecedesTransitive(descending, row(a), row(b), row(c));
    }
  }

  lemma NoInversionCons<T(!new)>(x: T, s: seq<T>, less: (T, T) -> bool)
    ensures NoInversion([x] + s, less) <==> NoInversion(s, less) && LowerBound(x, s, less)
  {
    var all := [x] + s;
    if NoInversion(all, less) {
      forall i, j | 0 <= i < j < |s| ensures !less(s[j], s[i]) {
        assert !less(all[j + 1], all[i + 1]);
      }
      forall y <- s ensures !less(y, x) {
        var i :| 0 <= i < |s| && s[i] == y;
        assert !less(all[i + 1], all[0]);
      }
    }
  }

  lemma FirstIsLeast<T(!new)>(s: seq<T>, less: (T, T) -> bool)
    requires s != [] && NoInversion(s, less)
    ensures LowerBound(s[0], s[1..], less)
  {
    assert s == [s[0]] + s[1..];
    NoInversionCons(s[0], s[1..], less);
  }

  lemma LeastIsUnique<T(!new)>(s: seq<T>, t: seq<T>, less: (T, T) -> bool)
    requires s != [] && t != [] && multiset(s) == multiset(t) && Decides(s, less)
    requires NoInversion(s, less) && NoInversion(t, less)
    ensures s[0] == t[0]
  {
    SameElements(s, t);
    FirstIsLeast(s, less);
    FirstIsLeast(t, less);
    assert s[0] in t && t[0] in s;
    assert s == [s[0]] + s[1..] && t == [t[0]] + t[1..];
  }

  /** A deciding order leaves the sort no choice. */
  lemma {:induction false} SortIsUnique<T(!new)>(s: seq<T>, t: seq<T>, less: (T, T) -> bool)
    requires multiset(s) == multiset(t) && Decides(s, less)
    requires NoInversion(s, less) && NoInversion(t, less)
    ensures s == t
  {
    SameElements(s, t);
    if s != [] {
      LeastIsUnique(s, t, less);
      var x, u, v := s[0], s[1..], t[1..];
      TailElements(s);
      TailElements(t);
      NoInversionCons(x, u, less);
      NoInversionCons(x, v, less);
      SortIsUnique(u, v, less);
    }
  }

  lemma TailElements<T>(s: seq<T>)
    requires s != []
    ensures s == [s[0]] + s[1..]
    ensures multiset(s[1..]) == multiset(s) - multiset{s[0]}
    ensures forall y <- s[1..] :: y in s
  {
    assert s == [s[0]] + s[1..];
  }

  function InsertSorted<T>(x: T, sorted: seq<T>, less: (T, T) -> bool): seq<T> {
    if sorted == [] || !less(sorted[0], x) then [x] + sorted
    else [sorted[0]] + InsertSorted(x, sorted[1..], less)
  }

  /** Stands for the library's stable sort. */
  function Sort<T>(items: seq<T>, less: (T, T) -> bool): seq<T> {
    if items == [] then [] else InsertSorted(items[0], Sort(items[1..], less), less)
  }

  lemma {:induction false} InsertKeepsElements<T(!new)>(x: T, sorted: seq<T>, less: (T, T) -> bool)
    ensures multiset(InsertSorted(x, sorted, less)) == multiset{x} + multiset(sorted)
  {
    if sorted != [] && less(sorted[0], x) {
      InsertKeepsElements(x, sorted[1..], less);
      assert sorted == [sorted[0]] + sorted[1..];
    }
  }

  lemma {:induction false} SortKeepsElements<T(!new)>(items: seq<T>, less: (T, T) -> bool)
    ensures multiset(Sort(items, less)) == multiset(items)
  {
    if items != [] {
      assert items == [items[0]] + items[1..];
      SortKeepsElements(items[1..], less);
      InsertKeepsElements(items[0], Sort(items[1..], less), less);
    }
  }

  lemma {:induction false} InsertSorts<T(!new)>(x: T, sorted: seq<T>, less: (T, T) -> bool)
    requires StrictOrderOn([x] + sorted, less) && NoInversion(sorted, less) && Decides([x] + sorted, less)
    ensures NoInversion(InsertSorted(x, sorted, less), less)
  {
    if sorted != [] {
      var y, rest := sorted[0], sorted[1..];
      assert sorted == [y] + rest;
      NoInversionCons(y, rest, less);
      if less(y, x) {
        InsertSorts(x, rest, less);
        InsertKeepsElements(x, rest, less);
        var inserted := InsertSorted(x, rest, less);
        forall z <- inserted ensures !less(z, y) {
          assert z in multiset(inserted);
        }
        NoInversionCons(y, inserted, less);
      } else {
        forall z <- sorted ensures !less(z, x) {
          if z != y {
            assert y in [x] + sorted && z in [x] + sorted;
          }
        }
        NoInversionCons(x, sorted, less);
      }
    }
  }

  lemma {:induction false} SortSorts<T(!new)>(items: seq<T>, less: (T, T) -> bool)
    requires StrictOrderOn(items, less) && Decides(items, less)
    ensures SortsTo(items, Sort(items, less), less)
  {
    if items != [] {
      var x, rest := items[0], items[1..];
      assert items == [x] + rest;
      SortSorts(rest, less);
      var sorted := Sort(rest, less);
      SameElements(sorted, rest);
      assert forall y <- [x] + sorted :: y in items;
      InsertSorts(x, sorted, less);
      InsertKeepsElements(x, sorted, less);
    }
  }

  /** A list that has a sorted arrangement at all is strictly ordered. */
  lemma SortableMeansOrdered<T(!new)>(items: seq<T>, sorted: seq<T>, less: (T, T) -> bool)
    requires SortsTo(items, sorted, less) && Decides(items, less)
    requires forall a, b | a in items && b in items && less(a, b) :: !less(b, a)
    ensures StrictOrderOn(items, less)
  {
    SameElements(sorted, items);
    forall a, b, c | a in items && b in items && c in items && less(a, b) && less(b, c)
      ensures less(a, c)
    {
      var i :| 0 <= i < |sorted| && sorted[i] == a;
      var j :| 0 <= j < |sorted| && sorted[j] == b;
      var k :| 0 <= k < |sorted| && sorted[k] == c;
      LessComesFirst(sorted, less, i, j);
      LessComesFirst(sorted, less, j, k);
      if a != c {
        assert !less(sorted[k], sorted[i]);
      }
    }
  }

  lemma LessComesFirst<T(!new)>(sorted: seq<T>, less: (T, T) -> bool, i: nat, j: nat)
    requires NoInversion(sorted, less) && i < |sorted| && j < |sorted|
    requires less(sorted[i], sorted[j]) && !less(sorted[j], sorted[i])
    ensures i < j
  {
  }

  // ---------------------------------------------------------------------------
  // Filtering

  function Filter<T>(items: seq<T>, keep: T -> bool): (kept: seq<T>)
    ensures forall x <- kept :: x in items && keep(x)
    ensures |kept| <= |items|
  {
    if items == [] then []
    else if keep(items[0]) then [items[0]] + Filter(items[1..], keep)
    else Filter(items[1..], keep)
  }

  lemma {:induction false} FilterConcat<T>(s: seq<T>, t: seq<T>, keep: T -> bool)
    ensures Filter(s + t, keep) == Filter(s, keep) + Filter(t, keep)
  {
    if s == [] {
      assert s + t == t;
    } else {
      assert (s + t)[1..] == s[1..] + t;
      FilterConcat(s[1..], t, keep);
    }
  }

  lemma {:induction false} FilterMembers<T>(items: seq<T>, keep: T -> bool, x: T)
    ensures x in Filter(items, keep) <==> x in items && keep(x)
  {
    if items != [] {
      FilterMembers(items[1..], keep, x);
      assert items == [items[0]] + items[1..];
    }
  }

  /** Filtering keeps every selected row as often as it is there. */
  lemma {:induction false} FilterCounts<T>(items: seq<T>, keep: T -> bool, x: T)
    ensures multiset(Filter(items, keep))[x] == if keep(x) then multiset(items)[x] else 0
  {
    if items != [] {
      FilterCounts(items[1..], keep, x);
      assert items == [items[0]] + items[1..];
    }
  }

  /** Moving one row to the front moves it to the front of the filtered list, as far as contents go. */
  lemma FilterMove<T>(before: seq<T>, x: T, after: seq<T>, keep: T -> bool)
    ensures multiset(Filter(before + ([x] + after), keep)) == multiset(Filter([x],
        keep)) + multiset(Filter(before + after, keep))
  {
    FilterConcat(before, [x] + after, keep);
    FilterConcat([x], after, keep);
    FilterConcat(before, after, keep);
  }

  lemma {:induction false} FilterOfPermutation<T>(s: seq<T>, t: seq<T>, keep: T -> bool)
    requires multiset(s) == multiset(t)
    ensures multiset(Filter(s, keep)) == multiset(Filter(t, keep))
  {
    SameElements(s, t);
    if s != [] {
      var before, after := TakeOut(t, s[0]);
      assert t == before + ([s[0]] + after);
      assert s == [s[0]] + s[1..];
      assert multiset(s[1..]) == multiset(s) - multiset{s[0]};
      FilterOfPermutation(s[1..], before + after, keep);
      FilterMove(before, s[0], after, keep);
      FilterConcat([s[0]], s[1..], keep);
    }
  }

  /** The list the user sees does not depend on the order in which the rows arrived. */
  lemma ListingIsCanonical<T(!new)>(s: seq<T>, t: seq<T>, keep: T -> bool, less: (T, T) -> bool)
    requires multiset(s) == multiset(t) && StrictOrderOn(Filter(s, keep), less) && Decides(Filter(s, keep), less)
    ensures Sort(Filter(s, keep), less) == Sort(Filter(t, keep), less)
  {
    FilterOfPermutation(s, t, keep);
    SameElements(Filter(s, keep), Filter(t, keep));
    SortSorts(Filter(s, keep), less);
    SortSorts(Filter(t, keep), less);
    var a, b := Sort(Filter(s, keep), less), Sort(Filter(t, keep), less);
    SameElements(a, Filter(s, keep));
    SortIsUnique(a, b, less);
  }

  // ---------------------------------------------------------------------------
  // What a list shows

  /** The list has every selected row of the snapshot, as often as it is there, and no other. */
  ghost predicate Collects<T(!new)>(listing: seq<T>, snapshot: seq<T>, selected: T -> bool) {
    forall x :: multiset(listing)[x] == if selected(x) then multiset(snapshot)[x] else 0
  }

  /**
   Every row may stand before all that come after it, and rows that may stand either way come in the order
   of their ids.
   */
  ghost predicate Ordered<T(!new)>(listing: seq<T>, may: (T, T) -> bool, id: T -> Bytes) {
    forall i, j | 0 <= i < j < |listing| ::
      && may(listing[i], listing[j])
      && (may(listing[j], listing[i]) ==> CompareBytes(id(listing[i]), id(listing[j])) <= 0)
  }

  predicate NumbersInOrder(descending: bool, x: real, y: real) {
    if descending then x >= y else x <= y
  }

  predicate NamesInOrder(descending: bool, x: Bytes, y: Bytes) {
    if descending then Compare(x, y) >= 0 else Compare(x, y) <= 0
  }

  /** In both directions a missing number comes last. */
  predicate OptionsInOrder(descending: bool, x: Option<real>, y: Option<real>) {
    y.None? || (x.Some? && NumbersInOrder(descending, x.value, y.value))
  }

  function AmountOf(value: Option<real>): Key {
    if value.None? then Absent else Amount(value.value)
  }

  /** In a column of numbers of which some may be missing, rows stand in the order of the numbers. */
  lemma NumbersByKey(descending: bool, a: Row, b: Row, x: Option<real>, y: Option<real>)
    requires a.key == AmountOf(x) && b.key == AmountOf(y) && !Precedes(descending, b, a)
    ensures OptionsInOrder(descending, x, y)
    ensures OptionsInOrder(descending, y, x) ==> CompareBytes(a.id, b.id) <= 0
  {
    BytesAntisymmetric(a.id, b.id);
  }

  lemma SortCollects<T(!new)>(snapshot: seq<T>, keep: T -> bool, less: (T, T) -> bool)
    ensures Collects(Sort(Filter(snapshot, keep), less), snapshot, keep)
  {
    SortKeepsElements(Filter(snapshot, keep), less);
    forall x ensures multiset(Filter(snapshot, keep))[x] == if keep(x) then multiset(snapshot)[x] else 0 {
      FilterCounts(snapshot, keep, x);
    }
  }

  /** A list is ordered when rows that are not less the other way may stand as they do. */
  lemma NoInversionOrders<T(!new)>(listing: seq<T>, less: (T, T) -> bool, may: (T, T) -> bool, id: T -> Bytes)
    requires NoInversion(listing, less)
    requires forall a, b | !less(b, a) :: may(a, b) && (may(b, a) ==> CompareBytes(id(a), id(b)) <= 0)
    ensures Ordered(listing, may, id)
  {
  }

  /** The part stands somewhere in the text. */
  ghost predicate Occurs(part: Bytes, text: Bytes) {
    exists before: Bytes, after: Bytes :: text == before + part + after
  }

  lemma {:induction false} ContainsIsOccurs(text: Bytes, part: Bytes)
    ensures Contains(text, part) <==> Occurs(part, text)
  {
    if |part| <= |text| && text[..|part|] == part {
      assert text == [] + part + text[|part|..];
    } else if text != [] {
      ContainsIsOccurs(text[1..], part);
      if before: Bytes, after: Bytes :| text == before + part + after {
        assert before + part + after == before + (part + after) && (part + after)[..|part|] == part;
        assert text[1..] == before[1..] + part + after;
      }
      if before: Bytes, after: Bytes :| text[1..] == before + part + after {
        assert text == ([text[0]] + before) + part + after;
      }
    }
  }

  // ---------------------------------------------------------------------------
  // Pages

  predicate ValidPageSize(size: int) {
    size == 20 || size == 50 || size == 100 || size == 500
  }

  /** Rows (page - 1) * size up to page * size, cut off at the end of the list. */
  function Page<T>(items: seq<T>, page: int, size: int): seq<T>
    requires page >= 1 && size >= 1
  {
    items[Min((page - 1) * size, |items|)..Min(page * size, |items|)]
  }

  function TotalPages(total: nat, size: int): nat
    requires size >= 1
  {
    (total + size - 1) / size
  }

  /** Pages 1 to n, one after the other. */
  function FirstPages<T>(items: seq<T>, n: nat, size: int): seq<T>
    requires size >= 1
  {
    if n == 0 then [] else FirstPages(items, n - 1, size) + Page(items, n, size)
  }

  lemma {:induction false} FirstPagesArePrefix<T>(items: seq<T>, n: nat, size: int)
    requires size >= 1
    ensures FirstPages(items, n, size) == items[..Min(n * size, |items|)]
  {
    if n > 0 {
      FirstPagesArePrefix(items, n - 1, size);
      assert (n - 1) * size <= n * size;
    }
  }

  lemma TimesMonotone(a: int, b: int, size: int)
    requires a <= b && size >= 0
    ensures a * size <= b * size
  {
  }

  lemma QuotientTimes(total: int, size: int)
    requires total >= 0 && size >= 1
    ensures (total / size) * size <= total < (total / size) * size + size
  {
  }

  lemma LastPageEnds(total: nat, size: int)
    requires size >= 1
    ensures TotalPages(total, size) * size >= total
    ensures total > 0 ==> (TotalPages(total, size) - 1) * size < total
  {
    QuotientTimes(total + size - 1, size);
  }

  /** Where page `page` lies when the last one is page `last`. */
  lemma PageOffsets(total: nat, size: int, page: int)
    requires page >= 1 && size >= 1
    ensures page > TotalPages(total, size) ==> (page - 1) * size >= total && page * size >= total
    ensures page < TotalPages(total, size) ==> page * size < total && 0 <= (page - 1) * size == page * size - size
  {
    var last := TotalPages(total, size);
    LastPageEnds(total, size);
    if page > last {
      TimesMonotone(last, page - 1, size);
      TimesMonotone(last, page, size);
    } else if page < last {
      TimesMonotone(page, last - 1, size);
      TimesMonotone(0, page - 1, size);
    }
  }

  lemma PageShape<T>(items: seq<T>, page: int, size: int)
    requires page >= 1 && size >= 1
    ensures page > TotalPages(|items|, size) ==> Page(items, page, size) == []
    ensures page < TotalPages(|items|, size) ==> |Page(items, page, size)| == size
  {
    PageOffsets(|items|, size, page);
  }

  /** Pages 1 to the last one are the whole list, cut without loss or overlap; later pages are empty. */
  lemma PagesPartition<T>(items: seq<T>, size: int)
    requires size >= 1
    ensures FirstPages(items, TotalPages(|items|, size), size) == items
    ensures forall page {:trigger Page(items, page, size)} | page >= 1 ::
              && (page > TotalPages(|items|, size) ==> Page(items, page, size) == [])
              && (page < TotalPages(|items|, size) ==> |Page(items, page, size)| == size)
  {
    FirstPagesArePrefix(items, TotalPages(|items|, size), size);
    LastPageEnds(|items|, size);
    forall page {:trigger Page(items, page, size)} | page >= 1
      ensures page > TotalPages(|items|, size) ==> Page(items, page, size) == []
      ensures page < TotalPages(|items|, size) ==> |Page(items, page, size)| == size
    {
      PageShape(items, page, size);
    }
  }

  /** Pages whose query was accepted with page - 1 <= MAX_INT / size. */
  method CutPage<T>(items: seq<T>, page: Int, size: Int) returns (rows: seq<T>)
    requires page >= 1 && ValidPageSize(size as int) && (page - 1) as int <= MAX_INT / size as int
    requires |items| <= MAX_INT - 500   // a slice of rows cannot be longer: each row takes more than a byte
    ensures rows == Page(items, page as int, size as int)
  {
    OffsetFits(page as int, size as int);
    var total := |items| as Int;
    var start := (page - 1) * size;
    if start > total {
      start := total;
    }
    var end := if start + size <= total then start + size else total;
    rows := items[start..end];
  }

  /** Pages of any positive number: the guard keeps the product small. */
  method CutGuardedPage<T>(items: seq<T>, page: Int, size: Int) returns (rows: seq<T>)
    requires page >= 1 && ValidPageSize(size as int)
    requires |items| <= MAX_INT - 500
    ensures rows == Page(items, page as int, size as int)
  {
    var total := |items| as Int;
    var start := total;
    if page - 1 <= total / size {
      QuotientBound(total as int, size as int, (page - 1) as int);
      start := (page - 1) * size;
      if start > total {
        start := total;
      }
    } else {
      BeyondTheEnd(total as int, size as int, (page - 1) as int);
    }
    var end := if start + size <= total then start + size else total;
    rows := items[start..end];
  }

  method CountPages(total: Int, size: Int) returns (pages: Int)
    requires ValidPageSize(size as int) && 0 <= total as int <= MAX_INT - 500
    ensures pages as int == TotalPages(total as int, size as int)
  {
    pages := 0;
    if total > 0 {
      pages := (total + size - 1) / size;
    }
  }

  /** The quotient test accepts exactly the offsets that fit. */
  lemma OffsetGuard(skipped: int, size: int)
    requires skipped >= 0 && size >= 1
    ensures skipped <= MAX_INT / size <==> skipped * size <= MAX_INT
  {
    QuotientTimes(MAX_INT, size);
    if skipped <= MAX_INT / size {
      TimesMonotone(skipped, MAX_INT / size, size);
    } else {
      TimesMonotone(MAX_INT / size + 1, skipped, size);
    }
  }

  lemma OffsetFits(page: int, size: int)
    requires page >= 1 && size >= 1 && page - 1 <= MAX_INT / size
    ensures 0 <= (page - 1) * size <= MAX_INT
    ensures page * size == (page - 1) * size + size
  {
    TimesMonotone(page - 1, MAX_INT / size, size);
    QuotientTimes(MAX_INT, size);
  }

  lemma QuotientBound(total: int, size: int, skipped: int)
    requires total >= 0 && size >= 1 && 0 <= skipped <= total / size
    ensures 0 <= skipped * size <= total
    ensures (skipped + 1) * size == skipped * size + size
  {
    TimesMonotone(skipped, total / size, size);
    QuotientTimes(total, size);
  }

  lemma BeyondTheEnd(total: int, size: int, skipped: int)
    requires total >= 0 && size >= 1 && skipped > total / size
    ensures skipped * size > total
    ensures (skipped + 1) * size > total
  {
    TimesMonotone(total / size + 1, skipped, size);
    QuotientTimes(total, size);
  }
  // ---------------------------------------------------------------------------
  // One list, from the snapshot to the page

  /** Which pages a list refuses: those whose first row, or whose end, has no index, or none. */
  datatype Paging = ByOffset | ByEnd | Clamped

  predicate AcceptedPage(paging: Paging, page: int, size: int) {
    && page >= 1 && ValidPageSize(size)
    && match paging
       case ByOffset => (page - 1) * size <= MAX_INT
       case ByEnd => page * size <= MAX_INT
       case Clamped => true
  }

  /** The quotients are computed in machine integers. */
  method AcceptPage(paging: Paging, page: Int, size: Int) returns (accepted: bool)
    ensures accepted <==> AcceptedPage(paging, page as int, size as int)
  {
    if page < 1 || !ValidPageSize(size as int) {
      return false;
    }
    var maxInt: Int := MAX_INT as Int;
    match paging {
      case ByOffset =>
        OffsetGuard((page - 1) as int, size as int);
        return page - 1 <= maxInt / size;
      case ByEnd =>
        OffsetGuard(page as int, size as int);
        return page <= maxInt / size;
      case Clamped =>
        return true;
    }
  }

  /** Filters, sorts and cuts: the asked page of the sorted list of the kept rows, and how many there are. */
  method ServePage<T(!new)>(snapshot: seq<T>, keep: T -> bool, less: (T, T) -> bool, paging: Paging, page: Int,
      size: Int) returns (rows: seq<T>, total: nat)
    requires |snapshot| <= MAX_INT - 500
    requires AcceptedPage(paging, page as int, size as int)
    ensures rows == Page(Sort(Filter(snapshot, keep), less), page as int, size as int)
    ensures total == |Filter(snapshot, keep)| == |Sort(Filter(snapshot, keep), less)|
  {
    var items := [];
    for i := 0 to |snapshot|
      invariant items == Filter(snapshot[..i], keep)
    {
      assert snapshot[..i + 1] == snapshot[..i] + [snapshot[i]];
      FilterConcat(snapshot[..i], [snapshot[i]], keep);
      if keep(snapshot[i]) {
        items := items + [snapshot[i]];
      }
    }
    assert snapshot[..|snapshot|] == snapshot;
    var sorted := Sort(items, less);
    SortKeepsElements(items, less);
    assert |multiset(sorted)| == |multiset(items)|;
    total := |sorted|;
    if paging == Clamped {
      rows := CutGuardedPage(sorted, page, size);
    } else {
      TimesMonotone(page as int - 1, page as int, size as int);
      OffsetGuard((page - 1) as int, size as int);
      rows := CutPage(sorted, page, size);
    }
  }
}
