/**
 The sample records as the adapters keep them: mutable cells updated in place, one per
 entity and metric, fed by loops over series that mix the entities.  Each merge method
 keeps its adapter's own order of tests and is proved to compute the same step.
 */
module SampleCells {
  import opened Optional
  import opened Rearrangement
  import opened SampleMerge

  class FlaggedCell<V(==)> {
    var value: Option<V>
    var timestamp: Time
    var conflict: bool

    constructor ()
      ensures View() == EmptyFlagged()
    {
      value, timestamp, conflict := None, ZERO, false;
    }

    function View(): Flagged<V>
      reads this
    {
      Flagged(value, timestamp, conflict)
    }

    /** Disk scalars and capacities. */
    method MergeDisk(v: V, at: Time)
      modifies this
      ensures View() == MergeFlagged(old(View()), v, at)
    {
      if at < timestamp {
        return;
      }
      if at > timestamp || (timestamp == ZERO && value == None && !conflict) {
        value, timestamp, conflict := Some(v), at, false;
        return;
      }
      if conflict {
        return;
      }
      if value == None || value.value != v {
        value, conflict := None, true;
      }
    }

    /** RabbitMQ values, Redis integers and Redis booleans. */
    method MergeRabbitMQ(v: V, at: Time)
      modifies this
      ensures View() == MergeFlagged(old(View()), v, at)
    {
      if at < timestamp {
        return;
      }
      if at > timestamp || (value == None && !conflict && timestamp == ZERO) {
        value, timestamp, conflict := Some(v), at, false;
        return;
      }
      if !conflict && (value == None || value.value != v) {
        value, conflict := None, true;
      }
    }

    predicate Touched()
      reads this
    {
      value.Some? || conflict || timestamp != ZERO
    }

    /** Redis floating-point values. */
    method MergeRedis(v: V, at: Time)
      modifies this
      ensures View() == MergeFlagged(old(View()), v, at)
    {
      if at < timestamp {
        return;
      }
      if at > timestamp || !Touched() {
        value, timestamp, conflict := Some(v), at, false;
        return;
      }
      if !conflict && (value == None || value.value != v) {
        value, conflict := None, true;
      }
    }
  }

  class PresentCell<V(==)> {
    var value: V
    var timestamp: Time
    var present: bool
    var conflict: bool

    constructor (zero: V)
      ensures View() == Missing
    {
      value, timestamp, present, conflict := zero, ZERO, false, false;
    }

    function View(): Present<V>
      reads this
    {
      if present then Present(value, timestamp, conflict) else Missing
    }

    method Merge(v: V, at: Time)
      modifies this
      ensures View() == MergePresent(old(View()), v, at)
    {
      if !present || at > timestamp {
        value, timestamp, present, conflict := v, at, true, false;
        return;
      }
      if at == timestamp && value != v {
        conflict := true;
      }
    }
  }

  class InitializedCell<V(==)> {
    var value: Option<V>
    var timestamp: Time
    var conflict: bool
    var initialized: bool

    constructor ()
      ensures View() == EmptyInitialized()
    {
      value, timestamp, conflict, initialized := None, ZERO, false, false;
    }

    function View(): Initialized<V>
      reads this
    {
      Initialized(value, timestamp, conflict, initialized)
    }

    method Merge(v: V, at: Time)
      modifies this
      ensures View() == MergeInitialized(old(View()), v, at)
    {
      if !initialized || at > timestamp {
        value, timestamp, conflict, initialized := Some(v), at, false, true;
        return;
      }
      if at == timestamp && value.Some? && value.value != v {
        value, conflict := None, true;
      }
    }
  }

  class BareCell<V(==)> {
    var value: Option<V>
    var timestamp: Time

    constructor ()
      ensures View() == EmptyBare()
    {
      value, timestamp := None, ZERO;
    }

    function View(): Bare<V>
      reads this
    {
      Bare(value, timestamp)
    }

    /** MySQL scalars. */
    method MergeScalar(v: V, at: Time)
      modifies this
      ensures View() == MergeBare(old(View()), v, at)
    {
      if at < timestamp {
        return;
      }
      if at > timestamp || (timestamp == ZERO && value == None) {
        value, timestamp := Some(v), at;
        return;
      }
      if value == None {
        return;
      }
      if value.value != v {
        value := None;
      }
    }

    /** MySQL booleans and versions. */
    method MergeBool(v: V, at: Time)
      modifies this
      ensures View() == MergeBare(old(View()), v, at)
    {
      if at < timestamp {
        return;
      }
      if at > timestamp || (timestamp == ZERO && value == None) {
        value, timestamp := Some(v), at;
        return;
      }
      if value.Some? && value.value != v {
        value := None;
      }
    }
  }

  class RoleCell<R(==)> {
    var role: Option<R>
    var timestamp: Time
    var present: bool
    var conflict: bool

    constructor ()
      ensures View() == EmptyRole()
    {
      role, timestamp, present, conflict := None, ZERO, false, false;
    }

    function View(): RoleRecord<R>
      reads this
    {
      RoleRecord(role, timestamp, present, conflict)
    }

    /** `r` is None when the role text is not one of the known roles. */
    method Merge(r: Option<R>, at: Time)
      modifies this
      ensures View() == MergeRole(old(View()), r, at)
    {
      if at < timestamp {
        return;
      }
      if at > timestamp {
        timestamp, present, conflict, role := at, true, r == None, r;
        return;
      }
      if !present {
        present, conflict, role := true, r == None, r;
        return;
      }
      if r == None || role != r {
        conflict, role := true, None;
      }
    }
  }

  // ---------------------------------------------------------------------------
  // Series of many entities

  /** One series: the entity it names, and its sample when it parses and is valid. */
  datatype Series<K, V> = Series(key: K, sample: Option<Sample<V>>)

  /** The valid samples of one entity, in series order. */
  function SamplesOf<K(==), V>(series: seq<Series<K, V>>, key: K): seq<Sample<V>> {
    if series == [] then []
    else
      var before, s := SamplesOf(series[..|series| - 1], key), series[|series| - 1];
      if s.key == key && s.sample.Some? then before + [s.sample.value] else before
  }

  ghost predicate Separate<K, V>(states: map<K, FlaggedCell<V>>) {
    forall k, l | k in states && l in states && k != l :: states[k] != states[l]
  }

  /**
   One query's series are folded into the cells of all entities at once.  Series of
   unknown entities and invalid samples leave no trace, and no entity's samples
   reach another's cell.
   */
  method MergeSeries<K(==), V(==)>(states: map<K, FlaggedCell<V>>, series: seq<Series<K, V>>)
    requires Separate(states)
    requires forall k <- states :: states[k].View() == EmptyFlagged()
    modifies states.Values
    ensures forall k <- states :: states[k].View() == FoldFlagged(SamplesOf(series, k))
  {
    for i := 0 to |series|
      invariant forall k <- states :: states[k].View() == FoldFlagged(SamplesOf(series[..i], k))
    {
      var s := series[i];
      assert series[..i + 1][..i] == series[..i];
      if s.key in states && s.sample.Some? {
        ghost var samples := SamplesOf(series[..i], s.key);
        assert (samples + [s.sample.value])[..|samples|] == samples;
        states[s.key].MergeDisk(s.sample.value.value, s.sample.value.at);
      }
    }
    assert series[..|series|] == series;
  }

  lemma {:induction false} SamplesOfConcat<K, V>(a: seq<Series<K, V>>, b: seq<Series<K, V>>, key: K)
    ensures SamplesOf(a + b, key) == SamplesOf(a, key) + SamplesOf(b, key)
  {
    if b == [] {
      assert a + b == a;
    } else {
      assert (a + b)[..|a + b| - 1] == a + b[..|b| - 1];
      SamplesOfConcat(a, b[..|b| - 1], key);
    }
  }

  lemma {:induction false} SamplesOfPermutation<K, V>(s: seq<Series<K, V>>, t: seq<Series<K, V>>, key: K)
    requires multiset(s) == multiset(t)
    ensures multiset(SamplesOf(s, key)) == multiset(SamplesOf(t, key))
  {
    if s == [] {
      assert |multiset(t)| == 0;
    } else {
      var init, last := s[..|s| - 1], s[|s| - 1];
      assert s == init + [last];
      assert last in multiset(t);
      var before, after := TakeOut(t, last);
      SamplesOfConcat(init, [last], key);
      SamplesOfConcat(before + [last], after, key);
      SamplesOfConcat(before, [last], key);
      SamplesOfConcat(before, after, key);
      SamplesOfPermutation(init, before + after, key);
    }
  }

  /**
   The series of a query may arrive in any order without changing what any entity's cell
   ends up with; the value is the intended one unless the newest sample is before the zero instant.
   */
  lemma SeriesOrderIsIrrelevant<K, V(!new)>(s: seq<Series<K, V>>, t: seq<Series<K, V>>, key: K)
    requires multiset(s) == multiset(t)
    ensures FoldFlagged(SamplesOf(s, key)) == FoldFlagged(SamplesOf(t, key))
    ensures SamplesOf(s, key) == [] || LatestAt(SamplesOf(s, key)) >= ZERO ==>
              FoldFlagged(SamplesOf(s, key)).value == Newest(SamplesOf(s, key))
  {
    var a, b := SamplesOf(s, key), SamplesOf(t, key);
    SamplesOfPermutation(s, t, key);
    SameElements(a, b);
    NewestIgnoresOrder(a, b);
    FlaggedTracks(a);
    FlaggedTracks(b);
    if a != [] {
      LatestIgnoresOrder(a, b);
    }
  }
}
