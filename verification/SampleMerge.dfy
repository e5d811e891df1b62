/**
 Reconciling unordered samples.  Every adapter folds samples into a small record with
 its own bookkeeping; the intended meaning is the same everywhere: the value at the
 newest time, or nothing when two samples of that time disagree.
 */
module SampleMerge {
  import opened Optional

  type Time = int

  /** The zero instant of the time library: the timestamp of a record nobody wrote to. */
  const ZERO: Time := 0

  datatype Sample<V> = Sample(value: V, at: Time)

  // ---------------------------------------------------------------------------
  // The meaning

  /** `v` is the value of every sample of the newest time. */
  ghost predicate IsNewest<V(!new)>(samples: seq<Sample<V>>, v: V) {
    exists s :: s in samples && s.value == v && forall r <- samples :: r.at <= s.at && (r.at == s.at ==> r.value == v)
  }

  ghost function Newest<V(!new)>(samples: seq<Sample<V>>): (r: Option<V>)
    ensures r.Some? ==> IsNewest(samples, r.value)
    ensures r.None? ==> forall v :: !IsNewest(samples, v)
  {
    if exists v :: IsNewest(samples, v) then (var v :| IsNewest(samples, v); Some(v)) else None
  }

  lemma NewestIsUnique<V(!new)>(samples: seq<Sample<V>>, v: V)
    requires IsNewest(samples, v)
    ensures Newest(samples) == Some(v)
  {
    var r := Newest(samples);
    assert r.Some?;
  }

  /** The meaning depends on the collection of samples, not on their order. */
  lemma NewestIgnoresOrder<V(!new)>(s: seq<Sample<V>>, t: seq<Sample<V>>)
    requires multiset(s) == multiset(t)
    ensures Newest(s) == Newest(t)
  {
    assert forall x :: x in s <==> x in multiset(s);
    assert forall x :: x in t <==> x in multiset(t);
    forall v ensures IsNewest(s, v) <==> IsNewest(t, v) {}
    if Newest(s).Some? {
      NewestIsUnique(t, Newest(s).value);
    }
  }

  /** The newest time of a non-empty list. */
  function LatestAt<V>(samples: seq<Sample<V>>): (t: Time)
    requires samples != []
    ensures forall s <- samples :: s.at <= t
    ensures exists s :: s in samples && s.at == t
  {
    if |samples| == 1 then samples[0].at
    else
      assert samples == samples[..|samples| - 1] + [samples[|samples| - 1]];
      var t := LatestAt(samples[..|samples| - 1]);
      if samples[|samples| - 1].at > t then samples[|samples| - 1].at else t
  }

  /** The newest value and time after one more sample, from those before it. */
  function Extended<V(==)>(newest: Option<V>, latest: Time, s: Sample<V>): (Option<V>, Time) {
    if s.at > latest then (Some(s.value), s.at)
    else if s.at < latest then (newest, latest)
    else (if newest == Some(s.value) then newest else None, latest)
  }

  lemma MeaningExtends<V(!new)>(samples: seq<Sample<V>>, s: Sample<V>)
    ensures Newest([s]) == Some(s.value) && LatestAt([s]) == s.at
    ensures samples != [] ==> (Newest(samples + [s]), LatestAt(samples + [s])) == Extended(Newest(samples),
        LatestAt(samples), s)
  {
    NewestExtends([], s);
    assert [] + [s] == [s];
    NewestExtends(samples, s);
  }

  /** What one more sample does to the meaning. */
  lemma NewestExtends<V(!new)>(samples: seq<Sample<V>>, s: Sample<V>)
    ensures samples == [] || s.at > LatestAt(samples) ==>
              Newest(samples + [s]) == Some(s.value) && LatestAt(samples + [s]) == s.at
    ensures samples != [] && s.at < LatestAt(samples) ==>
              Newest(samples + [s]) == Newest(samples) && LatestAt(samples + [s]) == LatestAt(samples)
    ensures samples != [] && s.at == LatestAt(samples) ==>
              && Newest(samples + [s]) == (if Newest(samples) == Some(s.value) then Some(s.value) else None)
              && LatestAt(samples + [s]) == s.at
  {
    var all := samples + [s];
    assert s in all && all[..|all| - 1] == samples;
    forall r ensures r in all <==> r in samples || r == s {}
    if samples == [] || s.at > LatestAt(samples) {
      assert IsNewest(all, s.value);
      NewestIsUnique(all, s.value);
    } else if s.at < LatestAt(samples) {
      forall v ensures IsNewest(all, v) <==> IsNewest(samples, v) {
        SameNewest(samples, s, v);
      }
      if Newest(samples).Some? { NewestIsUnique(all, Newest(samples).value); }
    } else {
      forall v ensures IsNewest(all, v) <==> IsNewest(samples, v) && v == s.value {
        AgreeingNewest(samples, s, v);
      }
      if Newest(samples) == Some(s.value) { NewestIsUnique(all, s.value); }
      if IsNewest(samples, s.value) { NewestIsUnique(samples, s.value); }
    }
  }

  lemma SameNewest<V(!new)>(samples: seq<Sample<V>>, s: Sample<V>, v: V)
    requires samples != [] && s.at < LatestAt(samples)
    ensures IsNewest(samples + [s], v) <==> IsNewest(samples, v)
  {
    forall r ensures r in samples + [s] <==> r in samples || r == s {}
    var top :| top in samples && top.at == LatestAt(samples);
    if IsNewest(samples, v) {
      var w :| w in samples && w.value == v && forall r <- samples :: r.at <= w.at && (r.at == w.at ==> r.value == v);
      assert w in samples + [s];
    }
    if IsNewest(samples + [s], v) {
      var w :| w in samples + [s] && w.value == v && forall r <- samples + [s] :: r.at <= w.at && (r.at == w.at ==>
          r.value == v);
      assert top in samples + [s];
      assert w in samples;
    }
  }

  lemma AgreeingNewest<V(!new)>(samples: seq<Sample<V>>, s: Sample<V>, v: V)
    requires samples != [] && s.at == LatestAt(samples)
    ensures IsNewest(samples + [s], v) <==> IsNewest(samples, v) && v == s.value
  {
    forall r ensures r in samples + [s] <==> r in samples || r == s {}
    var top :| top in samples && top.at == LatestAt(samples);
    assert top in samples + [s] && s in samples + [s];
    if IsNewest(samples + [s], v) {
      var w :| w in samples + [s] && w.value == v && forall r <- samples + [s] :: r.at <= w.at && (r.at == w.at ==>
          r.value == v);
      assert top.value == v;
    }
    if IsNewest(samples, v) && v == s.value {
      var w :| w in samples && w.value == v && forall r <- samples :: r.at <= w.at && (r.at == w.at ==> r.value == v);
      assert w in samples + [s];
    }
  }

  // ---------------------------------------------------------------------------
  // The records

  /** Disk scalars and capacities, RabbitMQ and Redis values: pointer, timestamp, conflict flag. */
  datatype Flagged<+V> = Flagged(value: Option<V>, timestamp: Time, conflict: bool)

  /** Elasticsearch: value, presence flag, timestamp, conflict flag. */
  datatype Present<+V> = Missing | Present(value: V, timestamp: Time, conflict: bool)

  /** Java: pointer, timestamp, conflict flag, initialized flag. */
  datatype Initialized<+V> = Initialized(value: Option<V>, timestamp: Time, conflict: bool, initialized: bool)

  /** MySQL: a pointer and a timestamp only. */
  datatype Bare<+V> = Bare(value: Option<V>, timestamp: Time)

  /** Redis roles: an unrecognised role text is a sample without a role. */
  datatype RoleRecord<+R> = RoleRecord(role: Option<R>, timestamp: Time, present: bool, conflict: bool)

  function MergeFlagged<V(==)>(r: Flagged<V>, value: V, at: Time): Flagged<V> {
    if at < r.timestamp then r
    else if at > r.timestamp || (r.timestamp == ZERO && r.value == None && !r.conflict) then
        Flagged(Some(value), at, false)
    else if r.conflict then r
    else if r.value == None || r.value.value != value then Flagged(None, r.timestamp, true)
    else r
  }

  function MergePresent<V(==)>(r: Present<V>, value: V, at: Time): Present<V> {
    if r.Missing? || at > r.timestamp then Present(value, at, false)
    else if at == r.timestamp && r.value != value then r.(conflict := true)
    else r
  }

  function MergeInitialized<V(==)>(r: Initialized<V>, value: V, at: Time): Initialized<V> {
    if !r.initialized || at > r.timestamp then Initialized(Some(value), at, false, true)
    else if at == r.timestamp && r.value.Some? && r.value.value != value then r.(value := None, conflict := true)
    else r
  }

  function MergeBare<V(==)>(r: Bare<V>, value: V, at: Time): Bare<V> {
    if at < r.timestamp then r
    else if at > r.timestamp || (r.timestamp == ZERO && r.value == None) then Bare(Some(value), at)
    else if r.value == None then r
    else if r.value.value != value then r.(value := None)
    else r
  }

  function MergeRole<R(==)>(r: RoleRecord<R>, role: Option<R>, at: Time): RoleRecord<R> {
    if at < r.timestamp then r
    else if at > r.timestamp then RoleRecord(role, at, true, role == None)
    else if !r.present then r.(role := role, present := true, conflict := role == None)
    else if role == None || r.role != role then r.(role := None, conflict := true)
    else r
  }

  function EmptyFlagged<V>(): Flagged<V> { Flagged(None, ZERO, false) }
  function EmptyInitialized<V>(): Initialized<V> { Initialized(None, ZERO, false, false) }
  function EmptyBare<V>(): Bare<V> { Bare(None, ZERO) }
  function EmptyRole<R>(): RoleRecord<R> { RoleRecord(None, ZERO, false, false) }

  function FoldFlagged<V(==)>(samples: seq<Sample<V>>): Flagged<V> {
    if samples == [] then EmptyFlagged()
    else
      var s := samples[|samples| - 1];
      MergeFlagged(FoldFlagged(samples[..|samples| - 1]), s.value, s.at)
  }

  function FoldPresent<V(==)>(samples: seq<Sample<V>>): Present<V> {
    if samples == [] then Missing
    else
      var s := samples[|samples| - 1];
      MergePresent(FoldPresent(samples[..|samples| - 1]), s.value, s.at)
  }

  function FoldInitialized<V(==)>(samples: seq<Sample<V>>): Initialized<V> {
    if samples == [] then EmptyInitialized()
    else
      var s := samples[|samples| - 1];
      MergeInitialized(FoldInitialized(samples[..|samples| - 1]), s.value, s.at)
  }

  function FoldBare<V(==)>(samples: seq<Sample<V>>): Bare<V> {
    if samples == [] then EmptyBare()
    else
      var s := samples[|samples| - 1];
      MergeBare(FoldBare(samples[..|samples| - 1]), s.value, s.at)
  }

  function FoldRole<R(==)>(samples: seq<Sample<Option<R>>>): RoleRecord<R> {
    if samples == [] then EmptyRole()
    else
      var s := samples[|samples| - 1];
      MergeRole(FoldRole(samples[..|samples| - 1]), s.value, s.at)
  }

  /** What the snapshot publishes from a record. */
  function PublishedPresent<V>(r: Present<V>): Option<V> {
    if r.Missing? || r.conflict then None else Some(r.value)
  }

  function PublishedInitialized<V>(r: Initialized<V>): Option<V> {
    if r.value == None || r.conflict then None else r.value
  }

  // ---------------------------------------------------------------------------
  // Folds and meaning

  /** A flagged record after samples of this meaning. */
  predicate FlaggedFits<V(==)>(r: Flagged<V>, newest: Option<V>, latest: Time) {
    if latest < ZERO then r == EmptyFlagged() else r == Flagged(newest, latest, newest.None?)
  }

  predicate PresentFits<V(==)>(r: Present<V>, newest: Option<V>, latest: Time) {
    r.Present? && r.timestamp == latest && newest == if r.conflict then None else Some(r.value)
  }

  predicate InitializedFits<V(==)>(r: Initialized<V>, newest: Option<V>, latest: Time) {
    r == Initialized(newest, latest, newest.None?, true)
  }

  predicate BareFits<V(==)>(r: Bare<V>, newest: Option<V>, latest: Time) {
    if latest <= ZERO then r.timestamp == ZERO else r == Bare(newest, latest)
  }

  predicate RoleFits<R(==)>(r: RoleRecord<R>, newest: Option<Option<R>>, latest: Time) {
    if latest < ZERO then r == EmptyRole() else r == RoleRecord(Agreed(newest), latest, true, Agreed(newest).None?)
  }

  function Agreed<R>(newest: Option<Option<R>>): Option<R> {
    if newest.Some? then newest.value else None
  }

  lemma FirstFits<V>(s: Sample<V>)
    ensures FlaggedFits(MergeFlagged(EmptyFlagged(), s.value, s.at), Some(s.value), s.at)
    ensures PresentFits(MergePresent(Missing, s.value, s.at), Some(s.value), s.at)
    ensures InitializedFits(MergeInitialized(EmptyInitialized(), s.value, s.at), Some(s.value), s.at)
    ensures BareFits(MergeBare(EmptyBare(), s.value, s.at), Some(s.value), s.at)
  {
  }

  /** One merge is one extension of the meaning, for each kind of record. */
  lemma MergeExtends<V>(newest: Option<V>, latest: Time, s: Sample<V>)
    ensures var (n, t) := Extended(newest, latest, s);
      && (forall r {:trigger MergeFlagged(r, s.value, s.at)} | FlaggedFits(r, newest, latest) ::
           FlaggedFits(MergeFlagged(r, s.value, s.at), n, t))
      && (forall r {:trigger MergePresent(r, s.value, s.at)} | PresentFits(r, newest, latest) ::
           PresentFits(MergePresent(r, s.value, s.at), n, t))
      && (forall r {:trigger MergeInitialized(r, s.value, s.at)} | InitializedFits(r, newest, latest) ::
           InitializedFits(MergeInitialized(r, s.value, s.at), n, t))
      && (forall r {:trigger MergeBare(r, s.value, s.at)} | BareFits(r, newest, latest) ::
           BareFits(MergeBare(r, s.value, s.at), n, t))
  {
  }

  lemma FirstRoleFits<R>(s: Sample<Option<R>>)
    ensures RoleFits(MergeRole(EmptyRole(), s.value, s.at), Some(s.value), s.at)
  {
  }

  lemma RoleMergeExtends<R>(newest: Option<Option<R>>, latest: Time, s: Sample<Option<R>>, r: RoleRecord<R>)
    requires RoleFits(r, newest, latest)
    ensures var (n, t) := Extended(newest, latest, s); RoleFits(MergeRole(r, s.value, s.at), n, t)
  {
  }

  /** Samples before the zero instant never enter a flagged record; from there on it tracks the meaning. */
  lemma {:induction false} FlaggedTracks<V(!new)>(samples: seq<Sample<V>>)
    ensures if samples == [] then FoldFlagged(samples) == EmptyFlagged()
            else FlaggedFits(FoldFlagged(samples), Newest(samples), LatestAt(samples))
  {
    if samples != [] {
      var before, s := samples[..|samples| - 1], samples[|samples| - 1];
      assert samples == before + [s];
      FlaggedTracks(before);
      MeaningExtends(before, s);
      if before == [] { FirstFits(s); } else { MergeExtends(Newest(before), LatestAt(before), s); }
    }
  }

  lemma {:induction false} PresentTracks<V(!new)>(samples: seq<Sample<V>>)
    ensures if samples == [] then FoldPresent(samples) == Missing
            else PresentFits(FoldPresent(samples), Newest(samples), LatestAt(samples))
  {
    if samples != [] {
      var before, s := samples[..|samples| - 1], samples[|samples| - 1];
      assert samples == before + [s];
      PresentTracks(before);
      MeaningExtends(before, s);
      if before == [] { FirstFits(s); } else { MergeExtends(Newest(before), LatestAt(before), s); }
    }
  }

  lemma {:induction false} InitializedTracks<V(!new)>(samples: seq<Sample<V>>)
    ensures if samples == [] then FoldInitialized(samples) == EmptyInitialized()
            else InitializedFits(FoldInitialized(samples), Newest(samples), LatestAt(samples))
  {
    if samples != [] {
      var before, s := samples[..|samples| - 1], samples[|samples| - 1];
      assert samples == before + [s];
      InitializedTracks(before);
      MeaningExtends(before, s);
      if before == [] { FirstFits(s); } else { MergeExtends(Newest(before), LatestAt(before), s); }
    }
  }

  /** A bare record forgets a disagreement at the zero instant, so only later times are tracked. */
  lemma {:induction false} BareTracks<V(!new)>(samples: seq<Sample<V>>)
    ensures if samples == [] then FoldBare(samples) == EmptyBare()
            else BareFits(FoldBare(samples), Newest(samples), LatestAt(samples))
  {
    if samples != [] {
      var before, s := samples[..|samples| - 1], samples[|samples| - 1];
      assert samples == before + [s];
      BareTracks(before);
      MeaningExtends(before, s);
      if before == [] { FirstFits(s); } else { MergeExtends(Newest(before), LatestAt(before), s); }
    }
  }

  /** The role that all newest samples name, if they all name one and the same. */
  ghost function AgreedRole<R(!new)>(samples: seq<Sample<Option<R>>>): Option<R> {
    Agreed(Newest(samples))
  }

  lemma {:induction false} RoleTracks<R(!new)>(samples: seq<Sample<Option<R>>>)
    ensures if samples == [] then FoldRole(samples) == EmptyRole()
            else RoleFits(FoldRole(samples), Newest(samples), LatestAt(samples))
  {
    if samples != [] {
      var before, s := samples[..|samples| - 1], samples[|samples| - 1];
      assert samples == before + [s];
      RoleTracks(before);
      MeaningExtends(before, s);
      if before == [] { FirstRoleFits(s); }
          else { RoleMergeExtends(Newest(before), LatestAt(before), s, FoldRole(before)); }
    }
  }

  // ---------------------------------------------------------------------------
  // When the published value has the intended meaning

  /** Elasticsearch and Java publish the meaning of every list of samples. */
  lemma PresentAndInitializedAreExact<V(!new)>(samples: seq<Sample<V>>)
    ensures PublishedPresent(FoldPresent(samples)) == Newest(samples)
    ensures PublishedInitialized(FoldInitialized(samples)) == Newest(samples)
  {
    PresentTracks(samples);
    InitializedTracks(samples);
  }

  ghost predicate FlaggedExactAt<V(!new)>(t: Time) {
    forall samples: seq<Sample<V>> | samples != [] && LatestAt(samples) == t ::
        FoldFlagged(samples).value == Newest(samples)
  }

  ghost predicate BareExactAt<V(!new)>(t: Time) {
    forall samples: seq<Sample<V>> | samples != [] && LatestAt(samples) == t ::
        FoldBare(samples).value == Newest(samples)
  }

  /**
   Flagged records publish the meaning of all lists whose newest time is `t` exactly
   when `t` is not before the zero instant.
   */
  lemma FlaggedExactness<V(!new)>(t: Time, v: V)
    ensures FlaggedExactAt<V>(t) <==> t >= ZERO
  {
    forall samples: seq<Sample<V>> | samples != [] && LatestAt(samples) == t >= ZERO
      ensures FoldFlagged(samples).value == Newest(samples)
    {
      FlaggedTracks(samples);
    }
    if t < ZERO {
      var early := [Sample(v, t)];
      FlaggedTracks(early);
      NewestExtends([], early[0]);
      assert [] + early == early;
      assert FoldFlagged(early).value != Newest(early);
    }
  }

  /**
   Bare records do so exactly for times after the zero instant: at the zero instant a
   third sample undoes a disagreement.
   */
  lemma BareExactness<V(!new)>(t: Time, v: V, w: V)
    requires v != w
    ensures BareExactAt<V>(t) <==> t > ZERO
  {
    forall samples: seq<Sample<V>> | samples != [] && LatestAt(samples) == t > ZERO
      ensures FoldBare(samples).value == Newest(samples)
    {
      BareTracks(samples);
    }
    if t < ZERO {
      var early := [Sample(v, t)];
      NewestExtends([], early[0]);
      assert [] + early == early;
      assert FoldBare(early[..0]) == EmptyBare();
      assert FoldBare(early).value != Newest(early);
    } else if t == ZERO {
      ThirdSampleReopens(v, w);
    }
  }

  lemma ThirdSampleReopens<V(!new)>(v: V, w: V)
    requires v != w
    ensures var samples := [Sample(v, ZERO), Sample(w, ZERO), Sample(v, ZERO)];
      LatestAt(samples) == ZERO && FoldBare(samples).value == Some(v) && Newest(samples) == None
  {
    var one, two := [Sample(v, ZERO)], [Sample(v, ZERO), Sample(w, ZERO)];
    var three := [Sample(v, ZERO), Sample(w, ZERO), Sample(v, ZERO)];
    assert two[..1] == one && three[..2] == two && one[..0] == [];
    assert one == [] + [Sample(v, ZERO)] && two == one + [Sample(w, ZERO)] && three == two + [Sample(v, ZERO)];
    assert FoldBare(one) == Bare(Some(v), ZERO);
    assert FoldBare(two) == Bare(None, ZERO);
    NewestExtends([], Sample(v, ZERO));
    NewestExtends(one, Sample(w, ZERO));
    NewestExtends(two, Sample(v, ZERO));
  }

  lemma LatestIgnoresOrder<V(!new)>(s: seq<Sample<V>>, t: seq<Sample<V>>)
    requires multiset(s) == multiset(t) && s != [] && t != []
    ensures LatestAt(s) == LatestAt(t)
  {
    assert forall x :: x in s <==> x in multiset(s);
    assert forall x :: x in t <==> x in multiset(t);
  }

  /** All loops agree when the newest sample is later than the zero instant, in whatever order the samples come. */
  lemma AllRecordsAgree<V(!new)>(samples: seq<Sample<V>>, shuffled: seq<Sample<V>>)
    requires multiset(samples) == multiset(shuffled)
    requires samples == [] || LatestAt(samples) > ZERO
    ensures FoldFlagged(shuffled).value == Newest(samples)
    ensures FoldBare(shuffled).value == Newest(samples)
    ensures PublishedPresent(FoldPresent(shuffled)) == Newest(samples)
    ensures PublishedInitialized(FoldInitialized(shuffled)) == Newest(samples)
  {
    assert |samples| == |multiset(samples)| && |shuffled| == |multiset(shuffled)|;
    if samples != [] {
      LatestIgnoresOrder(samples, shuffled);
    }
    NewestIgnoresOrder(samples, shuffled);
    FlaggedTracks(shuffled);
    BareTracks(shuffled);
    PresentAndInitializedAreExact(shuffled);
  }

  /** The role shown for a Redis instance. */
  function FinalRole<R>(current: RoleRecord<R>, historical: RoleRecord<R>): Option<R> {
    if current.present then (if current.conflict then None else current.role)
    else if historical.present && !historical.conflict then historical.role
    else None
  }

  /** Whether a list has a sample a role record takes notice of. */
  ghost predicate Noticed<V(!new)>(samples: seq<Sample<V>>) {
    samples != [] && LatestAt(samples) >= ZERO
  }

  /** Current samples decide as soon as there is one, even when they disagree; history only fills the gap. */
  lemma FinalRoleIsExact<R(!new)>(current: seq<Sample<Option<R>>>, historical: seq<Sample<Option<R>>>)
    ensures FinalRole(FoldRole(current), FoldRole(historical)) ==
            if Noticed(current) then AgreedRole(current)
            else if Noticed(historical) then AgreedRole(historical)
            else None
  {
    RoleTracks(current);
    RoleTracks(historical);
  }
}
