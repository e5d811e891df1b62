/**
 Sample freshness: how long ago the reported sample time of an entity last changed.
 The level of an entity is judged by the moment its present sample was first seen, not
 by the sample time itself.
 */
module Freshness {

  type Key = string
  type Time = int

  /** The zero time: an entity without a sample. */
  const ZERO: Time := 0

  datatype Level = Normal | Warning | Critical

  datatype Progress = Progress(sampleAt: Time, advancedAt: Time)

  type Table = map<Key, Progress>

  type Samples = map<Key, Time>

  datatype Observation = Observation(samples: Samples, at: Time)

  function Rank(level: Level): nat {
    match level
    case Normal => 0
    case Warning => 1
    case Critical => 2
  }

  predicate Usable(key: Key, sampleAt: Time) {
    key != "" && sampleAt != ZERO
  }

  /** The observation shows a usable sample of the key. */
  predicate Shows(o: Observation, key: Key) {
    key in o.samples && Usable(key, o.samples[key])
  }

  predicate Changes(table: Table, o: Observation, key: Key) {
    Shows(o, key) && (key in table ==> table[key].sampleAt != o.samples[key])
  }

  function Observed(table: Table, o: Observation): Table {
    map key <- table.Keys + o.samples.Keys | key in table || Shows(o, key)
      :: if Changes(table, o, key) then Progress(o.samples[key], o.at) else table[key]
  }

  function CollectionLevelAt(now: Time, advancedAt: Time, interval: int): Level {
    if advancedAt == ZERO then Warning
    else if now - advancedAt >= 5 * interval then Critical
    else if now - advancedAt >= 2 * interval then Warning
    else Normal
  }

  function LevelOf(table: Table, interval: int, key: Key, sampleAt: Time, now: Time): Level {
    if sampleAt == ZERO || key !in table then Critical
    else CollectionLevelAt(now, table[key].advancedAt, interval)
  }

  function Captured(table: Table, samples: Samples): map<Key, Time> {
    map key <- samples | key in table && table[key].sampleAt == samples[key] :: table[key].advancedAt
  }

  // ---------------------------------------------------------------------------
  // The tracker

  class Tracker {
    var entries: Table
    const interval: int

    constructor (interval: int)
      ensures entries == map[]
      ensures this.interval == if interval > 0 then interval else 15_000_000_000
    {
      entries := map[];
      this.interval := if interval <= 0 then 15_000_000_000 else interval;
    }

    method ObserveLocked(key: Key, sampleAt: Time, now: Time)
      modifies this`entries
      ensures entries == Observed(old(entries), Observation(map[key := sampleAt], now))
    {
      if key == "" || sampleAt == ZERO {
        return;
      }
      if key !in entries || entries[key].sampleAt != sampleAt {
        entries := entries[key := Progress(sampleAt, now)];
      }
    }

    /** Ranges over the samples in any order. */
    method ObserveAt(samples: Samples, now: Time)
      modifies this`entries
      ensures entries == Observed(old(entries), Observation(samples, now))
    {
      var rest := samples.Keys;
      while rest != {}
        invariant rest <= samples.Keys
        invariant forall key ::
                    key in entries <==>
                    key in old(entries) || (key !in rest && Shows(Observation(samples, now), key))
        invariant forall key <- entries ::
                    entries[key] ==
                    if key !in rest && Changes(old(entries), Observation(samples, now), key)
                        then Progress(samples[key], now)
                    else old(entries)[key]
      {
        var key :| key in rest;
        ObserveLocked(key, samples[key], now);
        rest := rest - {key};
      }
    }

    method LevelAt(key: Key, sampleAt: Time, now: Time) returns (level: Level)
      ensures level == LevelOf(entries, interval, key, sampleAt, now)
    {
      if sampleAt == ZERO {
        return Critical;
      }
      if key !in entries {
        return Critical;
      }
      level := CollectionLevelAt(now, entries[key].advancedAt, interval);
    }

    /** The moments a snapshot keeps beside its samples. */
    method Capture(samples: Samples) returns (progress: map<Key, Time>)
      ensures progress == Captured(entries, samples)
    {
      progress := map[];
      var rest := samples.Keys;
      while rest != {}
        invariant rest <= samples.Keys
        invariant forall key :: key in progress <==> key !in rest && key in Captured(entries, samples)
        invariant forall key <- progress :: progress[key] == entries[key].advancedAt
      {
        var key :| key in rest;
        rest := rest - {key};
        if key in entries && entries[key].sampleAt == samples[key] {
          progress := progress[key := entries[key].advancedAt];
        }
      }
    }
  }

  // ---------------------------------------------------------------------------
  // Runs of observations

  function After(run: seq<Observation>): Table {
    if run == [] then map[] else Observed(After(run[..|run| - 1]), run[|run| - 1])
  }

  /**
   Observation i is where the present sample of the key was first seen since the last
   change: it and every later sighting show one sample, and the sighting just before
   it, if any, showed another.
   */
  ghost predicate StreakStart(run: seq<Observation>, key: Key, i: nat) {
    && i < |run| && Shows(run[i], key)
    && (forall j | i <= j < |run| && Shows(run[j], key) :: run[j].samples[key] == run[i].samples[key])
    && (forall h | 0 <= h < i && Shows(run[h], key) && HiddenBetween(run, key, h + 1, i) ::
          run[h].samples[key] != run[i].samples[key])
  }

  ghost predicate HiddenBetween(run: seq<Observation>, key: Key, from: nat, to: nat)
    requires to <= |run|
  {
    forall j | from <= j < to :: !Shows(run[j], key)
  }

  lemma StreakSurvives(run: seq<Observation>, key: Key, i: nat)
    requires run != [] && StreakStart(run[..|run| - 1], key, i)
    requires Shows(run[|run| - 1], key) ==> run[|run| - 1].samples[key] == run[i].samples[key]
    ensures StreakStart(run, key, i)
  {
    var earlier := run[..|run| - 1];
    forall h | 0 <= h < i && Shows(run[h], key) && HiddenBetween(run, key, h + 1, i)
      ensures run[h].samples[key] != run[i].samples[key]
    {
      assert HiddenBetween(earlier, key, h + 1, i);
      assert earlier[h] == run[h];
    }
  }

  lemma StreakBreaks(run: seq<Observation>, key: Key, i: nat)
    requires run != [] && StreakStart(run[..|run| - 1], key, i)
    requires Shows(run[|run| - 1], key) && run[|run| - 1].samples[key] != run[i].samples[key]
    ensures StreakStart(run, key, |run| - 1)
  {
    var last, earlier := |run| - 1, run[..|run| - 1];
    forall h | 0 <= h < last && Shows(run[h], key) && HiddenBetween(run, key, h + 1, last)
      ensures run[h].samples[key] != run[last].samples[key]
    {
      assert earlier[h] == run[h] && earlier[i] == run[i];
      assert h >= i;
    }
  }

  /** Every key on record was seen, and its record is the first sight of its present sample. */
  lemma {:induction false} RecordIsFirstSight(run: seq<Observation>, key: Key) returns (i: nat)
    requires key in After(run)
    ensures StreakStart(run, key, i) && After(run)[key] == Progress(run[i].samples[key], run[i].at)
  {
    var last := |run| - 1;
    var earlier := run[..last];
    if key in After(earlier) {
      i := RecordIsFirstSight(earlier, key);
      assert earlier[i] == run[i];
      if Shows(run[last], key) && run[last].samples[key] != run[i].samples[key] {
        StreakBreaks(run, key, i);
        i := last;
      } else {
        StreakSurvives(run, key, i);
      }
    } else {
      i := last;
      forall h | 0 <= h < last && Shows(run[h], key) ensures key in After(earlier) {
        SeenIsOnRecord(earlier, key, h);
      }
    }
  }

  lemma {:induction false} SeenIsOnRecord(run: seq<Observation>, key: Key, i: nat)
    requires i < |run| && Shows(run[i], key)
    ensures key in After(run)
  {
    if i < |run| - 1 {
      SeenIsOnRecord(run[..|run| - 1], key, i);
    }
  }

  /** A key is on record exactly when it was seen, with the first sight of its present sample. */
  lemma {:induction false} TableTellsStreaks(run: seq<Observation>, key: Key)
    ensures key in After(run) <==>
              key != "" && exists i | 0 <= i < |run| :: key in run[i].samples && run[i].samples[key] != ZERO
    ensures key in After(run) ==>
              exists i: nat :: StreakStart(run, key, i) && After(run)[key] == Progress(run[i].samples[key], run[i].at)
  {
    if key in After(run) {
      var i := RecordIsFirstSight(run, key);
    }
    if i :| 0 <= i < |run| && key in run[i].samples && run[i].samples[key] != ZERO && key != "" {
      SeenIsOnRecord(run, key, i);
    }
  }

  /** The first sight is determined by the run. */
  lemma StreakStartIsUnique(run: seq<Observation>, key: Key, i: nat, j: nat)
    requires StreakStart(run, key, i) && StreakStart(run, key, j)
    ensures i == j
  {
    if i < j {
      PreviousSighting(run, key, i, j);
    } else if j < i {
      PreviousSighting(run, key, j, i);
    }
  }

  lemma PreviousSighting(run: seq<Observation>, key: Key, i: nat, j: nat)
    requires i < j < |run| && Shows(run[i], key)
    ensures exists h | i <= h < j :: Shows(run[h], key) && HiddenBetween(run, key, h + 1, j)
    decreases j - i
  {
    if k :| i < k < j && Shows(run[k], key) {
      PreviousSighting(run, key, k, j);
    } else {
      assert HiddenBetween(run, key, i + 1, j);
    }
  }

  /** Every later sighting of the key shows this sample again. */
  predicate Repeats(more: seq<Observation>, key: Key, sampleAt: Time) {
    forall o <- more :: Shows(o, key) ==> o.samples[key] == sampleAt
  }

  /** Seeing the same sample again moves nothing, however often and at whatever time. */
  lemma {:induction false} RepeatsMoveNothing(run: seq<Observation>, more: seq<Observation>, key: Key)
    requires key in After(run) && Repeats(more, key, After(run)[key].sampleAt)
    ensures key in After(run + more) && After(run + more)[key] == After(run)[key]
  {
    if more == [] {
      assert run + more == run;
    } else {
      var shorter := more[..|more| - 1];
      assert (run + more)[..|run + more| - 1] == run + shorter;
      assert (run + more)[|run + more| - 1] == more[|more| - 1];
      RepeatsMoveNothing(run, shorter, key);
    }
  }

  /** Until its sample changes, the level of a key can only get worse. */
  lemma LevelOnlyWorsens(run: seq<Observation>, more: seq<Observation>, key: Key, interval: int, sampleAt: Time,
      now: Time, later: Time)
    requires key in After(run) && Repeats(more, key, After(run)[key].sampleAt)
    requires interval >= 0 && now <= later
    ensures Rank(LevelOf(After(run), interval, key, sampleAt, now)) <=
            Rank(LevelOf(After(run + more), interval, key, sampleAt, later))
  {
    RepeatsMoveNothing(run, more, key);
  }

  /** The record of a key is the first sight of its present sample, whichever that is in the run. */
  lemma AdvancedAtIsFirstSight(run: seq<Observation>, key: Key, i: nat)
    requires StreakStart(run, key, i)
    ensures key in After(run) && After(run)[key] == Progress(run[i].samples[key], run[i].at)
  {
    SeenIsOnRecord(run, key, i);
    var j := RecordIsFirstSight(run, key);
    StreakStartIsUnique(run, key, i, j);
  }

  /**
   The level in terms of the run: a missing sample is critical, a first sight at no time a warning, and
   otherwise the time since the first sight of the present sample decides.
   */
  lemma LevelBands(run: seq<Observation>, key: Key, i: nat, interval: int, sampleAt: Time, now: Time)
    requires StreakStart(run, key, i) && interval > 0
    ensures var level, age := LevelOf(After(run), interval, key, sampleAt, now), now - run[i].at;
      && (level.Critical? <==> sampleAt == ZERO || (run[i].at != ZERO && age >= 5 * interval))
      && (level.Normal? <==> sampleAt != ZERO && run[i].at != ZERO && age < 2 * interval)
  {
    AdvancedAtIsFirstSight(run, key, i);
  }

  /** A key that was never seen is critical. */
  lemma {:induction false} UnseenIsCritical(run: seq<Observation>, key: Key, interval: int, sampleAt: Time, now: Time)
    requires forall i | 0 <= i < |run| :: !Shows(run[i], key)
    ensures LevelOf(After(run), interval, key, sampleAt, now) == Critical
  {
    TableTellsStreaks(run, key);
  }

  /** A snapshot captured right after its observation holds exactly its usable samples. */
  lemma CaptureIsComplete(run: seq<Observation>, o: Observation)
    ensures forall key :: key in Captured(After(run + [o]), o.samples) <==>
              key != "" && key in o.samples && o.samples[key] != ZERO
  {
    assert (run + [o])[..|run|] == run;
    forall key | key in After(run + [o]) ensures Usable(key, After(run + [o])[key].sampleAt) {
      OnlyUsableSamples(run + [o], key);
    }
  }

  lemma {:induction false} OnlyUsableSamples(run: seq<Observation>, key: Key)
    requires key in After(run)
    ensures Usable(key, After(run)[key].sampleAt)
  {
    var i := RecordIsFirstSight(run, key);
  }

  /** The last observation of `more` that shows the key shows this sample, or none shows it. */
  predicate EndsOn(more: seq<Observation>, key: Key, sampleAt: Time) {
    if more == [] then true
    else if Shows(more[|more| - 1], key) then more[|more| - 1].samples[key] == sampleAt
    else EndsOn(more[..|more| - 1], key, sampleAt)
  }

  /** Whatever is captured is the moment at which the present sample of the key was first seen. */
  lemma CapturedIsFirstSight(run: seq<Observation>, samples: Samples, key: Key, i: nat)
    requires StreakStart(run, key, i) && key in Captured(After(run), samples)
    ensures samples[key] == run[i].samples[key] && Captured(After(run), samples)[key] == run[i].at
  {
    AdvancedAtIsFirstSight(run, key, i);
  }

  /**
   Observations of other loads may slip in between observing and capturing.  A usable
   sample is then captured exactly when it is still the last one seen.
   */
  lemma {:induction false} CaptureUnderRace(run: seq<Observation>, o: Observation, more: seq<Observation>, key: Key)
    ensures key in Captured(After(run + [o] + more), o.samples) <==> Shows(o, key) && EndsOn(more, key, o.samples[key])
  {
    if more == [] {
      assert run + [o] + more == run + [o];
      CaptureIsComplete(run, o);
    } else {
      var shorter, last := more[..|more| - 1], more[|more| - 1];
      assert (run + [o] + more)[..|run + [o] + more| - 1] == run + [o] + shorter;
      assert (run + [o] + more)[|run + [o] + more| - 1] == last;
      CaptureUnderRace(run, o, shorter, key);
      if key in After(run + [o] + more) {
        OnlyUsableSamples(run + [o] + more, key);
      }
    }
  }
}
