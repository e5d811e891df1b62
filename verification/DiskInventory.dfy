/**
 The disk inventory: series of one device are folded into one record, then devices
 receive stable ids and clashes of identity are refused.

 Labels are the trimmed label texts; a stable id is represented by the text it hashes.
 */
module DiskInventory {
  import opened Optional
  import opened Rearrangement

  type Time = int

  /** `reportedAt` is None when the sample is malformed. */
  datatype Series = Series(host: string, device: string, serial: string, wwn: string, model: string,
      reportedAt: Option<Time>)

  datatype Key = Key(host: string, device: string)

  datatype State = State(serial: string, wwn: string, model: string, reportedAt: Time)

  datatype Identity = ByWwn(wwn: string) | BySerial(serial: string) | ByDevice(device: string)

  datatype DeviceId = DeviceId(host: string, identity: Identity)

  datatype Device = Device(id: DeviceId, host: string, device: string, model: string, reportedAt: Time,
      serial: string, wwn: string)

  predicate Malformed(s: Series) {
    s.host == "" || s.device == "" || s.reportedAt.None?
  }

  function KeyOf(s: Series): Key {
    Key(s.host, s.device)
  }

  /** An empty text gives way to the other one; two different non-empty texts clash. */
  function MergeIdentity(current: string, candidate: string): Option<string> {
    if current == "" then Some(candidate)
    else if candidate == "" || candidate == current then Some(current)
    else None
  }

  // ---------------------------------------------------------------------------
  // First loop: one record per device

  function Absorb(states: map<Key, State>, s: Series): Option<map<Key, State>> {
    if Malformed(s) then None
    else if KeyOf(s) !in states then Some(states[KeyOf(s) := State(s.serial, s.wwn, s.model, s.reportedAt.value)])
    else
      var current := states[KeyOf(s)];
      var serial, wwn := MergeIdentity(current.serial, s.serial), MergeIdentity(current.wwn, s.wwn);
      if serial.None? || wwn.None? then None
      else if s.reportedAt.value == current.reportedAt && current.model != "" && s.model != "" &&
          current.model != s.model then None
      else
        var newer := s.reportedAt.value > current.reportedAt;
        var model := if newer && s.model != "" then s.model else if current.model == "" then s.model else current.model;
        Some(states[KeyOf(s) := State(serial.value, wwn.value, model, if newer then s.reportedAt.value
            else current.reportedAt)])
  }

  function Records(series: seq<Series>): Option<map<Key, State>> {
    if series == [] then Some(map[])
    else
      match Records(series[..|series| - 1])
      case None => None
      case Some(states) => Absorb(states, series[|series| - 1])
  }

  method BuildRecords(inventory: seq<Series>) returns (result: Option<map<Key, State>>)
    ensures result == Records(inventory)
  {
    var states := map[];
    for i := 0 to |inventory|
      invariant Records(inventory[..i]) == Some(states)
    {
      assert inventory[..i + 1][..i] == inventory[..i];
      var s := inventory[i];
      FailureIsFinal(inventory, i + 1);
      if Malformed(s) {
        return None;
      }
      var candidate := State(s.serial, s.wwn, s.model, s.reportedAt.value);
      if KeyOf(s) !in states {
        states := states[KeyOf(s) := candidate];
        continue;
      }
      var current := states[KeyOf(s)];
      var serial := MergeIdentity(current.serial, candidate.serial);
      if serial.None? {
        return None;
      }
      current := current.(serial := serial.value);
      var wwn := MergeIdentity(current.wwn, candidate.wwn);
      if wwn.None? {
        return None;
      }
      current := current.(wwn := wwn.value);
      if candidate.reportedAt > current.reportedAt {
        if candidate.model != "" {
          current := current.(model := candidate.model);
        }
        current := current.(reportedAt := candidate.reportedAt);
      } else if candidate.reportedAt == current.reportedAt {
        if current.model != "" && candidate.model != "" && current.model != candidate.model {
          return None;
        }
      }
      if current.model == "" {
        current := current.(model := candidate.model);
      }
      states := states[KeyOf(s) := current];
    }
    assert inventory[..|inventory|] == inventory;
    return Some(states);
  }

  lemma {:induction false} FailureIsFinal(series: seq<Series>, n: nat)
    requires n <= |series|
    ensures Records(series[..n]) == None ==> Records(series) == None
    decreases |series|
  {
    if n == |series| {
      assert series[..n] == series;
    } else {
      FailureIsFinal(series[..|series| - 1], n);
      assert series[..|series| - 1][..n] == series[..n];
    }
  }

  /** The only non-empty text seen, or the empty text when none was. */
  ghost predicate OnlyNonEmpty(texts: set<string>, text: string) {
    (forall t <- texts :: t == "" || t == text) && (text == "" || text in texts)
  }

  function SerialsOf(series: seq<Series>, key: Key): set<string> {
    set s <- series | KeyOf(s) == key :: s.serial
  }

  function WwnsOf(series: seq<Series>, key: Key): set<string> {
    set s <- series | KeyOf(s) == key :: s.wwn
  }

  function ModelsOf(series: seq<Series>, key: Key): set<string> {
    set s <- series | KeyOf(s) == key :: s.model
  }

  ghost predicate Identifies(series: seq<Series>, key: Key, state: State) {
    && OnlyNonEmpty(SerialsOf(series, key), state.serial)
    && OnlyNonEmpty(WwnsOf(series, key), state.wwn)
    && state.model in ModelsOf(series, key)
    && (state.model == "" ==> ModelsOf(series, key) == {""})
  }

  ghost predicate LastReported(series: seq<Series>, key: Key, at: Time) {
    && (exists s <- series :: KeyOf(s) == key && s.reportedAt == Some(at))
    && (forall s <- series :: KeyOf(s) == key && s.reportedAt.Some? ==> s.reportedAt.value <= at)
  }

  /** What the record of a device says about the series seen. */
  ghost predicate Describes(series: seq<Series>, key: Key, state: State) {
    Identifies(series, key, state) && LastReported(series, key, state.reportedAt)
  }

  /**
   When the records are built, there is one per host and device name; each carries the
   newest report time and the only non-empty serial number and WWN.
   */
  lemma {:induction false} RecordsDescribe(series: seq<Series>)
    requires Records(series).Some?
    ensures forall s <- series :: !Malformed(s) && KeyOf(s) in Records(series).value
    ensures forall key <- Records(series).value :: Describes(series, key, Records(series).value[key])
  {
    if series != [] {
      var before, s := series[..|series| - 1], series[|series| - 1];
      assert series == before + [s];
      RecordsDescribe(before);
      forall key <- Records(series).value ensures Describes(series, key, Records(series).value[key]) {
        IdentifiesOneMore(before, s, key);
        ReportedOneMore(before, s, key);
      }
    }
  }

  lemma LabelsOfOneMore(before: seq<Series>, s: Series, key: Key)
    ensures SerialsOf(before + [s], key) == SerialsOf(before, key) + (if KeyOf(s) == key then {s.serial} else {})
    ensures WwnsOf(before + [s], key) == WwnsOf(before, key) + (if KeyOf(s) == key then {s.wwn} else {})
    ensures ModelsOf(before + [s], key) == ModelsOf(before, key) + (if KeyOf(s) == key then {s.model} else {})
  {
    assert forall t :: t in before + [s] <==> t in before || t == s;
  }

  lemma IdentifiesOneMore(before: seq<Series>, s: Series, key: Key)
    requires Records(before).Some? && Absorb(Records(before).value, s).Some?
    requires key in Absorb(Records(before).value, s).value
    requires forall t <- before :: KeyOf(t) in Records(before).value
    requires key in Records(before).value ==> Identifies(before, key, Records(before).value[key])
    ensures Identifies(before + [s], key, Absorb(Records(before).value, s).value[key])
  {
    LabelsOfOneMore(before, s, key);
    if key !in Records(before).value {
      assert SerialsOf(before, key) == {} && WwnsOf(before, key) == {} && ModelsOf(before, key) == {};
    }
  }

  lemma ReportedOneMore(before: seq<Series>, s: Series, key: Key)
    requires Records(before).Some? && Absorb(Records(before).value, s).Some?
    requires key in Absorb(Records(before).value, s).value
    requires forall t <- before :: KeyOf(t) in Records(before).value
    requires key in Records(before).value ==> LastReported(before, key, Records(before).value[key].reportedAt)
    ensures LastReported(before + [s], key, Absorb(Records(before).value, s).value[key].reportedAt)
  {
    assert forall t :: t in before + [s] <==> t in before || t == s;
    if key in Records(before).value {
      var w :| w in before && KeyOf(w) == key && w.reportedAt == Some(Records(before).value[key].reportedAt);
      assert w in before + [s];
    }
    assert s in before + [s];
  }

  ghost predicate Clash(series: seq<Series>, key: Key) {
    || (exists a, b :: a in SerialsOf(series, key) && b in SerialsOf(series, key) && a != "" && b != "" && a != b)
    || (exists a, b :: a in WwnsOf(series, key) && b in WwnsOf(series, key) && a != "" && b != "" && a != b)
  }

  /** Series a names a model of the device, and names it no later than c names another one. */
  ghost predicate Contradicts(series: seq<Series>, key: Key, a: Series, c: Series) {
    && a in series && c in series && KeyOf(a) == key && KeyOf(c) == key
    && a.model != "" && c.model != "" && a.model != c.model
    && a.reportedAt.Some? && c.reportedAt.Some? && a.reportedAt.value <= c.reportedAt.value
  }

  /** A series of the device that was reported at this time and names no model. */
  ghost predicate Unnamed(series: seq<Series>, key: Key, e: Series, at: Time) {
    e in series && KeyOf(e) == key && e.model == "" && e.reportedAt == Some(at)
  }

  /**
   Two models of one device meet at the time of the later one: both are reported then, or
   the earlier one can be carried there by a series that names no model.
   */
  ghost predicate ModelRace(series: seq<Series>, key: Key) {
    exists a, c :: Contradicts(series, key, a, c) &&
      (a.reportedAt == c.reportedAt || exists e :: Unnamed(series, key, e, c.reportedAt.value))
  }

  /** Malformed series and clashing identities are always refused, in any order of the series. */
  lemma ClashesAreRefused(series: seq<Series>, key: Key)
    requires Clash(series, key) || exists s <- series :: Malformed(s)
    ensures Records(series) == None
  {
    if Records(series).Some? {
      RecordsDescribe(series);
    }
  }

  /** The model of a record comes from a series of its time, or one of its time names none. */
  ghost predicate ModelHasSource(series: seq<Series>, key: Key, state: State) {
    state.model != "" ==>
      exists a :: ModelSource(series, key, state, a)
  }

  ghost predicate ModelSource(series: seq<Series>, key: Key, state: State, a: Series) {
    && a in series && KeyOf(a) == key && a.model == state.model
    && a.reportedAt.Some? && a.reportedAt.value <= state.reportedAt
    && (a.reportedAt.value == state.reportedAt || exists e :: Unnamed(series, key, e, state.reportedAt))
  }

  lemma {:induction false} RecordsHaveModelSources(series: seq<Series>, key: Key)
    requires Records(series).Some? && key in Records(series).value
    ensures ModelHasSource(series, key, Records(series).value[key])
  {
    var before, s := series[..|series| - 1], series[|series| - 1];
    assert series == before + [s];
    RecordsDescribe(before);
    if key in Records(before).value {
      RecordsHaveModelSources(before, key);
    }
    ModelSourceOneMore(before, s, key);
  }

  lemma ModelSourceOneMore(before: seq<Series>, s: Series, key: Key)
    requires Records(before).Some? && Absorb(Records(before).value, s).Some?
    requires key in Absorb(Records(before).value, s).value
    requires key in Records(before).value ==>
               Describes(before, key, Records(before).value[key]) &&
                   ModelHasSource(before, key, Records(before).value[key])
    ensures ModelHasSource(before + [s], key, Absorb(Records(before).value, s).value[key])
  {
    var all, after := before + [s], Absorb(Records(before).value, s).value[key];
    assert forall t :: t in all <==> t in before || t == s;
    if after.model != "" {
      if key !in Records(before).value {
        assert ModelSource(all, key, after, s);
      } else {
        var current := Records(before).value[key];
        if current.model == after.model != "" {
          SourceSurvives(before, s, key, current, after);
        } else {
          SourceIsNew(before, s, key, current, after);
        }
      }
    }
  }

  /** When all series of the newest time name one model, the record has it. */
  lemma NewestModelIsKept(series: seq<Series>, key: Key, at: Time, model: string)
    requires Records(series).Some? && LastReported(series, key, at) && model != ""
    requires forall s <- series | KeyOf(s) == key && s.reportedAt == Some(at) :: s.model == model
    ensures key in Records(series).value && Records(series).value[key].model == model
  {
    RecordsDescribe(series);
    RecordsHaveModelSources(series, key);
    var state := Records(series).value[key];
    assert state.reportedAt == at;
    var s :| s in series && KeyOf(s) == key && s.reportedAt == Some(at);
    assert s.model in ModelsOf(series, key) && state.model != "";
    var a :| ModelSource(series, key, state, a);
  }

  /** A model that stays: it keeps its source, and a later series without a model carries it on. */
  lemma SourceSurvives(before: seq<Series>, s: Series, key: Key, current: State, after: State)
    requires Records(before).Some? && Absorb(Records(before).value, s).Some?
    requires key in Records(before).value && current == Records(before).value[key]
    requires after == Absorb(Records(before).value, s).value[key]
    requires ModelHasSource(before, key, current) && current.model == after.model != ""
    ensures ModelHasSource(before + [s], key, after)
  {
    var all := before + [s];
    assert forall t :: t in all <==> t in before || t == s;
    var a :| ModelSource(before, key, current, a);
    if after.reportedAt == current.reportedAt {
      if e :| Unnamed(before, key, e, current.reportedAt) {
        assert Unnamed(all, key, e, after.reportedAt);
      }
      assert ModelSource(all, key, after, a);
    } else if s.model == "" {
      assert Unnamed(all, key, s, after.reportedAt);
      assert ModelSource(all, key, after, a);
    } else {
      assert ModelSource(all, key, after, s);
    }
  }

  /** A model that is taken over comes from the series at hand. */
  lemma SourceIsNew(before: seq<Series>, s: Series, key: Key, current: State, after: State)
    requires Records(before).Some? && Absorb(Records(before).value, s).Some?
    requires key in Records(before).value && current == Records(before).value[key]
    requires after == Absorb(Records(before).value, s).value[key]
    requires Describes(before, key, current) && current.model != after.model && after.model != ""
    ensures ModelHasSource(before + [s], key, after)
  {
    var all := before + [s];
    assert forall t :: t in all <==> t in before || t == s;
    if s.reportedAt.value <= current.reportedAt {
      var e :| e in before && KeyOf(e) == key && e.reportedAt == Some(current.reportedAt);
      assert e.model in ModelsOf(before, key);
      assert Unnamed(all, key, e, after.reportedAt);
    }
    assert ModelSource(all, key, after, s);
  }

  /** Nothing is refused but for a malformed series, clashing identities or models that race. */
  lemma {:induction false} RefusalHasAReason(series: seq<Series>)
    requires Records(series) == None
    ensures || (exists s <- series :: Malformed(s))
            || (exists key :: Clash(series, key))
            || (exists key :: ModelRace(series, key))
  {
    var before, s := series[..|series| - 1], series[|series| - 1];
    assert series == before + [s];
    assert forall t :: t in series <==> t in before || t == s;
    if Records(before) == None {
      RefusalHasAReason(before);
      if key :| Clash(before, key) {
        ClashGrows(before, s, key);
      } else if key :| ModelRace(before, key) {
        RaceGrows(before, s, key);
      }
    } else if !Malformed(s) {
      RefusedLast(before, s);
    }
  }

  lemma RefusedLast(before: seq<Series>, s: Series)
    requires Records(before).Some? && Absorb(Records(before).value, s) == None && !Malformed(s)
    ensures Clash(before + [s], KeyOf(s)) || ModelRace(before + [s], KeyOf(s))
  {
    var key, all := KeyOf(s), before + [s];
    assert forall t :: t in all <==> t in before || t == s;
    RecordsDescribe(before);
    RecordsHaveModelSources(before, key);
    var current := Records(before).value[key];
    if MergeIdentity(current.serial, s.serial).None? || MergeIdentity(current.wwn, s.wwn).None? {
      LabelsOfOneMore(before, s, key);
      assert Clash(all, key);
    } else {
      var a :| ModelSource(before, key, current, a);
      assert Contradicts(all, key, a, s);
      if e :| Unnamed(before, key, e, current.reportedAt) {
        assert Unnamed(all, key, e, s.reportedAt.value);
      }
    }
  }

  lemma RaceGrows(before: seq<Series>, s: Series, key: Key)
    requires ModelRace(before, key)
    ensures ModelRace(before + [s], key)
  {
    var all := before + [s];
    assert forall t :: t in all <==> t in before || t == s;
    var a, c :| Contradicts(before, key, a, c) &&
      (a.reportedAt == c.reportedAt || exists e :: Unnamed(before, key, e, c.reportedAt.value));
    assert Contradicts(all, key, a, c);
    if e :| Unnamed(before, key, e, c.reportedAt.value) {
      assert Unnamed(all, key, e, c.reportedAt.value);
    }
  }

  lemma ClashGrows(before: seq<Series>, s: Series, key: Key)
    requires Clash(before, key)
    ensures Clash(before + [s], key)
  {
    LabelsOfOneMore(before, s, key);
    if a, b :| a in SerialsOf(before, key) && b in SerialsOf(before, key) && a != "" && b != "" && a != b {
      assert a in SerialsOf(before + [s], key) && b in SerialsOf(before + [s], key);
    }
    if a, b :| a in WwnsOf(before, key) && b in WwnsOf(before, key) && a != "" && b != "" && a != b {
      assert a in WwnsOf(before + [s], key) && b in WwnsOf(before + [s], key);
    }
  }

  lemma SameReasons(s: seq<Series>, t: seq<Series>, key: Key)
    requires multiset(s) == multiset(t)
    ensures Clash(s, key) ==> Clash(t, key)
    ensures ModelRace(s, key) ==> ModelRace(t, key)
  {
    SameElements(s, t);
    assert SerialsOf(s, key) == SerialsOf(t, key) && WwnsOf(s, key) == WwnsOf(t, key);
    if ModelRace(s, key) {
      var a, c :| Contradicts(s, key, a, c) &&
        (a.reportedAt == c.reportedAt || exists e :: Unnamed(s, key, e, c.reportedAt.value));
      assert Contradicts(t, key, a, c);
      if e :| Unnamed(s, key, e, c.reportedAt.value) {
        assert Unnamed(t, key, e, c.reportedAt.value);
      }
    }
  }

  /** No order of the series is refused if and only if none is malformed, no identities clash and no models race. */
  lemma AcceptedInEveryOrder(series: seq<Series>)
    ensures (forall order | multiset(order) == multiset(series) :: Records(order).Some?) <==>
            && (forall s <- series :: s.host != "" && s.device != "" && s.reportedAt.Some?)
            && (forall key :: !Clash(series, key))
            && (forall key :: !ModelRace(series, key))
  {
    forall order | multiset(order) == multiset(series) && Records(order) == None
      ensures (exists s <- series :: Malformed(s)) || (exists key :: Clash(series, key) || ModelRace(series, key))
    {
      SameElements(order, series);
      RefusalHasAReason(order);
      if key :| Clash(order, key) || ModelRace(order, key) {
        SameReasons(order, series, key);
      }
    }
    if (exists s <- series :: Malformed(s)) || exists key :: Clash(series, key) {
      if s :| s in series && Malformed(s) {
        ClashesAreRefused(series, KeyOf(s));
      } else if key :| Clash(series, key) {
        ClashesAreRefused(series, key);
      }
      assert Records(series) == None;
    } else if key :| ModelRace(series, key) {
      var order := RaceFirst(series, key);
      assert multiset(order) == multiset(series) && Records(order) == None;
    }
  }

  /** Of racing series some order is refused. */
  lemma RaceFirst(series: seq<Series>, key: Key) returns (order: seq<Series>)
    requires ModelRace(series, key)
    ensures multiset(order) == multiset(series) && Records(order) == None
  {
    var a, c :| Contradicts(series, key, a, c) &&
      (a.reportedAt == c.reportedAt || exists e :: Unnamed(series, key, e, c.reportedAt.value));
    if a.reportedAt == c.reportedAt {
      var rest := BringForward(series, a, c);
      order := [a, c] + rest;
      SameTimeIsRefused(a, c);
      assert order[..2] == [a, c];
      FailureIsFinal(order, 2);
    } else {
      var e :| Unnamed(series, key, e, c.reportedAt.value);
      var rest := BringThreeForward(series, a, e, c);
      order := [a, e, c] + rest;
      CarriedModelIsRefused(a, e, c);
      assert order[..3] == [a, e, c];
      FailureIsFinal(order, 3);
    }
  }

  lemma SameTimeIsRefused(a: Series, c: Series)
    requires Contradicts([a, c], KeyOf(a), a, c) && a.reportedAt == c.reportedAt
    ensures Records([a, c]) == None
  {
    assert [a, c][..1] == [a] && [a][..0] == [];
    if Records([a]).Some? {
      assert Records([a]).value[KeyOf(a)] == State(a.serial, a.wwn, a.model, a.reportedAt.value);
    }
  }

  lemma CarriedModelIsRefused(a: Series, e: Series, c: Series)
    requires Contradicts([a, c], KeyOf(a), a, c) && a.reportedAt.value < c.reportedAt.value
    requires KeyOf(e) == KeyOf(a) && e.model == "" && e.reportedAt == c.reportedAt
    ensures Records([a, e, c]) == None
  {
    assert [a, e, c][..2] == [a, e] && [a, e][..1] == [a] && [a][..0] == [];
    if Records([a, e]).Some? {
      assert Records([a]).value[KeyOf(a)] == State(a.serial, a.wwn, a.model, a.reportedAt.value);
      var state := Records([a, e]).value[KeyOf(a)];
      assert state.model == a.model && state.reportedAt == c.reportedAt.value;
    }
  }

  /** Differing models are refused in one order of the series and accepted in another. */
  lemma ModelRefusalDependsOnOrder(host: string, device: string, x: string, y: string)
    requires host != "" && device != "" && x != "" && y != "" && x != y
    ensures
      var a := Series(host, device, "", "", x, Some(1));
      var b := Series(host, device, "", "", y, Some(1));
      var c := Series(host, device, "", "", x, Some(2));
      Records([a, b, c]) == None && Records([a, c, b]).Some?
  {
    var a := Series(host, device, "", "", x, Some(1));
    var b := Series(host, device, "", "", y, Some(1));
    var c := Series(host, device, "", "", x, Some(2));
    assert [a, b, c][..2] == [a, b] && [a, b][..1] == [a] && [a][..0] == [];
    assert [a, c, b][..2] == [a, c] && [a, c][..1] == [a];
    assert Records([a]) == Some(map[KeyOf(a) := State("", "", x, 1)]);
    assert Records([a, b]) == None;
    assert map[KeyOf(a) := State("", "", x, 1)][KeyOf(a) := State("", "", x, 2)] ==
           map[KeyOf(a) := State("", "", x, 2)];
    assert Records([a, c]) == Some(map[KeyOf(a) := State("", "", x, 2)]);
  }

  // ---------------------------------------------------------------------------
  // Second loop: stable ids

  function StableId(key: Key, state: State): DeviceId {
    DeviceId(key.host,
      if state.wwn != "" then ByWwn(state.wwn) else if state.serial != "" then BySerial(state.serial)
          else ByDevice(key.device))
  }

  function DeviceOf(key: Key, state: State): Device {
    Device(StableId(key, state), key.host, key.device, state.model, state.reportedAt, state.serial, state.wwn)
  }

  /** Two devices that cannot be told apart for good. */
  predicate SameIdentity(a: Device, b: Device) {
    || a.id == b.id
    || (a.host == b.host && a.serial != "" && a.serial == b.serial)
    || (a.host == b.host && a.wwn != "" && a.wwn == b.wwn)
  }

  /** The id is that of the WWN, failing that of the serial number, failing that of the device name. */
  ghost predicate IdFits(d: Device) {
    && d.id.host == d.host
    && (d.wwn != "" ==> d.id.identity == ByWwn(d.wwn))
    && (d.wwn == "" && d.serial != "" ==> d.id.identity == BySerial(d.serial))
    && (d.wwn == "" && d.serial == "" ==> d.id.identity == ByDevice(d.device))
  }

  /** Two records of one host have one serial number or one WWN. */
  ghost predicate ShareIdentity(k: Key, a: State, l: Key, b: State) {
    k.host == l.host && ((a.serial != "" && a.serial == b.serial) || (a.wwn != "" && a.wwn == b.wwn))
  }

  lemma SameIdentityExactly(k: Key, a: State, l: Key, b: State)
    requires k != l
    ensures SameIdentity(DeviceOf(k, a), DeviceOf(l, b)) <==> ShareIdentity(k, a, l, b)
  {
  }

  ghost predicate AllDistinct(records: map<Key, State>, keys: set<Key>)
    requires keys <= records.Keys
  {
    forall k, l | k in keys && l in keys && k != l :: !SameIdentity(DeviceOf(k, records[k]), DeviceOf(l, records[l]))
  }

  /** Records become devices of different ids exactly when no two of one host share a serial number or WWN. */
  lemma DistinctUnlessShared(records: map<Key, State>)
    ensures AllDistinct(records, records.Keys) <==>
            forall k, l | k in records && l in records && k != l :: !ShareIdentity(k, records[k], l, records[l])
  {
    forall k, l | k in records && l in records && k != l
      ensures SameIdentity(DeviceOf(k, records[k]), DeviceOf(l, records[l])) <==>
              ShareIdentity(k, records[k], l, records[l])
    {
      SameIdentityExactly(k, records[k], l, records[l]);
    }
  }

  datatype Owner = Owner(host: string, text: string)

  /** The three indexes list what the devices placed so far have claimed. */
  ghost predicate Indexed(records: map<Key, State>, placed: set<Key>,
                          ids: map<DeviceId, Key>, serials: map<Owner, DeviceId>, wwns: map<Owner, DeviceId>)
    requires placed <= records.Keys
  {
    && (forall id <- ids :: ids[id] in placed && StableId(ids[id], records[ids[id]]) == id)
    && (forall k <- placed :: StableId(k, records[k]) in ids && ids[StableId(k, records[k])] == k)
    && (forall o <- serials :: exists k <- placed :: records[k].serial == o.text != "" && k.host == o.host)
    && (forall k <- placed :: records[k].serial != "" ==>
          Owner(k.host, records[k].serial) in serials && serials[Owner(k.host, records[k].serial)] == StableId(k,
              records[k]))
    && (forall o <- wwns :: exists k <- placed :: records[k].wwn == o.text != "" && k.host == o.host)
    && (forall k <- placed :: records[k].wwn != "" ==>
          Owner(k.host, records[k].wwn) in wwns && wwns[Owner(k.host, records[k].wwn)] == StableId(k, records[k]))
  }

  /** Whether the three index tests let a device through. */
  predicate Claims(records: map<Key, State>, key: Key, ids: map<DeviceId, Key>, serials: map<Owner, DeviceId>,
      wwns: map<Owner, DeviceId>)
    requires key in records
  {
    var state := records[key];
    var id := StableId(key, state);
    var serial, wwn := Owner(key.host, state.serial), Owner(key.host, state.wwn);
    && !(id in ids && ids[id] != key)
    && !(state.serial != "" && serial in serials && serials[serial] != id)
    && !(state.wwn != "" && wwn in wwns && wwns[wwn] != id)
  }

  /** The device shares no identity with those placed. */
  predicate ClearOf(records: map<Key, State>, placed: set<Key>, key: Key)
    requires placed <= records.Keys && key in records
  {
    forall k <- placed :: !SameIdentity(DeviceOf(key, records[key]), DeviceOf(k, records[k]))
  }

  /** The tests refuse exactly the devices that clash with one placed before. */
  lemma {:induction false} ClaimsExactly(records: map<Key, State>, placed: set<Key>, key: Key,
                      ids: map<DeviceId, Key>, serials: map<Owner, DeviceId>, wwns: map<Owner, DeviceId>)
    requires placed <= records.Keys && key in records && key !in placed
    requires Indexed(records, placed, ids, serials, wwns)
    ensures Claims(records, key, ids, serials, wwns) <==> ClearOf(records, placed, key)
  {
    var state := records[key];
    var id := StableId(key, state);
    if !Claims(records, key, ids, serials, wwns) {
      if id in ids && ids[id] != key {
        assert ids[id] in placed;
      } else if state.serial != "" && Owner(key.host, state.serial) in serials &&
          serials[Owner(key.host, state.serial)] != id {
        var k :| k in placed && records[k].serial == state.serial && k.host == key.host;
        assert SameIdentity(DeviceOf(key, state), DeviceOf(k, records[k]));
      }
    }
  }

  lemma {:induction false} IndexedOneMore(records: map<Key, State>, placed: set<Key>, key: Key,
                       ids: map<DeviceId, Key>, serials: map<Owner, DeviceId>, wwns: map<Owner, DeviceId>)
    requires placed <= records.Keys && key in records && key !in placed
    requires Indexed(records, placed, ids, serials, wwns)
    requires ClearOf(records, placed, key)
    ensures
      var state, id := records[key], StableId(key, records[key]);
      Indexed(records, placed + {key}, ids[id := key],
              if state.serial != "" then serials[Owner(key.host, state.serial) := id] else serials,
              if state.wwn != "" then wwns[Owner(key.host, state.wwn) := id] else wwns)
  {
    forall k <- placed
      ensures StableId(k, records[k]) != StableId(key, records[key])
      ensures k.host == key.host && records[k].serial == records[key].serial ==> records[k].serial == ""
      ensures k.host == key.host && records[k].wwn == records[key].wwn ==> records[k].wwn == ""
    {
      assert !SameIdentity(DeviceOf(key, records[key]), DeviceOf(k, records[k]));
    }
    assert key in placed + {key};
  }

  lemma DistinctOneMore(records: map<Key, State>, placed: set<Key>, key: Key)
    requires placed <= records.Keys && key in records && key !in placed
    requires AllDistinct(records, placed)
    ensures AllDistinct(records, placed + {key}) <==> ClearOf(records, placed, key)
    ensures !ClearOf(records, placed, key) ==> !AllDistinct(records, records.Keys)
  {
    if !ClearOf(records, placed, key) {
      var k :| k in placed && SameIdentity(DeviceOf(key, records[key]), DeviceOf(k, records[k]));
      assert k in placed + {key} && key in placed + {key};
    }
  }

  /**
   Devices are placed in whatever order the map yields them.  The result does not
   depend on it: all records become devices exactly when no two share an identity.
   */
  method AssignIds(records: map<Key, State>) returns (result: Option<map<Key, Device>>)
    ensures result.Some? <==> AllDistinct(records, records.Keys)
    ensures result.Some? ==> result.value == map key <- records :: DeviceOf(key, records[key])
  {
    var states: map<Key, Device> := map[];
    var ids: map<DeviceId, Key> := map[];
    var serials: map<Owner, DeviceId>, wwns: map<Owner, DeviceId> := map[], map[];
    var rest := records.Keys;
    ghost var placed: set<Key> := {};
    while rest != {}
      invariant rest + placed == records.Keys && rest !! placed
      invariant Indexed(records, placed, ids, serials, wwns) && AllDistinct(records, placed)
      invariant states == map key <- placed :: DeviceOf(key, records[key])
      decreases rest
    {
      var key :| key in rest;
      rest := rest - {key};
      var state := records[key];
      var id := StableId(key, state);
      ClaimsExactly(records, placed, key, ids, serials, wwns);
      DistinctOneMore(records, placed, key);
      if !Claims(records, key, ids, serials, wwns) {
        return None;
      }
      IndexedOneMore(records, placed, key, ids, serials, wwns);
      ids := ids[id := key];
      if state.serial != "" {
        serials := serials[Owner(key.host, state.serial) := id];
      }
      if state.wwn != "" {
        wwns := wwns[Owner(key.host, state.wwn) := id];
      }
      states := states[key := DeviceOf(key, state)];
      placed := placed + {key};
    }
    assert placed == records.Keys;
    return Some(states);
  }

  method BuildDiskStates(inventory: seq<Series>) returns (result: Option<map<Key, Device>>)
    ensures result.Some? <==>
              && Records(inventory).Some?
              && var records := Records(inventory).value;
                 forall k, l | k in records && l in records && k != l :: !ShareIdentity(k, records[k], l, records[l])
    ensures result.Some? ==>
      && (forall s <- inventory :: Key(s.host, s.device) in result.value)
      && (forall key <- result.value ::
            var d := result.value[key];
            d.host == key.host && d.device == key.device && IdFits(d) &&
                Describes(inventory, key, State(d.serial, d.wwn, d.model, d.reportedAt)))
      && (forall k, l | k in result.value && l in result.value && k != l :: result.value[k].id != result.value[l].id)
  {
    var records := BuildRecords(inventory);
    if records.None? {
      return None;
    }
    RecordsDescribe(inventory);
    DistinctUnlessShared(records.value);
    result := AssignIds(records.value);
  }
}
