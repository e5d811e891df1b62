/**
 The Java and the Elasticsearch inventories: one record per entity, taken from
 unordered series.  Elasticsearch drops an address that the newest series dispute;
 Java refuses the whole inventory when it meets two disagreeing series of one time.
 */
module ServiceInventory {
  import opened Optional
  import opened Rearrangement
  import opened SampleMerge

  /** A series as the loop sees it: passed over, fatal, or a statement about an entity. */
  datatype Listed<K, C> = Skipped | Malformed | Listed(key: K, content: C, at: Time)

  predicate Names<K(==), C>(l: Listed<K, C>, key: K) {
    l.Listed? && l.key == key
  }

  /** What the series say about one entity, in their order. */
  function SamplesFor<K(==), C(!new)>(series: seq<Listed<K, C>>, key: K): (samples: seq<Sample<C>>)
    ensures samples != [] <==> exists l <- series :: Names(l, key)
    ensures forall x :: x in samples <==> exists l <- series :: Names(l, key) && x == Sample(l.content, l.at)
  {
    if series == [] then []
    else
      assert series == series[..|series| - 1] + [series[|series| - 1]];
      var before, l := SamplesFor(series[..|series| - 1], key), series[|series| - 1];
      if Names(l, key) then before + [Sample(l.content, l.at)] else before
  }

  // ---------------------------------------------------------------------------
  // Java services

  /** Service ids hash the trimmed name and address; the record keeps them untrimmed. */
  datatype ServiceId = ServiceId(name: string, address: string)

  datatype Service = Service(name: string, address: string, reportedAt: Time)

  type JavaSeries = Listed<ServiceId, Service>

  type Services = map<ServiceId, Sample<Service>>

  function Absorb(services: Services, l: JavaSeries): Option<Services> {
    match l
    case Skipped => Some(services)
    case Malformed => None
    case Listed(id, content, at) =>
      if id !in services || at > services[id].at then Some(services[id := Sample(content, at)])
      else if at == services[id].at && services[id].value != content then None
      else Some(services)
  }

  function Records(series: seq<JavaSeries>): Option<Services> {
    if series == [] then Some(map[])
    else
      var before := Records(series[..|series| - 1]);
      if before.None? then None else Absorb(before.value, series[|series| - 1])
  }

  method BuildJavaInventory(series: seq<JavaSeries>) returns (result: Option<Services>)
    ensures result == Records(series)
  {
    var states: Services := map[];
    for i := 0 to |series|
      invariant Records(series[..i]) == Some(states)
    {
      assert series[..i + 1][..i] == series[..i];
      match series[i] {
        case Skipped =>
        case Malformed =>
          FailureIsFinal(series, i + 1);
          return None;
        case Listed(id, content, at) =>
          if id !in states {
            states := states[id := Sample(content, at)];
          } else if at >= states[id].at {
            if at == states[id].at {
              if states[id].value != content {
                FailureIsFinal(series, i + 1);
                return None;
              }
            } else {
              states := states[id := Sample(content, at)];
            }
          }
      }
    }
    assert series[..|series|] == series;
    return Some(states);
  }

  lemma {:induction false} FailureIsFinal(series: seq<JavaSeries>, n: nat)
    requires n <= |series| && Records(series[..n]) == None
    ensures Records(series) == None
  {
    if n == |series| {
      assert series[..n] == series;
    } else {
      assert series[..|series| - 1][..n] == series[..n];
      FailureIsFinal(series[..|series| - 1], n);
    }
  }

  lemma {:induction false} AcceptedIsWellFormed(series: seq<JavaSeries>)
    requires Records(series).Some?
    ensures forall l <- series :: !l.Malformed?
  {
    if series != [] {
      var before, l := series[..|series| - 1], series[|series| - 1];
      assert series == before + [l];
      AcceptedIsWellFormed(before);
    }
  }

  /** In whatever order the series came: an accepted inventory holds each service's newest statement. */
  lemma {:induction false} AcceptedIsNewest(series: seq<JavaSeries>, id: ServiceId)
    requires Records(series).Some?
    ensures if id in Records(series).value then Holds(SamplesFor(series, id), Records(series).value[id])
        else SamplesFor(series, id) == []
  {
    if series != [] {
      var before, l := series[..|series| - 1], series[|series| - 1];
      AcceptedIsNewest(before, id);
      if Names(l, id) {
        assert SamplesFor(series, id) == SamplesFor(before, id) + [Sample(l.content, l.at)];
        if id in Records(before).value {
          HoldsNext(SamplesFor(before, id), Records(before).value[id], Sample(l.content, l.at));
        } else {
          HoldsFirst(Sample(l.content, l.at));
        }
      }
    }
  }

  /** The record is the newest sample, and the newest samples agree. */
  ghost predicate Holds<C(!new)>(samples: seq<Sample<C>>, record: Sample<C>) {
    samples != [] && Newest(samples) == Some(record.value) && LatestAt(samples) == record.at
  }

  lemma HoldsFirst<C(!new)>(s: Sample<C>)
    ensures Holds([] + [s], s)
  {
    assert [] + [s] == [s];
    MeaningExtends([s], s);
  }

  lemma HoldsNext<C(!new)>(samples: seq<Sample<C>>, record: Sample<C>, s: Sample<C>)
    requires Holds(samples, record)
    ensures s.at > record.at ==> Holds(samples + [s], s)
    ensures s.at < record.at || s == record ==> Holds(samples + [s], record)
  {
    MeaningExtends(samples, s);
  }

  /** Two series name one service and one time, and differ. */
  ghost predicate Disagree(a: JavaSeries, b: JavaSeries) {
    a.Listed? && b.Listed? && a.key == b.key && a.at == b.at && a.content != b.content
  }

  ghost predicate Clashes(series: seq<JavaSeries>) {
    exists a, b :: a in series && b in series && Disagree(a, b)
  }

  lemma {:induction false} RefusalHasAReason(series: seq<JavaSeries>)
    requires Records(series) == None
    ensures Clashes(series) || exists l <- series :: l.Malformed?
  {
    var before, l := series[..|series| - 1], series[|series| - 1];
    assert series == before + [l];
    if Records(before).None? {
      RefusalHasAReason(before);
      if Clashes(before) {
        var a, b :| a in before && b in before && Disagree(a, b);
        assert a in series && b in series;
      }
    } else if l.Listed? {
      var r := Records(before).value[l.key];
      AcceptedIsNewest(before, l.key);
      var a := RecordWasListed(before, l.key);
      assert a in series && l in series && Disagree(a, l);
    } else {
      assert l in series;
    }
  }

  lemma RecordWasListed(series: seq<JavaSeries>, id: ServiceId) returns (l: JavaSeries)
    requires Records(series).Some? && id in Records(series).value
    ensures l in series && Names(l, id) && Sample(l.content, l.at) == Records(series).value[id]
  {
    var r, samples := Records(series).value[id], SamplesFor(series, id);
    AcceptedIsNewest(series, id);
    assert IsNewest(samples, r.value);
    var x :| x in samples && x.at == LatestAt(samples);
    assert x.value == r.value;
    l :| l in series && Names(l, id) && x == Sample(l.content, l.at);
  }

  /**
   No order of the series is refused if and only if none is malformed and no two of
   them disagree about one service at one time, the newest or an older one.
   */
  lemma AcceptedInEveryOrder(series: seq<JavaSeries>)
    ensures (forall order | multiset(order) == multiset(series) :: Records(order).Some?) <==>
            !Clashes(series) && forall l <- series :: !l.Malformed?
  {
    forall order | multiset(order) == multiset(series) && Records(order) == None
      ensures Clashes(series) || exists l <- series :: l.Malformed?
    {
      SameElements(order, series);
      RefusalHasAReason(order);
    }
    if l :| l in series && l.Malformed? {
      MalformedIsRefused(series, l);
      assert Records(series) == None;
    }
    if a, b :| a in series && b in series && Disagree(a, b) {
      var order := ClashFirst(series, a, b);
      assert multiset(order) == multiset(series) && Records(order) == None;
    }
  }

  lemma MalformedIsRefused(series: seq<JavaSeries>, l: JavaSeries)
    requires l in series && l.Malformed?
    ensures Records(series) == None
  {
    if Records(series).Some? {
      AcceptedIsWellFormed(series);
    }
  }

  lemma ClashFirst(series: seq<JavaSeries>, a: JavaSeries, b: JavaSeries) returns (order: seq<JavaSeries>)
    requires a in series && b in series && Disagree(a, b)
    ensures multiset(order) == multiset(series) && Records(order) == None
  {
    var rest := BringForward(series, a, b);
    order := [a, b] + rest;
    ClashIsRefused(a, b, rest);
  }

  lemma ClashIsRefused(a: JavaSeries, b: JavaSeries, rest: seq<JavaSeries>)
    requires Disagree(a, b)
    ensures Records([a, b] + rest) == None
  {
    assert [a, b][..1] == [a] && [a][..0] == [];
    assert Records([a]) == Some(map[a.key := Sample(a.content, a.at)]);
    assert Records([a, b]) == None;
    assert ([a, b] + rest)[..2] == [a, b];
    FailureIsFinal([a, b] + rest, 2);
  }

  /** A disagreement about the newest time is refused in every order. */
  lemma NewestClashIsRefused(series: seq<JavaSeries>, id: ServiceId)
    requires SamplesFor(series, id) != [] && Newest(SamplesFor(series, id)) == None
    ensures Records(series) == None
  {
    if Records(series).Some? {
      AcceptedIsNewest(series, id);
    }
  }

  /** A disagreement about an older time is refused or not as the newest series comes last or first. */
  lemma OlderClashDependsOnOrder(id: ServiceId, x: Service, y: Service, z: Service, early: Time, newer: Time)
    requires x != y && early < newer
    ensures var a, b, c := Listed(id, x, early), Listed(id, y, early), Listed(id, z, newer);
      Records([a, b, c]) == None && Records([c, a, b]) == Some(map[id := Sample(z, newer)])
  {
    var a: JavaSeries, b: JavaSeries, c: JavaSeries := Listed(id, x, early), Listed(id, y, early), Listed(id, z, newer);
    assert [a, b, c][..2] == [a, b] && [a, b][..1] == [a] && [a][..0] == [];
    assert Records([a]) == Some(map[id := Sample(x, early)]);
    assert Records([a, b]) == None;
    assert [c, a, b][..2] == [c, a] && [c, a][..1] == [c] && [c][..0] == [];
    assert Records([c]) == Some(map[id := Sample(z, newer)]);
    assert Records([c, a]) == Records([c]);
  }

  // ---------------------------------------------------------------------------
  // Elasticsearch nodes

  /** A node is named by its cluster and its own name. */
  datatype NodeKey = NodeKey(cluster: string, name: string)

  type NodeSeries = Listed<NodeKey, string>

  datatype Node = Node(address: string, reportedAt: Time, conflict: bool)

  type Nodes = map<NodeKey, Node>

  function AbsorbNode(nodes: Nodes, l: NodeSeries): Nodes {
    if !l.Listed? then nodes
    else if l.key !in nodes || l.at > nodes[l.key].reportedAt then nodes[l.key := Node(l.content, l.at, false)]
    else if l.at == nodes[l.key].reportedAt && !nodes[l.key].conflict && l.content != nodes[l.key].address then
      nodes[l.key := Node("", l.at, true)]
    else nodes
  }

  function NodesOf(series: seq<NodeSeries>): Nodes {
    if series == [] then map[] else AbsorbNode(NodesOf(series[..|series| - 1]), series[|series| - 1])
  }

  /** The inventory, or nothing when no series names a node. */
  method BuildNodeInventory(series: seq<NodeSeries>) returns (result: Option<Nodes>)
    ensures result == if NodesOf(series) == map[] then None else Some(NodesOf(series))
  {
    var states: Nodes := map[];
    for i := 0 to |series|
      invariant states == NodesOf(series[..i])
    {
      assert series[..i + 1][..i] == series[..i];
      var l := series[i];
      if l.Listed? {
        if l.key !in states {
          states := states[l.key := Node(l.content, l.at, false)];
        } else if l.at > states[l.key].reportedAt {
          states := states[l.key := Node(l.content, l.at, false)];
        } else if l.at == states[l.key].reportedAt && !states[l.key].conflict && l.content != states[l.key].address {
          states := states[l.key := states[l.key].(address := "", conflict := true)];
        }
      }
    }
    assert series[..|series|] == series;
    if |states| == 0 {
      return None;
    }
    return Some(states);
  }

  /** What a node record says of the newest address and time. */
  predicate NodeFits(node: Node, newest: Option<string>, latest: Time) {
    && node.reportedAt == latest
    && (node.conflict <==> newest.None?)
    && node.address == (if newest.Some? then newest.value else "")
  }

  lemma NodeExtends(nodes: Nodes, newest: Option<string>, latest: Time, l: NodeSeries)
    requires l.Listed?
    requires l.key in nodes ==> NodeFits(nodes[l.key], newest, latest)
    ensures l.key in AbsorbNode(nodes, l)
    ensures if l.key in nodes
            then var (n, t) := Extended(newest, latest, Sample(l.content, l.at)); NodeFits(AbsorbNode(nodes,
                l)[l.key], n, t)
            else NodeFits(AbsorbNode(nodes, l)[l.key], Some(l.content), l.at)
  {
  }

  /** A node carries its newest report time and the address all series of that time give, or none. */
  lemma {:induction false} NodeIsNewest(series: seq<NodeSeries>, key: NodeKey)
    ensures if key in NodesOf(series)
            then SamplesFor(series, key) != [] && NodeFits(NodesOf(series)[key], Newest(SamplesFor(series, key)),
                LatestAt(SamplesFor(series, key)))
            else SamplesFor(series, key) == []
  {
    if series != [] {
      var before, l := series[..|series| - 1], series[|series| - 1];
      NodeIsNewest(before, key);
      if Names(l, key) {
        var samples, s := SamplesFor(before, key), Sample(l.content, l.at);
        assert SamplesFor(series, key) == samples + [s];
        MeaningExtends(samples, s);
        if samples == [] {
          assert samples + [s] == [s];
          NodeExtends(NodesOf(before), None, 0, l);
        } else {
          NodeExtends(NodesOf(before), Newest(samples), LatestAt(samples), l);
        }
      }
    }
  }

  lemma SamplesForSameElements<K, C(!new)>(s: seq<Listed<K, C>>, t: seq<Listed<K, C>>, key: K)
    requires multiset(s) == multiset(t)
    ensures forall x :: x in SamplesFor(s, key) <==> x in SamplesFor(t, key)
    ensures SamplesFor(s, key) != [] <==> SamplesFor(t, key) != []
  {
    SameElements(s, t);
  }

  /** The node inventory does not depend on the order of the series. */
  lemma NodesIgnoreOrder(s: seq<NodeSeries>, t: seq<NodeSeries>)
    requires multiset(s) == multiset(t)
    ensures NodesOf(s) == NodesOf(t)
  {
    forall key ensures key in NodesOf(s) <==> key in NodesOf(t)
      ensures key in NodesOf(s) ==> NodesOf(s)[key] == NodesOf(t)[key]
    {
      NodeIsNewest(s, key);
      NodeIsNewest(t, key);
      SamplesForSameElements(s, t, key);
      if key in NodesOf(s) {
        NewestOfElements(SamplesFor(s, key), SamplesFor(t, key));
      }
    }
  }

  /** The meaning depends on which samples there are, not on how often or where. */
  lemma NewestOfElements<V(!new)>(s: seq<Sample<V>>, t: seq<Sample<V>>)
    requires s != [] && t != [] && forall x :: x in s <==> x in t
    ensures Newest(s) == Newest(t) && LatestAt(s) == LatestAt(t)
  {
    forall v ensures IsNewest(s, v) <==> IsNewest(t, v) {}
    if Newest(s).Some? {
      NewestIsUnique(t, Newest(s).value);
    }
  }
}
