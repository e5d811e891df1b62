/**
 RabbitMQ nodes that the inventory does not know but that connection series mention,
 name hints collected across queries, the join of series to nodes, and the cluster
 count of unreachable peers.
 */
module RabbitDiscovery {
  import opened Optional
  import opened RabbitInventory

  // ---------------------------------------------------------------------------
  // Name hints

  /** The non-empty names that series give to a join key. */
  function NamesFor(labels: seq<Labels>, key: JoinKey): set<string> {
    set l <- labels | l.collection == key.collection != "" && l.instance == key.instance != "" && l.node != "" :: l.node
  }

  function Flatten<T>(groups: seq<seq<T>>): seq<T> {
    if groups == [] then [] else Flatten(groups[..|groups| - 1]) + groups[|groups| - 1]
  }

  /** What is known of one join key after these names: the only name, or that there are several. */
  ghost predicate HintFits(names: set<string>, hint: Option<string>, conflict: bool) {
    && (hint.Some? <==> names != {} && !conflict)
    && (hint.Some? ==> names == {hint.value})
    && (conflict <==> exists a, b :: a in names && b in names && a != b)
  }

  function HintAt(hints: map<JoinKey, string>, key: JoinKey): Option<string> {
    if key in hints then Some(hints[key]) else None
  }

  ghost predicate HintsFit(hints: map<JoinKey, string>, conflicts: set<JoinKey>, seen: seq<Labels>) {
    forall key :: HintFits(NamesFor(seen, key), HintAt(hints, key), key in conflicts)
  }

  lemma OneMoreName(names: set<string>, hint: Option<string>, name: string)
    requires HintFits(names, hint, false)
    ensures hint.Some? && hint.value != name ==> HintFits(names + {name}, None, true)
    ensures hint.None? || hint.value == name ==> HintFits(names + {name}, Some(name), false)
  {
    if hint.Some? && hint.value != name {
      assert hint.value in names + {name} && name in names + {name};
    }
  }

  lemma MoreConflict(names: set<string>, name: string)
    requires HintFits(names, None, true)
    ensures HintFits(names + {name}, None, true)
  {
    var a, b :| a in names && b in names && a != b;
    assert a in names + {name} && b in names + {name};
  }

  lemma NamesGrow(seen: seq<Labels>, l: Labels, key: JoinKey)
    ensures NamesFor(seen + [l], key) ==
              if SampleKey(l) == Some(key) && l.node != "" then NamesFor(seen, key) + {l.node} else NamesFor(seen, key)
  {
    assert forall x :: x in seen + [l] <==> x in seen || x == l;
  }

  /** One series changes what is known of its own join key only. */
  function HintOne(hints: map<JoinKey, string>, conflicts: set<JoinKey>, l: Labels)
    : (map<JoinKey, string>, set<JoinKey>)
  {
    if SampleKey(l).None? || l.node == "" || SampleKey(l).value in conflicts then (hints, conflicts)
    else
      var key := SampleKey(l).value;
      if key in hints && hints[key] != l.node then (hints - {key}, conflicts + {key})
      else (hints[key := l.node], conflicts)
  }

  lemma HintStep(hints: map<JoinKey, string>, conflicts: set<JoinKey>, seen: seq<Labels>, l: Labels)
    requires HintsFit(hints, conflicts, seen)
    ensures var (hints', conflicts') := HintOne(hints, conflicts, l); HintsFit(hints', conflicts', seen + [l])
  {
    var (hints', conflicts') := HintOne(hints, conflicts, l);
    forall key ensures HintFits(NamesFor(seen + [l], key), HintAt(hints', key), key in conflicts') {
      assert HintFits(NamesFor(seen, key), HintAt(hints, key), key in conflicts);
      NamesGrow(seen, l, key);
      if SampleKey(l) == Some(key) && l.node != "" {
        if key in conflicts {
          MoreConflict(NamesFor(seen, key), l.node);
        } else {
          OneMoreName(NamesFor(seen, key), HintAt(hints, key), l.node);
        }
      }
    }
  }

  lemma HintsDecide(hints: map<JoinKey, string>, conflicts: set<JoinKey>, seen: seq<Labels>)
    requires HintsFit(hints, conflicts, seen)
    ensures forall key :: key in hints <==>
              NamesFor(seen, key) != {} && forall a, b | a in NamesFor(seen, key) && b in NamesFor(seen, key) :: a == b
    ensures forall key <- hints :: NamesFor(seen, key) == {hints[key]}
  {
    forall key
      ensures key in hints <==>
                NamesFor(seen, key) != {} && forall a, b | a in NamesFor(seen, key) && b in NamesFor(seen, key) ::
                    a == b
      ensures key in hints ==> NamesFor(seen, key) == {hints[key]}
    {
      assert HintFits(NamesFor(seen, key), HintAt(hints, key), key in conflicts);
    }
  }

  lemma NoHints()
    ensures HintsFit(map[], {}, [])
  {
    assert forall key :: NamesFor([], key) == {};
  }

  /** A hint exists for a join key exactly when all its non-empty names, across all queries, are equal. */
  method NodeNameHints(results: seq<seq<Labels>>) returns (hints: map<JoinKey, string>)
    ensures forall key :: key in hints <==>
              NamesFor(Flatten(results), key) != {} &&
              forall a, b | a in NamesFor(Flatten(results), key) && b in NamesFor(Flatten(results), key) :: a == b
    ensures forall key <- hints :: NamesFor(Flatten(results), key) == {hints[key]}
  {
    hints := map[];
    var conflicts: set<JoinKey> := {};
    NoHints();
    for i := 0 to |results|
      invariant HintsFit(hints, conflicts, Flatten(results[..i]))
    {
      var group := results[i];
      assert results[..i + 1][..i] == results[..i];
      assert Flatten(results[..i]) + group[..0] == Flatten(results[..i]);
      for j := 0 to |group|
        invariant HintsFit(hints, conflicts, Flatten(results[..i]) + group[..j])
      {
        var l := group[j];
        HintStep(hints, conflicts, Flatten(results[..i]) + group[..j], l);
        assert Flatten(results[..i]) + group[..j] + [l] == Flatten(results[..i]) + group[..j + 1];
        var joinKey := SampleKey(l);
        if joinKey.Some? && l.node != "" && joinKey.value !in conflicts {
          var key := joinKey.value;
          if key in hints && hints[key] != l.node {
            hints := hints - {key};
            conflicts := conflicts + {key};
          } else {
            hints := hints[key := l.node];
          }
        }
      }
      assert group[..|group|] == group;
    }
    assert results[..|results|] == results;
    HintsDecide(hints, conflicts, Flatten(results));
  }

  // ---------------------------------------------------------------------------
  // The cluster of a collection

  function Matching(clusters: map<ClusterId, Cluster>, collection: string): set<ClusterId> {
    set id <- clusters | collection in clusters[id].collections
  }

  /** The only cluster with this collection; failing any, the only cluster there is. */
  ghost predicate Sole(clusters: map<ClusterId, Cluster>, collection: string, id: ClusterId) {
    Matching(clusters, collection) == {id} || (Matching(clusters, collection) == {} && clusters.Keys == {id})
  }

  ghost predicate IsClusterFor(clusters: map<ClusterId, Cluster>, collection: string, found: Option<ClusterId>) {
    match found
    case Some(id) => Sole(clusters, collection, id)
    case None => forall id :: !Sole(clusters, collection, id)
  }

  lemma ClusterForIsUnique(clusters: map<ClusterId, Cluster>, collection: string, a: Option<ClusterId>,
      b: Option<ClusterId>)
    requires IsClusterFor(clusters, collection, a) && IsClusterFor(clusters, collection, b)
    ensures a == b
  {
    if a.Some? && b.Some? {
      assert a.value in Matching(clusters, collection) || a.value in clusters.Keys;
      assert b.value in {a.value};
    }
  }

  ghost function ClusterFor(clusters: map<ClusterId, Cluster>, collection: string): (found: Option<ClusterId>)
    ensures IsClusterFor(clusters, collection, found)
  {
    if exists id :: Sole(clusters, collection, id)
    then (var id :| Sole(clusters, collection, id); Some(id))
    else None
  }

  /** The loop gives up at the second match; the order in which keys are listed does not matter. */
  method ClusterForCollection(clusters: map<ClusterId, Cluster>, collection: string) returns (found: Option<ClusterId>)
    ensures found == ClusterFor(clusters, collection)
  {
    found := None;
    var rest := clusters.Keys;
    while rest != {}
      invariant rest <= clusters.Keys
      invariant found.None? ==> Matching(clusters, collection) <= rest
      invariant found.Some? ==> found.value in Matching(clusters, collection) && found.value !in rest
      invariant found.Some? ==> Matching(clusters, collection) <= rest + {found.value}
      decreases rest
    {
      var id :| id in rest;
      rest := rest - {id};
      if collection in clusters[id].collections {
        if found.Some? {
          assert {id, found.value} <= Matching(clusters, collection);
          ghost var other := found.value;
          found := None;
          assert forall x :: Matching(clusters, collection) != {x} by {
            forall x ensures Matching(clusters, collection) != {x} {
              assert id in Matching(clusters, collection) && other in Matching(clusters, collection) && id != other;
            }
          }
          ClusterForIsUnique(clusters, collection, found, ClusterFor(clusters, collection));
          return;
        }
        found := Some(id);
      }
    }
    if found.Some? {
      assert Matching(clusters, collection) == {found.value};
    } else if |clusters| == 1 {
      var id :| id in clusters.Keys;
      OnlyElement(clusters.Keys, id);
      found := Some(id);
    }
    ClusterForIsUnique(clusters, collection, found, ClusterFor(clusters, collection));
  }

  lemma OnlyElement<T>(s: set<T>, x: T)
    requires |s| == 1 && x in s
    ensures s == {x}
  {
    assert |s - {x}| == 0;
  }

  // ---------------------------------------------------------------------------
  // Discovery

  predicate NameExists(inv: Inventory, clusterId: ClusterId, name: string) {
    exists id <- inv.byId :: inv.byId[id].clusterId == clusterId && inv.byId[id].name == name
  }

  function DiscoveredId(identity: string, name: string, instance: string): NodeId {
    NodeId(identity, if name == "" then Observed(instance) else Named(name))
  }

  function NameOf(labels: Labels, key: JoinKey, hints: map<JoinKey, string>): string {
    if labels.node != "" then labels.node else if key in hints then hints[key] else ""
  }

  /** Whether a series is looked at: it joins, and nothing is known under its join key. */
  predicate Considered(inv: Inventory, labels: Labels) {
    SampleKey(labels).Some? && AtJoinKey(inv, SampleKey(labels).value) == []
  }

  /** The cluster a considered series belongs to, and the clusters after making sure it exists. */
  ghost function Assigned(inv: Inventory, labels: Labels): (ClusterId, map<ClusterId, Cluster>) {
    match ClusterFor(inv.clusters, labels.collection)
    case Some(id) => (id, inv.clusters)
    case None =>
      var id := ClusterId(labels.collection);
      (id, inv.clusters[id := Cluster(labels.collection, labels.collection, {labels.collection})])
  }

  lemma AssignedIsThere(inv: Inventory, labels: Labels)
    ensures var (id, clusters) := Assigned(inv, labels); id in clusters && inv.clusters.Keys <= clusters.Keys
  {
    var found := ClusterFor(inv.clusters, labels.collection);
    if found.Some? {
      assert found.value in Matching(inv.clusters, labels.collection) || found.value in inv.clusters.Keys;
    }
  }

  /** The id of a node of this name, or of no name, in the assigned cluster. */
  ghost function IdOf(inv: Inventory, labels: Labels, name: string): NodeId {
    var (clusterId, clusters) := Assigned(inv, labels);
    AssignedIsThere(inv, labels);
    DiscoveredId(clusters[clusterId].identity, name, labels.instance)
  }

  /** The id a series writes a fresh node under, if it writes one: whether or not the id is known already. */
  ghost function Written(inv: Inventory, labels: Labels, hints: map<JoinKey, string>): Option<NodeId> {
    if !Considered(inv, labels) then None
    else
      var name := NameOf(labels, SampleKey(labels).value, hints);
      if name != "" && NameExists(inv, Assigned(inv, labels).0, name) then None
      else Some(IdOf(inv, labels, name))
  }

  ghost function DiscoverOne(inv: Inventory, labels: Labels, hints: map<JoinKey, string>): Inventory {
    if !Considered(inv, labels) then inv
    else
      var key := SampleKey(labels).value;
      var (clusterId, clusters) := Assigned(inv, labels);
      AssignedIsThere(inv, labels);
      match Written(inv, labels, hints)
      case None => inv.(clusters := clusters)
      case Some(id) =>
        var node := Node(id, NameOf(labels, key, hints), clusters[clusterId].name, labels.instance, clusterId);
        Inventory(inv.byId[id := node], inv.byJoinKey[key := [node]], clusters)
  }

  ghost function DiscoverAll(inv: Inventory, series: seq<Labels>, hints: map<JoinKey, string>): Inventory {
    if series == [] then inv
    else DiscoverOne(DiscoverAll(inv, series[..|series| - 1], hints), series[|series| - 1], hints)
  }

  method DiscoverNodes(inv: Inventory, series: seq<Labels>, hints: map<JoinKey, string>) returns (result: Inventory)
    ensures result == DiscoverAll(inv, series, hints)
  {
    result := inv;
    for i := 0 to |series|
      invariant result == DiscoverAll(inv, series[..i], hints)
    {
      assert series[..i + 1][..i] == series[..i];
      result := DiscoverNode(result, series[i], hints);
    }
    assert series[..|series|] == series;
  }

  method DiscoverNode(inv: Inventory, labels: Labels, hints: map<JoinKey, string>) returns (result: Inventory)
    ensures result == DiscoverOne(inv, labels, hints)
  {
    var joinKey := SampleKey(labels);
    if joinKey.None? || AtJoinKey(inv, joinKey.value) != [] {
      return inv;
    }
    var clusters := inv.clusters;
    var found := ClusterForCollection(clusters, labels.collection);
    var clusterId;
    if found.None? {
      clusterId := ClusterId(labels.collection);
      clusters := clusters[clusterId := Cluster(labels.collection, labels.collection, {labels.collection})];
    } else {
      clusterId := found.value;
      assert clusterId in clusters by {
        assert clusterId in Matching(clusters, labels.collection) || clusterId in clusters.Keys;
      }
    }
    var name := labels.node;
    if name == "" && joinKey.value in hints {
      name := hints[joinKey.value];
    }
    if name != "" && NameExists(inv, clusterId, name) {
      return inv.(clusters := clusters);
    }
    var id := DiscoveredId(clusters[clusterId].identity, name, labels.instance);
    var node := Node(id, name, clusters[clusterId].name, labels.instance, clusterId);
    assert AtJoinKey(inv, joinKey.value) + [node] == [node];
    return Inventory(inv.byId[id := node], inv.byJoinKey[joinKey.value := AtJoinKey(inv, joinKey.value) + [node]],
        clusters);
  }

  /** The name a series gives to its node: its own, or else the hint for its join key. */
  ghost predicate Names(labels: Labels, hints: map<JoinKey, string>, name: string) {
    var key := JoinKey(labels.collection, labels.instance);
    && (labels.node != "" ==> name == labels.node)
    && (labels.node == "" && key in hints ==> name == hints[key])
    && (labels.node == "" && key !in hints ==> name == "")
  }

  /**
   What one connection series does, label by label: a series that joins a known node or none at all does
   nothing; another one makes sure of its cluster, and enters a node of its name, or of its instance when it
   has no name, unless the cluster has a node of that name.
   */
  lemma DiscoveredNodeShows(inv: Inventory, labels: Labels, hints: map<JoinKey, string>)
      returns (cid: ClusterId, cluster: Cluster, name: string)
    ensures var r, key := DiscoverOne(inv, labels, hints), JoinKey(labels.collection, labels.instance);
      if labels.collection == "" || labels.instance == "" || AtJoinKey(inv, key) != [] then r == inv
      else
        && (Sole(inv.clusters, labels.collection, cid) || forall id :: !Sole(inv.clusters, labels.collection, id))
        && (if Sole(inv.clusters, labels.collection, cid)
            then cid in inv.clusters && cluster == inv.clusters[cid] && r.clusters == inv.clusters
            else && cid == ClusterId(labels.collection)
                 && cluster == Cluster(labels.collection, labels.collection, {labels.collection})
                 && r.clusters == inv.clusters[cid := cluster])
        && Names(labels, hints, name)
        && var node := Node(
             NodeId(cluster.identity, if name == "" then Observed(labels.instance) else Named(name)),
             name, cluster.name, labels.instance, cid);
           if name != "" && exists id <- inv.byId :: inv.byId[id].clusterId == cid && inv.byId[id].name == name
           then r.byId == inv.byId && r.byJoinKey == inv.byJoinKey
           else r.byId == inv.byId[node.id := node] && r.byJoinKey == inv.byJoinKey[key := [node]]
  {
    cid := ClusterId("");
    cluster := Cluster("", "", {});
    name := "";
    if Considered(inv, labels) {
      AssignedIsThere(inv, labels);
      cid := Assigned(inv, labels).0;
      cluster := Assigned(inv, labels).1[cid];
      name := NameOf(labels, SampleKey(labels).value, hints);
    }
  }

  // ---------------------------------------------------------------------------
  // What discovery keeps

  /** Nodes with a name survive discovery untouched; in particular all nodes of the inventory do. */
  ghost predicate KeepsNamed(a: Inventory, b: Inventory) {
    forall id <- a.byId :: a.byId[id].name != "" ==> id in b.byId && b.byId[id] == a.byId[id]
  }

  lemma DiscoverOneKeepsNamed(inv: Inventory, labels: Labels, hints: map<JoinKey, string>)
    requires Sound(inv)
    ensures KeepsNamed(inv, DiscoverOne(inv, labels, hints))
    ensures inv.byId.Keys <= DiscoverOne(inv, labels, hints).byId.Keys
    ensures inv.clusters.Keys <= DiscoverOne(inv, labels, hints).clusters.Keys
  {
    AssignedIsThere(inv, labels);
  }

  lemma DiscoverOneIsSound(inv: Inventory, labels: Labels, hints: map<JoinKey, string>)
    requires Sound(inv)
    ensures Sound(DiscoverOne(inv, labels, hints))
  {
    AssignedIsThere(inv, labels);
  }

  /**
   Discovery never overwrites an inventory node, keeps every node's cluster present,
   and never yields two nodes of one cluster with the same non-empty name.
   */
  lemma {:induction false} DiscoveryIsSafe(inv: Inventory, series: seq<Labels>, hints: map<JoinKey, string>)
    requires Sound(inv)
    ensures var r := DiscoverAll(inv, series, hints);
      && Sound(r) && KeepsNamed(inv, r) && inv.clusters.Keys <= r.clusters.Keys
      && (forall id <- r.byId :: r.byId[id].clusterId in r.clusters)
      && (forall a, b | a in r.byId && b in r.byId && r.byId[a].clusterId == r.byId[b].clusterId &&
                        r.byId[a].name == r.byId[b].name != "" :: a == b)
  {
    if series != [] {
      var before := series[..|series| - 1];
      DiscoveryIsSafe(inv, before, hints);
      DiscoverOneIsSound(DiscoverAll(inv, before, hints), series[|series| - 1], hints);
      DiscoverOneKeepsNamed(DiscoverAll(inv, before, hints), series[|series| - 1], hints);
    }
  }

  /** From the series to the result: the inventory meets what discovery needs, and all its nodes stay. */
  lemma InventorySurvivesDiscovery(
    current: seq<InstantSeries>, historical: seq<InstantSeries>, order: seq<NodeId>, series: seq<Labels>,
        hints: map<JoinKey, string>)
    ensures var inv := Place(order, Resolved(AllCandidates(current, historical)));
      forall id <- inv.byId :: id in DiscoverAll(inv, series, hints).byId &&
          DiscoverAll(inv, series, hints).byId[id] == inv.byId[id]
  {
    var resolved := Resolved(AllCandidates(current, historical));
    ResolvedIsCoherent(current, historical);
    PlaceIsSound(order, resolved);
    DiscoveryIsSafe(Place(order, resolved), series, hints);
  }

  // ---------------------------------------------------------------------------
  // Joining series to nodes

  ghost predicate IsMatch(candidates: seq<Node>, name: string, found: Option<Node>) {
    if name == "" then found == (if |candidates| == 1 then Some(candidates[0]) else None)
    else match found
      case Some(n) => exists i :: 0 <= i < |candidates| && candidates[i] == n && n.name == name &&
                        forall j | 0 <= j < |candidates| && candidates[j].name == name :: j == i
      case None => (forall j | 0 <= j < |candidates| :: candidates[j].name != name) ||
                   (exists i, j :: 0 <= i < j < |candidates| && candidates[i].name == name &&
                         candidates[j].name == name)
  }

  /** A series without a name joins a lone node; with a name, the only node of that name. */
  method MatchNode(inv: Inventory, labels: Labels) returns (found: Option<Node>)
    ensures labels.collection == "" || labels.instance == "" ==> found == None
    ensures labels.collection != "" && labels.instance != "" ==>
              IsMatch(AtJoinKey(inv, JoinKey(labels.collection, labels.instance)), labels.node, found)
  {
    var joinKey := SampleKey(labels);
    if joinKey.None? {
      return None;
    }
    var candidates := AtJoinKey(inv, joinKey.value);
    if labels.node == "" {
      if |candidates| != 1 {
        return None;
      }
      return Some(candidates[0]);
    }
    found := None;
    ghost var at := 0;
    for i := 0 to |candidates|
      invariant found.None? ==> forall j | 0 <= j < i :: candidates[j].name != labels.node
      invariant found.Some? ==> 0 <= at < i && candidates[at] == found.value && found.value.name == labels.node
      invariant found.Some? ==> forall j | 0 <= j < i && candidates[j].name == labels.node :: j == at
    {
      if candidates[i].name == labels.node {
        if found.Some? {
          assert at < i && candidates[at].name == labels.node;
          return None;
        }
        found := Some(candidates[i]);
        at := i;
      }
    }
  }

  // ---------------------------------------------------------------------------
  // Unreachable peers per cluster

  /** A node's cluster and its validated, hence non-negative, report. */
  datatype Report = Report(clusterId: ClusterId, unreachable: Option<nat>)

  ghost predicate IsUnreachable(nodes: map<NodeId, Report>, clusterId: ClusterId, count: Option<nat>) {
    match count
    case Some(n) =>
      if n > 0 then
        && (exists id <- nodes :: nodes[id] == Report(clusterId, Some(n)))
        && (forall id <- nodes :: nodes[id].clusterId == clusterId && nodes[id].unreachable.Some? ==>
             nodes[id].unreachable.value <= n)
      else
        && (exists id <- nodes :: nodes[id].clusterId == clusterId)
        && (forall id <- nodes :: nodes[id].clusterId == clusterId ==> nodes[id].unreachable == Some(0))
    case None =>
      && (forall id <- nodes :: nodes[id].clusterId == clusterId && nodes[id].unreachable.Some? ==>
           nodes[id].unreachable.value == 0)
      && ((exists id <- nodes :: nodes[id] == Report(clusterId, None)) || (forall id <- nodes ::
           nodes[id].clusterId != clusterId))
  }

  function CountIn(counts: map<ClusterId, nat>, id: ClusterId): nat {
    if id in counts then counts[id] else 0
  }

  /** The nodes of a cluster among those listed, and those of them that report zero. */
  function Members(nodes: map<NodeId, Report>, listed: set<NodeId>, clusterId: ClusterId): set<NodeId> {
    set id <- listed | id in nodes && nodes[id].clusterId == clusterId
  }

  function Zeros(nodes: map<NodeId, Report>, listed: set<NodeId>, clusterId: ClusterId): set<NodeId> {
    set id <- listed | id in nodes && nodes[id] == Report(clusterId, Some(0))
  }

  /** The three counters of one cluster. */
  ghost predicate TalliedFor(nodes: map<NodeId, Report>, listed: set<NodeId>, c: ClusterId, total: nat, zeros: nat,
      maximum: Option<nat>) {
    && total == |Members(nodes, listed, c)|
    && zeros == |Zeros(nodes, listed, c)|
    && (maximum.Some? ==> maximum.value > 0 && exists id <- listed :: id in nodes && nodes[id] == Report(c, maximum))
    && (forall id <- listed | id in nodes && nodes[id].clusterId == c && nodes[id].unreachable.Some? ::
          nodes[id].unreachable.value > 0 ==> maximum.Some? && nodes[id].unreachable.value <= maximum.value)
  }

  function Lookup(maximum: map<ClusterId, nat>, c: ClusterId): Option<nat> {
    if c in maximum then Some(maximum[c]) else None
  }

  /** The three counters kept while the nodes are listed. */
  datatype Counters = Counters(total: map<ClusterId, nat>, zeros: map<ClusterId, nat>, maximum: map<ClusterId, nat>)

  ghost predicate Tallied(nodes: map<NodeId, Report>, listed: set<NodeId>, counters: Counters) {
    forall c ::
      TalliedFor(nodes, listed, c, CountIn(counters.total, c), CountIn(counters.zeros, c), Lookup(counters.maximum, c))
  }

  function CountReport(counters: Counters, report: Report): Counters {
    var c, u := report.clusterId, report.unreachable;
    Counters(
      counters.total[c := CountIn(counters.total, c) + 1],
      if u == Some(0) then counters.zeros[c := CountIn(counters.zeros, c) + 1] else counters.zeros,
      if u.Some? && u.value > 0 && (c !in counters.maximum || u.value > counters.maximum[c])
          then counters.maximum[c := u.value]
      else counters.maximum)
  }

  /** Listing one more node moves the counters of its own cluster and no others. */
  lemma TallyStep(nodes: map<NodeId, Report>, listed: set<NodeId>, id: NodeId, c: ClusterId, total: nat, zeros: nat,
      maximum: Option<nat>)
    requires TalliedFor(nodes, listed, c, total, zeros, maximum) && id in nodes && id !in listed
    ensures nodes[id].clusterId != c ==> TalliedFor(nodes, listed + {id}, c, total, zeros, maximum)
    ensures nodes[id] == Report(c, None) ==> TalliedFor(nodes, listed + {id}, c, total + 1, zeros, maximum)
    ensures nodes[id] == Report(c, Some(0)) ==> TalliedFor(nodes, listed + {id}, c, total + 1, zeros + 1, maximum)
    ensures nodes[id].clusterId == c && nodes[id].unreachable.Some? && nodes[id].unreachable.value > 0 ==>
              TalliedFor(nodes, listed + {id}, c, total + 1, zeros,
                         if maximum.None? || nodes[id].unreachable.value > maximum.value then nodes[id].unreachable
                             else maximum)
  {
    ListOneMore(nodes, listed, id, c);
    assert id in listed + {id};
  }

  lemma TallyStepAll(nodes: map<NodeId, Report>, listed: set<NodeId>, id: NodeId, counters: Counters)
    requires Tallied(nodes, listed, counters) && id in nodes && id !in listed
    ensures Tallied(nodes, listed + {id}, CountReport(counters, nodes[id]))
  {
    var next := CountReport(counters, nodes[id]);
    forall c ensures TalliedFor(nodes, listed + {id}, c, CountIn(next.total, c), CountIn(next.zeros, c),
        Lookup(next.maximum, c)) {
      assert TalliedFor(nodes, listed, c, CountIn(counters.total, c), CountIn(counters.zeros, c),
          Lookup(counters.maximum, c));
      TallyStep(nodes, listed, id, c, CountIn(counters.total, c), CountIn(counters.zeros, c),
            Lookup(counters.maximum, c));
    }
  }

  lemma NothingTallied(nodes: map<NodeId, Report>)
    ensures Tallied(nodes, {}, Counters(map[], map[], map[]))
  {
    forall c ensures Members(nodes, {}, c) == {} && Zeros(nodes, {}, c) == {} {
    }
  }

  method TallyReports(nodes: map<NodeId, Report>)
    returns (total: map<ClusterId, nat>, zeros: map<ClusterId, nat>, maximum: map<ClusterId, nat>)
    ensures Tallied(nodes, nodes.Keys, Counters(total, zeros, maximum))
  {
    total, zeros, maximum := map[], map[], map[];
    NothingTallied(nodes);
    var rest := nodes.Keys;
    assert nodes.Keys - rest == {};
    while rest != {}
      invariant rest <= nodes.Keys
      invariant Tallied(nodes, nodes.Keys - rest, Counters(total, zeros, maximum))
      decreases rest
    {
      var id :| id in rest;
      ghost var listed := nodes.Keys - rest;
      OneLessToGo(nodes.Keys, rest, id);
      rest := rest - {id};
      var c := nodes[id].clusterId;
      ghost var before := Counters(total, zeros, maximum);
      TallyStepAll(nodes, listed, id, before);
      total := total[c := CountIn(total, c) + 1];
      if nodes[id].unreachable.Some? {
        var value := nodes[id].unreachable.value;
        if value == 0 {
          zeros := zeros[c := CountIn(zeros, c) + 1];
        } else if c !in maximum || value > maximum[c] {
          maximum := maximum[c := value];
        }
      }
      assert Counters(total, zeros, maximum) == CountReport(before, nodes[id]);
    }
    assert nodes.Keys - rest == nodes.Keys;
  }

  lemma OneLessToGo<T>(all: set<T>, rest: set<T>, x: T)
    requires rest <= all && x in rest
    ensures all - (rest - {x}) == all - rest + {x}
  {
  }

  lemma ListOneMore(nodes: map<NodeId, Report>, listed: set<NodeId>, id: NodeId, c: ClusterId)
    requires id in nodes && id !in listed
    ensures |Members(nodes, listed + {id}, c)| ==
            |Members(nodes, listed, c)| + (if nodes[id].clusterId == c then 1 else 0)
    ensures |Zeros(nodes, listed + {id}, c)| == |Zeros(nodes, listed, c)| + (if nodes[id] == Report(c, Some(0))
        then 1 else 0)
  {
    assert Members(nodes, listed + {id}, c) ==
           Members(nodes, listed, c) + (if nodes[id].clusterId == c then {id} else {});
    assert Zeros(nodes, listed + {id}, c) == Zeros(nodes, listed, c) + (if nodes[id] == Report(c, Some(0)) then {id}
        else {});
  }

  /** The largest positive report, zero when all nodes report zero, nothing otherwise. */
  method AggregateUnreachablePeers(nodes: map<NodeId, Report>, clusters: set<ClusterId>)
      returns (counts: map<ClusterId, Option<nat>>)
    ensures counts.Keys == clusters
    ensures forall c <- clusters :: IsUnreachable(nodes, c, counts[c])
  {
    var total, zeros, maximum := TallyReports(nodes);
    counts := map c <- clusters ::
      if c in maximum then Some(maximum[c])
      else if CountIn(total, c) > 0 && CountIn(zeros, c) == CountIn(total, c) then Some(0)
      else None;
    forall c <- clusters ensures IsUnreachable(nodes, c, counts[c]) {
      TallyDecides(nodes, total, zeros, maximum, c);
    }
  }

  lemma TallyDecides(nodes: map<NodeId, Report>, total: map<ClusterId, nat>, zeros: map<ClusterId, nat>,
      maximum: map<ClusterId, nat>, c: ClusterId)
    requires Tallied(nodes, nodes.Keys, Counters(total, zeros, maximum))
    ensures IsUnreachable(nodes, c,
              if c in maximum then Some(maximum[c])
              else if CountIn(total, c) > 0 && CountIn(zeros, c) == CountIn(total, c) then Some(0)
              else None)
  {
    assert TalliedFor(nodes, nodes.Keys, c, CountIn(total, c), CountIn(zeros, c), Lookup(maximum, c));
    var members, quiet := Members(nodes, nodes.Keys, c), Zeros(nodes, nodes.Keys, c);
    assert quiet <= members;
    if c !in maximum {
      if |members| > 0 && |quiet| == |members| {
        SubsetOfSameSize(quiet, members);
        var id :| id in members;
        assert forall id <- nodes :: nodes[id].clusterId == c ==> id in members;
      } else if |members| > 0 {
        assert members != quiet;
        var id :| id in members && id !in quiet;
        assert nodes[id] == Report(c, None);
      } else {
        assert forall id <- nodes :: nodes[id].clusterId == c ==> id in members;
      }
    }
  }

  lemma SubsetOfSameSize<T>(a: set<T>, b: set<T>)
    requires a <= b && |a| == |b|
    ensures a == b
  {
    assert |b - a| == 0;
  }
}
