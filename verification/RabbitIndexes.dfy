/**
 The three RabbitMQ indexes together: node ids, join keys and clusters.  The inventory
 builder leaves them in agreement; discovery keeps the agreement except in two cases,
 and this module says exactly which.
 */
module RabbitIndexes {
  import opened Optional
  import opened RabbitDiscovery
  import opened RabbitInventory
  import opened SampleCells
  import opened SampleMerge

  // ---------------------------------------------------------------------------
  // One join key per node id

  ghost predicate ListedUnder(inv: Inventory, key: JoinKey, id: NodeId) {
    exists n <- AtJoinKey(inv, key) :: n.id == id
  }

  /** The two node indexes know the same ids. */
  ghost predicate Complete(inv: Inventory) {
    forall id :: id in inv.byId <==> exists key :: ListedUnder(inv, key, id)
  }

  /** No id is listed under two join keys. */
  ghost predicate OneKeyPerId(inv: Inventory) {
    forall k, l, id :: ListedUnder(inv, k, id) && ListedUnder(inv, l, id) ==> k == l
  }

  ghost predicate AllNamed(inv: Inventory) {
    forall id <- inv.byId :: inv.byId[id].name != ""
  }

  /** The inventory builder lists every node under one join key, and all its nodes have names. */
  lemma PlacedUnderOneKey(order: seq<NodeId>, resolved: map<NodeId, Content>)
    requires CoherentContents(resolved) && forall i, j | 0 <= i < j < |order| :: order[i] != order[j]
    ensures var inv := Place(order, resolved); Complete(inv) && OneKeyPerId(inv) && AllNamed(inv) && Sound(inv)
  {
    var inv := Place(order, resolved);
    PlaceAgrees(order, resolved);
    PlaceIsSound(order, resolved);
    forall key, id | ListedUnder(inv, key, id)
      ensures id in inv.byId && resolved[id].joinKey == key
    {
      assert Joined(inv, resolved, key, inv.byJoinKey[key]);
    }
    forall id <- inv.byId ensures ListedUnder(inv, resolved[id].joinKey, id) {
      assert inv.byId[id].id == id;
    }
  }

  /** The series enters a node without a name. */
  ghost predicate EntersUnnamed(inv: Inventory, labels: Labels, hints: map<JoinKey, string>) {
    Considered(inv, labels) && NameOf(labels, SampleKey(labels).value, hints) == ""
  }

  /**
   A series writes a fresh node over a known id exactly when it enters an unnamed node
   whose cluster and instance make that id; the node it displaces was unnamed, of the
   same cluster and seen at the same instance.
   */
  lemma OnlyUnnamedNodesAreReplaced(inv: Inventory, labels: Labels, hints: map<JoinKey, string>, id: NodeId)
    requires Sound(inv) && id in inv.byId
    ensures Written(inv, labels, hints) == Some(id) <==>
        EntersUnnamed(inv, labels, hints) && id == IdOf(inv, labels, "")
    ensures Written(inv, labels, hints) == Some(id) ==>
              && inv.byId[id].name == "" && inv.byId[id].address == labels.instance
              && inv.byId[id].clusterId == Assigned(inv, labels).0
  {
    AssignedIdentity(inv, labels);
    if Written(inv, labels, hints) == Some(id) {
      var name := NameOf(labels, SampleKey(labels).value, hints);
      if name != "" {
        assert false;
      }
    }
  }

  /** The assigned cluster's id is made of its identity. */
  lemma AssignedIdentity(inv: Inventory, labels: Labels)
    requires Sound(inv)
    ensures var (clusterId, clusters) := Assigned(inv, labels);
      clusterId in clusters && clusterId == ClusterId(clusters[clusterId].identity)
    ensures forall name ::
        IdOf(inv, labels, name) == DiscoveredId(Assigned(inv, labels).0.identity, name, labels.instance)
  {
    AssignedIsThere(inv, labels);
  }

  /** What one series does to the lists under the join keys. */
  lemma ListsAfter(inv: Inventory, labels: Labels, hints: map<JoinKey, string>, key: JoinKey, id: NodeId)
    ensures var w := Written(inv, labels, hints);
      ListedUnder(DiscoverOne(inv, labels, hints), key, id) <==>
      if w.Some? && SampleKey(labels) == Some(key) then id == w.value else ListedUnder(inv, key, id)
  {
    var r, w := DiscoverOne(inv, labels, hints), Written(inv, labels, hints);
    if w.Some? && SampleKey(labels) == Some(key) {
      assert |AtJoinKey(r, key)| == 1 && AtJoinKey(r, key)[0].id == w.value;
    } else {
      assert AtJoinKey(r, key) == AtJoinKey(inv, key);
    }
  }

  /** The node indexes know the same ids after a series, too. */
  lemma StaysComplete(inv: Inventory, labels: Labels, hints: map<JoinKey, string>)
    requires Complete(inv)
    ensures Complete(DiscoverOne(inv, labels, hints))
  {
    var r, w := DiscoverOne(inv, labels, hints), Written(inv, labels, hints);
    forall id ensures id in r.byId <==> exists key :: ListedUnder(r, key, id) {
      if id in inv.byId {
        var key :| ListedUnder(inv, key, id);
        ListsAfter(inv, labels, hints, key, id);
        assert !(w.Some? && SampleKey(labels) == Some(key));
        assert ListedUnder(r, key, id);
      } else if w == Some(id) {
        ListsAfter(inv, labels, hints, SampleKey(labels).value, id);
      } else {
        forall key ensures !ListedUnder(r, key, id) {
          ListsAfter(inv, labels, hints, key, id);
        }
      }
    }
  }

  /**
   A series keeps one join key per id exactly when it does not enter an unnamed node
   under an id that is known already.
   */
  lemma OneKeyKeptUnlessReplaced(inv: Inventory, labels: Labels, hints: map<JoinKey, string>)
    requires Sound(inv) && Complete(inv) && OneKeyPerId(inv)
    ensures OneKeyPerId(DiscoverOne(inv, labels, hints)) <==>
            !(EntersUnnamed(inv, labels, hints) && IdOf(inv, labels, "") in inv.byId)
  {
    var r, w := DiscoverOne(inv, labels, hints), Written(inv, labels, hints);
    forall key, id ensures ListedUnder(r, key, id) <==>
        if w.Some? && SampleKey(labels) == Some(key) then id == w.value else ListedUnder(inv, key, id)
    {
      ListsAfter(inv, labels, hints, key, id);
    }
    if w.Some? && w.value in inv.byId {
      OnlyUnnamedNodesAreReplaced(inv, labels, hints, w.value);
      var key :| ListedUnder(inv, key, w.value);
      assert ListedUnder(r, key, w.value) && ListedUnder(r, SampleKey(labels).value, w.value);
    } else if EntersUnnamed(inv, labels, hints) && IdOf(inv, labels, "") in inv.byId {
      OnlyUnnamedNodesAreReplaced(inv, labels, hints, IdOf(inv, labels, ""));
    }
  }

  /** Two join keys for one id stay two. */
  lemma TwoKeysStay(inv: Inventory, labels: Labels, hints: map<JoinKey, string>)
    requires !OneKeyPerId(inv)
    ensures !OneKeyPerId(DiscoverOne(inv, labels, hints))
  {
    var k, l, id :| ListedUnder(inv, k, id) && ListedUnder(inv, l, id) && k != l;
    ListsAfter(inv, labels, hints, k, id);
    ListsAfter(inv, labels, hints, l, id);
  }

  lemma OneKeyStep(inv: Inventory, labels: Labels, hints: map<JoinKey, string>)
    requires Sound(inv) && Complete(inv)
    ensures OneKeyPerId(DiscoverOne(inv, labels, hints)) <==>
            OneKeyPerId(inv) && !(EntersUnnamed(inv, labels, hints) && IdOf(inv, labels, "") in inv.byId)
  {
    if OneKeyPerId(inv) {
      OneKeyKeptUnlessReplaced(inv, labels, hints);
    } else {
      TwoKeysStay(inv, labels, hints);
    }
  }

  // ---------------------------------------------------------------------------
  // Whole runs of discovery

  ghost function Before(inv: Inventory, series: seq<Labels>, hints: map<JoinKey, string>, i: nat): Inventory
    requires i <= |series|
  {
    DiscoverAll(inv, series[..i], hints)
  }

  /** Series i enters an unnamed node of this cluster at this instance. */
  ghost predicate EntersAt(inv: Inventory, series: seq<Labels>, hints: map<JoinKey, string>, i: nat,
      clusterId: ClusterId, instance: string)
  {
    && i < |series| && EntersUnnamed(Before(inv, series, hints, i), series[i], hints)
    && Assigned(Before(inv, series, hints, i), series[i]).0 == clusterId && series[i].instance == instance
  }

  ghost predicate Entered(inv: Inventory, series: seq<Labels>, hints: map<JoinKey, string>,
      clusterId: ClusterId, instance: string)
  {
    exists i: nat :: EntersAt(inv, series, hints, i, clusterId, instance)
  }

  /** Two series enter unnamed nodes of one cluster at one instance. */
  ghost predicate SharesId(inv: Inventory, series: seq<Labels>, hints: map<JoinKey, string>) {
    exists i: nat, j: nat, clusterId, instance :: i < j &&
      EntersAt(inv, series, hints, i, clusterId, instance) && EntersAt(inv, series, hints, j, clusterId, instance)
  }

  lemma EntersAtPrefix(inv: Inventory, series: seq<Labels>, hints: map<JoinKey, string>, i: nat,
      clusterId: ClusterId, instance: string)
    requires series != []
    ensures EntersAt(inv, series[..|series| - 1], hints, i, clusterId, instance) <==>
            i < |series| - 1 && EntersAt(inv, series, hints, i, clusterId, instance)
  {
    if i < |series| - 1 {
      assert series[..|series| - 1][..i] == series[..i];
    }
  }

  lemma EnteredOneMore(inv: Inventory, series: seq<Labels>, hints: map<JoinKey, string>, clusterId: ClusterId,
      instance: string)
    requires series != []
    ensures
      var before, last := series[..|series| - 1], |series| - 1;
      Entered(inv, series, hints, clusterId, instance) <==>
        Entered(inv, before, hints, clusterId, instance) || EntersAt(inv, series, hints, last, clusterId, instance)
  {
    var before := series[..|series| - 1];
    if i: nat :| EntersAt(inv, series, hints, i, clusterId, instance) && i < |series| - 1 {
      EntersAtPrefix(inv, series, hints, i, clusterId, instance);
    }
    if i: nat :| EntersAt(inv, before, hints, i, clusterId, instance) {
      EntersAtPrefix(inv, series, hints, i, clusterId, instance);
    }
  }

  /** The unnamed ids after a run are exactly those entered during it. */
  lemma {:induction false} UnnamedWereEntered(inv: Inventory, series: seq<Labels>, hints: map<JoinKey, string>,
      clusterId: ClusterId, instance: string)
    requires Sound(inv) && AllNamed(inv)
    ensures Sound(DiscoverAll(inv, series, hints))
    ensures DiscoveredId(clusterId.identity, "", instance) in DiscoverAll(inv, series, hints).byId <==>
            Entered(inv, series, hints, clusterId, instance)
  {
    var id := DiscoveredId(clusterId.identity, "", instance);
    if series == [] {
      assert id !in inv.byId;
    } else {
      var before, last := series[..|series| - 1], |series| - 1;
      var state := DiscoverAll(inv, before, hints);
      UnnamedWereEntered(inv, before, hints, clusterId, instance);
      DiscoverOneIsSound(state, series[last], hints);
      AssignedIdentity(state, series[last]);
      EnteredOneMore(inv, series, hints, clusterId, instance);
      assert Before(inv, series, hints, last) == state;
      assert Written(state, series[last], hints) == Some(id) <==>
          EntersAt(inv, series, hints, last, clusterId, instance);
    }
  }

  /**
   From an inventory to the end of discovery: every id keeps one join key if and only if
   no two series enter unnamed nodes of one cluster at one instance.
   */
  lemma {:induction false} OneKeyUnlessShared(inv: Inventory, series: seq<Labels>, hints: map<JoinKey, string>)
    requires Sound(inv) && Complete(inv) && OneKeyPerId(inv) && AllNamed(inv)
    ensures Complete(DiscoverAll(inv, series, hints))
    ensures OneKeyPerId(DiscoverAll(inv, series, hints)) <==> !SharesId(inv, series, hints)
  {
    if series != [] {
      var before, labels := series[..|series| - 1], series[|series| - 1];
      var state := DiscoverAll(inv, before, hints);
      OneKeyUnlessShared(inv, before, hints);
      UnnamedWereEntered(inv, before, hints, Assigned(state, labels).0, labels.instance);
      StaysComplete(state, labels, hints);
      AssignedIdentity(state, labels);
      OneKeyStep(state, labels, hints);
      SharesOneMore(inv, series, hints);
    }
  }

  /** A longer run shares an id when the shorter one did, or when its last series enters what was entered. */
  lemma SharesOneMore(inv: Inventory, series: seq<Labels>, hints: map<JoinKey, string>)
    requires series != []
    ensures
      var before, labels := series[..|series| - 1], series[|series| - 1];
      var state := DiscoverAll(inv, before, hints);
      SharesId(inv, series, hints) <==>
        || SharesId(inv, before, hints)
        || (EntersUnnamed(state, labels, hints) &&
              Entered(inv, before, hints, Assigned(state, labels).0, labels.instance))
  {
    var before, last := series[..|series| - 1], |series| - 1;
    var state, labels := DiscoverAll(inv, before, hints), series[last];
    assert Before(inv, series, hints, last) == state;
    if SharesId(inv, series, hints) {
      var i: nat, j: nat, c, instance :| i < j &&
        EntersAt(inv, series, hints, i, c, instance) && EntersAt(inv, series, hints, j, c, instance);
      EntersAtPrefix(inv, series, hints, i, c, instance);
      EntersAtPrefix(inv, series, hints, j, c, instance);
    }
    if SharesId(inv, before, hints) {
      SharingStays(inv, series, hints);
    }
    if EntersUnnamed(state, labels, hints) && Entered(inv, before, hints, Assigned(state, labels).0, labels.instance) {
      LastOneShares(inv, series, hints);
    }
  }

  lemma SharingStays(inv: Inventory, series: seq<Labels>, hints: map<JoinKey, string>)
    requires series != [] && SharesId(inv, series[..|series| - 1], hints)
    ensures SharesId(inv, series, hints)
  {
    var before := series[..|series| - 1];
    var i: nat, j: nat, c, instance :| i < j &&
      EntersAt(inv, before, hints, i, c, instance) && EntersAt(inv, before, hints, j, c, instance);
    EntersAtPrefix(inv, series, hints, i, c, instance);
    EntersAtPrefix(inv, series, hints, j, c, instance);
  }

  lemma LastOneShares(inv: Inventory, series: seq<Labels>, hints: map<JoinKey, string>)
    requires series != []
    requires var before, labels := series[..|series| - 1], series[|series| - 1];
             var state := DiscoverAll(inv, before, hints);
             EntersUnnamed(state, labels, hints) &&
                 Entered(inv, before, hints, Assigned(state, labels).0, labels.instance)
    ensures SharesId(inv, series, hints)
  {
    var before, last := series[..|series| - 1], |series| - 1;
    var c, instance := Assigned(DiscoverAll(inv, before, hints), series[last]).0, series[last].instance;
    var i: nat :| EntersAt(inv, before, hints, i, c, instance);
    EntersAtPrefix(inv, series, hints, i, c, instance);
    assert EntersAt(inv, series, hints, last, c, instance);
  }

  /** From the series of all queries to the end of discovery. */
  lemma SnapshotSharesIdExactly(current: seq<InstantSeries>, historical: seq<InstantSeries>, order: seq<NodeId>,
      series: seq<Labels>, hints: map<JoinKey, string>)
    requires forall i, j | 0 <= i < j < |order| :: order[i] != order[j]
    ensures var inv := Place(order, Resolved(AllCandidates(current, historical)));
      OneKeyPerId(DiscoverAll(inv, series, hints)) <==> !SharesId(inv, series, hints)
  {
    var resolved := Resolved(AllCandidates(current, historical));
    ResolvedIsCoherent(current, historical);
    PlacedUnderOneKey(order, resolved);
    OneKeyUnlessShared(Place(order, resolved), series, hints);
  }

  /** In particular when no two series of different collections that may stay unnamed have one instance. */
  lemma DistinctInstancesAreSafe(inv: Inventory, series: seq<Labels>, hints: map<JoinKey, string>)
    requires Sound(inv) && Complete(inv) && OneKeyPerId(inv) && AllNamed(inv)
    requires forall a, b | a in series && b in series && a.node == b.node == "" && a.instance == b.instance ::
               a.collection == b.collection
    ensures OneKeyPerId(DiscoverAll(inv, series, hints))
  {
    OneKeyUnlessShared(inv, series, hints);
    if SharesId(inv, series, hints) {
      var i: nat, j: nat, c, instance :| i < j &&
        EntersAt(inv, series, hints, i, c, instance) && EntersAt(inv, series, hints, j, c, instance);
      SharersDifferInCollection(inv, series, hints, i, j);
    }
  }

  lemma SharersDifferInCollection(inv: Inventory, series: seq<Labels>, hints: map<JoinKey, string>, i: nat, j: nat)
    requires i < j < |series| && series[i].instance == series[j].instance
    requires EntersUnnamed(Before(inv, series, hints, i), series[i], hints)
    requires EntersUnnamed(Before(inv, series, hints, j), series[j], hints)
    ensures series[i].collection != series[j].collection && series[i].node == series[j].node == ""
  {
    EnteredKeyIsTaken(inv, series, hints, i, j);
  }

  /** Once a series wrote under its join key, no later series of that key is considered. */
  lemma {:induction false} EnteredKeyIsTaken(inv: Inventory, series: seq<Labels>, hints: map<JoinKey, string>,
      i: nat, j: nat)
    requires i < j < |series| && EntersUnnamed(Before(inv, series, hints, i), series[i], hints)
    ensures AtJoinKey(Before(inv, series, hints, j), SampleKey(series[i]).value) != []
  {
    var last := j - 1;
    assert series[..j][..last] == series[..last];
    if i < last {
      EnteredKeyIsTaken(inv, series, hints, i, last);
    }
  }

  /** From nothing: two unnamed series with one instance, of two collections, leave one id under two join keys. */
  lemma UnnamedNodesCanShareAnId(c1: string, c2: string, instance: string)
    requires c1 != "" && c2 != "" && c1 != c2 && instance != ""
    ensures var series := [Labels("", c1, instance, "", ""), Labels("", c2, instance, "", "")];
      !OneKeyPerId(DiscoverAll(EMPTY, series, map[]))
  {
    var a, b := Labels("", c1, instance, "", ""), Labels("", c2, instance, "", "");
    assert [a, b][..1] == [a] && [a][..0] == [];
    var one := DiscoverOne(EMPTY, a, map[]);
    assert DiscoverAll(EMPTY, [], map[]) == EMPTY && DiscoverAll(EMPTY, [a], map[]) == one;
    assert DiscoverAll(EMPTY, [a, b], map[]) == DiscoverOne(one, b, map[]);
    var cid := ClusterId(c1);
    assert EMPTY.clusters.Keys == {};
    ClusterForIsUnique(EMPTY.clusters, c1, None, ClusterFor(EMPTY.clusters, c1));
    assert one.clusters == map[cid := Cluster(c1, c1, {c1})];
    assert Matching(one.clusters, c2) == {} && one.clusters.Keys == {cid};
    ClusterForIsUnique(one.clusters, c2, Some(cid), ClusterFor(one.clusters, c2));
    PlacedUnderOneKey([], map[]);
    UnnamedWereEntered(EMPTY, [a], map[], cid, instance);
    var id := DiscoveredId(c1, "", instance);
    assert Written(EMPTY, a, map[]) == Some(id) && Written(one, b, map[]) == Some(id);
    ListsAfter(EMPTY, a, map[], JoinKey(c1, instance), id);
    ListsAfter(one, b, map[], JoinKey(c1, instance), id);
    ListsAfter(one, b, map[], JoinKey(c2, instance), id);
  }

  // ---------------------------------------------------------------------------
  // Cluster records

  /** The series puts a fresh record under the id of a cluster that exists. */
  ghost predicate Recreates(inv: Inventory, labels: Labels) {
    && Considered(inv, labels) && ClusterFor(inv.clusters, labels.collection) == None
    && ClusterId(labels.collection) in inv.clusters
  }

  /** The series recreates a cluster under another name. */
  ghost predicate Renames(inv: Inventory, labels: Labels) {
    Recreates(inv, labels) && inv.clusters[ClusterId(labels.collection)].name != labels.collection
  }

  /** A cluster record changes only by being recreated for the collection that is its identity. */
  lemma OnlyRecreatedClustersChange(inv: Inventory, labels: Labels, hints: map<JoinKey, string>, cid: ClusterId)
    requires cid in inv.clusters
    ensures cid in DiscoverOne(inv, labels, hints).clusters
    ensures var remade := Cluster(labels.collection, labels.collection, {labels.collection});
      DiscoverOne(inv, labels, hints).clusters[cid] ==
      if Recreates(inv, labels) && cid == ClusterId(labels.collection) then remade else inv.clusters[cid]
  {
    AssignedIsThere(inv, labels);
  }

  /** A node of the recreated cluster that stays. */
  ghost predicate Stranded(inv: Inventory, labels: Labels, hints: map<JoinKey, string>, id: NodeId) {
    id in inv.byId && inv.byId[id].clusterId == ClusterId(labels.collection) && Written(inv, labels, hints) != Some(id)
  }

  /** The name under which a node's cluster stands after the series. */
  lemma ClusterNameAfter(inv: Inventory, labels: Labels, hints: map<JoinKey, string>, id: NodeId)
    requires Sound(inv) && NamesAgree(inv) && id in inv.byId
    ensures inv.byId[id].clusterId in DiscoverOne(inv, labels, hints).clusters
    ensures DiscoverOne(inv, labels, hints).clusters[inv.byId[id].clusterId].name ==
            if Recreates(inv, labels) && inv.byId[id].clusterId == ClusterId(labels.collection) then labels.collection
            else inv.byId[id].cluster
  {
    OnlyRecreatedClustersChange(inv, labels, hints, inv.byId[id].clusterId);
  }

  /** A node is the fresh one, named like its cluster, or stays as it was. */
  lemma NodeAfter(inv: Inventory, labels: Labels, hints: map<JoinKey, string>, id: NodeId)
    ensures var r := DiscoverOne(inv, labels, hints);
      if Written(inv, labels, hints) == Some(id)
      then id in r.byId && r.byId[id].clusterId in r.clusters &&
           r.clusters[r.byId[id].clusterId].name == r.byId[id].cluster
      else (id in r.byId <==> id in inv.byId) && (id in inv.byId ==> r.byId[id] == inv.byId[id])
  {
    AssignedIsThere(inv, labels);
  }

  /**
   A series keeps every node's cluster under the name the node carries exactly when it does
   not recreate a cluster of another name that still has a node.
   */
  lemma NamesKeptUnlessRecreated(inv: Inventory, labels: Labels, hints: map<JoinKey, string>)
    requires Sound(inv) && NamesAgree(inv)
    ensures NamesAgree(DiscoverOne(inv, labels, hints)) <==>
            !(Renames(inv, labels) && exists id :: Stranded(inv, labels, hints, id))
  {
    var r := DiscoverOne(inv, labels, hints);
    forall id <- r.byId
      ensures r.byId[id].clusterId in r.clusters
      ensures r.clusters[r.byId[id].clusterId].name == r.byId[id].cluster <==>
              !(Renames(inv, labels) && Stranded(inv, labels, hints, id))
    {
      NodeAfter(inv, labels, hints, id);
      if id in inv.byId && Written(inv, labels, hints) != Some(id) {
        ClusterNameAfter(inv, labels, hints, id);
      }
    }
    if id :| Stranded(inv, labels, hints, id) {
      NodeAfter(inv, labels, hints, id);
    }
  }

  /** A node with a name of its own, entered under the present name of its cluster. */
  ghost predicate Peoples(inv: Inventory, cid: ClusterId, id: NodeId) {
    && id in inv.byId && inv.byId[id].clusterId == cid && inv.byId[id].name != ""
    && cid in inv.clusters && inv.byId[id].cluster == inv.clusters[cid].name
  }

  /** Every cluster that is named unlike its identity has such a node. */
  ghost predicate Peopled(inv: Inventory) {
    forall cid <- inv.clusters :: inv.clusters[cid].name != cid.identity ==> exists id :: Peoples(inv, cid, id)
  }

  /** A node with a name whose cluster has come to be named by its identity, unlike the node says. */
  ghost predicate Left(inv: Inventory, id: NodeId) {
    && id in inv.byId && inv.byId[id].name != "" && inv.byId[id].clusterId in inv.clusters
    && inv.clusters[inv.byId[id].clusterId].name == inv.byId[id].clusterId.identity != inv.byId[id].cluster
  }

  lemma {:induction false} PlacedIsPeopled(order: seq<NodeId>, resolved: map<NodeId, Content>)
    requires CoherentContents(resolved)
    ensures Peopled(Place(order, resolved))
  {
    if order != [] {
      var before, last := order[..|order| - 1], order[|order| - 1];
      PlacedIsPeopled(before, resolved);
      PlacedBefore(before, resolved);
      var inv, r := Place(before, resolved), Place(order, resolved);
      if last in resolved && r != inv {
        var c := resolved[last];
        forall cid <- r.clusters | r.clusters[cid].name != cid.identity ensures exists id :: Peoples(r, cid, id) {
          if cid == c.clusterId {
            assert Peoples(r, cid, last);
          } else {
            var id :| Peoples(inv, cid, id);
            assert Peoples(r, cid, id);
          }
        }
      }
    }
  }

  /** A named node passes a series unchanged. */
  lemma NamedStays(inv: Inventory, labels: Labels, hints: map<JoinKey, string>, id: NodeId)
    requires Sound(inv) && id in inv.byId && inv.byId[id].name != ""
    ensures Written(inv, labels, hints) != Some(id)
    ensures id in DiscoverOne(inv, labels, hints).byId && DiscoverOne(inv, labels, hints).byId[id] == inv.byId[id]
  {
    OnlyUnnamedNodesAreReplaced(inv, labels, hints, id);
    NodeAfter(inv, labels, hints, id);
  }

  lemma LeftStaysLeft(inv: Inventory, labels: Labels, hints: map<JoinKey, string>, id: NodeId)
    requires Sound(inv) && Left(inv, id)
    ensures Left(DiscoverOne(inv, labels, hints), id)
  {
    NamedStays(inv, labels, hints, id);
    OnlyRecreatedClustersChange(inv, labels, hints, inv.byId[id].clusterId);
  }

  lemma RenamingLeavesNode(inv: Inventory, labels: Labels, hints: map<JoinKey, string>) returns (id: NodeId)
    requires Sound(inv) && Peopled(inv) && Renames(inv, labels)
    ensures Left(DiscoverOne(inv, labels, hints), id)
  {
    var cid := ClusterId(labels.collection);
    id :| Peoples(inv, cid, id);
    NamedStays(inv, labels, hints, id);
    OnlyRecreatedClustersChange(inv, labels, hints, cid);
  }

  lemma StaysPeopled(inv: Inventory, labels: Labels, hints: map<JoinKey, string>)
    requires Sound(inv) && Peopled(inv) && NamesAgree(inv)
    ensures Peopled(DiscoverOne(inv, labels, hints))
  {
    var r := DiscoverOne(inv, labels, hints);
    forall cid <- r.clusters | r.clusters[cid].name != cid.identity ensures exists id :: Peoples(r, cid, id) {
      assert cid in inv.clusters;
      OnlyRecreatedClustersChange(inv, labels, hints, cid);
      var id :| Peoples(inv, cid, id);
      NamedStays(inv, labels, hints, id);
      assert Peoples(r, cid, id);
    }
  }

  ghost predicate NoneRenames(inv: Inventory, series: seq<Labels>, hints: map<JoinKey, string>) {
    forall i | 0 <= i < |series| :: !Renames(Before(inv, series, hints, i), series[i])
  }

  lemma RenamesOneMore(inv: Inventory, series: seq<Labels>, hints: map<JoinKey, string>)
    requires series != []
    ensures var before, last := series[..|series| - 1], series[|series| - 1];
      NoneRenames(inv, series, hints) <==>
      NoneRenames(inv, before, hints) && !Renames(DiscoverAll(inv, before, hints), last)
  {
    var before, last := series[..|series| - 1], |series| - 1;
    forall i | 0 <= i < last ensures Before(inv, before, hints, i) == Before(inv, series, hints, i) {
      assert before[..i] == series[..i];
    }
    assert Before(inv, series, hints, last) == DiscoverAll(inv, before, hints);
  }

  lemma {:induction false} RunRenamesOrAgrees(inv: Inventory, series: seq<Labels>, hints: map<JoinKey, string>)
    requires Sound(inv) && NamesAgree(inv) && Peopled(inv)
    ensures var r := DiscoverAll(inv, series, hints);
      && Sound(r)
      && (if NoneRenames(inv, series, hints) then NamesAgree(r) && Peopled(r) else exists id :: Left(r, id))
  {
    if series != [] {
      var before, last := series[..|series| - 1], series[|series| - 1];
      var state := DiscoverAll(inv, before, hints);
      RunRenamesOrAgrees(inv, before, hints);
      RenamesOneMore(inv, series, hints);
      DiscoverOneIsSound(state, last, hints);
      if !NoneRenames(inv, before, hints) {
        var id :| Left(state, id);
        LeftStaysLeft(state, last, hints, id);
      } else if Renames(state, last) {
        var id := RenamingLeavesNode(state, last, hints);
      } else {
        NamesKeptUnlessRecreated(state, last, hints);
        StaysPeopled(state, last, hints);
      }
    }
  }

  /**
   From the series of all queries to the end of discovery: every node's cluster has the
   name the node carries if and only if no series recreated a cluster under another name.
   */
  lemma NamesAgreeUnlessRenamed(current: seq<InstantSeries>, historical: seq<InstantSeries>, order: seq<NodeId>,
      series: seq<Labels>, hints: map<JoinKey, string>)
    ensures var inv := Place(order, Resolved(AllCandidates(current, historical)));
      NamesAgree(DiscoverAll(inv, series, hints)) <==> NoneRenames(inv, series, hints)
  {
    var resolved := Resolved(AllCandidates(current, historical));
    ResolvedIsCoherent(current, historical);
    PlaceIsSound(order, resolved);
    PlacedIsPeopled(order, resolved);
    var inv := Place(order, resolved);
    RunRenamesOrAgrees(inv, series, hints);
    if id :| Left(DiscoverAll(inv, series, hints), id) {
      assert !NamesAgree(DiscoverAll(inv, series, hints));
    }
  }

  /** Two nodes: one with a permanent and a logical cluster name, one that has its collection alone. */
  function TwoNodes(x: string, y: string, logical: string, d: string, i1: string, i2: string, t: Time)
    : seq<InstantSeries>
  {
    [InstantSeries(Labels("n1", d, i1, x, logical), Some(Times(Some(t), Some(t)))),
     InstantSeries(Labels("n2", y, i2, "", ""), Some(Times(Some(t), Some(t))))]
  }

  function FirstOfTwo(x: string, logical: string, d: string, i1: string): Content {
    Content(JoinKey(d, i1), ClusterId(x), "n1", logical, d, i1)
  }

  function SecondOfTwo(y: string, i2: string): Content {
    Content(JoinKey(y, i2), ClusterId(y), "n2", y, y, i2)
  }

  lemma TwoNodesParsed(x: string, y: string, logical: string, d: string, i1: string, i2: string, t: Time)
    requires x != "" && y != "" && logical != "" && d != "" && i1 != "" && i2 != ""
    ensures AllCandidates(TwoNodes(x, y, logical, d, i1, i2, t), []) == [
      Series(NodeId(x, Named("n1")), Some(Sample(FirstOfTwo(x, logical, d, i1), t))),
      Series(NodeId(y, Named("n2")), Some(Sample(SecondOfTwo(y, i2), t)))]
  {
    var current := TwoNodes(x, y, logical, d, i1, i2, t);
    assert current[..1][..0] == [] && current[..1] == [current[0]];
    assert Parsed(current[..1], false) ==
           [Series(NodeId(x, Named("n1")), Some(Sample(FirstOfTwo(x, logical, d, i1), t)))];
  }

  lemma TwoNodesResolve(x: string, y: string, logical: string, d: string, i1: string, i2: string, t: Time)
    requires x != "" && y != "" && logical != "" && d != "" && i1 != "" && i2 != "" && x != y
    ensures Resolved(AllCandidates(TwoNodes(x, y, logical, d, i1, i2, t), [])) ==
            map[NodeId(x, Named("n1")) := FirstOfTwo(x, logical, d, i1), NodeId(y, Named("n2")) := SecondOfTwo(y, i2)]
  {
    var current := TwoNodes(x, y, logical, d, i1, i2, t);
    var candidates := AllCandidates(current, []);
    var one, two := FirstOfTwo(x, logical, d, i1), SecondOfTwo(y, i2);
    var id1, id2 := NodeId(x, Named("n1")), NodeId(y, Named("n2"));
    TwoNodesParsed(x, y, logical, d, i1, i2, t);
    assert IsNewestCandidate(candidates, candidates[0], id1, one);
    assert IsNewestCandidate(candidates, candidates[1], id2, two);
    ResolvedExactly(current, [], id1, one);
    ResolvedExactly(current, [], id2, two);
    assert Resolved(candidates).Keys == {id1, id2};
  }

  lemma TwoNodesPlaced(id1: NodeId, one: Content, id2: NodeId, two: Content)
    requires one.clusterId != two.clusterId
    requires id1 != id2 && CoherentContents(map[id1 := one, id2 := two])
    ensures
      var inv := Place([id1, id2], map[id1 := one, id2 := two]);
      && id1 in inv.byId && inv.byId[id1] == NodeOf(id1, one)
      && inv.byJoinKey.Keys == {one.joinKey, two.joinKey}
      && inv.clusters == map[
           one.clusterId := Cluster(one.clusterName, one.clusterId.identity, {one.collection}),
           two.clusterId := Cluster(two.clusterName, two.clusterId.identity, {two.collection})]
      && Sound(inv) && NamesAgree(inv)
  {
    var resolved := map[id1 := one, id2 := two];
    PlaceIsSound([id1, id2], resolved);
    assert [id1, id2][..1] == [id1] && [id1][..0] == [];
    assert Place([id1], resolved) == PlaceOne(EMPTY, id1, one);
    assert Place([id1, id2], resolved) == PlaceOne(PlaceOne(EMPTY, id1, one), id2, two);
    assert {} + {one.collection} == {one.collection} && {} + {two.collection} == {two.collection};
  }

  lemma RecreatedAway(inv: Inventory, x: string, one: Cluster, y: ClusterId, two: Cluster, instance: string, id: NodeId)
    requires Sound(inv) && NamesAgree(inv)
    requires x != "" && instance != "" && JoinKey(x, instance) !in inv.byJoinKey
    requires y != ClusterId(x) && inv.clusters == map[ClusterId(x) := one, y := two]
    requires x !in one.collections && x !in two.collections && one.name != x
    requires id in inv.byId && inv.byId[id].clusterId == ClusterId(x) && id.key.Named?
    ensures !NamesAgree(DiscoverOne(inv, Labels("", x, instance, "", ""), map[]))
  {
    var labels := Labels("", x, instance, "", "");
    assert Matching(inv.clusters, x) == {};
    assert ClusterId(x) in inv.clusters.Keys && y in inv.clusters.Keys;
    ClusterForIsUnique(inv.clusters, x, None, ClusterFor(inv.clusters, x));
    assert Recreates(inv, labels);
    NamesKeptUnlessRecreated(inv, labels, map[]);
    assert Stranded(inv, labels, map[], id);
  }

  /** A node whose cluster is named unlike its identity, and a series whose collection is that identity. */
  lemma RecreationCanBreakNames(x: string, y: string, logical: string, d: string, i1: string, i2: string, i3: string,
      t: Time)
    requires x != "" && y != "" && logical != "" && d != "" && i1 != "" && i2 != "" && i3 != ""
    requires x != y && logical != x && d != x
    ensures
      var resolved := Resolved(AllCandidates(TwoNodes(x, y, logical, d, i1, i2, t), []));
      var inv := Place([NodeId(x, Named("n1")), NodeId(y, Named("n2"))], resolved);
      Sound(inv) && NamesAgree(inv) && !NamesAgree(DiscoverOne(inv, Labels("", x, i3, "", ""), map[]))
  {
    var one, two := FirstOfTwo(x, logical, d, i1), SecondOfTwo(y, i2);
    TwoNodesResolve(x, y, logical, d, i1, i2, t);
    ResolvedIsCoherent(TwoNodes(x, y, logical, d, i1, i2, t), []);
    var id1, id2 := NodeId(x, Named("n1")), NodeId(y, Named("n2"));
    TwoNodesPlaced(id1, one, id2, two);
    var inv := Place([id1, id2], map[id1 := one, id2 := two]);
    RecreatedAway(inv, x, Cluster(logical, x, {d}), ClusterId(y), Cluster(y, y, {y}), i3, id1);
  }
}
