/**
 The RabbitMQ inventory: candidates from historical and current series are reduced to
 one per node id, then placed into nodes and clusters in ascending id order.

 Labels are the trimmed label texts.  Hashing is injective, so a stable id is
 represented by the text it hashes.
 */
module RabbitInventory {
  import opened Optional
  import opened Rearrangement
  import opened SampleCells
  import opened SampleMerge

  datatype Labels = Labels(node: string, collection: string, instance: string, permanent: string, logical: string)

  /** The two elements of a sample, each parsed as an instant. */
  datatype Times = Times(sampleAt: Option<Time>, reportedAt: Option<Time>)

  /** `times` is None when the sample does not have two elements. */
  datatype InstantSeries = InstantSeries(labels: Labels, times: Option<Times>)

  datatype JoinKey = JoinKey(collection: string, instance: string)

  datatype ClusterId = ClusterId(identity: string)

  datatype NodeKey = Named(name: string) | Observed(instance: string)

  datatype NodeId = NodeId(identity: string, key: NodeKey)

  /** Everything a candidate says about its node, except when. */
  datatype Content = Content(
    joinKey: JoinKey, clusterId: ClusterId, nodeName: string, clusterName: string, collection: string, address: string)

  datatype Candidate = Candidate(nodeId: NodeId, sampleAt: Time, content: Content)

  function SampleKey(labels: Labels): Option<JoinKey> {
    if labels.collection == "" || labels.instance == "" then None
    else Some(JoinKey(labels.collection, labels.instance))
  }

  function FirstNonEmpty(a: string, b: string): string {
    if a == "" then b else a
  }

  function Identity(labels: Labels): string {
    FirstNonEmpty(FirstNonEmpty(labels.permanent, labels.logical), labels.collection)
  }

  function ParseCandidate(s: InstantSeries, useReportedAt: bool): Option<Candidate> {
    var joinKey := SampleKey(s.labels);
    if s.labels.node == "" || joinKey.None? || s.times.None? then None
    else
      var at := if useReportedAt then s.times.value.reportedAt else s.times.value.sampleAt;
      if at.None? || Identity(s.labels) == "" then None
      else Some(Candidate(
        NodeId(Identity(s.labels), Named(s.labels.node)), at.value,
        Content(joinKey.value, ClusterId(Identity(s.labels)), s.labels.node,
                FirstNonEmpty(s.labels.logical, s.labels.collection), s.labels.collection, s.labels.instance)))
  }

  /** The disagreement test between two candidates of one node and one time. */
  predicate Disagree(existing: Candidate, parsed: Candidate) {
    || parsed.content.joinKey != existing.content.joinKey
    || !(&& existing.nodeId == parsed.nodeId
         && existing.content.clusterId == parsed.content.clusterId
         && existing.content.nodeName == parsed.content.nodeName
         && existing.content.clusterName == parsed.content.clusterName
         && existing.content.address == parsed.content.address)
  }

  predicate Coherent(c: Candidate) {
    && c.nodeId == NodeId(c.content.clusterId.identity, Named(c.content.nodeName))
    && c.content.nodeName != ""
    && c.content.joinKey == JoinKey(c.content.collection, c.content.address)
  }

  /** The test misses nothing: what it does not compare is determined by what it does. */
  lemma DisagreeIsDifference(existing: Candidate, parsed: Candidate)
    requires Coherent(existing) && Coherent(parsed) && existing.nodeId == parsed.nodeId
    ensures Disagree(existing, parsed) <==> existing.content != parsed.content
  {
  }

  // ---------------------------------------------------------------------------
  // Candidates as samples per node

  type Candidates = seq<Series<NodeId, Content>>

  function AsSeries(c: Candidate): Series<NodeId, Content> {
    Series(c.nodeId, Some(Sample(c.content, c.sampleAt)))
  }

  function Parsed(series: seq<InstantSeries>, useReportedAt: bool): Candidates {
    if series == [] then []
    else
      var before, c := Parsed(series[..|series| - 1], useReportedAt),
          ParseCandidate(series[|series| - 1], useReportedAt);
      if c.Some? then before + [AsSeries(c.value)] else before
  }

  function Ids(candidates: Candidates): set<NodeId> {
    set c <- candidates :: c.key
  }

  /** The nodes whose newest candidates agree, with what they say. */
  ghost function Resolved(candidates: Candidates): map<NodeId, Content> {
    map id | id in Ids(candidates) && Newest(SamplesOf(candidates, id)).Some? :: Newest(SamplesOf(candidates, id)).value
  }

  // ---------------------------------------------------------------------------
  // Placing the resolved nodes

  datatype Node = Node(id: NodeId, name: string, cluster: string, address: string, clusterId: ClusterId)

  datatype Cluster = Cluster(name: string, identity: string, collections: set<string>)

  datatype Inventory = Inventory(
    byId: map<NodeId, Node>,
    byJoinKey: map<JoinKey, seq<Node>>,
    clusters: map<ClusterId, Cluster>)

  const EMPTY := Inventory(map[], map[], map[])

  function AtJoinKey(inv: Inventory, key: JoinKey): seq<Node> {
    if key in inv.byJoinKey then inv.byJoinKey[key] else []
  }

  function NodeOf(id: NodeId, c: Content): Node {
    Node(id, c.nodeName, c.clusterName, c.address, c.clusterId)
  }

  /** One node: skipped when its cluster already has another name. */
  function PlaceOne(inv: Inventory, id: NodeId, c: Content): Inventory {
    if c.clusterId in inv.clusters && inv.clusters[c.clusterId].name != c.clusterName then inv
    else
      var cluster := if c.clusterId in inv.clusters then inv.clusters[c.clusterId]
          else Cluster(c.clusterName, c.clusterId.identity, {});
      Inventory(
        inv.byId[id := NodeOf(id, c)],
        inv.byJoinKey[c.joinKey := AtJoinKey(inv, c.joinKey) + [NodeOf(id, c)]],
        inv.clusters[c.clusterId := cluster.(collections := cluster.collections + {c.collection})])
  }

  function Place(order: seq<NodeId>, resolved: map<NodeId, Content>): Inventory {
    if order == [] then EMPTY
    else
      var before, id := Place(order[..|order| - 1], resolved), order[|order| - 1];
      if id in resolved then PlaceOne(before, id, resolved[id]) else before
  }

  // ---------------------------------------------------------------------------
  // The builder

  /** `sorted` stands for listing a key set in ascending order. */
  ghost predicate ListsKeys(sorted: set<NodeId> -> seq<NodeId>) {
    forall keys :: (forall id :: id in sorted(keys) <==> id in keys) &&
                   (forall i, j | 0 <= i < j < |sorted(keys)| :: sorted(keys)[i] != sorted(keys)[j])
  }

  /** The two maps hold the newest candidate of one node, and whether it was contradicted. */
  ghost predicate TracksOne(candidate: Candidate, conflict: bool, id: NodeId, samples: seq<Sample<Content>>) {
    && candidate.nodeId == id && Coherent(candidate)
    && FoldPresent(samples) == Present.Present(candidate.content, candidate.sampleAt, conflict)
  }

  /** The two maps hold, for every node id seen, its newest candidate and whether it was contradicted. */
  ghost predicate Tracks(byNodeId: map<NodeId, Candidate>, conflicts: map<NodeId, bool>, candidates: Candidates) {
    && byNodeId.Keys == conflicts.Keys == Ids(candidates)
    && forall id <- byNodeId :: TracksOne(byNodeId[id], conflicts[id], id, SamplesOf(candidates, id))
  }

  /** One parsed candidate against the two maps. */
  function AbsorbOne(byNodeId: map<NodeId, Candidate>, conflicts: map<NodeId, bool>, c: Candidate)
    : (map<NodeId, Candidate>, map<NodeId, bool>)
  {
    if c.nodeId !in byNodeId || c.sampleAt > byNodeId[c.nodeId].sampleAt then
      (byNodeId[c.nodeId := c], conflicts[c.nodeId := false])
    else if c.sampleAt == byNodeId[c.nodeId].sampleAt && Disagree(byNodeId[c.nodeId], c) then
      (byNodeId, conflicts[c.nodeId := true])
    else
      (byNodeId, conflicts)
  }

  lemma FirstCandidateTracks(c: Candidate)
    requires Coherent(c)
    ensures TracksOne(c, false, c.nodeId, [Sample(c.content, c.sampleAt)])
  {
    assert [Sample(c.content, c.sampleAt)][..0] == [];
  }

  lemma NextCandidateTracks(existing: Candidate, conflict: bool, samples: seq<Sample<Content>>, c: Candidate)
    requires Coherent(c) && TracksOne(existing, conflict, c.nodeId, samples)
    ensures var all := samples + [Sample(c.content, c.sampleAt)];
      if c.sampleAt > existing.sampleAt then TracksOne(c, false, c.nodeId, all)
      else TracksOne(existing, conflict || (c.sampleAt == existing.sampleAt && Disagree(existing, c)), c.nodeId, all)
  {
    var all := samples + [Sample(c.content, c.sampleAt)];
    assert all[..|all| - 1] == samples;
    DisagreeIsDifference(existing, c);
  }

  lemma AbsorbOneTracks(byNodeId: map<NodeId, Candidate>, conflicts: map<NodeId, bool>, seen: Candidates, c: Candidate)
    requires Tracks(byNodeId, conflicts, seen) && Coherent(c)
    ensures var (byNodeId', conflicts') := AbsorbOne(byNodeId, conflicts, c); Tracks(byNodeId', conflicts',
        seen + [AsSeries(c)])
  {
    OneMore(seen, c);
    if c.nodeId in byNodeId {
      NextCandidateTracks(byNodeId[c.nodeId], conflicts[c.nodeId], SamplesOf(seen, c.nodeId), c);
    } else {
      FirstCandidateTracks(c);
    }
  }

  /** Both groups of series feed the same two maps. */
  method Absorb(byNodeId: map<NodeId, Candidate>, conflicts: map<NodeId, bool>, ghost before: Candidates,
                series: seq<InstantSeries>, useReportedAt: bool)
    returns (byNodeId': map<NodeId, Candidate>, conflicts': map<NodeId, bool>)
    requires Tracks(byNodeId, conflicts, before)
    ensures Tracks(byNodeId', conflicts', before + Parsed(series, useReportedAt))
  {
    byNodeId', conflicts' := byNodeId, conflicts;
    assert before + Parsed(series[..0], useReportedAt) == before;
    for i := 0 to |series|
      invariant Tracks(byNodeId', conflicts', before + Parsed(series[..i], useReportedAt))
    {
      ghost var seen := before + Parsed(series[..i], useReportedAt);
      assert series[..i + 1][..i] == series[..i];
      var parsed := ParseCandidate(series[i], useReportedAt);
      if parsed.Some? {
        var c := parsed.value;
        assert seen + [AsSeries(c)] == before + Parsed(series[..i + 1], useReportedAt);
        AbsorbOneTracks(byNodeId', conflicts', seen, c);
        if c.nodeId !in byNodeId' || c.sampleAt > byNodeId'[c.nodeId].sampleAt {
          byNodeId', conflicts' := byNodeId'[c.nodeId := c], conflicts'[c.nodeId := false];
        } else if c.sampleAt == byNodeId'[c.nodeId].sampleAt && Disagree(byNodeId'[c.nodeId], c) {
          conflicts' := conflicts'[c.nodeId := true];
        }
      }
    }
    assert series[..|series|] == series;
  }

  lemma OneMore(seen: Candidates, c: Candidate)
    ensures var all := seen + [AsSeries(c)];
      && Ids(all) == Ids(seen) + {c.nodeId}
      && SamplesOf(all, c.nodeId) == SamplesOf(seen, c.nodeId) + [Sample(c.content, c.sampleAt)]
      && (c.nodeId !in Ids(seen) ==> SamplesOf(seen, c.nodeId) == [])
      && forall id | id != c.nodeId :: SamplesOf(all, id) == SamplesOf(seen, id)
  {
    var all := seen + [AsSeries(c)];
    assert all[..|all| - 1] == seen;
    if c.nodeId !in Ids(seen) { NoSamples(seen, c.nodeId); }
  }

  lemma {:induction false} NoSamples(candidates: Candidates, id: NodeId)
    requires id !in Ids(candidates)
    ensures SamplesOf(candidates, id) == []
  {
    if candidates != [] {
      var before, c := candidates[..|candidates| - 1], candidates[|candidates| - 1];
      assert candidates == before + [c];
      assert c in candidates && forall d <- before :: d in candidates;
      NoSamples(before, id);
    }
  }

  lemma {:induction false} SomeSamples(candidates: Candidates, id: NodeId)
    requires forall c <- candidates :: c.sample.Some?
    requires id in Ids(candidates)
    ensures SamplesOf(candidates, id) != []
  {
    var before, c := candidates[..|candidates| - 1], candidates[|candidates| - 1];
    assert candidates == before + [c];
    if c.key != id {
      assert forall d <- before :: d in candidates;
      SomeSamples(before, id);
    }
  }

  ghost function AllCandidates(current: seq<InstantSeries>, historical: seq<InstantSeries>): Candidates {
    Parsed(historical, true) + Parsed(current, false)
  }

  method PlaceCandidate(inv: Inventory, id: NodeId, c: Content) returns (placed: Inventory)
    ensures placed == PlaceOne(inv, id, c)
  {
    var clusters := inv.clusters;
    if c.clusterId in clusters && clusters[c.clusterId].name != c.clusterName {
      return inv;
    }
    if c.clusterId !in clusters {
      clusters := clusters[c.clusterId := Cluster(c.clusterName, c.clusterId.identity, {})];
    }
    var cluster := clusters[c.clusterId];
    clusters := clusters[c.clusterId := cluster.(collections := cluster.collections + {c.collection})];
    var node := NodeOf(id, c);
    placed := Inventory(inv.byId[id := node], inv.byJoinKey[c.joinKey := AtJoinKey(inv, c.joinKey) + [node]], clusters);
    assert placed.clusters == PlaceOne(inv, id, c).clusters;
  }

  /** The second loop: nodes in ascending id order, contradicted ones skipped. */
  method PlaceAll(order: seq<NodeId>, byNodeId: map<NodeId, Candidate>, conflicts: map<NodeId, bool>,
      ghost resolved: map<NodeId, Content>)
    returns (inv: Inventory)
    requires byNodeId.Keys == conflicts.Keys && forall id <- order :: id in byNodeId.Keys
    requires forall id <- byNodeId :: id in resolved <==> !conflicts[id]
    requires forall id <- byNodeId :: !conflicts[id] ==> resolved[id] == byNodeId[id].content
    ensures inv == Place(order, resolved)
  {
    inv := EMPTY;
    for i := 0 to |order|
      invariant inv == Place(order[..i], resolved)
    {
      assert order[..i + 1][..i] == order[..i];
      var id := order[i];
      if !conflicts[id] {
        inv := PlaceCandidate(inv, id, byNodeId[id].content);
      }
    }
    assert order[..|order|] == order;
  }

  method BuildInventory(current: seq<InstantSeries>, historical: seq<InstantSeries>, sorted: set<NodeId> -> seq<NodeId>)
    returns (inv: Inventory)
    requires ListsKeys(sorted)
    ensures var candidates := AllCandidates(current, historical);
      inv == Place(sorted(Ids(candidates)), Resolved(candidates))
  {
    ghost var candidates := AllCandidates(current, historical);
    var byNodeId, conflicts := map[], map[];
    byNodeId, conflicts := Absorb(byNodeId, conflicts, [], historical, true);
    assert [] + Parsed(historical, true) == Parsed(historical, true);
    byNodeId, conflicts := Absorb(byNodeId, conflicts, Parsed(historical, true), current, false);
    ResolvedByTracks(byNodeId, conflicts, candidates);
    inv := PlaceAll(sorted(byNodeId.Keys), byNodeId, conflicts, Resolved(candidates));
  }

  lemma ResolvedByTracks(byNodeId: map<NodeId, Candidate>, conflicts: map<NodeId, bool>, candidates: Candidates)
    requires Tracks(byNodeId, conflicts, candidates)
    ensures forall id <- byNodeId :: id in Resolved(candidates) <==> !conflicts[id]
    ensures forall id <- byNodeId :: !conflicts[id] ==> Resolved(candidates)[id] == byNodeId[id].content
  {
    forall id <- byNodeId
      ensures Newest(SamplesOf(candidates, id)) == if conflicts[id] then None else Some(byNodeId[id].content)
    {
      PresentTracks(SamplesOf(candidates, id));
    }
  }

  // ---------------------------------------------------------------------------
  // Order independence

  lemma {:induction false} ParsedConcat(a: seq<InstantSeries>, b: seq<InstantSeries>, useReportedAt: bool)
    ensures Parsed(a + b, useReportedAt) == Parsed(a, useReportedAt) + Parsed(b, useReportedAt)
  {
    if b == [] {
      assert a + b == a;
    } else {
      assert (a + b)[..|a + b| - 1] == a + b[..|b| - 1];
      ParsedConcat(a, b[..|b| - 1], useReportedAt);
    }
  }

  lemma {:induction false} ParsedPermutation(s: seq<InstantSeries>, t: seq<InstantSeries>, useReportedAt: bool)
    requires multiset(s) == multiset(t)
    ensures multiset(Parsed(s, useReportedAt)) == multiset(Parsed(t, useReportedAt))
  {
    if s == [] {
      assert |multiset(t)| == 0;
    } else {
      var init, last := s[..|s| - 1], s[|s| - 1];
      assert s == init + [last];
      assert last in multiset(t);
      var before, after := TakeOut(t, last);
      ParsedConcat(init, [last], useReportedAt);
      ParsedConcat(before + [last], after, useReportedAt);
      ParsedConcat(before, [last], useReportedAt);
      ParsedConcat(before, after, useReportedAt);
      ParsedPermutation(init, before + after, useReportedAt);
    }
  }

  /** Two lists with the same series build the same nodes, join lists and clusters. */
  lemma InventoryIgnoresSeriesOrder(
    current: seq<InstantSeries>, historical: seq<InstantSeries>,
    current': seq<InstantSeries>, historical': seq<InstantSeries>)
    requires multiset(current) == multiset(current') && multiset(historical) == multiset(historical')
    ensures var a, b := AllCandidates(current, historical), AllCandidates(current', historical');
      Ids(a) == Ids(b) && Resolved(a) == Resolved(b)
  {
    var a, b := AllCandidates(current, historical), AllCandidates(current', historical');
    ParsedPermutation(current, current', false);
    ParsedPermutation(historical, historical', true);
    assert multiset(a) == multiset(b);
    assert forall c :: c in a <==> c in multiset(a);
    assert forall c :: c in b <==> c in multiset(b);
    assert Ids(a) == Ids(b);
    forall id | id in Ids(a) ensures Newest(SamplesOf(a, id)) == Newest(SamplesOf(b, id)) {
      SamplesOfPermutation(a, b, id);
      NewestIgnoresOrder(SamplesOf(a, id), SamplesOf(b, id));
    }
  }

  // ---------------------------------------------------------------------------
  // What the inventory looks like

  ghost predicate CoherentContents(resolved: map<NodeId, Content>) {
    forall id <- resolved ::
      && id == NodeId(resolved[id].clusterId.identity, Named(resolved[id].nodeName))
      && resolved[id].nodeName != ""
      && resolved[id].joinKey == JoinKey(resolved[id].collection, resolved[id].address)
  }

  lemma {:induction false} ParsedIsCoherent(series: seq<InstantSeries>, useReportedAt: bool)
    ensures forall c <- Parsed(series, useReportedAt) ::
              c.sample.Some? && Coherent(Candidate(c.key, c.sample.value.at, c.sample.value.value))
  {
    if series != [] {
      ParsedIsCoherent(series[..|series| - 1], useReportedAt);
    }
  }

  lemma {:induction false} SamplesComeFromCandidates(candidates: Candidates, id: NodeId)
    ensures forall s <- SamplesOf(candidates, id) :: Series(id, Some(s)) in candidates
  {
    if candidates != [] {
      var before, c := candidates[..|candidates| - 1], candidates[|candidates| - 1];
      assert candidates == before + [c];
      SamplesComeFromCandidates(before, id);
    }
  }

  lemma ResolvedIsCoherent(current: seq<InstantSeries>, historical: seq<InstantSeries>)
    ensures CoherentContents(Resolved(AllCandidates(current, historical)))
  {
    var candidates := AllCandidates(current, historical);
    ParsedIsCoherent(current, false);
    ParsedIsCoherent(historical, true);
    forall id <- Resolved(candidates)
      ensures Coherent(Candidate(id, 0, Resolved(candidates)[id]))
    {
      SamplesComeFromCandidates(candidates, id);
      var s :| s in SamplesOf(candidates, id) && s.value == Newest(SamplesOf(candidates, id)).value;
      assert Series(id, Some(s)) in candidates;
    }
  }

  /** Nodes and clusters fit together. */
  ghost predicate Sound(inv: Inventory) {
    && (forall id <- inv.byId :: inv.byId[id].id == id && inv.byId[id].clusterId in inv.clusters)
    && (forall cid <- inv.clusters :: cid == ClusterId(inv.clusters[cid].identity))
    && (forall id <- inv.byId ::
          id == NodeId(inv.byId[id].clusterId.identity,
                       if inv.byId[id].name == "" then Observed(inv.byId[id].address) else Named(inv.byId[id].name)))
  }

  /** Every cluster carries the name its nodes carry. */
  ghost predicate NamesAgree(inv: Inventory) {
    forall id <- inv.byId :: inv.byId[id].clusterId in inv.clusters &&
        inv.clusters[inv.byId[id].clusterId].name == inv.byId[id].cluster
  }

  lemma {:induction false} PlaceIsSound(order: seq<NodeId>, resolved: map<NodeId, Content>)
    requires CoherentContents(resolved)
    ensures Sound(Place(order, resolved)) && NamesAgree(Place(order, resolved))
    ensures forall id <- Place(order, resolved).byId ::
              id in order && id in resolved && Place(order, resolved).byId[id] == NodeOf(id, resolved[id])
  {
    if order != [] {
      var before := order[..|order| - 1];
      assert order == before + [order[|order| - 1]];
      PlaceIsSound(before, resolved);
    }
  }

  /** The join index and the id index hold the same nodes, each once. */
  ghost predicate IndexesAgree(inv: Inventory, resolved: map<NodeId, Content>) {
    && (forall k <- inv.byJoinKey :: Joined(inv, resolved, k, inv.byJoinKey[k]))
    && (forall id <- inv.byId :: id in resolved && inv.byId[id] in AtJoinKey(inv, resolved[id].joinKey))
  }

  ghost predicate Joined(inv: Inventory, resolved: map<NodeId, Content>, k: JoinKey, nodes: seq<Node>) {
    && (forall n <- nodes :: n.id in inv.byId && inv.byId[n.id] == n && n.id in resolved && resolved[n.id].joinKey == k)
    && (forall i, j | 0 <= i < j < |nodes| :: nodes[i].id != nodes[j].id)
  }

  lemma PlaceOneAgrees(inv: Inventory, id: NodeId, resolved: map<NodeId, Content>)
    requires IndexesAgree(inv, resolved) && id in resolved && id !in inv.byId
    ensures IndexesAgree(PlaceOne(inv, id, resolved[id]), resolved)
  {
    var r, c := PlaceOne(inv, id, resolved[id]), resolved[id];
    if r != inv {
      var list, node := AtJoinKey(inv, c.joinKey), NodeOf(id, c);
      assert Joined(inv, resolved, c.joinKey, list);
      assert Joined(r, resolved, c.joinKey, list + [node]);
      forall k <- r.byJoinKey ensures Joined(r, resolved, k, r.byJoinKey[k]) {
        if k != c.joinKey {
          assert Joined(inv, resolved, k, inv.byJoinKey[k]);
        }
      }
    }
  }

  lemma {:induction false} PlaceAgrees(order: seq<NodeId>, resolved: map<NodeId, Content>)
    requires forall i, j | 0 <= i < j < |order| :: order[i] != order[j]
    ensures IndexesAgree(Place(order, resolved), resolved)
  {
    if order != [] {
      var before, id := order[..|order| - 1], order[|order| - 1];
      PlaceAgrees(before, resolved);
      PlacedBefore(before, resolved);
      if id in resolved {
        PlaceOneAgrees(Place(before, resolved), id, resolved);
      }
    }
  }

  /** Position of the first resolved node of a cluster: the one that names it. */
  ghost predicate NamesCluster(order: seq<NodeId>, resolved: map<NodeId, Content>, i: nat, cid: ClusterId) {
    && i < |order| && order[i] in resolved && resolved[order[i]].clusterId == cid
    && forall j | 0 <= j < i :: order[j] in resolved ==> resolved[order[j]].clusterId != cid
  }

  /**
   A resolved node is kept exactly when its cluster name is the one given by the
   cluster's first resolved node in id order, and that name is the cluster's name.
   */
  lemma {:induction false} KeptExactly(order: seq<NodeId>, resolved: map<NodeId, Content>, i: nat, cid: ClusterId)
    requires NamesCluster(order, resolved, i, cid)
    ensures var inv := Place(order, resolved);
      && cid in inv.clusters && inv.clusters[cid].name == resolved[order[i]].clusterName
      && forall id | id in order && id in resolved && resolved[id].clusterId == cid ::
           id in inv.byId <==> resolved[id].clusterName == resolved[order[i]].clusterName
    decreases |order|
  {
    var last := |order| - 1;
    var before := order[..last];
    assert order == before + [order[last]];
    PlacedBefore(before, resolved);
    if i < last {
      assert before[i] == order[i];
      KeptExactly(before, resolved, i, cid);
    } else {
      NoClusterYet(before, resolved, cid);
    }
  }

  lemma {:induction false} PlacedBefore(order: seq<NodeId>, resolved: map<NodeId, Content>)
    ensures forall id <- Place(order, resolved).byId ::
              id in order && id in resolved && Place(order, resolved).byId[id] == NodeOf(id, resolved[id])
  {
    if order != [] {
      assert order == order[..|order| - 1] + [order[|order| - 1]];
      PlacedBefore(order[..|order| - 1], resolved);
    }
  }

  lemma {:induction false} NoClusterYet(order: seq<NodeId>, resolved: map<NodeId, Content>, cid: ClusterId)
    requires forall id <- order :: id in resolved ==> resolved[id].clusterId != cid
    ensures cid !in Place(order, resolved).clusters
  {
    if order != [] {
      assert order == order[..|order| - 1] + [order[|order| - 1]];
      NoClusterYet(order[..|order| - 1], resolved, cid);
    }
  }

  /** A candidate of the newest time, with which every candidate of that time agrees. */
  ghost predicate IsNewestCandidate(candidates: Candidates, s: Series<NodeId, Content>, id: NodeId, c: Content) {
    && s in candidates && s.key == id && s.sample.Some? && s.sample.value.value == c
    && forall r <- candidates | r.key == id && r.sample.Some? ::
         && r.sample.value.at <= s.sample.value.at
         && (r.sample.value.at == s.sample.value.at ==> r.sample.value.value == c)
  }

  /** A node is resolved exactly when its newest candidates all say the same. */
  lemma ResolvedExactly(current: seq<InstantSeries>, historical: seq<InstantSeries>, id: NodeId, c: Content)
    ensures var candidates := AllCandidates(current, historical);
      id in Resolved(candidates) && Resolved(candidates)[id] == c <==>
      exists s :: IsNewestCandidate(candidates, s, id, c)
  {
    var candidates := AllCandidates(current, historical);
    SamplesComeFromCandidates(candidates, id);
    CandidatesGiveSamples(candidates, id);
    if id in Resolved(candidates) && Resolved(candidates)[id] == c {
      var samples := SamplesOf(candidates, id);
      var s :| s in samples && s.value == c && forall r <- samples :: r.at <= s.at && (r.at == s.at ==> r.value == c);
      assert IsNewestCandidate(candidates, Series(id, Some(s)), id, c);
    }
    if s :| IsNewestCandidate(candidates, s, id, c) {
      assert s.sample.value in SamplesOf(candidates, id);
      assert IsNewest(SamplesOf(candidates, id), c);
      NewestIsUnique(SamplesOf(candidates, id), c);
    }
  }

  lemma {:induction false} CandidatesGiveSamples(candidates: Candidates, id: NodeId)
    ensures forall c <- candidates :: c.key == id && c.sample.Some? ==> c.sample.value in SamplesOf(candidates, id)
  {
    if candidates != [] {
      var before, c := candidates[..|candidates| - 1], candidates[|candidates| - 1];
      assert candidates == before + [c];
      CandidatesGiveSamples(before, id);
    }
  }
  // ---------------------------------------------------------------------------
  // From the series to the nodes

  /** What the labels of a series say about a node, label by label. */
  ghost predicate Says(labels: Labels, id: NodeId, c: Content) {
    && labels.node != "" && labels.collection != "" && labels.instance != ""
    && id.key == Named(labels.node)
    && id.identity == (if labels.permanent != "" then labels.permanent
                       else if labels.logical != "" then labels.logical
                       else labels.collection)
    && c.clusterName == (if labels.logical != "" then labels.logical else labels.collection)
    && c.clusterId == ClusterId(id.identity) && c.nodeName == labels.node
    && c.joinKey == JoinKey(labels.collection, labels.instance)
    && c.collection == labels.collection && c.address == labels.instance
  }

  ghost predicate SaysNow(s: InstantSeries, id: NodeId, c: Content, at: Time) {
    Says(s.labels, id, c) && s.times.Some? && s.times.value.sampleAt == Some(at)
  }

  ghost predicate SaysOfThen(s: InstantSeries, id: NodeId, c: Content, at: Time) {
    Says(s.labels, id, c) && s.times.Some? && s.times.value.reportedAt == Some(at)
  }

  /** A current series says it of its sample time, or a historical one of its reported time. */
  ghost predicate Stated(current: seq<InstantSeries>, historical: seq<InstantSeries>, id: NodeId, c: Content,
      at: Time)
  {
    (exists s <- current :: SaysNow(s, id, c, at)) || (exists s <- historical :: SaysOfThen(s, id, c, at))
  }

  /** Nothing else is said of that time, and nothing of a later one. */
  ghost predicate StatedLast(current: seq<InstantSeries>, historical: seq<InstantSeries>, id: NodeId, c: Content,
      at: Time)
  {
    && Stated(current, historical, id, c, at)
    && forall d, t | Stated(current, historical, id, d, t) :: t <= at && (t == at ==> d == c)
  }

  lemma {:induction false} CandidatesOfSeries(series: seq<InstantSeries>, id: NodeId, c: Content, at: Time)
    ensures Series(id, Some(Sample(c, at))) in Parsed(series, false) <==> exists s <- series :: SaysNow(s, id, c, at)
    ensures Series(id, Some(Sample(c, at))) in Parsed(series, true) <==> exists s <- series :: SaysOfThen(s, id, c, at)
  {
    if series != [] {
      var before, last := series[..|series| - 1], series[|series| - 1];
      assert series == before + [last];
      CandidatesOfSeries(before, id, c, at);
      CandidateOfSeries(last, id, c, at);
    }
  }

  lemma CandidateOfSeries(s: InstantSeries, id: NodeId, c: Content, at: Time)
    ensures ParseCandidate(s, false) == Some(Candidate(id, at, c)) <==> SaysNow(s, id, c, at)
    ensures ParseCandidate(s, true) == Some(Candidate(id, at, c)) <==> SaysOfThen(s, id, c, at)
  {
  }

  /** A node is resolved to what the series of its newest time say, if and only if they say one thing. */
  lemma ResolvedFromSeries(current: seq<InstantSeries>, historical: seq<InstantSeries>, id: NodeId, c: Content)
    ensures var resolved := Resolved(AllCandidates(current, historical));
      id in resolved && resolved[id] == c <==> exists at :: StatedLast(current, historical, id, c, at)
  {
    var candidates := AllCandidates(current, historical);
    forall d, t ensures Series(id, Some(Sample(d, t))) in candidates <==> Stated(current, historical, id, d, t) {
      CandidatesOfSeries(current, id, d, t);
      CandidatesOfSeries(historical, id, d, t);
    }
    ResolvedExactly(current, historical, id, c);
    if s :| IsNewestCandidate(candidates, s, id, c) {
      var at := s.sample.value.at;
      assert s == Series(id, Some(Sample(c, at)));
      forall d, t | Stated(current, historical, id, d, t) ensures t <= at && (t == at ==> d == c) {
        assert Series(id, Some(Sample(d, t))) in candidates;
      }
      assert StatedLast(current, historical, id, c, at);
    }
    if at :| StatedLast(current, historical, id, c, at) {
      var s := Series(id, Some(Sample(c, at)));
      forall r <- candidates | r.key == id && r.sample.Some?
        ensures r.sample.value.at <= at && (r.sample.value.at == at ==> r.sample.value.value == c)
      {
        assert r == Series(id, Some(Sample(r.sample.value.value, r.sample.value.at)));
      }
      assert IsNewestCandidate(candidates, s, id, c);
    }
  }

  /** Every node of the inventory shows the labels of a series of its newest time. */
  lemma NodesShowTheirSeries(current: seq<InstantSeries>, historical: seq<InstantSeries>, order: seq<NodeId>,
      id: NodeId) returns (c: Content, at: Time)
    requires id in Place(order, Resolved(AllCandidates(current, historical))).byId
    ensures StatedLast(current, historical, id, c, at)
    ensures var node := Place(order, Resolved(AllCandidates(current, historical))).byId[id];
      && node.id == id && node.name == c.nodeName && node.cluster == c.clusterName
      && node.address == c.address && node.clusterId == c.clusterId
  {
    var resolved := Resolved(AllCandidates(current, historical));
    PlacedBefore(order, resolved);
    c := resolved[id];
    ResolvedFromSeries(current, historical, id, c);
    at :| StatedLast(current, historical, id, c, at);
  }

  /** The collections of a cluster are exactly those of its nodes, of which it has one. */
  lemma {:induction false} CollectionsOfNodes(order: seq<NodeId>, resolved: map<NodeId, Content>, cid: ClusterId)
    requires forall i, j | 0 <= i < j < |order| :: order[i] != order[j]
    ensures var inv := Place(order, resolved);
      && (cid in inv.clusters <==> exists id <- inv.byId :: id in resolved && resolved[id].clusterId == cid)
      && (cid in inv.clusters ==>
            var nodes := set id <- inv.byId | id in resolved && resolved[id].clusterId == cid;
            inv.clusters[cid].collections == set id <- nodes :: resolved[id].collection)
  {
    if order != [] {
      var before, last := order[..|order| - 1], order[|order| - 1];
      CollectionsOfNodes(before, resolved, cid);
      PlacedBefore(before, resolved);
    }
  }
}
