/**
 The guarded sums of the Elasticsearch view: a 64-bit sum that refuses to overflow,
 ranged over a map in any order, and overview totals that saturate.
 */
module ShardTotals {
  import opened Integers
  import opened Optional
  import opened Rearrangement

  /** The newest-value cell of one part; a part that was never seen has no value. */
  datatype Part = Part(value: Int, present: bool, conflict: bool)

  type Parts = map<string, Part>

  /** The adapter admits no negative reading. */
  predicate Admitted(parts: Parts) {
    forall name <- parts :: parts[name].value >= 0
  }

  predicate Known(part: Part) {
    part.present && !part.conflict
  }

  /** The true sum of the parts, whatever the order. */
  ghost function Total(parts: Parts): int {
    if parts == map[] then 0
    else
      assert parts.Keys != {};
      var name :| name in parts;
      parts[name].value as int + Total(parts - {name})
  }

  lemma {:induction false} TotalTakesAnyPart(parts: Parts, name: string)
    requires name in parts
    ensures Total(parts) == parts[name].value as int + Total(parts - {name})
    decreases |parts|
  {
    var first :| first in parts && Total(parts) == parts[first].value as int + Total(parts - {first});
    if first != name {
      TotalTakesAnyPart(parts - {first}, name);
      TotalTakesAnyPart(parts - {name}, first);
      assert parts - {first} - {name} == parts - {name} - {first};
    }
  }

  /** No part sums to nothing, and one part to its value. */
  lemma TotalOfOne(name: string, part: Part)
    ensures Total(map[]) == 0 && Total(map[name := part]) == part.value as int
  {
    TotalTakesAnyPart(map[name := part], name);
    assert map[name := part] - {name} == map[];
  }

  lemma {:induction false} TotalIsNonNegative(parts: Parts)
    requires Admitted(parts)
    ensures Total(parts) >= 0
    decreases |parts|
  {
    if parts != map[] {
      assert parts.Keys != {};
      var name :| name in parts;
      TotalTakesAnyPart(parts, name);
      TotalIsNonNegative(parts - {name});
    }
  }

  /**
   The exact sum when there is a part, every part is known and the sum fits; otherwise
   nothing.  The loop takes the parts in any order and never overflows.
   */
  method SumInts(parts: Parts) returns (sum: Option<Int>)
    requires forall name <- parts :: parts[name].value >= 0
    ensures sum.Some? <==>
              && parts != map[] && (forall name <- parts :: parts[name].present && !parts[name].conflict)
              && Total(parts) <= 0x7FFF_FFFF_FFFF_FFFF
    ensures sum.Some? ==> sum.value as int == Total(parts)
  {
    if |parts| == 0 {
      return None;
    }
    var total: Int := 0;
    var rest := parts;
    while rest != map[]
      invariant rest.Keys <= parts.Keys && forall name <- rest :: rest[name] == parts[name]
      invariant forall name <- parts :: name !in rest ==> Known(parts[name])
      invariant 0 <= total && total as int + Total(rest) == Total(parts)
      decreases |rest|
    {
      assert rest.Keys != {};
      var name :| name in rest;
      var part := rest[name];
      TotalTakesAnyPart(rest, name);
      TotalIsNonNegative(rest - {name});
      if !part.present || part.conflict || part.value > MAX_INT as Int - total {
        return None;
      }
      total := total + part.value;
      rest := rest - {name};
    }
    return Some(total);
  }

  // ---------------------------------------------------------------------------
  // Overview totals

  datatype Health = Green | Yellow | Red | Unknown

  datatype Cluster = Cluster(health: Health, unassigned: Option<Int>)

  predicate Counted(cluster: Cluster, health: Health) {
    cluster.health == health && cluster.unassigned.Some? && cluster.unassigned.value >= 0
  }

  function Share(cluster: Cluster, health: Health): nat {
    if Counted(cluster, health) then cluster.unassigned.value as int else 0
  }

  /** The true number of unassigned shards over the clusters of one health. */
  function Unassigned(clusters: seq<Cluster>, health: Health): nat {
    if clusters == [] then 0
    else Unassigned(clusters[..|clusters| - 1], health) + Share(clusters[|clusters| - 1], health)
  }

  function CountOf(clusters: seq<Cluster>, health: Health): nat {
    if clusters == [] then 0
    else CountOf(clusters[..|clusters| - 1], health) + (if clusters[|clusters| - 1].health == health then 1 else 0)
  }

  /** Addition that stops at the largest integer and cannot overflow on the way. */
  method SaturatingAdd(current: Int, value: Int) returns (sum: Int)
    requires current >= 0 && value >= 0
    ensures sum as int == Min(0x7FFF_FFFF_FFFF_FFFF, current as int + value as int)
  {
    var maxInt: Int := MAX_INT as Int;
    if value > maxInt - current {
      return maxInt;
    }
    return current + value;
  }

  /** The cluster alerts of the overview. */
  method ClusterAlerts(clusters: seq<Cluster>) returns (yellow: nat, red: nat, warning: Int, critical: Int)
    ensures yellow == CountOf(clusters, Yellow) && red == CountOf(clusters, Red)
    ensures warning as int == Min(MAX_INT, Unassigned(clusters, Yellow))
    ensures critical as int == Min(MAX_INT, Unassigned(clusters, Red))
  {
    yellow, red, warning, critical := 0, 0, 0, 0;
    for i := 0 to |clusters|
      invariant yellow == CountOf(clusters[..i], Yellow) && red == CountOf(clusters[..i], Red)
      invariant warning as int == Min(MAX_INT, Unassigned(clusters[..i], Yellow))
      invariant critical as int == Min(MAX_INT, Unassigned(clusters[..i], Red))
    {
      var cluster := clusters[i];
      assert clusters[..i + 1][..i] == clusters[..i];
      match cluster.health {
        case Yellow =>
          yellow := yellow + 1;
          if cluster.unassigned.Some? && cluster.unassigned.value >= 0 {
            warning := SaturatingAdd(warning, cluster.unassigned.value);
          }
        case Red =>
          red := red + 1;
          if cluster.unassigned.Some? && cluster.unassigned.value >= 0 {
            critical := SaturatingAdd(critical, cluster.unassigned.value);
          }
        case _ =>
      }
    }
    assert clusters[..|clusters|] == clusters;
  }

  /** One cluster counts for its own health, with the shards it reports, if it reports a number of them. */
  lemma UnassignedOfOne(cluster: Cluster, health: Health)
    ensures CountOf([cluster], health) == if cluster.health == health then 1 else 0
    ensures cluster.health != health || cluster.unassigned.None? ==> Unassigned([cluster], health) == 0
    ensures cluster.health == health && cluster.unassigned.Some? ==>
              var shards := cluster.unassigned.value as int;
              Unassigned([cluster], health) == if shards >= 0 then shards else 0
  {
    assert [cluster][..0] == [];
  }

  lemma {:induction false} CountOfConcat(a: seq<Cluster>, b: seq<Cluster>, health: Health)
    ensures CountOf(a + b, health) == CountOf(a, health) + CountOf(b, health)
  {
    if b == [] {
      assert a + b == a;
    } else {
      CountOfConcat(a, b[..|b| - 1], health);
      assert (a + b)[..|a + b| - 1] == a + b[..|b| - 1];
    }
  }

  lemma {:induction false} UnassignedOfConcat(a: seq<Cluster>, b: seq<Cluster>, health: Health)
    ensures Unassigned(a + b, health) == Unassigned(a, health) + Unassigned(b, health)
  {
    if b == [] {
      assert a + b == a;
    } else {
      UnassignedOfConcat(a, b[..|b| - 1], health);
      assert (a + b)[..|a + b| - 1] == a + b[..|b| - 1];
    }
  }

  /** The totals do not depend on the order of the clusters. */
  lemma {:induction false} TotalsIgnoreOrder(a: seq<Cluster>, b: seq<Cluster>, health: Health)
    requires multiset(a) == multiset(b)
    ensures Unassigned(a, health) == Unassigned(b, health)
  {
    if a == [] {
      assert |multiset(b)| == 0;
    } else {
      var init, last := a[..|a| - 1], a[|a| - 1];
      assert a == init + [last];
      assert last in multiset(b);
      var before, after := TakeOut(b, last);
      UnassignedOfConcat(before + [last], after, health);
      UnassignedOfConcat(before, [last], health);
      UnassignedOfConcat(before, after, health);
      TotalsIgnoreOrder(init, before + after, health);
    }
  }
}
