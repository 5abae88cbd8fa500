/**
 * `cluster_merged_items`: a canonical item's references are split into clusters of nearby
 * detections, detections from two hard-coded time windows are dropped, and one cluster (or
 * all of them) becomes the item's new reference list.
 */
module ReferenceClusters {
  import opened Wrappers
  import opened Geometry
  import opened Lists
  import opened Sorting
  import opened FieldItems
  import opened FieldGrouping
  import opened GeoImages
  import ItemProcessing

  predicate ClustersIn(clusters: seq<seq<nat>>, n: nat) {
    forall k :: 0 <= k < |clusters| ==> AllIn(clusters[k], n)
  }

  /** Two references closer than the cluster size (strictly). */
  predicate Close(items: seq<Item>, r: nat, c: nat, clusterSize: real, sqrt: SqrtFn)
    requires RefsValid(items) && r < |items| && c < |items|
  {
    PositionDifference(Position(items, r), Position(items, c), sqrt) < clusterSize
  }

  /** Some member of the cluster is close to `r`. */
  predicate NearAny(items: seq<Item>, cluster: seq<nat>, r: nat, clusterSize: real, sqrt: SqrtFn)
    requires RefsValid(items) && r < |items| && AllIn(cluster, |items|)
  {
    exists k :: 0 <= k < |cluster| && Close(items, r, cluster[k], clusterSize, sqrt)
  }

  /**
   * One reference joins every existing cluster that has a member close to it (the `break`
   * leaves only the inner loop), and starts a cluster of its own when it joins none.
   */
  function AddRef(items: seq<Item>, clusters: seq<seq<nat>>, r: nat, clusterSize: real, sqrt: SqrtFn): (res: seq<seq<nat>>)
    requires RefsValid(items) && r < |items| && ClustersIn(clusters, |items|)
    ensures ClustersIn(res, |items|)
  {
    var marked := seq(|clusters|, k requires 0 <= k < |clusters| =>
      if NearAny(items, clusters[k], r, clusterSize, sqrt) then clusters[k] + [r] else clusters[k]);
    if exists k :: 0 <= k < |clusters| && NearAny(items, clusters[k], r, clusterSize, sqrt) then marked
    else marked + [[r]]
  }

  /** The clusters after every reference has been added, in order. */
  function BuildClusters(items: seq<Item>, refs: seq<nat>, clusterSize: real, sqrt: SqrtFn): (res: seq<seq<nat>>)
    requires RefsValid(items) && AllIn(refs, |items|)
    ensures ClustersIn(res, |items|)
  {
    if refs == [] then []
    else AddRef(items, BuildClusters(items, refs[..|refs| - 1], clusterSize, sqrt), refs[|refs| - 1], clusterSize, sqrt)
  }

  /**
   * Every reference lands in at least one cluster, every cluster is non-empty and holds only
   * references, and there are never more clusters than references.
   */
  lemma {:induction false} BuildClustersCover(items: seq<Item>, refs: seq<nat>, clusterSize: real, sqrt: SqrtFn)
    requires RefsValid(items) && AllIn(refs, |items|)
    ensures var cs := BuildClusters(items, refs, clusterSize, sqrt);
            |cs| <= |refs|
            && (forall k :: 0 <= k < |cs| ==> |cs[k]| > 0 && forall x :: x in cs[k] ==> x in refs)
            && (forall x :: x in refs ==> exists k :: 0 <= k < |cs| && x in cs[k])
  {
    if refs != [] {
      var init, r := refs[..|refs| - 1], refs[|refs| - 1];
      BuildClustersCover(items, init, clusterSize, sqrt);
      var prev := BuildClusters(items, init, clusterSize, sqrt);
      var cs := AddRef(items, prev, r, clusterSize, sqrt);
      assert refs == init + [r];
      assert forall k :: 0 <= k < |prev| ==> cs[k] == prev[k] || cs[k] == prev[k] + [r];
      forall x | x in refs
        ensures exists k :: 0 <= k < |cs| && x in cs[k]
      {
        if x == r {
          if exists k :: 0 <= k < |prev| && NearAny(items, prev[k], r, clusterSize, sqrt) {
            var k :| 0 <= k < |prev| && NearAny(items, prev[k], r, clusterSize, sqrt);
            assert r in cs[k];
          } else {
            assert r in cs[|prev|];
          }
        } else {
          assert x in init;
          var k :| 0 <= k < |prev| && x in prev[k];
          assert x in cs[k];
        }
      }
    }
  }

  /** Later references only extend existing clusters or open new ones at the end, so the first cluster opens with the first reference (the item itself, in `[self] + other_items`). */
  lemma {:induction false} BuildClustersFirst(items: seq<Item>, refs: seq<nat>, clusterSize: real, sqrt: SqrtFn)
    requires RefsValid(items) && AllIn(refs, |items|)
    ensures var cs := BuildClusters(items, refs, clusterSize, sqrt);
            refs != [] ==> |cs| > 0 && |cs[0]| > 0 && cs[0][0] == refs[0]
  {
    if refs != [] {
      var init, r := refs[..|refs| - 1], refs[|refs| - 1];
      var prev := BuildClusters(items, init, clusterSize, sqrt);
      var cs := AddRef(items, prev, r, clusterSize, sqrt);
      assert cs == BuildClusters(items, refs, clusterSize, sqrt);
      if init == [] {
        assert prev == [];
        assert cs == [[r]];
      } else {
        BuildClustersFirst(items, init, clusterSize, sqrt);
        assert init[0] == refs[0];
        assert cs[0] == prev[0] || cs[0] == prev[0] + [r];
      }
    }
  }

  /** `cluster_size` is the only closeness bound: a reference next to a clustered one joins that cluster. */
  lemma AddRefJoins(items: seq<Item>, clusters: seq<seq<nat>>, r: nat, k: nat, m: nat, clusterSize: real, sqrt: SqrtFn)
    requires RefsValid(items) && r < |items| && ClustersIn(clusters, |items|)
    requires k < |clusters| && m < |clusters[k]| && Close(items, r, clusters[k][m], clusterSize, sqrt)
    ensures AddRef(items, clusters, r, clusterSize, sqrt)[k] == clusters[k] + [r]
    ensures |AddRef(items, clusters, r, clusterSize, sqrt)| == |clusters|
  {
    assert NearAny(items, clusters[k], r, clusterSize, sqrt);
  }

  // The two windows of image times whose detections are discarded.
  const SouthStart: real := 1436381595.84399
  const SouthEnd: real := 1436382495.42099
  const NorthStart: real := 1436384915.009
  const NorthEnd: real := 1436385609.175

  predicate InDiscardedWindow(t: real) {
    (SouthStart < t && t < SouthEnd) || (NorthStart < t && t < NorthEnd)
  }

  /** The first image with the given file name. */
  function ImageNamed(images: seq<GeoImage>, name: string): (r: Option<GeoImage>)
    ensures r.Some? ==> r.value in images && r.value.fileName == name
    ensures r.None? <==> forall k :: 0 <= k < |images| ==> images[k].fileName != name
  {
    if images == [] then None
    else if images[0].fileName == name then Some(images[0])
    else ImageNamed(images[1..], name)
  }

  /** A reference survives the filter when its parent image is known and taken outside both windows. */
  predicate Good(items: seq<Item>, images: seq<GeoImage>, r: nat) {
    r < |items| &&
    var g := ImageNamed(images, items[r].parentImage);
    g.Some? && !InDiscardedWindow(g.value.imageTime)
  }

  /** The members of a cluster that survive the filter, in order. */
  function NonBad(items: seq<Item>, images: seq<GeoImage>, cluster: seq<nat>): (res: seq<nat>)
    ensures |res| <= |cluster|
    ensures forall x :: x in res ==> x in cluster && Good(items, images, x)
    ensures forall x :: x in cluster && Good(items, images, x) ==> x in res
  {
    Filter(cluster, (x: nat) => Good(items, images, x))
  }

  lemma NonBadSplit(items: seq<Item>, images: seq<GeoImage>, a: seq<nat>, b: seq<nat>)
    ensures NonBad(items, images, a + b) == NonBad(items, images, a) + NonBad(items, images, b)
  {
    FilterSplit(a, b, (x: nat) => Good(items, images, x));
  }

  lemma NonBadSingle(items: seq<Item>, images: seq<GeoImage>, r: nat)
    ensures NonBad(items, images, [r]) == if Good(items, images, r) then [r] else []
  {
    assert [r][1..] == [];
  }

  /** The filtered clusters that keep at least one reference, in order. */
  function ValidClusters(items: seq<Item>, images: seq<GeoImage>, clusters: seq<seq<nat>>): (res: seq<seq<nat>>)
    ensures |res| <= |clusters|
    ensures forall k :: 0 <= k < |res| ==> |res[k]| > 0 && forall x :: x in res[k] ==> Good(items, images, x)
  {
    if clusters == [] then []
    else
      var nonBad := NonBad(items, images, clusters[|clusters| - 1]);
      ValidClusters(items, images, clusters[..|clusters| - 1]) + (if |nonBad| > 0 then [nonBad] else [])
  }

  /** The cluster kept: the only one, the largest when strictly larger than the next, or all of them. */
  function KeptCluster(clusters: seq<seq<nat>>): (res: seq<nat>)
    requires |clusters| > 0
    ensures forall x :: x in res ==> exists k :: 0 <= k < |clusters| && x in clusters[k]
    ensures |clusters| == 1 ==> res == clusters[0]
    ensures |clusters| > 1 && |clusters[0]| > |clusters[1]| ==> res == clusters[0]
    ensures |clusters| > 1 && |clusters[0]| <= |clusters[1]| ==> |res| == ItemProcessing.TotalLength(clusters)
    ensures (forall k :: 0 <= k < |clusters| ==> |clusters[k]| > 0) ==> |res| > 0
  {
    if |clusters| == 1 then clusters[0]
    else if |clusters[0]| > |clusters[1]| then clusters[0]
    else
      ItemProcessing.FlattenLength(clusters);
      TotalLengthAtLeastFirst(clusters);
      FlattenMembers(clusters);
      ItemProcessing.Flatten(clusters)
  }

  lemma FlattenMembers(clusters: seq<seq<nat>>)
    ensures forall x :: x in ItemProcessing.Flatten(clusters) ==> exists k :: 0 <= k < |clusters| && x in clusters[k]
  {
    forall x | x in ItemProcessing.Flatten(clusters)
      ensures exists k :: 0 <= k < |clusters| && x in clusters[k]
    {
      ItemProcessing.FlattenMembers(clusters, x);
    }
  }

  /** The clusters of one item's references, largest first, then without discarded detections if any remain. */
  function ChosenClusters(items: seq<Item>, images: seq<GeoImage>, item: nat, clusterSize: real, sqrt: SqrtFn): (res: seq<seq<nat>>)
    requires RefsValid(items) && item < |items|
    ensures |res| > 0 && forall k :: 0 <= k < |res| ==> |res[k]| > 0
    ensures forall k, x :: 0 <= k < |res| && x in res[k] ==> x in AllRefs(items, item)
  {
    var refs := AllRefs(items, item);
    var clusters := BuildClusters(items, refs, clusterSize, sqrt);
    var sorted := SortByDescending(clusters, (c: seq<nat>) => |c| as real);
    SortedFrom(items, refs, clusterSize, sqrt, sorted);
    var valid := ValidClusters(items, images, sorted);
    ValidClustersFrom(items, images, sorted);
    if |valid| > 0 then valid else sorted
  }

  lemma SortedFrom(items: seq<Item>, refs: seq<nat>, clusterSize: real, sqrt: SqrtFn, sorted: seq<seq<nat>>)
    requires RefsValid(items) && AllIn(refs, |items|) && |refs| > 0
    requires multiset(sorted) == multiset(BuildClusters(items, refs, clusterSize, sqrt))
    ensures |sorted| > 0 && forall k :: 0 <= k < |sorted| ==> |sorted[k]| > 0
    ensures forall k, x :: 0 <= k < |sorted| && x in sorted[k] ==> x in refs
  {
    var clusters := BuildClusters(items, refs, clusterSize, sqrt);
    BuildClustersCover(items, refs, clusterSize, sqrt);
    assert refs[0] in refs;
    assert |clusters| > 0;
    assert clusters[0] in multiset(sorted);
    forall k | 0 <= k < |sorted|
      ensures |sorted[k]| > 0 && forall x :: x in sorted[k] ==> x in refs
    {
      assert sorted[k] in multiset(clusters);
      var j :| 0 <= j < |clusters| && clusters[j] == sorted[k];
    }
  }

  /** The references kept for one item. */
  function KeptReferences(items: seq<Item>, images: seq<GeoImage>, item: nat, clusterSize: real, sqrt: SqrtFn): (res: seq<nat>)
    requires RefsValid(items) && item < |items|
    ensures |res| > 0
    ensures forall x :: x in res ==> x in AllRefs(items, item)
  {
    var chosen := ChosenClusters(items, images, item, clusterSize, sqrt);
    KeptCluster(chosen)
  }

  lemma {:induction false} TotalLengthAtLeastFirst(clusters: seq<seq<nat>>)
    requires |clusters| > 0
    ensures ItemProcessing.TotalLength(clusters) >= |clusters[0]|
  {
    if |clusters| > 1 {
      TotalLengthAtLeastFirst(clusters[..|clusters| - 1]);
    }
  }

  lemma {:induction false} ValidClustersFrom(items: seq<Item>, images: seq<GeoImage>, clusters: seq<seq<nat>>)
    ensures forall k, x :: 0 <= k < |ValidClusters(items, images, clusters)| && x in ValidClusters(items, images, clusters)[k]
              ==> exists j :: 0 <= j < |clusters| && x in clusters[j]
  {
    if clusters != [] {
      var init := clusters[..|clusters| - 1];
      ValidClustersFrom(items, images, init);
      forall k, x | 0 <= k < |ValidClusters(items, images, clusters)| && x in ValidClusters(items, images, clusters)[k]
        ensures exists j :: 0 <= j < |clusters| && x in clusters[j]
      {
        var prev := ValidClusters(items, images, init);
        if k < |prev| {
          var j :| 0 <= j < |init| && x in init[j];
          assert clusters[j] == init[j];
        } else {
          assert x in clusters[|clusters| - 1];
        }
      }
    }
  }

  /**
   * The reassignment after the kept cluster is chosen: the main item's references are
   * cleared, and each further member has its own references cleared and is appended.
   */
  function Rereference(items: seq<Item>, main: nat, rest: seq<nat>): (res: seq<Item>)
    requires main < |items| && AllIn(rest, |items|)
    ensures |res| == |items|
    decreases |rest|
  {
    if rest == [] then items
    else
      var x := rest[|rest| - 1];
      var prev := Rereference(items, main, rest[..|rest| - 1]);
      var cleared := prev[x := prev[x].(others := [])];
      cleared[main := cleared[main].(others := cleared[main].others + [x])]
  }

  /** Re-referencing one more member clears its list and appends it to the main member's. */
  lemma RereferenceStep(items: seq<Item>, main: nat, rest: seq<nat>, j: nat)
    requires main < |items| && AllIn(rest, |items|) && j < |rest|
    ensures AllIn(rest[..j], |items|) && AllIn(rest[..j + 1], |items|)
    ensures var prev := Rereference(items, main, rest[..j]);
            var cleared := prev[rest[j] := prev[rest[j]].(others := [])];
            Rereference(items, main, rest[..j + 1]) == cleared[main := cleared[main].(others := cleared[main].others + [rest[j]])]
  {
    assert rest[..j + 1][..j] == rest[..j];
  }

  function Reassigned(items: seq<Item>, kept: seq<nat>): (res: seq<Item>)
    requires |kept| > 0 && AllIn(kept, |items|)
    ensures |res| == |items|
  {
    Rereference(items[kept[0] := items[kept[0]].(others := [])], kept[0], kept[1..])
  }

  /**
   * With no repeated member, the main item ends up referencing exactly the other members,
   * which reference nothing; nothing else changes.
   */
  lemma {:induction false} RereferenceDistinct(items: seq<Item>, main: nat, rest: seq<nat>, t: nat)
    requires main < |items| && AllIn(rest, |items|) && main !in rest && Distinct(rest) && t < |items|
    ensures var res := Rereference(items, main, rest);
            (t == main ==> res[t].others == items[main].others + rest)
            && (t in rest ==> res[t].others == [])
            && res[t] == items[t].(others := res[t].others)
            && (t != main && t !in rest ==> res[t] == items[t])
    decreases |rest|
  {
    if rest != [] {
      var init := rest[..|rest| - 1];
      DistinctLast(rest);
      RereferenceDistinct(items, main, init, t);
      assert rest == init + [rest[|rest| - 1]];
    }
  }

  lemma ReassignedDistinct(items: seq<Item>, kept: seq<nat>, t: nat)
    requires |kept| > 0 && AllIn(kept, |items|) && Distinct(kept) && t < |items|
    ensures var res := Reassigned(items, kept);
            (t == kept[0] ==> res[t].others == kept[1..])
            && (t in kept[1..] ==> res[t].others == [])
            && (t !in kept ==> res[t] == items[t])
  {
    var items' := items[kept[0] := items[kept[0]].(others := [])];
    assert Distinct(kept[1..]) && kept[0] !in kept[1..] by {
      forall i, j | 0 <= i < j < |kept[1..]| ensures kept[1..][i] != kept[1..][j] { assert kept[i + 1] != kept[j + 1]; }
      forall i | 0 <= i < |kept[1..]| ensures kept[1..][i] != kept[0] { assert kept[i + 1] != kept[0]; }
    }
    RereferenceDistinct(items', kept[0], kept[1..], t);
    assert kept == [kept[0]] + kept[1..];
  }

  /** A member that appears twice makes the main item reference itself: the lists come from a reused object. */
  lemma RepeatedMainReferencesItself(items: seq<Item>, a: nat, b: nat)
    requires a < |items| && b < |items| && a != b
    ensures Reassigned(items, [a, b, a])[a].others == [a]
  {
    var kept := [a, b, a];
    assert kept[1..] == [b, a] && kept[1..][..1] == [b];
    assert [b, a][..1] == [b] && [b][..0] == [];
  }

  /** The arena and output list after processing `ids` with the corrected reassignment. */
  function ClusterAll(items: seq<Item>, images: seq<GeoImage>, ids: seq<nat>, clusterSize: real, sqrt: SqrtFn): (res: (seq<Item>, seq<nat>))
    requires RefsValid(items) && AllIn(ids, |items|)
    ensures |res.0| == |items| && RefsValid(res.0) && AllIn(res.1, |items|)
    ensures |res.1| == |ids|
    decreases |ids|
  {
    if ids == [] then (items, [])
    else
      var prev := ClusterAll(items, images, ids[..|ids| - 1], clusterSize, sqrt);
      var kept := KeptReferences(prev.0, images, ids[|ids| - 1], clusterSize, sqrt);
      assert AllIn(kept, |items|) by {
        forall k | 0 <= k < |kept| ensures kept[k] < |items| { assert kept[k] in AllRefs(prev.0, ids[|ids| - 1]); }
      }
      var next := Reassigned(prev.0, kept);
      ReassignedRefs(prev.0, kept);
      (next, prev.1 + [kept[0]])
  }

  /** The fold over one more merged item: its kept cluster is reassigned and its head output. */
  lemma ClusterAllStep(items: seq<Item>, images: seq<GeoImage>, ids: seq<nat>, k: nat, clusterSize: real, sqrt: SqrtFn)
    requires RefsValid(items) && AllIn(ids, |items|) && k < |ids|
    ensures AllIn(ids[..k], |items|) && AllIn(ids[..k + 1], |items|)
    ensures var prev := ClusterAll(items, images, ids[..k], clusterSize, sqrt);
            var kept := KeptReferences(prev.0, images, ids[k], clusterSize, sqrt);
            && AllIn(kept, |items|)
            && ClusterAll(items, images, ids[..k + 1], clusterSize, sqrt) == (Reassigned(prev.0, kept), prev.1 + [kept[0]])
  {
    assert ids[..k + 1][..k] == ids[..k];
    var prev := ClusterAll(items, images, ids[..k], clusterSize, sqrt);
    var kept := KeptReferences(prev.0, images, ids[k], clusterSize, sqrt);
    forall t | 0 <= t < |kept| ensures kept[t] < |items| { assert kept[t] in AllRefs(prev.0, ids[k]); }
  }

  lemma ReassignedRefs(items: seq<Item>, kept: seq<nat>)
    requires |kept| > 0 && AllIn(kept, |items|) && RefsValid(items)
    ensures RefsValid(Reassigned(items, kept))
  {
    var items' := items[kept[0] := items[kept[0]].(others := [])];
    RereferenceRefs(items', kept[0], kept[1..]);
  }

  lemma {:induction false} RereferenceRefs(items: seq<Item>, main: nat, rest: seq<nat>)
    requires main < |items| && AllIn(rest, |items|) && RefsValid(items)
    ensures RefsValid(Rereference(items, main, rest))
    decreases |rest|
  {
    if rest != [] {
      RereferenceRefs(items, main, rest[..|rest| - 1]);
    }
  }

  // ---------------------------------------------------------------------------
  // The loops of cluster_merged_items

  /** The inner `for clustered_item in cluster` loop, left by `break` at the first close member. */
  method IsNear(items: seq<Item>, cluster: seq<nat>, r: nat, clusterSize: real, sqrt: SqrtFn) returns (near: bool)
    requires RefsValid(items) && r < |items| && AllIn(cluster, |items|)
    ensures near == NearAny(items, cluster, r, clusterSize, sqrt)
  {
    var j := 0;
    while j < |cluster|
      invariant 0 <= j <= |cluster|
      invariant forall m :: 0 <= m < j ==> !Close(items, r, cluster[m], clusterSize, sqrt)
    {
      if Close(items, r, cluster[j], clusterSize, sqrt) {
        return true;
      }
      j := j + 1;
    }
    return false;
  }

  /** The `for cluster in clusters` loop for one reference. */
  method AddToClusters(items: seq<Item>, clusters: seq<seq<nat>>, r: nat, clusterSize: real, sqrt: SqrtFn)
    returns (res: seq<seq<nat>>)
    requires RefsValid(items) && r < |items| && ClustersIn(clusters, |items|)
    ensures res == AddRef(items, clusters, r, clusterSize, sqrt)
  {
    ghost var marked := seq(|clusters|, k requires 0 <= k < |clusters| =>
      if NearAny(items, clusters[k], r, clusterSize, sqrt) then clusters[k] + [r] else clusters[k]);
    res := clusters;
    var added := false;
    var k := 0;
    while k < |clusters|
      invariant 0 <= k <= |clusters| && |res| == |clusters|
      invariant forall i :: 0 <= i < k ==> res[i] == marked[i]
      invariant forall i :: k <= i < |clusters| ==> res[i] == clusters[i]
      invariant added <==> exists i :: 0 <= i < k && NearAny(items, clusters[i], r, clusterSize, sqrt)
    {
      var near := IsNear(items, clusters[k], r, clusterSize, sqrt);
      if near {
        res := res[k := res[k] + [r]];
        added := true;
      }
      k := k + 1;
    }
    assert res == marked;
    if !added {
      res := res + [[r]];
    }
  }

  /** The `for ref in cluster` loop: the references whose image lies outside both windows. */
  method NonBadItems(items: seq<Item>, images: seq<GeoImage>, cluster: seq<nat>) returns (nonBad: seq<nat>)
    ensures nonBad == NonBad(items, images, cluster)
  {
    nonBad := [];
    var j := 0;
    while j < |cluster|
      invariant 0 <= j <= |cluster|
      invariant nonBad == NonBad(items, images, cluster[..j])
    {
      var ref := cluster[j];
      NonBadSplit(items, images, cluster[..j], [ref]);
      NonBadSingle(items, images, ref);
      assert cluster[..j + 1] == cluster[..j] + [ref];
      j := j + 1;
      if ref >= |items| {
        continue;
      }
      var image := ImageNamed(images, items[ref].parentImage);
      if image.None? {
        continue;
      }
      if !InDiscardedWindow(image.value.imageTime) {
        nonBad := nonBad + [ref];
      }
    }
    assert cluster[..j] == cluster;
  }

  /** The `for i, cluster in enumerate(clusters)` loop that keeps the non-empty filtered clusters. */
  method FilterClusters(items: seq<Item>, images: seq<GeoImage>, clusters: seq<seq<nat>>) returns (valid: seq<seq<nat>>)
    ensures valid == ValidClusters(items, images, clusters)
  {
    valid := [];
    var k := 0;
    while k < |clusters|
      invariant 0 <= k <= |clusters|
      invariant valid == ValidClusters(items, images, clusters[..k])
    {
      assert clusters[..k + 1][..k] == clusters[..k];
      var nonBad := NonBadItems(items, images, clusters[k]);
      if |nonBad| > 0 {
        valid := valid + [nonBad];
      }
      k := k + 1;
    }
    assert clusters[..k] == clusters;
  }

  /** One item's references: clustered, ordered by size, filtered, and the kept cluster. */
  method KeepReferences(items: seq<Item>, images: seq<GeoImage>, item: nat, clusterSize: real, sqrt: SqrtFn)
    returns (kept: seq<nat>)
    requires RefsValid(items) && item < |items|
    ensures kept == KeptReferences(items, images, item, clusterSize, sqrt)
  {
    var refs := [item] + items[item].others;
    var clusters: seq<seq<nat>> := [];
    var k := 0;
    while k < |refs|
      invariant 0 <= k <= |refs|
      invariant clusters == BuildClusters(items, refs[..k], clusterSize, sqrt)
    {
      assert refs[..k + 1][..k] == refs[..k];
      clusters := AddToClusters(items, clusters, refs[k], clusterSize, sqrt);
      k := k + 1;
    }
    assert refs[..k] == refs;
    clusters := SortByDescending(clusters, (c: seq<nat>) => |c| as real);
    var valid := FilterClusters(items, images, clusters);
    if |valid| > 0 {
      clusters := valid;
    }
    ghost var chosen := ChosenClusters(items, images, item, clusterSize, sqrt);
    assert clusters == chosen;
    if |clusters| == 1 {
      kept := clusters[0];
    } else if |clusters[0]| > |clusters[1]| {
      kept := clusters[0];
    } else {
      kept := ItemProcessing.AllItems(clusters);  // keep all clusters
    }
  }

  /** `x.other_items = others` on the registry. */
  method SetOthers(reg: Registry, x: nat, others: seq<nat>)
    requires reg.Valid() && x < |reg.items| && AllIn(others, |reg.items|)
    modifies reg
    ensures reg.Valid() && reg.items == old(reg.items)[x := old(reg.items)[x].(others := others)]
    ensures reg.segments == old(reg.segments) && reg.groups == old(reg.groups) && reg.rows == old(reg.rows)
  {
    assert ItemFits(reg.items[x], |reg.items|, |reg.groups|);
    ghost var before := reg.items;
    reg.items := reg.items[x := reg.items[x].(others := others)];
    forall t | 0 <= t < |reg.items|
      ensures ItemFits(reg.items[t], |reg.items|, |reg.groups|)
    {
      assert ItemFits(before[t], |reg.items|, |reg.groups|);
    }
  }

  /** `other_item.other_items = []` then `main_item.other_items.append(other_item)`. */
  method AttachMember(reg: Registry, main: nat, x: nat)
    requires reg.Valid() && main < |reg.items| && x < |reg.items|
    modifies reg
    ensures reg.Valid()
    ensures var cleared := old(reg.items)[x := old(reg.items)[x].(others := [])];
            reg.items == cleared[main := cleared[main].(others := cleared[main].others + [x])]
    ensures reg.segments == old(reg.segments) && reg.groups == old(reg.groups) && reg.rows == old(reg.rows)
  {
    SetOthers(reg, x, []);
    var others := reg.items[main].others + [x];
    assert AllIn(others, |reg.items|) by {
      assert ItemFits(reg.items[main], |reg.items|, |reg.groups|);
      forall t | 0 <= t < |others| ensures others[t] < |reg.items| {
        if t < |others| - 1 { assert others[t] == reg.items[main].others[t]; }
      }
    }
    SetOthers(reg, main, others);
  }

  /** The main member's list is cleared, then each further member is cleared and appended to it. */
  method Reassign(reg: Registry, kept: seq<nat>)
    requires reg.Valid() && |kept| > 0 && AllIn(kept, |reg.items|)
    modifies reg
    ensures reg.Valid() && reg.items == Reassigned(old(reg.items), kept)
    ensures reg.segments == old(reg.segments) && reg.groups == old(reg.groups) && reg.rows == old(reg.rows)
  {
    var main := kept[0];
    SetOthers(reg, main, []);
    ghost var base := reg.items;
    var rest := kept[1..];
    var j := 0;
    while j < |rest|
      invariant 0 <= j <= |rest| && reg.Valid() && |reg.items| == |base|
      invariant reg.items == Rereference(base, main, rest[..j])
      invariant reg.segments == old(reg.segments) && reg.groups == old(reg.groups) && reg.rows == old(reg.rows)
    {
      RereferenceStep(base, main, rest, j);
      AttachMember(reg, main, rest[j]);
      j := j + 1;
    }
    assert rest[..j] == rest;
  }

  /**
   * `cluster_merged_items` with the reference lists replaced (see README, Findings): for
   * each merged item, the first member of its kept cluster becomes the output item and
   * references the remaining members.
   */
  method ClusterMergedItems(reg: Registry, ids: seq<nat>, images: seq<GeoImage>, clusterSize: real, sqrt: SqrtFn)
    returns (clustered: seq<nat>)
    requires reg.Valid() && AllIn(ids, |reg.items|)
    modifies reg
    ensures reg.Valid()
    ensures (reg.items, clustered) == ClusterAll(old(reg.items), images, ids, clusterSize, sqrt)
    ensures reg.segments == old(reg.segments) && reg.groups == old(reg.groups) && reg.rows == old(reg.rows)
  {
    clustered := [];
    ghost var items0 := reg.items;
    var k := 0;
    while k < |ids|
      invariant 0 <= k <= |ids| && reg.Valid() && |reg.items| == |items0|
      invariant (reg.items, clustered) == ClusterAll(items0, images, ids[..k], clusterSize, sqrt)
      invariant reg.segments == old(reg.segments) && reg.groups == old(reg.groups) && reg.rows == old(reg.rows)
    {
      ClusterAllStep(items0, images, ids, k, clusterSize, sqrt);
      var kept := KeepReferences(reg.items, images, ids[k], clusterSize, sqrt);
      Reassign(reg, kept);
      clustered := clustered + [kept[0]];
      k := k + 1;
    }
    assert ids[..k] == ids;
  }

  /**
   * `cluster_merged_items` as written: `other_items` is a property without a setter, so the
   * first `main_item.other_items = []` raises AttributeError, for whichever item comes first.
   */
  method ClusterMergedItemsAsWritten(reg: Registry, ids: seq<nat>, images: seq<GeoImage>, clusterSize: real, sqrt: SqrtFn)
    returns (r: Result<seq<nat>>)
    requires reg.Valid() && AllIn(ids, |reg.items|)
    ensures r.Err? <==> |ids| > 0
    ensures r.Err? ==> r.error.AttributeError?
    ensures r.Ok? ==> r.value == []
  {
    if |ids| == 0 {
      return Ok([]);
    }
    var kept := KeepReferences(reg.items, images, ids[0], clusterSize, sqrt);
    var main := kept[0];
    return Err(AttributeError("can't set attribute"));
  }
}
