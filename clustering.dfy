/**
 * Face clustering (`clusterFaces`): a greedy seed-and-sweep pass. Each face
 * not yet claimed becomes the seed of a new cluster `person-<n>`, and a sweep
 * over all faces adds every still unclaimed face that the similarity test
 * accepts. The source decides similarity with a random draw per asked pair;
 * here it is the oracle `similar(seed, other)` on input positions, and every
 * property below holds for every oracle.
 */
module Clustering {
  import opened GalleryTypes

  /** One entry of the cluster map: its key and the face ids, seed first. */
  datatype Cluster = Cluster(key: string, faceIds: seq<string>)

  /** The character of a decimal digit. */
  function DigitChar(d: nat): char
    requires d < 10
  {
    ('0' as int + d) as char
  }

  /** The decimal rendering of a natural number, as a template literal gives it. */
  function NatToString(n: nat): (r: string)
    ensures |r| >= 1
    decreases n
  {
    if n < 10 then [DigitChar(n)] else NatToString(n / 10) + [DigitChar(n % 10)]
  }

  lemma {:induction false} NatToStringShort(n: nat)
    ensures |NatToString(n)| == 1 <==> n < 10
  {
    if n >= 10 {
      assert |NatToString(n)| == |NatToString(n / 10)| + 1;
    }
  }

  lemma {:induction false} NatToStringInjective(a: nat, b: nat)
    requires NatToString(a) == NatToString(b)
    ensures a == b
    decreases a
  {
    var sa, sb := NatToString(a), NatToString(b);
    NatToStringShort(a);
    NatToStringShort(b);
    if a < 10 {
      assert sa[0] == DigitChar(a) && sb[0] == DigitChar(b);
    } else {
      assert sa[..|sa| - 1] == NatToString(a / 10);
      assert sb[..|sb| - 1] == NatToString(b / 10);
      NatToStringInjective(a / 10, b / 10);
      assert sa[|sa| - 1] == DigitChar(a % 10) && sb[|sb| - 1] == DigitChar(b % 10);
      assert a == 10 * (a / 10) + a % 10 && b == 10 * (b / 10) + b % 10;
    }
  }

  /** The key of the cluster created `k`-th. */
  function ClusterKey(k: nat): string
  {
    "person-" + NatToString(k)
  }

  /** Distinct cluster numbers give distinct keys, so no key of the map is
    * overwritten. */
  lemma {:induction false} ClusterKeyInjective(a: nat, b: nat)
    requires ClusterKey(a) == ClusterKey(b)
    ensures a == b
  {
    var p := "person-";
    assert ClusterKey(a)[|p|..] == NatToString(a);
    assert ClusterKey(b)[|p|..] == NatToString(b);
    NatToStringInjective(a, b);
  }

  /** The face-id lists of the clusters, in map order. */
  function Members(cs: seq<Cluster>): (r: seq<seq<string>>)
    ensures |r| == |cs|
    ensures forall k :: 0 <= k < |cs| ==> r[k] == cs[k].faceIds
  {
    seq(|cs|, k requires 0 <= k < |cs| => cs[k].faceIds)
  }

  /** Every face id placed in some cluster, cluster by cluster. */
  function Claimed(cs: seq<Cluster>): seq<string>
  {
    if cs == [] then [] else Claimed(cs[..|cs| - 1]) + cs[|cs| - 1].faceIds
  }

  lemma {:induction false} ClaimedSnoc(cs: seq<Cluster>, c: Cluster)
    ensures Claimed(cs + [c]) == Claimed(cs) + c.faceIds
  {
    assert (cs + [c])[..|cs|] == cs;
  }

  lemma {:induction false} ClaimedIsConcat(cs: seq<Cluster>)
    ensures Claimed(cs) == Concat(Members(cs))
  {
    if cs != [] {
      var init := cs[..|cs| - 1];
      ClaimedIsConcat(init);
      assert Members(cs) == Members(init) + [cs[|cs| - 1].faceIds];
      ConcatSnoc(Members(init), cs[|cs| - 1].faceIds);
    }
  }

  lemma {:induction false} InClaimed(cs: seq<Cluster>, x: string)
    ensures x in Claimed(cs) <==> exists k :: 0 <= k < |cs| && x in cs[k].faceIds
  {
    ClaimedIsConcat(cs);
    InConcat(Members(cs), x);
  }

  /** `cluster` is the result of the sweep for the seed at `seed`, through
    * position `j`, given the ids `before` claimed by earlier clusters: after
    * the seed come the ids of faces before `j`, in input order, including
    * every unclaimed one the oracle accepts and nothing else. */
  ghost predicate SweptTo(faces: seq<Face>, similar: (nat, nat) -> bool, seed: nat, j: nat,
                          before: seq<string>, cluster: seq<string>)
    requires j <= |faces|
  {
    && cluster != [] && Subsequence(cluster[1..], FaceIds(faces)[..j])
    && (forall t: nat :: t < j && faces[t].id !in before && similar(seed, t) ==> faces[t].id in cluster)
    && (forall m :: 0 < m < |cluster| ==>
          exists t: nat :: t < j && faces[t].id == cluster[m] && similar(seed, t) && faces[t].id !in before)
  }

  lemma {:induction false} SweptStart(faces: seq<Face>, similar: (nat, nat) -> bool, seed: nat, before: seq<string>, id: string)
    ensures SweptTo(faces, similar, seed, 0, before, [id])
  {
  }

  /** One sweep step that adds nothing. */
  lemma {:induction false} SweptSkip(faces: seq<Face>, similar: (nat, nat) -> bool, seed: nat, j: nat,
                  before: seq<string>, cluster: seq<string>)
    requires j < |faces|
    requires SweptTo(faces, similar, seed, j, before, cluster)
    requires faces[j].id in before || faces[j].id in cluster || !similar(seed, j)
    ensures SweptTo(faces, similar, seed, j + 1, before, cluster)
  {
    forall m | 0 < m < |cluster|
      ensures exists t: nat :: t < j + 1 && faces[t].id == cluster[m] && similar(seed, t) && faces[t].id !in before
    {
      var t: nat :| t < j && faces[t].id == cluster[m] && similar(seed, t) && faces[t].id !in before;
      assert t < j + 1 && faces[t].id == cluster[m] && similar(seed, t) && faces[t].id !in before;
    }
    forall t: nat | t < j + 1 && faces[t].id !in before && similar(seed, t) ensures faces[t].id in cluster {
      if t < j {
        assert faces[t].id in cluster;
      }
    }
    assert forall m :: 0 < m < |cluster| ==>
          exists t: nat :: t < j + 1 && faces[t].id == cluster[m] && similar(seed, t) && faces[t].id !in before;
    assert forall t: nat :: t < j + 1 && faces[t].id !in before && similar(seed, t) ==> faces[t].id in cluster;
    var ids := FaceIds(faces);
    assert ids[..j + 1] == ids[..j] + [ids[j]];
    assert cluster[1..] + [] == cluster[1..];
    SubsequenceAppend(cluster[1..], ids[..j], [], [ids[j]]);
  }

  /** One sweep step that adds the face at `j`. */
  lemma {:induction false} SweptAdd(faces: seq<Face>, similar: (nat, nat) -> bool, seed: nat, j: nat,
                 before: seq<string>, cluster: seq<string>)
    requires j < |faces| && cluster != []
    requires SweptTo(faces, similar, seed, j, before, cluster)
    requires faces[j].id !in before && similar(seed, j)
    ensures SweptTo(faces, similar, seed, j + 1, before, cluster + [faces[j].id])
  {
    var c' := cluster + [faces[j].id];
    forall m | 0 < m < |c'|
      ensures exists t: nat :: t < j + 1 && faces[t].id == c'[m] && similar(seed, t) && faces[t].id !in before
    {
      if m < |cluster| {
        var t: nat :| t < j && faces[t].id == cluster[m] && similar(seed, t) && faces[t].id !in before;
        assert c'[m] == cluster[m];
      } else {
        assert c'[m] == faces[j].id;
      }
    }
    var ids := FaceIds(faces);
    assert ids[..j + 1] == ids[..j] + [ids[j]];
    assert c'[1..] == cluster[1..] + [ids[j]];
    assert Subsequence([ids[j]], [ids[j]]);
    SubsequenceAppend(cluster[1..], ids[..j], [ids[j]], [ids[j]]);
  }

  /** Cluster `k` has key `person-k`. */
  ghost predicate KeysInOrder(clusters: seq<Cluster>)
  {
    forall k :: 0 <= k < |clusters| ==> clusters[k].key == ClusterKey(k)
  }

  /** Cluster `k` starts with the face at `seeds[k]`, which is the first
    * input face not claimed by clusters `0..k-1`. */
  ghost predicate SeededInOrder(faces: seq<Face>, clusters: seq<Cluster>, seeds: seq<nat>)
  {
    && |clusters| == |seeds|
    && (forall k :: 0 <= k < |seeds| ==>
          && seeds[k] < |faces|
          && clusters[k].faceIds != []
          && clusters[k].faceIds[0] == faces[seeds[k]].id
          && faces[seeds[k]].id !in Claimed(clusters[..k]))
    && (forall k, i :: 0 <= k < |seeds| && 0 <= i < seeds[k] ==> faces[i].id in Claimed(clusters[..k]))
  }

  /** Each cluster is the full sweep of its seed: a face is added exactly
    * when it is unclaimed by earlier clusters and the oracle accepts it. */
  ghost predicate SweptInOrder(faces: seq<Face>, similar: (nat, nat) -> bool, clusters: seq<Cluster>, seeds: seq<nat>)
    requires |clusters| == |seeds|
  {
    forall k :: 0 <= k < |seeds| ==>
      SweptTo(faces, similar, seeds[k], |faces|, Claimed(clusters[..k]), clusters[k].faceIds)
  }

  lemma {:induction false} PrefixesOfSnoc(cs: seq<Cluster>, c: Cluster)
    ensures forall k :: 0 <= k <= |cs| ==> (cs + [c])[..k] == cs[..k]
  {
    assert (cs + [c])[..|cs|] == cs;
  }

  lemma {:induction false} SeededSnoc(faces: seq<Face>, clusters: seq<Cluster>, seeds: seq<nat>, c: Cluster, seed: nat)
    requires SeededInOrder(faces, clusters, seeds)
    requires seed < |faces| && c.faceIds != [] && c.faceIds[0] == faces[seed].id
    requires faces[seed].id !in Claimed(clusters)
    requires forall i :: 0 <= i < seed ==> faces[i].id in Claimed(clusters)
    ensures SeededInOrder(faces, clusters + [c], seeds + [seed])
  {
    PrefixesOfSnoc(clusters, c);
  }

  lemma {:induction false} SweptSnoc(faces: seq<Face>, similar: (nat, nat) -> bool, clusters: seq<Cluster>, seeds: seq<nat>,
                  c: Cluster, seed: nat)
    requires |clusters| == |seeds|
    requires SweptInOrder(faces, similar, clusters, seeds)
    requires SweptTo(faces, similar, seed, |faces|, Claimed(clusters), c.faceIds)
    ensures SweptInOrder(faces, similar, clusters + [c], seeds + [seed])
  {
    PrefixesOfSnoc(clusters, c);
  }

  /** Everything `ClusterFaces` promises, of the clusters built so far. */
  ghost predicate Built(faces: seq<Face>, similar: (nat, nat) -> bool, clusters: seq<Cluster>, seeds: seq<nat>)
  {
    && |clusters| == |seeds|
    && KeysInOrder(clusters)
    && SeededInOrder(faces, clusters, seeds)
    && SweptInOrder(faces, similar, clusters, seeds)
    && NoDup(Claimed(clusters))
    && (forall id :: id in Claimed(clusters) ==> id in FaceIds(faces))
  }

  /** Appending the swept cluster of the next seed keeps `Built`. */
  lemma {:induction false} AddCluster(faces: seq<Face>, similar: (nat, nat) -> bool, clusters: seq<Cluster>, seeds: seq<nat>,
                   cluster: seq<string>, seed: nat)
    requires Built(faces, similar, clusters, seeds)
    requires seed < |faces| && faces[seed].id !in Claimed(clusters)
    requires forall i :: 0 <= i < seed ==> faces[i].id in Claimed(clusters)
    requires cluster != [] && cluster[0] == faces[seed].id
    requires NoDup(Claimed(clusters) + cluster)
    requires forall id :: id in cluster ==> id in FaceIds(faces)
    requires SweptTo(faces, similar, seed, |faces|, Claimed(clusters), cluster)
    ensures Built(faces, similar, clusters + [Cluster(ClusterKey(|clusters|), cluster)], seeds + [seed])
    ensures Claimed(clusters + [Cluster(ClusterKey(|clusters|), cluster)]) == Claimed(clusters) + cluster
  {
    var c := Cluster(ClusterKey(|clusters|), cluster);
    SeededSnoc(faces, clusters, seeds, c, seed);
    SweptSnoc(faces, similar, clusters, seeds, c, seed);
    ClaimedSnoc(clusters, c);
  }

  /** The state of the inner sweep for the seed at `seed` before position
    * `j`. */
  ghost predicate Sweeping(faces: seq<Face>, similar: (nat, nat) -> bool, seed: nat, j: nat,
                           claimed: seq<string>, cluster: seq<string>, processed: set<string>)
  {
    && seed < |faces| && j <= |faces|
    && cluster != [] && cluster[0] == faces[seed].id
    && (forall id :: id in processed <==> id in claimed || id in cluster)
    && NoDup(claimed + cluster)
    && (forall id :: id in cluster ==> id in FaceIds(faces))
    && SweptTo(faces, similar, seed, j, claimed, cluster)
  }

  /** One step of the inner sweep: the face at `j` joins the cluster when it
    * is not yet processed and the oracle accepts it. */
  method SweepStep(faces: seq<Face>, similar: (nat, nat) -> bool, seed: nat, j: nat,
                   ghost claimed: seq<string>, cluster: seq<string>, processed: set<string>)
    returns (cluster': seq<string>, processed': set<string>)
    requires j < |faces| && Sweeping(faces, similar, seed, j, claimed, cluster, processed)
    ensures Sweeping(faces, similar, seed, j + 1, claimed, cluster', processed')
    ensures faces[j].id !in processed && similar(seed, j) ==>
              cluster' == cluster + [faces[j].id] && processed' == processed + {faces[j].id}
    ensures faces[j].id in processed || !similar(seed, j) ==> cluster' == cluster && processed' == processed
  {
    var other := faces[j];
    if other.id !in processed && similar(seed, j) {
      SweptAdd(faces, similar, seed, j, claimed, cluster);
      cluster' := cluster + [other.id];
      processed' := processed + {other.id};
      assert claimed + cluster' == (claimed + cluster) + [other.id];
      assert other.id == FaceIds(faces)[j];
    } else {
      SweptSkip(faces, similar, seed, j, claimed, cluster);
      cluster', processed' := cluster, processed;
    }
  }

  /**
   * The inner sweep of `clusterFaces` for the seed at `seed`: starts the
   * cluster with the seed, then walks every face in input order and adds
   * each one not yet processed that the oracle accepts. `claimed` lists the
   * ids of the earlier clusters, which is what `processed` holds on entry.
   */
  method Sweep(faces: seq<Face>, similar: (nat, nat) -> bool, seed: nat, processed: set<string>,
               ghost claimed: seq<string>)
    returns (cluster: seq<string>, processed': set<string>)
    requires seed < |faces| && faces[seed].id !in processed
    requires forall id :: id in processed <==> id in claimed
    requires NoDup(claimed)
    ensures cluster != [] && cluster[0] == faces[seed].id
    ensures forall id :: id in processed' <==> id in claimed || id in cluster
    ensures NoDup(claimed + cluster)
    ensures forall id :: id in cluster ==> id in FaceIds(faces)
    ensures SweptTo(faces, similar, seed, |faces|, claimed, cluster)
    ensures Subsequence(cluster[1..], FaceIds(faces))
  {
    cluster := [faces[seed].id];
    processed' := processed + {faces[seed].id};
    assert NoDup(claimed + cluster);
    SweptStart(faces, similar, seed, claimed, faces[seed].id);
    var j := 0;
    while j < |faces|
      invariant Sweeping(faces, similar, seed, j, claimed, cluster, processed')
    {
      cluster, processed' := SweepStep(faces, similar, seed, j, claimed, cluster, processed');
      j := j + 1;
    }
    assert FaceIds(faces)[..|faces|] == FaceIds(faces);
  }

  /** With faces `a`, `b`, `c`, the sweep from `a` cannot list `c` before
    * `b`: members come in input order. */
  lemma {:induction false} SweepOrderExample(faces: seq<Face>, similar: (nat, nat) -> bool)
    requires |faces| == 3 && faces[0].id == "a" && faces[1].id == "b" && faces[2].id == "c"
    ensures !SweptTo(faces, similar, 0, 3, [], ["a", "c", "b"])
  {
    var ids := FaceIds(faces);
    assert ids[..3] == ["a", "b", "c"];
    var r: seq<string> := ["c", "b"];
    assert ["a", "c", "b"][1..] == r;
    assert !Subsequence(r, ["c"]) by {
      assert r[1..] == ["b"];
      assert !Subsequence(["b"], []);
      assert ["c"][1..] == [];
    }
    assert !Subsequence(r, ["b", "c"]) by {
      assert ["b", "c"][1..] == ["c"];
    }
    assert !Subsequence(r, ["a", "b", "c"]) by {
      assert ["a", "b", "c"][1..] == ["b", "c"];
    }
  }

  /** The state of the outer loop of `clusterFaces` before position `i`. */
  ghost predicate Progress(faces: seq<Face>, similar: (nat, nat) -> bool, clusters: seq<Cluster>, seeds: seq<nat>,
                           processed: set<string>, i: nat)
  {
    && i <= |faces|
    && |clusters| <= i
    && Built(faces, similar, clusters, seeds)
    && (forall id :: id in processed <==> id in Claimed(clusters))
    && (forall t :: 0 <= t < i ==> faces[t].id in processed)
  }

  /** The outer step for a face already processed. */
  lemma {:induction false} ProgressSkip(faces: seq<Face>, similar: (nat, nat) -> bool, clusters: seq<Cluster>, seeds: seq<nat>,
                     processed: set<string>, i: nat)
    requires i < |faces| && faces[i].id in processed
    requires Progress(faces, similar, clusters, seeds, processed, i)
    ensures Progress(faces, similar, clusters, seeds, processed, i + 1)
  {
  }

  /** The outer step that seeds a new cluster at `i`. */
  lemma {:induction false} ProgressSeed(faces: seq<Face>, similar: (nat, nat) -> bool, clusters: seq<Cluster>, seeds: seq<nat>,
                     processed: set<string>, i: nat, cluster: seq<string>, processed': set<string>)
    requires i < |faces| && faces[i].id !in processed
    requires Progress(faces, similar, clusters, seeds, processed, i)
    requires cluster != [] && cluster[0] == faces[i].id
    requires forall id :: id in processed' <==> id in Claimed(clusters) || id in cluster
    requires NoDup(Claimed(clusters) + cluster)
    requires forall id :: id in cluster ==> id in FaceIds(faces)
    requires SweptTo(faces, similar, i, |faces|, Claimed(clusters), cluster)
    ensures Progress(faces, similar, clusters + [Cluster(ClusterKey(|clusters|), cluster)], seeds + [i], processed', i + 1)
  {
    AddCluster(faces, similar, clusters, seeds, cluster, i);
    forall t | 0 <= t <= i ensures faces[t].id in processed' {
      if t < i {
        assert faces[t].id in processed;
      }
    }
  }

  /**
   * `clusterFaces`. Returns the clusters in map insertion order; `seeds` are
   * the input positions of their seeds. The clusters partition the distinct
   * face ids: no id is in two clusters or twice in one, and every input id
   * is in some cluster. Keys are `person-0`, `person-1`, ... in order; each
   * cluster starts with its seed, the first face not claimed by an earlier
   * cluster; a face joins a cluster exactly when it is still unclaimed and
   * the oracle accepts it for that cluster's seed.
   */
  method ClusterFaces(faces: seq<Face>, similar: (nat, nat) -> bool)
    returns (clusters: seq<Cluster>, ghost seeds: seq<nat>)
    ensures |clusters| == |seeds| <= |faces|
    ensures KeysInOrder(clusters)
    ensures SeededInOrder(faces, clusters, seeds)
    ensures SweptInOrder(faces, similar, clusters, seeds)
    ensures NoDup(Claimed(clusters))
    ensures ClaimsExactly(clusters, faces)
  {
    clusters, seeds := [], [];
    var processed: set<string> := {};
    var clusterIndex := 0;
    var i := 0;
    ProgressStart(faces, similar);
    while i < |faces|
      invariant clusterIndex == |clusters|
      invariant Progress(faces, similar, clusters, seeds, processed, i)
    {
      clusters, seeds, processed, clusterIndex := VisitFace(faces, similar, i, clusters, seeds, processed, clusterIndex);
      i := i + 1;
    }
    ProgressDone(faces, similar, clusters, seeds, processed);
  }

  /**
   * The outer `forEach` callback for the face at `i`: a face already
   * processed is skipped; otherwise it seeds the cluster keyed
   * `person-<clusterIndex>`, which the sweep fills, and the counter moves on.
   */
  method VisitFace(faces: seq<Face>, similar: (nat, nat) -> bool, i: nat, clusters: seq<Cluster>, ghost seeds: seq<nat>,
                   processed: set<string>, clusterIndex: nat)
    returns (clusters': seq<Cluster>, ghost seeds': seq<nat>, processed': set<string>, clusterIndex': nat)
    requires i < |faces| && clusterIndex == |clusters|
    requires Progress(faces, similar, clusters, seeds, processed, i)
    ensures clusterIndex' == |clusters'|
    ensures Progress(faces, similar, clusters', seeds', processed', i + 1)
    ensures faces[i].id in processed ==> clusters' == clusters && processed' == processed
    ensures faces[i].id !in processed ==>
              |clusters'| == |clusters| + 1 && clusters'[..|clusters|] == clusters &&
              clusters'[|clusters|].key == ClusterKey(clusterIndex) && clusters'[|clusters|].faceIds[0] == faces[i].id
  {
    var face := faces[i];
    if face.id !in processed {
      var clusterId := ClusterKey(clusterIndex);
      clusterIndex' := clusterIndex + 1;
      var cluster;
      cluster, processed' := Sweep(faces, similar, i, processed, Claimed(clusters));
      ProgressSeed(faces, similar, clusters, seeds, processed, i, cluster, processed');
      clusters' := clusters + [Cluster(clusterId, cluster)];
      seeds' := seeds + [i];
      assert clusters'[..|clusters|] == clusters;
    } else {
      ProgressSkip(faces, similar, clusters, seeds, processed, i);
      clusters', seeds', processed', clusterIndex' := clusters, seeds, processed, clusterIndex;
    }
  }

  lemma {:induction false} ProgressStart(faces: seq<Face>, similar: (nat, nat) -> bool)
    ensures Progress(faces, similar, [], [], {}, 0)
  {
  }

  /** Once every face is passed, the clusters claim exactly the input ids. */
  lemma {:induction false} ProgressDone(faces: seq<Face>, similar: (nat, nat) -> bool, clusters: seq<Cluster>, seeds: seq<nat>,
                     processed: set<string>)
    requires Progress(faces, similar, clusters, seeds, processed, |faces|)
    ensures ClaimsExactly(clusters, faces)
  {
    forall id | id in FaceIds(faces) ensures id in Claimed(clusters) {
      var t :| 0 <= t < |faces| && FaceIds(faces)[t] == id;
      assert faces[t].id in processed;
    }
  }

  /** The clusters claim exactly the input face ids. */
  ghost predicate ClaimsExactly(clusters: seq<Cluster>, faces: seq<Face>)
  {
    forall id :: id in Claimed(clusters) <==> id in FaceIds(faces)
  }

  /** With every key distinct, the entries really are the map's entries:
    * the map holds one list per cluster. */
  lemma {:induction false} ClusterKeysDistinct(clusters: seq<Cluster>)
    requires forall k :: 0 <= k < |clusters| ==> clusters[k].key == ClusterKey(k)
    ensures forall a, b :: 0 <= a < b < |clusters| ==> clusters[a].key != clusters[b].key
  {
    forall a, b | 0 <= a < b < |clusters| ensures clusters[a].key != clusters[b].key {
      if clusters[a].key == clusters[b].key {
        ClusterKeyInjective(a, b);
      }
    }
  }

  /** A claimed id lies in exactly one cluster. */
  lemma {:induction false} OneClusterOf(clusters: seq<Cluster>, id: string)
    requires NoDup(Claimed(clusters)) && id in Claimed(clusters)
    ensures exists k :: 0 <= k < |clusters| && id in clusters[k].faceIds
    ensures forall a, b :: 0 <= a < |clusters| && 0 <= b < |clusters| && id in clusters[a].faceIds && id in clusters[b].faceIds ==> a == b
  {
    InClaimed(clusters, id);
    ClaimedIsConcat(clusters);
    ConcatNoDupParts(Members(clusters));
  }

  /** The partition property: every input face id lies in exactly one
    * cluster, once. */
  lemma {:induction false} ExactlyOneCluster(faces: seq<Face>, clusters: seq<Cluster>, id: string)
    requires NoDup(Claimed(clusters))
    requires ClaimsExactly(clusters, faces)
    requires id in FaceIds(faces)
    ensures exists k :: 0 <= k < |clusters| && id in clusters[k].faceIds
    ensures forall a, b :: 0 <= a < b < |clusters| && id in clusters[a].faceIds ==>
              id !in clusters[b].faceIds
    ensures forall k :: 0 <= k < |clusters| ==> NoDup(clusters[k].faceIds)
  {
    InClaimed(clusters, id);
    ClaimedIsConcat(clusters);
    ConcatNoDupParts(Members(clusters));
    forall k | 0 <= k < |clusters| ensures NoDup(clusters[k].faceIds) {
      assert Members(clusters)[k] == clusters[k].faceIds;
    }
  }
}
