/**
 * The face-clustering view's derived values: every face of the gallery
 * tagged with its image (`allFaces`), the clusters of those faces, and one
 * person group per cluster (its faces in gallery order, the distinct images
 * they come from, and an avatar face), ordered by how many images each
 * person appears in, most first.
 */
module FaceClusteringView {
  import opened GalleryTypes
  import opened StableSort
  import opened Clustering

  /** A face together with the id and source of the image it was found in. */
  datatype FaceWithContext = FaceWithContext(face: Face, imageId: string, imageSrc: string)

  datatype PersonGroup = PersonGroup(
    personId: string,
    faces: seq<FaceWithContext>,
    imageIds: seq<string>,
    avatarFace: Option<FaceWithContext>)

  /** The faces of one image, tagged with it. */
  function InImage(image: Image): seq<FaceWithContext>
  {
    seq(|image.faces|, j requires 0 <= j < |image.faces| => FaceWithContext(image.faces[j], image.id, image.src))
  }

  /** `allFaces`: the tagged faces of every image, image after image. */
  function AllFaces(images: seq<Image>): seq<FaceWithContext>
  {
    if images == [] then [] else InImage(images[0]) + AllFaces(images[1..])
  }

  /** The number of faces in the gallery. */
  function FaceCount(images: seq<Image>): nat
  {
    if images == [] then 0 else |images[0].faces| + FaceCount(images[1..])
  }

  /** Flattening respects concatenation, so the faces come image by image
    * in gallery order. */
  lemma {:induction false} AllFacesAppend(a: seq<Image>, b: seq<Image>)
    ensures AllFaces(a + b) == AllFaces(a) + AllFaces(b)
  {
    if a != [] {
      assert (a + b)[1..] == a[1..] + b;
      AllFacesAppend(a[1..], b);
    } else {
      assert a + b == b;
    }
  }

  /** One entry per face of the gallery, and an entry is exactly a face of
    * some image tagged with that image. */
  lemma {:induction false} AllFacesFacts(images: seq<Image>, fc: FaceWithContext)
    ensures |AllFaces(images)| == FaceCount(images)
    ensures fc in AllFaces(images) <==>
              exists i, j :: 0 <= i < |images| && 0 <= j < |images[i].faces| &&
                fc == FaceWithContext(images[i].faces[j], images[i].id, images[i].src)
  {
    if images != [] {
      AllFacesFacts(images[1..], fc);
      if fc in AllFaces(images[1..]) {
        var i, j :| 0 <= i < |images[1..]| && 0 <= j < |images[1..][i].faces| &&
                    fc == FaceWithContext(images[1..][i].faces[j], images[1..][i].id, images[1..][i].src);
        assert images[i + 1] == images[1..][i];
      }
      if exists i, j :: 0 <= i < |images| && 0 <= j < |images[i].faces| &&
                        fc == FaceWithContext(images[i].faces[j], images[i].id, images[i].src) {
        var i, j :| 0 <= i < |images| && 0 <= j < |images[i].faces| &&
                    fc == FaceWithContext(images[i].faces[j], images[i].id, images[i].src);
        if i == 0 {
          assert InImage(images[0])[j] == fc;
        } else {
          assert images[1..][i - 1] == images[i];
        }
      }
    }
  }

  /** The bare faces, in order, as the clustering sees them. */
  function FacesOf(allFaces: seq<FaceWithContext>): (r: seq<Face>)
    ensures |r| == |allFaces|
    ensures forall k :: 0 <= k < |allFaces| ==> r[k] == allFaces[k].face
  {
    seq(|allFaces|, k requires 0 <= k < |allFaces| => allFaces[k].face)
  }

  /** `clusters`: no clusters without faces, otherwise the clustering of the
    * faces. Each cluster is non-empty, cluster `k` is `person-k`, and every
    * face id is in the clusters exactly once. */
  method ComputeClusters(allFaces: seq<FaceWithContext>, similar: (nat, nat) -> bool)
    returns (clusters: seq<Cluster>)
    ensures allFaces == [] ==> clusters == []
    ensures KeysInOrder(clusters)
    ensures forall k :: 0 <= k < |clusters| ==> clusters[k].faceIds != []
    ensures NoDup(Claimed(clusters))
    ensures ClaimsExactly(clusters, FacesOf(allFaces))
  {
    if |allFaces| == 0 {
      clusters := [];
      return;
    }
    ghost var seeds;
    clusters, seeds := ClusterFaces(FacesOf(allFaces), similar);
  }

  /** `personFaces`: the faces whose id is in `faceIds`, in gallery order. */
  function FacesIn(allFaces: seq<FaceWithContext>, faceIds: seq<string>): seq<FaceWithContext>
  {
    if allFaces == [] then []
    else (if allFaces[0].face.id in faceIds then [allFaces[0]] else []) + FacesIn(allFaces[1..], faceIds)
  }

  lemma {:induction false} FacesInFacts(allFaces: seq<FaceWithContext>, faceIds: seq<string>, fc: FaceWithContext)
    ensures Subsequence(FacesIn(allFaces, faceIds), allFaces)
    ensures multiset(FacesIn(allFaces, faceIds))[fc] == if fc.face.id in faceIds then multiset(allFaces)[fc] else 0
  {
    if allFaces != [] {
      FacesInFacts(allFaces[1..], faceIds, fc);
      assert allFaces == [allFaces[0]] + allFaces[1..];
      var rest := FacesIn(allFaces[1..], faceIds);
      if allFaces[0].face.id in faceIds {
        assert ([allFaces[0]] + rest)[1..] == rest;
      } else {
        assert FacesIn(allFaces, faceIds) == rest;
      }
    }
  }

  /** The first face of `allFaces` whose id is in `faceIds` heads the filter. */
  lemma {:induction false} FacesInHead(allFaces: seq<FaceWithContext>, faceIds: seq<string>, k: nat)
    requires k < |allFaces| && allFaces[k].face.id in faceIds
    requires forall t :: 0 <= t < k ==> allFaces[t].face.id !in faceIds
    ensures FacesIn(allFaces, faceIds) != [] && FacesIn(allFaces, faceIds)[0] == allFaces[k]
  {
    if k > 0 {
      forall t | 0 <= t < k - 1 ensures allFaces[1..][t].face.id !in faceIds {
        assert allFaces[1..][t] == allFaces[t + 1];
      }
      FacesInHead(allFaces[1..], faceIds, k - 1);
    }
  }

  /** The position of the first occurrence of `x` in `s`. */
  function IndexOf<T(==)>(s: seq<T>, x: T): (r: nat)
    requires x in s
    ensures r < |s| && s[r] == x && x !in s[..r]
  {
    if s[0] == x then 0 else assert s[1..][IndexOf(s[1..], x)] == x; 1 + IndexOf(s[1..], x)
  }

  /** `[...new Set(s)]`: each element once, at its first occurrence. */
  function Dedup<T(==)>(s: seq<T>): seq<T>
  {
    if s == [] then []
    else
      var front := s[..|s| - 1];
      Dedup(front) + (if s[|s| - 1] in front then [] else [s[|s| - 1]])
  }

  /** A position holding `x` with no `x` before it is the first occurrence. */
  lemma {:induction false} IndexOfAt<T>(s: seq<T>, x: T, i: nat)
    requires i < |s| && s[i] == x && x !in s[..i]
    ensures IndexOf(s, x) == i
  {
    if i > 0 {
      assert s[0] != x by { assert s[..i][0] == s[0]; }
      assert s[1..][i - 1] == x;
      assert s[1..][..i - 1] == s[..i][1..];
      IndexOfAt(s[1..], x, i - 1);
    }
  }

  lemma {:induction false} IndexOfPrefix<T>(s: seq<T>, t: seq<T>, x: T)
    requires x in s
    ensures x in s + t && IndexOf(s + t, x) == IndexOf(s, x)
  {
    var i := IndexOf(s, x);
    assert (s + t)[i] == x;
    assert (s + t)[..i] == s[..i];
    IndexOfAt(s + t, x, i);
  }

  lemma {:induction false} DedupMembers<T>(s: seq<T>)
    ensures forall x :: x in Dedup(s) <==> x in s
  {
    if s != [] {
      DedupMembers(s[..|s| - 1]);
      assert s == s[..|s| - 1] + [s[|s| - 1]];
    }
  }

  lemma {:induction false} DedupNoDup<T>(s: seq<T>)
    ensures NoDup(Dedup(s))
  {
    if s != [] {
      var front := s[..|s| - 1];
      DedupNoDup(front);
      DedupMembers(front);
    }
  }

  /** The elements of `r` come from `s`, in the order of their first
    * occurrences in `s`. */
  ghost predicate FirstOccurrenceOrder<T>(s: seq<T>, r: seq<T>)
  {
    && (forall x :: x in r ==> x in s)
    && forall a, b :: 0 <= a < b < |r| ==> IndexOf(s, r[a]) < IndexOf(s, r[b])
  }

  lemma {:induction false} DedupOrder<T>(s: seq<T>)
    ensures FirstOccurrenceOrder(s, Dedup(s))
  {
    if s != [] {
      var front := s[..|s| - 1];
      DedupOrder(front);
      assert s == front + [s[|s| - 1]];
      DedupOrderSnoc(front, s[|s| - 1]);
    }
  }

  lemma {:induction false} DedupOrderSnoc<T>(front: seq<T>, last: T)
    requires FirstOccurrenceOrder(front, Dedup(front))
    ensures FirstOccurrenceOrder(front + [last], Dedup(front + [last]))
  {
    var s := front + [last];
    assert s[..|s| - 1] == front;
    var d := Dedup(front);
    assert Dedup(s) == d + (if last in front then [] else [last]);
    forall x | x in d ensures x in s && IndexOf(s, x) == IndexOf(front, x) {
      IndexOfPrefix(front, [last], x);
    }
    if last in front {
      assert Dedup(s) == d;
    } else {
      var r := d + [last];
      IndexOfAt(s, last, |s| - 1);
      forall a, b | 0 <= a < b < |r| ensures IndexOf(s, r[a]) < IndexOf(s, r[b]) {
        assert r[a] == d[a];
        if b < |d| {
          assert r[b] == d[b];
        }
      }
    }
  }

  /** The set of distinct elements, no element twice, in the order in which
    * each first occurs in `s`. */
  lemma {:induction false} DedupFacts<T>(s: seq<T>)
    ensures NoDup(Dedup(s))
    ensures forall x :: x in Dedup(s) <==> x in s
    ensures FirstOccurrenceOrder(s, Dedup(s))
  {
    DedupMembers(s);
    DedupNoDup(s);
    DedupOrder(s);
  }

  /** The image ids of `faces`, in order. */
  function FaceImageIds(faces: seq<FaceWithContext>): (r: seq<string>)
    ensures |r| == |faces|
    ensures forall k :: 0 <= k < |faces| ==> r[k] == faces[k].imageId
  {
    seq(|faces|, k requires 0 <= k < |faces| => faces[k].imageId)
  }

  /** The group of one cluster. */
  function GroupOf(cluster: Cluster, allFaces: seq<FaceWithContext>): PersonGroup
  {
    var personFaces := FacesIn(allFaces, cluster.faceIds);
    PersonGroup(cluster.key, personFaces, Dedup(FaceImageIds(personFaces)),
                if personFaces == [] then None else Some(personFaces[0]))
  }

  /** The groups of the clusters, in cluster order. */
  function GroupsOf(clusters: seq<Cluster>, allFaces: seq<FaceWithContext>): (r: seq<PersonGroup>)
    ensures |r| == |clusters|
    ensures forall k :: 0 <= k < |clusters| ==> r[k] == GroupOf(clusters[k], allFaces)
  {
    seq(|clusters|, k requires 0 <= k < |clusters| => GroupOf(clusters[k], allFaces))
  }

  /** The sort key: more images first. */
  function ByImageCount(g: PersonGroup): int
  {
    -|g.imageIds|
  }

  /** `personGroups`: one group per cluster, stably sorted by the number of
    * distinct images, most first. */
  method PersonGroups(clusters: seq<Cluster>, allFaces: seq<FaceWithContext>) returns (groups: seq<PersonGroup>)
    ensures groups == SortBy(GroupsOf(clusters, allFaces), ByImageCount)
    ensures multiset(groups) == multiset(GroupsOf(clusters, allFaces))
    ensures forall a, b :: 0 <= a < b < |groups| ==> |groups[a].imageIds| >= |groups[b].imageIds|
    ensures forall n :: WithKey(groups, ByImageCount, n) == WithKey(GroupsOf(clusters, allFaces), ByImageCount, n)
  {
    var unsorted: seq<PersonGroup> := [];
    var i := 0;
    while i < |clusters|
      invariant i <= |clusters|
      invariant unsorted == GroupsOf(clusters[..i], allFaces)
    {
      var cluster := clusters[i];
      var personFaces := FacesIn(allFaces, cluster.faceIds);
      var imageIds := Dedup(FaceImageIds(personFaces));
      var avatarFace := if personFaces == [] then None else Some(personFaces[0]);
      unsorted := unsorted + [PersonGroup(cluster.key, personFaces, imageIds, avatarFace)];
      i := i + 1;
    }
    assert clusters[..i] == clusters;
    groups := SortBy(unsorted, ByImageCount);
    SortByCorrect(unsorted, ByImageCount);
    forall n ensures WithKey(groups, ByImageCount, n) == WithKey(unsorted, ByImageCount, n) {
      SortByStable(unsorted, ByImageCount, n);
    }
    forall a, b | 0 <= a < b < |groups| ensures |groups[a].imageIds| >= |groups[b].imageIds| {
      assert ByImageCount(groups[a]) <= ByImageCount(groups[b]);
    }
  }

  /** A group holds exactly the faces of its cluster, in gallery order and
    * with their multiplicity; its image ids are the distinct images of those
    * faces, in order of first appearance; its avatar is its first face, if
    * any. */
  lemma {:induction false} GroupOfFacts(cluster: Cluster, allFaces: seq<FaceWithContext>, fc: FaceWithContext)
    ensures GroupOf(cluster, allFaces).personId == cluster.key
    ensures Subsequence(GroupOf(cluster, allFaces).faces, allFaces)
    ensures fc in GroupOf(cluster, allFaces).faces <==> fc in allFaces && fc.face.id in cluster.faceIds
    ensures NoDup(GroupOf(cluster, allFaces).imageIds)
    ensures forall id :: id in GroupOf(cluster, allFaces).imageIds <==> id in FaceImageIds(GroupOf(cluster, allFaces).faces)
    ensures FirstOccurrenceOrder(FaceImageIds(GroupOf(cluster, allFaces).faces), GroupOf(cluster, allFaces).imageIds)
    ensures GroupOf(cluster, allFaces).avatarFace.None? <==> GroupOf(cluster, allFaces).faces == []
    ensures GroupOf(cluster, allFaces).avatarFace.Some? ==>
              GroupOf(cluster, allFaces).avatarFace.value == GroupOf(cluster, allFaces).faces[0]
  {
    var g := GroupOf(cluster, allFaces);
    FacesInFacts(allFaces, cluster.faceIds, fc);
    DedupFacts(FaceImageIds(g.faces));
  }

  /** When the cluster's first id is a face of the gallery, the group has an
    * avatar: the face at the first position of the gallery whose id belongs
    * to the cluster. */
  lemma {:induction false} AvatarPresent(cluster: Cluster, allFaces: seq<FaceWithContext>)
    requires cluster.faceIds != [] && cluster.faceIds[0] in FaceIds(FacesOf(allFaces))
    ensures GroupOf(cluster, allFaces).avatarFace.Some?
    ensures exists first :: 0 <= first < |allFaces| && GroupOf(cluster, allFaces).avatarFace == Some(allFaces[first]) &&
              allFaces[first].face.id in cluster.faceIds &&
              forall t :: 0 <= t < first ==> allFaces[t].face.id !in cluster.faceIds
  {
    var ids := cluster.faceIds;
    var k :| 0 <= k < |allFaces| && FaceIds(FacesOf(allFaces))[k] == ids[0];
    assert allFaces[k].face.id in ids;
    var first := FirstIn(allFaces, ids, k);
    FacesInHead(allFaces, ids, first);
  }

  /** The first position at or before `k` whose face id is in `faceIds`. */
  lemma {:induction false} FirstIn(allFaces: seq<FaceWithContext>, faceIds: seq<string>, k: nat) returns (first: nat)
    requires k < |allFaces| && allFaces[k].face.id in faceIds
    ensures first <= k && allFaces[first].face.id in faceIds
    ensures forall t :: 0 <= t < first ==> allFaces[t].face.id !in faceIds
  {
    first := k;
    if exists t :: 0 <= t < k && allFaces[t].face.id in faceIds {
      var t :| 0 <= t < k && allFaces[t].face.id in faceIds;
      first := FirstIn(allFaces, faceIds, t);
    }
  }

  /** Under the clustering's guarantees every face of the gallery is in
    * exactly one group, taken in cluster order. */
  lemma {:induction false} EveryFaceInOneGroup(clusters: seq<Cluster>, allFaces: seq<FaceWithContext>, fc: FaceWithContext)
    requires NoDup(Claimed(clusters))
    requires ClaimsExactly(clusters, FacesOf(allFaces))
    requires fc in allFaces
    ensures exists k :: 0 <= k < |clusters| && fc in GroupsOf(clusters, allFaces)[k].faces
    ensures forall a, b ::
              (0 <= a < |clusters| && 0 <= b < |clusters| &&
               fc in GroupsOf(clusters, allFaces)[a].faces && fc in GroupsOf(clusters, allFaces)[b].faces) ==> a == b
  {
    ClaimedFace(clusters, allFaces, fc);
    GroupsFollowClusters(clusters, allFaces, fc);
    OneClusterOf(clusters, fc.face.id);
  }

  /** A face of the gallery is in the group of a cluster exactly when the
    * cluster claims its id. */
  lemma {:induction false} GroupsFollowClusters(clusters: seq<Cluster>, allFaces: seq<FaceWithContext>, fc: FaceWithContext)
    requires fc in allFaces
    ensures forall k :: 0 <= k < |clusters| ==>
              (fc in GroupsOf(clusters, allFaces)[k].faces <==> fc.face.id in clusters[k].faceIds)
  {
    forall k | 0 <= k < |clusters|
      ensures fc in GroupsOf(clusters, allFaces)[k].faces <==> fc.face.id in clusters[k].faceIds
    {
      GroupOfFacts(clusters[k], allFaces, fc);
    }
  }

  lemma {:induction false} FaceIdInGallery(allFaces: seq<FaceWithContext>, fc: FaceWithContext)
    requires fc in allFaces
    ensures fc.face.id in FaceIds(FacesOf(allFaces))
  {
    var p :| 0 <= p < |allFaces| && allFaces[p] == fc;
    assert FaceIds(FacesOf(allFaces))[p] == fc.face.id;
  }

  /** A clustering that claims exactly the gallery's face ids claims the id
    * of every face of the gallery. */
  lemma {:induction false} ClaimedFace(clusters: seq<Cluster>, allFaces: seq<FaceWithContext>, fc: FaceWithContext)
    requires ClaimsExactly(clusters, FacesOf(allFaces))
    requires fc in allFaces
    ensures fc.face.id in Claimed(clusters)
  {
    FaceIdInGallery(allFaces, fc);
  }

  /** Groups of clusters with distinct keys are distinct. */
  lemma {:induction false} GroupsDistinct(clusters: seq<Cluster>, allFaces: seq<FaceWithContext>)
    requires KeysInOrder(clusters)
    ensures NoDup(GroupsOf(clusters, allFaces))
  {
    var u := GroupsOf(clusters, allFaces);
    forall a, b | 0 <= a < b < |u| ensures u[a] != u[b] {
      if ClusterKey(a) == ClusterKey(b) {
        ClusterKeyInjective(a, b);
      }
    }
  }

  /** After sorting, every face of the gallery is still in exactly one
    * group. */
  lemma {:induction false} SortedGroupsPartitionFaces(clusters: seq<Cluster>, allFaces: seq<FaceWithContext>, fc: FaceWithContext)
    requires KeysInOrder(clusters) && NoDup(Claimed(clusters))
    requires ClaimsExactly(clusters, FacesOf(allFaces))
    requires fc in allFaces
    ensures var groups := SortBy(GroupsOf(clusters, allFaces), ByImageCount);
      && (exists k :: 0 <= k < |groups| && fc in groups[k].faces)
      && forall a, b :: 0 <= a < |groups| && 0 <= b < |groups| && fc in groups[a].faces && fc in groups[b].faces ==> a == b
  {
    var u := GroupsOf(clusters, allFaces);
    var groups := SortBy(u, ByImageCount);
    SortByCorrect(u, ByImageCount);
    EveryFaceInOneGroup(clusters, allFaces, fc);
    GroupsDistinct(clusters, allFaces);
    NoDupPermutation(u, groups);
    var k :| 0 <= k < |clusters| && fc in u[k].faces;
    var k' := PositionOf(groups, u[k]);
    UniqueInPermutation(u, groups, (g: PersonGroup) => fc in g.faces);
  }

  /** The face-clustering view end to end: the tagged faces, their clusters
    * and the sorted person groups. Every face of the gallery is in exactly
    * one group and every group has an avatar. */
  method FaceClustering(images: seq<Image>, similar: (nat, nat) -> bool)
    returns (allFaces: seq<FaceWithContext>, clusters: seq<Cluster>, groups: seq<PersonGroup>)
    ensures allFaces == AllFaces(images)
    ensures groups == SortBy(GroupsOf(clusters, allFaces), ByImageCount)
    ensures |groups| == |clusters|
    ensures forall fc :: fc in allFaces ==>
              && (exists k :: 0 <= k < |groups| && fc in groups[k].faces)
              && forall a, b :: 0 <= a < |groups| && 0 <= b < |groups| && fc in groups[a].faces && fc in groups[b].faces ==> a == b
    ensures forall k :: 0 <= k < |groups| ==> groups[k].avatarFace.Some?
  {
    allFaces := AllFaces(images);
    clusters := ComputeClusters(allFaces, similar);
    groups := PersonGroups(clusters, allFaces);
    forall fc | fc in allFaces
      ensures && (exists k :: 0 <= k < |groups| && fc in groups[k].faces)
              && forall a, b :: 0 <= a < |groups| && 0 <= b < |groups| && fc in groups[a].faces && fc in groups[b].faces ==> a == b
    {
      SortedGroupsPartitionFaces(clusters, allFaces, fc);
    }
    var u := GroupsOf(clusters, allFaces);
    forall k | 0 <= k < |groups| ensures groups[k].avatarFace.Some? {
      assert groups[k] in multiset(u);
      var k' :| 0 <= k' < |u| && u[k'] == groups[k];
      InClaimed(clusters, clusters[k'].faceIds[0]);
      AvatarPresent(clusters[k'], allFaces);
    }
  }
}
