# Smart gallery core, modelled in Dafny

The gallery keeps images with detected faces, timestamps and text
descriptions. Four utilities in `lib/gallery-utils.ts` do the real work:

- `clusterFaces` groups faces into people.
- `groupIntoEvents` groups images into events of at most four hours.
- `semanticSearch` finds images by keyword.
- `createCollage` lays images out on a two-row grid and crops around faces.

Two views derive values from these:

- The face-clustering view flattens the faces, clusters them and builds person groups ordered by how many images each person is in.
- The collage view picks the images to use and computes their layout.

The modules are:

- `GalleryTypes`: the records (`Face`, `Image`, `Event`) and the shared sequence helpers.
- `StableSort`: a stable sort by an integer key. It stands for the stable `Array.prototype.sort` with a numeric comparator.
- `Clustering`, `Events`, `Search`, `Collage`: the four utilities.
- `FaceClusteringView`, `CollageGenerator`: the two views.

The code mutates state in `clusterFaces`, `groupIntoEvents`, `createCollage`
and `personGroups`. Each of these is a `method` with its loop and invariants.
Each method is proved against specification functions and predicates.
`semanticSearch`, `allFaces`, `imagesToUse` and `collageLayout` are
expressions, and are modelled as functions.

The source's randomness and clock become parameters:

- `clusterFaces` takes a similarity oracle `similar(seed, j)`. The source consults randomness at most once per (seed, face) pair, so every sequence of random answers is one such oracle.
- `groupIntoEvents` takes `eventId(k)` and `eventName(k, timestamp)` for the `k`-th event, which the source builds from the clock, randomness and locale formatting.
- `semanticSearch` takes:
  - `admit(i)` for the random inclusion of image `i`;
  - `picks`, which drives a selection shuffle. `Search.ShuffleComplete` proves every rearrangement is reachable by some `picks`.

Every property is proved for all values of these parameters.

## Model

| member | source | states |
|---|---|---|
| GalleryTypes.ImageIds | components/collage-generator.tsx:32 | the ids of a list of images, position by position |
| GalleryTypes.FaceIds | lib/gallery-utils.ts:72-87 | the ids of a list of faces, position by position, as the clustering reads them |
| GalleryTypes.NoDupPermutation | components/face-clustering.tsx:58 | a rearrangement of a list without duplicates has none (used for the sorted groups) |
| GalleryTypes.InConcat | lib/gallery-utils.ts:104-120 | an element is in a concatenation exactly when it is in one of the parts |
| GalleryTypes.ConcatNoDupParts | lib/gallery-utils.ts:72-90 | a duplicate-free concatenation splits into duplicate-free, pairwise disjoint parts |
| StableSort.SortBy | lib/gallery-utils.ts:98 | the stable sort by an integer key, by insertion; its contract is stated by `SortByCorrect`, `SortByStable` and `SortByIsTheStableSort` |
| StableSort.SortByCorrect | lib/gallery-utils.ts:98 | the sort yields a list ascending by the key, with the same elements and multiplicities |
| StableSort.SortByStable | lib/gallery-utils.ts:98 | for every key value, the elements with that key keep their input order (stability) |
| StableSort.SortByIsTheStableSort | components/face-clustering.tsx:58 | any ascending list that keeps each key's elements in input order is the sort's result, so the stable sort is unique |
| StableSort.StableSortUnique | components/face-clustering.tsx:58 | two ascending lists with the same elements per key, in the same order, are equal |
| Clustering.NatToString | lib/gallery-utils.ts:75 | the decimal rendering of the counter in the template string; `NatToStringInjective` states that it is injective |
| Clustering.ClusterKey | lib/gallery-utils.ts:75 | the key `person-k` of the `k`-th cluster; `ClusterKeyInjective` states that distinct counters give distinct keys |
| Clustering.NatToStringInjective | lib/gallery-utils.ts:75 | distinct cluster counters render to distinct decimal strings |
| Clustering.ClusterKeyInjective | lib/gallery-utils.ts:75 | distinct counters give distinct keys `person-k`, so `clusters.set` never overwrites |
| Clustering.ClusterKeysDistinct | lib/gallery-utils.ts:70-90 | clusters keyed `person-0`, `person-1`, ... have pairwise distinct keys |
| Clustering.Sweep | lib/gallery-utils.ts:76-88 | the inner sweep starts the cluster with its seed, adds exactly the faces still unprocessed that the oracle accepts, in input order, and keeps the processed set equal to the claimed ids |
| Clustering.SweepStep | lib/gallery-utils.ts:80-88 | one inner step: the face joins the cluster and the processed set exactly when it is unprocessed and the oracle accepts it, else nothing changes; the sweep state for the next position holds |
| Clustering.VisitFace | lib/gallery-utils.ts:72-91 | one outer step: a processed face changes nothing; an unprocessed one appends one cluster, keyed with the current counter and headed by that face, and the counter stays the number of clusters; the outer-loop state for the next face holds |
| Clustering.SweepOrderExample | lib/gallery-utils.ts:80-88 | with faces `a`, `b`, `c`, no sweep from `a` lists `c` before `b` |
| Clustering.ClusterFaces | lib/gallery-utils.ts:64-94 | at most one cluster per face; cluster `k` is keyed `person-k` and starts with its seed, the first face not yet claimed; every cluster is its seed's sweep, with its later members in input order; no id is claimed twice and the ids claimed are exactly the input face ids |
| Clustering.OneClusterOf | lib/gallery-utils.ts:72-90 | with no id claimed twice, a claimed id lies in exactly one cluster |
| Clustering.ExactlyOneCluster | lib/gallery-utils.ts:72-90 | partition: every input face id is in exactly one cluster, and no cluster lists an id twice |
| Events.SortedByTime | lib/gallery-utils.ts:98 | the copy of the images sorted stably by timestamp; `WalkDone` and `GroupIntoEvents` state that it is ascending, a rearrangement and stable |
| Events.OpenEvent | lib/gallery-utils.ts:106-113 | the event a new image opens: the oracles' id and name, the image's id as its only member, the image's timestamp; `WalkStep` and `GroupIntoEvents` state its use |
| Events.JoinLast | lib/gallery-utils.ts:115 | the last event with the image's id appended; `WalkStep` states when it applies |
| Events.WalkStep | lib/gallery-utils.ts:104-120 | one step of the walk: with no current event, or an image more than 4 h after the current event's timestamp, a new event for the image is pushed; otherwise the image id is appended to the current (last) event; the walk state for the next image holds |
| Events.Walk | lib/gallery-utils.ts:99-122 | walking all sorted images from no events reaches the walk state for the whole list |
| Events.WalkDone | lib/gallery-utils.ts:98-122 | after the whole walk, the groups concatenate to the timestamp-sorted images, a stable rearrangement of the input, and the events' ids are those images' ids; no events exactly for no images |
| Events.GroupIntoEvents | lib/gallery-utils.ts:97-123 | concatenating the events' image ids gives the ids sorted by timestamp, stably; no events exactly for no images; each event is non-empty, takes its first member's timestamp and its id and name from the oracles; every member is within 4 h (14400000 ms) of the event's start; each event starts more than 4 h after the previous one |
| Search.Lower | lib/gallery-utils.ts:149-152 | lower-casing keeps the length and maps each character |
| Search.Split | lib/gallery-utils.ts:149 | `split(' ')`, always at least one piece; `JoinSplit`, `SplitJoin` and `EmptyPiece` state that it inverts joining with single spaces and when it gives an empty piece |
| Search.Keywords | lib/gallery-utils.ts:149 | the lower-cased query split on single spaces; `EmptyToken` states when it holds an empty token |
| Search.JoinSplit | lib/gallery-utils.ts:149 | splitting on single spaces loses nothing: joining the pieces with spaces gives the string back, and no piece contains a space |
| Search.SplitJoin | lib/gallery-utils.ts:149 | splitting a space-joined list of space-free pieces gives the pieces back |
| Search.Contains | lib/gallery-utils.ts:154 | `includes`; `ContainsIsSubstring` states that it holds exactly when the token occurs at some position |
| Search.MatchScore | lib/gallery-utils.ts:153-155 | the number of keywords contained in the description; `MatchScorePositive` states when it is positive |
| Search.ContainsIsSubstring | lib/gallery-utils.ts:154 | `includes` holds exactly when the token occurs at some position of the description |
| Search.MatchScorePositive | lib/gallery-utils.ts:153-155 | the match score is positive exactly when some keyword is contained in the description |
| Search.Kept | lib/gallery-utils.ts:151-158 | the filter: every keyword match, and the other images the oracle admits, in input order; `KeptFacts` states its contract |
| Search.Shuffle | lib/gallery-utils.ts:159 | the shuffle driven by `picks`; `ShufflePermutes` and `ShuffleComplete` state that it yields exactly the rearrangements of its input |
| Search.SemanticSearch | lib/gallery-utils.ts:145-160 | `semanticSearch`: the shuffle of the filter; `SemanticSearchResult`, `OnlyMatchesWithoutAdmission` and `EmptyTokenMatchesAll` state its contract |
| Search.ShufflePermutes | lib/gallery-utils.ts:159 | the shuffle yields a rearrangement of its input |
| Search.ShuffleComplete | lib/gallery-utils.ts:159 | every rearrangement of the input is the shuffle's result for some picks |
| Search.KeptFacts | lib/gallery-utils.ts:151-158 | the filter keeps a sub-multiset of the input, every keyword match as often as the input holds it, and otherwise only admitted images |
| Search.SemanticSearchResult | lib/gallery-utils.ts:145-160 | the result is a rearrangement of a subset of the input that contains every keyword match, as often as the input does; any other image in it was admitted by the oracle |
| Search.OnlyMatchesWithoutAdmission | lib/gallery-utils.ts:151-158 | when the oracle admits nothing, an image is in the result exactly when it is in the input and matches |
| Search.EmptyPiece | lib/gallery-utils.ts:149 | splitting on single spaces gives an empty piece exactly when the string is empty, starts or ends with a space, or has two spaces in a row |
| Search.EmptyTokenMatchesAll | lib/gallery-utils.ts:149-159 | with an empty keyword, every image matches and the result is a rearrangement of the whole input |
| Search.EmptyToken | lib/gallery-utils.ts:149 | the lower-cased, split query has an empty token exactly when the query is empty, starts or ends with a space, or has a doubled space |
| Collage.Capacity | lib/gallery-utils.ts:191 | the number of cells is `min(n, 2*cols)` for positive `cols`, and 0 otherwise |
| Collage.Layout | lib/gallery-utils.ts:191-218 | the layout has `Capacity` cells, cell `i` carrying `imageIds[i]` |
| Collage.CreateCollage | lib/gallery-utils.ts:181-222 | the loop builds the layout cell by cell; each cell is the first face's crop window for an image that is in the map and has faces, else its grid slot |
| Collage.GridCell | lib/gallery-utils.ts:192-201 | the grid slot of position `i`; `GridCellInCanvas` and `GridCellsDisjoint` state that slots lie on the canvas and do not overlap |
| Collage.FaceCell | lib/gallery-utils.ts:203-210 | the crop window around the first face; `FaceCellInCanvas`, `FaceCellCoversFace` and `CentredFaceExample` state its contract |
| Collage.CellFor | lib/gallery-utils.ts:192-218 | the cell of position `i`: the face crop for an image in the map that has faces, else the grid slot; `CreateCollage` and `CellInCanvas` state its use |
| Collage.GridCellInCanvas | lib/gallery-utils.ts:189-201 | a grid slot of a two-row grid lies on the unit canvas |
| Collage.FaceCellInCanvas | lib/gallery-utils.ts:203-210 | a crop window starts at or after 0 and ends at or before 1 for every face, and has non-negative size for a face inside the canvas |
| Collage.FaceCellCoversFace | lib/gallery-utils.ts:203-210 | the crop window covers half a face on either side of the face position, as far as the canvas reaches |
| Collage.CellInCanvas | lib/gallery-utils.ts:191-218 | every placed cell lies on the canvas when the first face used for cropping is inside the canvas |
| Collage.GridCellsDisjoint | lib/gallery-utils.ts:192-201 | grid slots of distinct positions do not overlap |
| Collage.CentredFaceExample | lib/gallery-utils.ts:205-209 | a face of size 0.2 at the centre gives the window (0.4, 0.4, 0.3, 0.3) |
| Collage.ThreeColumnsExample | lib/gallery-utils.ts:189-201 | with three columns, ten images give six cells, and a faceless image sits at `((i%3)/3, row*0.5)` with size (1/3, 0.5) |
| CollageGenerator.Selected | components/collage-generator.tsx:24 | `images.filter(img => selectedImageIds.includes(img.id))`; `SelectedCount` and `SelectedFacts` state its contract |
| CollageGenerator.ImagesToUse | components/collage-generator.tsx:22-27 | `imagesToUse`; `ImagesToUseFacts` states its contract |
| CollageGenerator.MapOf | components/collage-generator.tsx:33 | `new Map(imagesToUse.map(img => [img.id, img]))`; `MapOfKeys`, `MapOfLast` and `MapOfDistinct` state its contract |
| CollageGenerator.CollageLayout | components/collage-generator.tsx:29-36 | `collageLayout`; `CollageLayoutFacts` states its contract |
| CollageGenerator.SelectedCount | components/collage-generator.tsx:24 | the filter keeps each image whose id is selected as often as the gallery holds it, and no other image |
| CollageGenerator.SelectedFacts | components/collage-generator.tsx:24 | the filter keeps a subsequence of the gallery holding each image whose id is selected, as often as the gallery does, and no other |
| CollageGenerator.ImagesToUseFacts | components/collage-generator.tsx:22-27 | a non-empty selection gives the selected images in gallery order; an absent or empty one gives the whole gallery |
| CollageGenerator.MapOfKeys | components/collage-generator.tsx:33 | the id map holds exactly the ids of the images used, so every looked-up id is present |
| CollageGenerator.MapOfLast | components/collage-generator.tsx:33 | each id maps to the last image carrying it |
| CollageGenerator.MapOfDistinct | components/collage-generator.tsx:33 | with distinct ids, each image's id maps to that image |
| CollageGenerator.CollageLayoutFacts | components/collage-generator.tsx:29-36 | there is no layout exactly when no image is used; otherwise cell `i` carries image `i`'s id, up to the capacity, and with distinct ids it is that image's face crop or grid slot |
| FaceClusteringView.AllFaces | components/face-clustering.tsx:16-24 | `allFaces`, the faces of every image tagged with that image's id and source; `AllFacesAppend` and `AllFacesFacts` state its contract |
| FaceClusteringView.AllFacesAppend | components/face-clustering.tsx:16-24 | flattening respects concatenation, so faces come image after image |
| FaceClusteringView.AllFacesFacts | components/face-clustering.tsx:16-24 | one entry per face of the gallery; an entry is exactly a face of some image, tagged with that image's id and source |
| FaceClusteringView.FacesOf | components/face-clustering.tsx:28-29 | the faces handed to the clustering are the entries' faces, in order |
| FaceClusteringView.ComputeClusters | components/face-clustering.tsx:26-32 | no faces give no clusters; otherwise each cluster is non-empty and cluster `k` is keyed `person-k`; every face id is claimed exactly once |
| FaceClusteringView.FacesIn | components/face-clustering.tsx:43-45 | the `allFaces` entries whose id is in the cluster; `FacesInFacts` and `FacesInHead` state its contract |
| FaceClusteringView.FacesInFacts | components/face-clustering.tsx:43-45 | a person's faces are a subsequence of `allFaces` holding exactly the entries whose id is in the cluster, each as often as `allFaces` does |
| FaceClusteringView.FacesInHead | components/face-clustering.tsx:43-48 | the first entry of `allFaces` whose id is in the cluster heads the person's faces |
| FaceClusteringView.IndexOf | components/face-clustering.tsx:47 | the position of the first occurrence |
| FaceClusteringView.Dedup | components/face-clustering.tsx:47 | `[...new Set(ids)]`; `DedupFacts` states its contract |
| FaceClusteringView.DedupFacts | components/face-clustering.tsx:47 | `[...new Set(ids)]` has no duplicates, the same members as `ids`, and lists them in order of first occurrence |
| FaceClusteringView.GroupsOf | components/face-clustering.tsx:42-56 | one group per cluster, in cluster order |
| FaceClusteringView.PersonGroups | components/face-clustering.tsx:34-59 | the loop builds one group per cluster; the result is their stable sort by image count, most first: same groups, non-increasing image counts, equal counts in cluster order |
| FaceClusteringView.GroupOf | components/face-clustering.tsx:42-55 | the person group of one cluster; `GroupOfFacts` and `AvatarPresent` state its contract |
| FaceClusteringView.ByImageCount | components/face-clustering.tsx:58 | the sort key: more images sort first; `PersonGroups` states the resulting order |
| FaceClusteringView.GroupOfFacts | components/face-clustering.tsx:42-55 | a group carries its cluster's key; its faces are the `allFaces` entries whose id is in the cluster, in `allFaces` order; its image ids are those faces' images, without duplicates, in first-occurrence order; its avatar is its first face, absent only when it has none |
| FaceClusteringView.AvatarPresent | components/face-clustering.tsx:48 | when the cluster's first id is a gallery face, the avatar is present: the first entry of `allFaces` whose id is in the cluster |
| FaceClusteringView.GroupsFollowClusters | components/face-clustering.tsx:42-45 | a gallery face is in a group exactly when that group's cluster claims its id |
| FaceClusteringView.EveryFaceInOneGroup | components/face-clustering.tsx:42-56 | every gallery face is in exactly one group |
| FaceClusteringView.GroupsDistinct | components/face-clustering.tsx:42-56 | the groups are pairwise distinct, since their keys are |
| GalleryTypes.UniqueInPermutation | components/face-clustering.tsx:58 | a property held by at most one position of a list still holds at at most one position after a duplicate-free rearrangement |
| FaceClusteringView.SortedGroupsPartitionFaces | components/face-clustering.tsx:58 | after sorting, every gallery face is still in exactly one group |
| FaceClusteringView.FaceClustering | components/face-clustering.tsx:15-59 | end to end: `allFaces` is the flattening; the groups are the stable sort of the clusters' groups, one per cluster; every gallery face is in exactly one group; every group has an avatar |

## Left out

- `detectFaces`, `generateEmbedding` and `generateImageDescription` are left out: they only generate random data.
- `upscaleImage` is left out: it is a timer around a Promise.
- `faceBasedSearch` is left out: it needs floating-point square roots, and nothing in the modelled views calls it.
- `generateEventName` is left out: it formats dates by locale and time zone and picks a random event type. `eventName` is a parameter instead.
- The event id (`Date.now()` and `Math.random()`) is the parameter `eventId`.
- The JSX of the two views, `useMemo` caching and React state are left out. `cols` is an argument of the collage layout.
- Numbers are modelled as follows:
  - JavaScript numbers are exact: an `int` for timestamps and `cols`, and a `real` for face geometry.
  - Fractional timestamps are not modelled. The uploader gives new images fractional millisecond timestamps (components/image-uploader.tsx:51). The grouping uses timestamps only to order images and to compare differences against the window, but the model proves this for integer timestamps only.
  - Floating-point rounding of `1 / cols` and of the crop arithmetic is not modelled.
  - A non-integer `cols` is not modelled.
- Collage.CreateCollage: for `cols <= 0` the source's loop bound `min(n, cols*2)` is not positive, so the layout is empty. The model gives the same result, and no cell for such `cols` is ever built.
- Search.Lower: lower-cases ASCII letters only, not the full Unicode case mapping of `toLowerCase`.
- Search.Shuffle: the source sorts with a random comparator. The model's picks reach every rearrangement, which is a superset of what that comparator can produce.
- A JavaScript `Map` is modelled in two ways:
  - The cluster map is an ordered sequence of (key, face ids) entries, in insertion order, which is the map's iteration order. `ClusterKeyInjective` shows no key repeats.
  - The collage's id map is a Dafny `map` built from the images in order, so a later image wins as with `new Map(...)`.
- In four places the code behaves differently from what a reader of its comments or of a description of the system might expect, and the model follows the code:
  - An event's window is measured from the event's first image, not from the previous image.
  - Clustering is a greedy seed-and-sweep, not a density clustering.
  - The crop uses `faces[0]`, not the most confident face.
  - For non-positive `cols` there is no error, only an empty layout.
- `clusterFaces` never uses its `imageMap` argument, so `ClusterFaces` does not take it.
