/**
 * The collage view's derived values: which images go into the collage
 * (the selected ones in gallery order, or the whole gallery when nothing is
 * selected), the id-to-image map handed to the layout, and the layout itself
 * (none for an empty set of images).
 */
module CollageGenerator {
  import opened GalleryTypes
  import opened Collage

  /** The images whose id is one of `ids`, in gallery order. */
  function Selected(images: seq<Image>, ids: seq<string>): seq<Image>
  {
    if images == [] then []
    else (if images[0].id in ids then [images[0]] else []) + Selected(images[1..], ids)
  }

  /** `imagesToUse`: a selection that is absent or empty stands for the whole
    * gallery. */
  function ImagesToUse(images: seq<Image>, selectedImageIds: Option<seq<string>>): seq<Image>
  {
    if selectedImageIds.Some? && |selectedImageIds.value| > 0 then Selected(images, selectedImageIds.value)
    else images
  }

  lemma {:induction false} SelectedSub(images: seq<Image>, ids: seq<string>)
    ensures Subsequence(Selected(images, ids), images)
  {
    if images != [] {
      SelectedSub(images[1..], ids);
      var rest := Selected(images[1..], ids);
      if images[0].id in ids {
        assert ([images[0]] + rest)[1..] == rest;
      } else {
        assert Selected(images, ids) == rest;
      }
    }
  }

  lemma {:induction false} SelectedCount(images: seq<Image>, ids: seq<string>, image: Image)
    ensures multiset(Selected(images, ids))[image] == if image.id in ids then multiset(images)[image] else 0
  {
    if images != [] {
      SelectedCount(images[1..], ids, image);
      MultisetCons(images, 0);
      assert images[0..] == images;
      var rest := Selected(images[1..], ids);
      var one := if images[0] == image then 1 else 0;
      assert multiset{images[0]}[image] == one;
      assert multiset(images)[image] == one + multiset(images[1..])[image];
      if images[0].id in ids {
        assert multiset(Selected(images, ids)) == multiset{images[0]} + multiset(rest);
        assert multiset(Selected(images, ids))[image] == one + multiset(rest)[image];
      } else {
        assert Selected(images, ids) == rest;
        assert image.id in ids ==> one == 0;
      }
    }
  }

  /** The selected images are a subsequence of the gallery holding every
    * image whose id is selected, as often as the gallery holds it, and
    * nothing else. */
  lemma {:induction false} SelectedFacts(images: seq<Image>, ids: seq<string>, image: Image)
    ensures Subsequence(Selected(images, ids), images)
    ensures multiset(Selected(images, ids))[image] == if image.id in ids then multiset(images)[image] else 0
  {
    SelectedSub(images, ids);
    SelectedCount(images, ids, image);
  }

  /** The images used are a subsequence of the gallery; with a non-empty
    * selection they are every gallery image whose id is selected, as often
    * as the gallery holds it, and nothing else; otherwise the gallery
    * itself. */
  lemma {:induction false} ImagesToUseFacts(images: seq<Image>, selectedImageIds: Option<seq<string>>, image: Image)
    ensures Subsequence(ImagesToUse(images, selectedImageIds), images)
    ensures selectedImageIds.Some? && |selectedImageIds.value| > 0 ==>
              multiset(ImagesToUse(images, selectedImageIds))[image]
              == if image.id in selectedImageIds.value then multiset(images)[image] else 0
    ensures selectedImageIds == None || selectedImageIds == Some([]) ==> ImagesToUse(images, selectedImageIds) == images
  {
    SelectedFacts(images, if selectedImageIds.Some? then selectedImageIds.value else [], image);
    SubsequenceReflexive(images);
  }

  /** `new Map(images.map(img => [img.id, img]))`: a later image with the
    * same id replaces an earlier one. */
  function MapOf(images: seq<Image>): map<string, Image>
  {
    if images == [] then map[]
    else MapOf(images[..|images| - 1])[images[|images| - 1].id := images[|images| - 1]]
  }

  /** The map holds exactly the ids of the images. */
  lemma {:induction false} MapOfKeys(images: seq<Image>, id: string)
    ensures id in MapOf(images) <==> id in ImageIds(images)
  {
    if images != [] {
      var n := |images|;
      MapOfKeys(images[..n - 1], id);
      ImageIdsSnoc(images[..n - 1], images[n - 1]);
      TakeLast(images);
    }
  }

  /** Each id maps to the last image carrying it. */
  lemma {:induction false} MapOfLast(images: seq<Image>, j: nat)
    requires j < |images|
    requires forall t :: j < t < |images| ==> images[t].id != images[j].id
    ensures images[j].id in MapOf(images) && MapOf(images)[images[j].id] == images[j]
  {
    var n := |images|;
    if j < n - 1 {
      var front := images[..n - 1];
      assert front[j] == images[j];
      forall t | j < t < |front| ensures front[t].id != front[j].id {
        assert front[t] == images[t];
      }
      MapOfLast(front, j);
    }
  }

  /** With distinct ids, the map sends each image's id to that image. */
  lemma {:induction false} MapOfDistinct(images: seq<Image>, j: nat)
    requires NoDup(ImageIds(images)) && j < |images|
    ensures images[j].id in MapOf(images) && MapOf(images)[images[j].id] == images[j]
  {
    var ids := ImageIds(images);
    forall t | j < t < |images| ensures images[t].id != images[j].id {
      assert ids[t] == images[t].id && ids[j] == images[j].id;
    }
    MapOfLast(images, j);
  }

  /** `collageLayout`: nothing to lay out for no images, else the layout of
    * the images in order, resolved through their map. */
  function CollageLayout(imagesToUse: seq<Image>, cols: int): Option<seq<Cell>>
  {
    if |imagesToUse| == 0 then None else Some(Layout(ImageIds(imagesToUse), MapOf(imagesToUse), cols))
  }

  /** There is a layout exactly when there are images; it places the first
    * images up to the capacity, cell `i` for image `i`, and with distinct ids
    * each cell is the first-face crop of its own image, or its grid slot for
    * an image without faces. */
  lemma {:induction false} CollageLayoutFacts(imagesToUse: seq<Image>, cols: int)
    ensures CollageLayout(imagesToUse, cols).None? <==> imagesToUse == []
    ensures CollageLayout(imagesToUse, cols).Some? ==>
              var layout := CollageLayout(imagesToUse, cols).value;
              && |layout| == Capacity(|imagesToUse|, cols)
              && forall i :: 0 <= i < |layout| ==> layout[i].id == imagesToUse[i].id
    ensures CollageLayout(imagesToUse, cols).Some? && NoDup(ImageIds(imagesToUse)) ==>
              var layout := CollageLayout(imagesToUse, cols).value;
              forall i :: 0 <= i < |layout| ==>
                layout[i] == if imagesToUse[i].faces == [] then GridCell(imagesToUse[i].id, i, cols)
                             else FaceCell(imagesToUse[i].id, imagesToUse[i].faces[0])
  {
    if imagesToUse != [] && NoDup(ImageIds(imagesToUse)) {
      var layout := CollageLayout(imagesToUse, cols).value;
      forall i | 0 <= i < |layout|
        ensures layout[i] == if imagesToUse[i].faces == [] then GridCell(imagesToUse[i].id, i, cols)
                             else FaceCell(imagesToUse[i].id, imagesToUse[i].faces[0])
      {
        MapOfDistinct(imagesToUse, i);
      }
    }
  }
}
