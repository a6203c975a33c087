/**
 * Collage layout (`createCollage`): at most two rows of `cols` cells on a
 * unit canvas. Cell `i` is the grid slot in column `i % cols` and row
 * `i / cols`, one column wide and half the canvas high, unless the image has
 * a face: then the cell is a crop window around the image's first face,
 * clamped to the canvas. Coordinates are exact reals.
 */
module Collage {
  import opened GalleryTypes

  datatype Cell = Cell(id: string, x: real, y: real, width: real, height: real)

  function Min(a: real, b: real): (r: real)
    ensures r <= a && r <= b && (r == a || r == b)
  {
    if a <= b then a else b
  }

  function Max(a: real, b: real): (r: real)
    ensures r >= a && r >= b && (r == a || r == b)
  {
    if a >= b then a else b
  }

  /** How many images the collage places: all of them up to two rows of
    * `cols`; none when `cols` is not positive. */
  function Capacity(n: nat, cols: int): (r: nat)
    ensures r <= n
    ensures cols > 0 ==> r == n || r == 2 * cols
    ensures cols > 0 ==> r <= 2 * cols
    ensures cols <= 0 ==> r == 0
  {
    if cols <= 0 then 0 else if n < 2 * cols then n else 2 * cols
  }

  /** The grid slot of position `i`. */
  function GridCell(id: string, i: nat, cols: int): Cell
    requires cols > 0
  {
    var colWidth := 1.0 / cols as real;
    Cell(id, (i % cols) as real * colWidth, (i / cols) as real * 0.5, colWidth, 0.5)
  }

  /** The crop window around `face`: its corner half a face back from the
    * face position, clamped at 0, and one and a half faces wide and high,
    * clamped at the far edge of the canvas. */
  function FaceCell(id: string, face: Face): Cell
  {
    var x := Max(0.0, face.x - face.width / 2.0);
    var y := Max(0.0, face.y - face.height / 2.0);
    Cell(id, x, y, Min(1.0 - x, face.width * 1.5), Min(1.0 - y, face.height * 1.5))
  }

  /** The cell of position `i`: the first face's window when the image is
    * known and has faces, the grid slot otherwise. */
  function CellFor(imageIds: seq<string>, images: map<string, Image>, cols: int, i: nat): Cell
    requires cols > 0 && i < |imageIds|
  {
    var id := imageIds[i];
    if id in images && |images[id].faces| > 0 then FaceCell(id, images[id].faces[0]) else GridCell(id, i, cols)
  }

  /** The layout of `imageIds`: one cell per image up to the capacity, each
    * carrying its image's id, in input order; images beyond the capacity
    * are dropped. */
  function Layout(imageIds: seq<string>, images: map<string, Image>, cols: int): (r: seq<Cell>)
    ensures |r| == Capacity(|imageIds|, cols)
    ensures forall i :: 0 <= i < |r| ==> r[i].id == imageIds[i]
  {
    if cols <= 0 then []
    else seq(Capacity(|imageIds|, cols), i requires 0 <= i < Capacity(|imageIds|, cols) => CellFor(imageIds, images, cols, i))
  }

  /** `createCollage`, proved to compute `Layout`. */
  method CreateCollage(imageIds: seq<string>, images: map<string, Image>, cols: int) returns (layout: seq<Cell>)
    ensures layout == Layout(imageIds, images, cols)
    ensures forall i :: 0 <= i < |layout| ==> cols > 0 && layout[i] == CellFor(imageIds, images, cols, i)
  {
    layout := [];
    var count := if |imageIds| < cols * 2 then |imageIds| else cols * 2;
    var i: nat := 0;
    while i < count
      invariant i <= Capacity(|imageIds|, cols)
      invariant |layout| == i
      invariant forall k :: 0 <= k < i ==> cols > 0 && layout[k] == CellFor(imageIds, images, cols, k)
    {
      var colWidth := 1.0 / cols as real;
      var row := i / cols;
      var col := i % cols;
      var x := col as real * colWidth;
      var y := row as real * 0.5;
      var width := colWidth;
      var height := 0.5;
      var image := if imageIds[i] in images then Some(images[imageIds[i]]) else None;
      if image.Some? && |image.value.faces| > 0 {
        var face := image.value.faces[0];
        x := Max(0.0, face.x - face.width / 2.0);
        y := Max(0.0, face.y - face.height / 2.0);
        width := Min(1.0 - x, face.width * 1.5);
        height := Min(1.0 - y, face.height * 1.5);
      }
      assert Cell(imageIds[i], x, y, width, height) == CellFor(imageIds, images, cols, i);
      layout := layout + [Cell(imageIds[i], x, y, width, height)];
      i := i + 1;
    }
    assert |layout| == Capacity(|imageIds|, cols);
  }

  /** The cell lies on the canvas: non-negative size, and its far edges at
    * most 1. */
  predicate InCanvas(c: Cell)
  {
    0.0 <= c.x && 0.0 <= c.y && 0.0 <= c.width && 0.0 <= c.height && c.x + c.width <= 1.0 && c.y + c.height <= 1.0
  }

  /** A face in normalised coordinates: position on the canvas, size not
    * negative. */
  predicate Normalised(face: Face)
  {
    0.0 <= face.x <= 1.0 && 0.0 <= face.y <= 1.0 && 0.0 <= face.width && 0.0 <= face.height
  }

  /** A grid slot of a two-row grid lies on the canvas. */
  lemma {:induction false} GridCellInCanvas(id: string, i: nat, cols: int)
    requires cols > 0 && i < 2 * cols
    ensures InCanvas(GridCell(id, i, cols))
  {
    var n := cols as real;
    var c := i % cols;
    assert c + 1 <= cols;
    assert (c as real + 1.0) / n <= 1.0;
    assert (c as real) * (1.0 / n) + 1.0 / n == (c as real + 1.0) / n;
    assert i / cols <= 1;
  }

  /** Whatever the face, the crop window never leaves the canvas on the far
    * side or before 0; for a normalised face its size is not negative. */
  lemma {:induction false} FaceCellInCanvas(id: string, face: Face)
    ensures var c := FaceCell(id, face); 0.0 <= c.x && 0.0 <= c.y && c.x + c.width <= 1.0 && c.y + c.height <= 1.0
    ensures Normalised(face) ==> InCanvas(FaceCell(id, face))
  {
  }

  /** The crop window, which starts half a face before the face position,
    * reaches at least half a face past it on the far side, as far as the
    * canvas reaches. */
  lemma {:induction false} FaceCellCoversFace(id: string, face: Face)
    requires face.width >= 0.0 && face.height >= 0.0
    ensures var c := FaceCell(id, face);
      && Min(1.0, face.x + face.width / 2.0) <= c.x + c.width
      && Min(1.0, face.y + face.height / 2.0) <= c.y + c.height
  {
  }

  /** Every placed cell lies on the canvas, provided the first face of a
    * face-cropped image is normalised. */
  lemma {:induction false} CellInCanvas(imageIds: seq<string>, images: map<string, Image>, cols: int, i: nat)
    requires cols > 0 && i < Capacity(|imageIds|, cols)
    requires imageIds[i] in images && |images[imageIds[i]].faces| > 0 ==> Normalised(images[imageIds[i]].faces[0])
    ensures InCanvas(CellFor(imageIds, images, cols, i))
  {
    var id := imageIds[i];
    if id in images && |images[id].faces| > 0 {
      FaceCellInCanvas(id, images[id].faces[0]);
    } else {
      GridCellInCanvas(id, i, cols);
    }
  }

  /** Two cells do not overlap (they may share an edge). */
  predicate Disjoint(a: Cell, b: Cell)
  {
    a.x + a.width <= b.x || b.x + b.width <= a.x || a.y + a.height <= b.y || b.y + b.height <= a.y
  }

  lemma {:induction false} ColumnsApart(c1: nat, c2: nat, w: real)
    requires w > 0.0 && c1 < c2
    ensures (c1 as real) * w + w <= (c2 as real) * w
  {
    assert (c1 as real) * w + w == (c1 as real + 1.0) * w;
    assert c1 as real + 1.0 <= c2 as real;
  }

  /** Distinct grid slots do not overlap. */
  lemma {:induction false} GridCellsDisjoint(id1: string, id2: string, i: nat, j: nat, cols: int)
    requires cols > 0 && i != j
    ensures Disjoint(GridCell(id1, i, cols), GridCell(id2, j, cols))
  {
    if i % cols < j % cols {
      LeftOf(id1, id2, i, j, cols);
    } else if j % cols < i % cols {
      LeftOf(id2, id1, j, i, cols);
    } else {
      SameColumnOtherRow(i, j, cols);
      if i / cols < j / cols {
        Above(id1, id2, i, j, cols);
      } else {
        Above(id2, id1, j, i, cols);
      }
    }
  }

  /** A slot in an earlier column ends where a later column's slot starts or
    * before. */
  lemma {:induction false} LeftOf(id1: string, id2: string, i: nat, j: nat, cols: int)
    requires cols > 0 && i % cols < j % cols
    ensures GridCell(id1, i, cols).x + GridCell(id1, i, cols).width <= GridCell(id2, j, cols).x
  {
    var w := 1.0 / cols as real;
    assert w > 0.0;
    var a, b := GridCell(id1, i, cols), GridCell(id2, j, cols);
    assert a.x == (i % cols) as real * w && a.width == w;
    assert b.x == (j % cols) as real * w;
    ColumnsApart(i % cols, j % cols, w);
  }

  /** A slot in an earlier row ends where a later row's slot starts or
    * before. */
  lemma {:induction false} Above(id1: string, id2: string, i: nat, j: nat, cols: int)
    requires cols > 0 && i / cols < j / cols
    ensures GridCell(id1, i, cols).y + GridCell(id1, i, cols).height <= GridCell(id2, j, cols).y
  {
    RowsApart(i / cols, j / cols);
  }

  lemma {:induction false} SameColumnOtherRow(i: nat, j: nat, cols: int)
    requires cols > 0 && i != j && i % cols == j % cols
    ensures i / cols != j / cols
  {
    assert i == (i / cols) * cols + i % cols;
    assert j == (j / cols) * cols + j % cols;
  }

  lemma {:induction false} RowsApart(r1: nat, r2: nat)
    requires r1 < r2
    ensures (r1 as real) * 0.5 + 0.5 <= (r2 as real) * 0.5
  {
  }

  /** A face of a fifth of the canvas at its centre gives the window from 0.4
    * to 0.7 in both directions. */
  lemma {:induction false} CentredFaceExample(id: string, f: Face)
    requires f.x == 0.5 && f.y == 0.5 && f.width == 0.2 && f.height == 0.2
    ensures FaceCell(id, f) == Cell(id, 0.4, 0.4, 0.3, 0.3)
  {
  }

  /** With three columns and ten images, six cells are placed, and the cell
    * of a faceless image is its slot in the grid. */
  lemma {:induction false} ThreeColumnsExample(imageIds: seq<string>, images: map<string, Image>, i: nat)
    requires |imageIds| == 10 && i < 6
    requires imageIds[i] !in images || images[imageIds[i]].faces == []
    ensures Capacity(|imageIds|, 3) == 6
    ensures CellFor(imageIds, images, 3, i)
         == Cell(imageIds[i], (i % 3) as real / 3.0, if i < 3 then 0.0 else 0.5, 1.0 / 3.0, 0.5)
  {
    assert i / 3 == if i < 3 then 0 else 1;
  }
}
