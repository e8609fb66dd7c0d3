/** The atlas: a 4-by-3 grid of cells, each P by P pixels where P = d + 2 is
    the padded side, with the six padded faces pasted into the cells of an
    unfolded cube and the other six cells left blank:

           W
         S B N U
           E

    (B is the `down` face.) */
module Atlas {
  import opened Directions
  import opened EdgeGeometry
  import opened Adjacency
  import opened Padding
  import Raster
  import Orientation

  /** The (column, row) cell of each face; rows grow downward. */
  function AtlasCell(dir: Direction): (cell: (nat, nat))
    ensures cell.0 < 4 && cell.1 < 3
  {
    match dir
    case East => (1, 2)
    case West => (1, 0)
    case South => (0, 1)
    case North => (2, 1)
    case Up => (3, 1)
    case Down => (1, 1)
  }

  /** No two faces share a cell. */
  lemma CellsDistinct(a: Direction, b: Direction)
    requires a != b
    ensures AtlasCell(a) != AtlasCell(b)
  {
  }

  /** Whether atlas pixel (x, y) lies in the cell of `dir`. */
  predicate InCell(dir: Direction, p: nat, x: int, y: int)
  {
    Raster.InBox(x, y, AtlasCell(dir).0 * p, AtlasCell(dir).1 * p, p, p)
  }

  /** The face whose cell holds atlas pixel (x, y), if any. */
  function OwnerAt(p: nat, x: int, y: int): (r: Option<Direction>)
    ensures r.Some? ==> InCell(r.value, p, x, y)
    ensures r.None? ==> forall dir: Direction :: !InCell(dir, p, x, y)
  {
    if InCell(East, p, x, y) then Some(East)
    else if InCell(West, p, x, y) then Some(West)
    else if InCell(South, p, x, y) then Some(South)
    else if InCell(North, p, x, y) then Some(North)
    else if InCell(Up, p, x, y) then Some(Up)
    else if InCell(Down, p, x, y) then Some(Down)
    else None
  }

  /** Cells do not overlap: a pixel in the cell of `dir` belongs to `dir`. */
  lemma OwnerOfCell(dir: Direction, p: nat, x: int, y: int)
    requires InCell(dir, p, x, y)
    ensures OwnerAt(p, x, y) == Some(dir)
  {
  }

  /** What the atlas holds at (x, y): the pixel of the owning padded face at
      the offset within its cell, or the blank fill outside every cell. */
  function AtlasPixel<T>(padded: seq<array2<T>>, p: nat, blank: T, x: int, y: int): T
    reads padded
    requires |padded| == 6
    requires forall k :: 0 <= k < 6 ==> padded[k].Length0 == p && padded[k].Length1 == p
  {
    match OwnerAt(p, x, y)
    case Some(dir) =>
      padded[dir.Index()][x - AtlasCell(dir).0 * p, y - AtlasCell(dir).1 * p]
    case None => blank
  }

  /** The atlas after the first n pastes: a cell shows its face once that
      face has been pasted, and the blank fill before. The faces are pasted
      in the order of the direction list, so face `dir` is paste number
      `dir.Index()`. */
  function PastedPixel<T>(padded: seq<array2<T>>, p: nat, blank: T, n: nat, x: int, y: int): T
    reads padded
    requires |padded| == 6
    requires forall k :: 0 <= k < 6 ==> padded[k].Length0 == p && padded[k].Length1 == p
  {
    match OwnerAt(p, x, y)
    case Some(dir) =>
      if dir.Index() < n then padded[dir.Index()][x - AtlasCell(dir).0 * p, y - AtlasCell(dir).1 * p]
      else blank
    case None => blank
  }

  /** Builds the atlas: a blank 4P-by-3P image, then the six pastes in the
      converter's order with its literal offsets. */
  method ComposeAtlas<T>(padded: seq<array2<T>>, p: nat, blank: T) returns (atlas: array2<T>)
    requires |padded| == 6
    requires forall k :: 0 <= k < 6 ==> padded[k].Length0 == p && padded[k].Length1 == p
    ensures fresh(atlas)
    ensures atlas.Length0 == 4 * p && atlas.Length1 == 3 * p
    ensures forall x, y :: 0 <= x < 4 * p && 0 <= y < 3 * p ==>
              atlas[x, y] == AtlasPixel(padded, p, blank, x, y)
  {
    atlas := Raster.NewImage(4 * p, 3 * p, blank);
    PasteFace(atlas, padded, p, blank, East, p, 2 * p);
    PasteFace(atlas, padded, p, blank, West, p, 0);
    PasteFace(atlas, padded, p, blank, South, 0, p);
    PasteFace(atlas, padded, p, blank, North, 2 * p, p);
    PasteFace(atlas, padded, p, blank, Up, 3 * p, p);
    PasteFace(atlas, padded, p, blank, Down, p, p);
  }

  /** One paste of the six: the padded face of `dir` goes to (ox, oy), the
      top-left pixel of its cell, and the atlas moves on by one stage. */
  method PasteFace<T>(atlas: array2<T>, padded: seq<array2<T>>, p: nat, blank: T, dir: Direction, ox: nat, oy: nat)
    requires |padded| == 6
    requires forall k :: 0 <= k < 6 ==> padded[k].Length0 == p && padded[k].Length1 == p
    requires forall k :: 0 <= k < 6 ==> padded[k] != atlas
    requires atlas.Length0 == 4 * p && atlas.Length1 == 3 * p
    requires ox == AtlasCell(dir).0 * p && oy == AtlasCell(dir).1 * p
    requires forall x, y :: 0 <= x < 4 * p && 0 <= y < 3 * p ==>
               atlas[x, y] == PastedPixel(padded, p, blank, dir.Index(), x, y)
    modifies atlas
    ensures forall x, y :: 0 <= x < 4 * p && 0 <= y < 3 * p ==>
              atlas[x, y] == PastedPixel(padded, p, blank, dir.Index() + 1, x, y)
  {
    assert ox + p <= 4 * p && oy + p <= 3 * p by {
      BandsApart(AtlasCell(dir).0, 4, p);
      BandsApart(AtlasCell(dir).1, 3, p);
    }
    Raster.Paste(atlas, padded[dir.Index()], ox, oy);
    forall x, y | 0 <= x < 4 * p && 0 <= y < 3 * p
      ensures atlas[x, y] == PastedPixel(padded, p, blank, dir.Index() + 1, x, y)
    {
      if InCell(dir, p, x, y) {
        OwnerOfCell(dir, p, x, y);
      } else if OwnerAt(p, x, y).Some? {
        var other := OwnerAt(p, x, y).value;
        assert other.Index() != dir.Index();
      }
    }
  }

  /** Every pixel of a cell lies in the 4p-by-3p atlas. */
  lemma CellWithinAtlas(dir: Direction, p: nat, x: int, y: int)
    requires 0 <= x < p && 0 <= y < p
    ensures 0 <= AtlasCell(dir).0 * p + x < 4 * p && 0 <= AtlasCell(dir).1 * p + y < 3 * p
  {
    BandsApart(AtlasCell(dir).0, 4, p);
    BandsApart(AtlasCell(dir).1, 3, p);
  }

  /** Each padded face appears whole in its own cell. */
  lemma FaceInItsCell<T>(padded: seq<array2<T>>, p: nat, blank: T, dir: Direction, x: int, y: int)
    requires |padded| == 6
    requires forall k :: 0 <= k < 6 ==> padded[k].Length0 == p && padded[k].Length1 == p
    requires 0 <= x < p && 0 <= y < p
    ensures AtlasPixel(padded, p, blank, AtlasCell(dir).0 * p + x, AtlasCell(dir).1 * p + y)
            == padded[dir.Index()][x, y]
  {
    OwnerOfCell(dir, p, AtlasCell(dir).0 * p + x, AtlasCell(dir).1 * p + y);
  }

  /** The six cells that hold no face stay blank. */
  lemma UnusedCellsBlank<T>(padded: seq<array2<T>>, p: nat, blank: T, col: nat, row: nat, x: int, y: int)
    requires |padded| == 6
    requires forall k :: 0 <= k < 6 ==> padded[k].Length0 == p && padded[k].Length1 == p
    requires col < 4 && row < 3 && row != 1 && col != 1
    requires 0 <= x < p && 0 <= y < p
    ensures AtlasPixel(padded, p, blank, col * p + x, row * p + y) == blank
  {
    NotInOtherCell(East, p, col, row, x, y);
    NotInOtherCell(West, p, col, row, x, y);
    NotInOtherCell(South, p, col, row, x, y);
    NotInOtherCell(North, p, col, row, x, y);
    NotInOtherCell(Up, p, col, row, x, y);
    NotInOtherCell(Down, p, col, row, x, y);
  }

  /** A pixel at offset (x, y) of cell (col, row) is in no other cell. */
  lemma NotInOtherCell(dir: Direction, p: nat, col: nat, row: nat, x: int, y: int)
    requires 0 <= x < p && 0 <= y < p
    requires AtlasCell(dir) != (col, row)
    ensures !InCell(dir, p, col * p + x, row * p + y)
  {
    if InCell(dir, p, col * p + x, row * p + y) {
      SameBand(AtlasCell(dir).0, col, p, x);
      SameBand(AtlasCell(dir).1, row, p, y);
    }
  }

  /** Offset x of band b lies in band a only when a and b are the same band. */
  lemma SameBand(a: nat, b: nat, p: nat, x: int)
    requires 0 <= x < p
    requires a * p <= b * p + x < a * p + p
    ensures a == b
  {
    if a < b {
      BandsApart(a, b, p);
    } else if b < a {
      BandsApart(b, a, p);
    }
  }

  /** A later band starts at least one band width further on. */
  lemma {:induction false} BandsApart(a: nat, b: nat, p: nat)
    requires a < b
    ensures a * p + p <= b * p
    decreases b - a
  {
    if a + 1 < b {
      BandsApart(a + 1, b, p);
      assert (a + 1) * p == a * p + p;
    } else {
      assert b * p == a * p + p;
    }
  }

  // ---------------------------------------------------------------------
  // The whole image path and the seams it hides.

  /** Turns the faces, pads them with the calls of `table` and stitches the
      atlas; the converter itself is this method with `table == Calls()`.
      The atlas is a new
      image 4(d + 2) by 3(d + 2); each face's padded copy sits in its cell,
      and the pixels outside the six cells keep the blank fill. */
  method BuildAtlas<T>(faces: seq<array2<T>>, d: nat, table: seq<EdgeCall>, blank: T) returns (atlas: array2<T>, oriented: seq<array2<T>>)
    requires |faces| == 6 && LaidOut(table)
    requires forall k :: 0 <= k < 6 ==> faces[k].Length0 == d && faces[k].Length1 == d
    ensures FacesOfSide(oriented, d)
    ensures forall k, x, y :: 0 <= k < 6 && 0 <= x < d && 0 <= y < d ==>
              var q := Orientation.RotatedFrom(Orientation.RotationOf(FromIndex(k)), d, x, y);
              oriented[k][x, y] == faces[k][q.0, q.1]
    ensures fresh(atlas)
    ensures atlas.Length0 == 4 * (d + 2) && atlas.Length1 == 3 * (d + 2)
    ensures forall dir: Direction, x, y :: 0 <= x < d + 2 && 0 <= y < d + 2 ==>
              atlas[AtlasCell(dir).0 * (d + 2) + x, AtlasCell(dir).1 * (d + 2) + y]
              == PaddedPixel(oriented, d, table, dir, blank, x, y)
    ensures forall x, y :: 0 <= x < 4 * (d + 2) && 0 <= y < 3 * (d + 2) && OwnerAt(d + 2, x, y).None? ==>
              atlas[x, y] == blank
  {
    oriented := Orientation.OrientFaces(faces, d);
    var padded := PadFaces(oriented, d, table, blank);
    atlas := ComposeAtlas(padded, d + 2, blank);
    forall dir: Direction, x, y | 0 <= x < d + 2 && 0 <= y < d + 2
      ensures atlas[AtlasCell(dir).0 * (d + 2) + x, AtlasCell(dir).1 * (d + 2) + y]
              == PaddedPixel(oriented, d, table, dir, blank, x, y)
    {
      PaddedFaceInItsCell(atlas, padded, oriented, d, table, blank, dir, x, y);
    }
  }

  /** An atlas composed from the padded faces shows padded face `dir` in the
      cell of `dir`. */
  lemma PaddedFaceInItsCell<T>(atlas: array2<T>, padded: seq<array2<T>>, faces: seq<array2<T>>, d: nat,
                               table: seq<EdgeCall>, blank: T, dir: Direction, x: int, y: int)
    requires FacesOfSide(faces, d) && LaidOut(table) && |padded| == 6
    requires forall k :: 0 <= k < 6 ==> padded[k].Length0 == d + 2 && padded[k].Length1 == d + 2
    requires atlas.Length0 == 4 * (d + 2) && atlas.Length1 == 3 * (d + 2)
    requires forall x, y :: 0 <= x < 4 * (d + 2) && 0 <= y < 3 * (d + 2) ==>
               atlas[x, y] == AtlasPixel(padded, d + 2, blank, x, y)
    requires forall k, x, y :: 0 <= k < 6 && 0 <= x < d + 2 && 0 <= y < d + 2 ==>
               padded[k][x, y] == PaddedPixel(faces, d, table, FromIndex(k), blank, x, y)
    requires 0 <= x < d + 2 && 0 <= y < d + 2
    ensures atlas[AtlasCell(dir).0 * (d + 2) + x, AtlasCell(dir).1 * (d + 2) + y]
            == PaddedPixel(faces, d, table, dir, blank, x, y)
  {
    var p := d + 2;
    CellWithinAtlas(dir, p, x, y);
    FaceInItsCell(padded, p, blank, dir, x, y);
    assert FromIndex(dir.Index()) == dir;
  }

  /** The pairs of faces that sit side by side in the middle row of the
      layout, left face first; the row wraps around from Up back to South. */
  function HorizontalSeams(): seq<(Direction, Direction)>
  {
    [(South, Down), (Down, North), (North, Up), (Up, South)]
  }

  /** The pairs of faces stacked in the middle column, upper face first. */
  function VerticalSeams(): seq<(Direction, Direction)>
  {
    [(West, Down), (Down, East)]
  }

  /** The seam pairs are exactly the cells that touch in the layout: every
      seam pair is a pair of touching cells, and every two cells that touch
      (side by side in the middle row, wrapping around, or stacked) form a
      seam pair. */
  lemma SeamsAreLayoutNeighbours()
    ensures forall s :: s in HorizontalSeams() ==>
              AtlasCell(s.0).1 == 1 && AtlasCell(s.1) == ((AtlasCell(s.0).0 + 1) % 4, 1)
    ensures forall s :: s in VerticalSeams() ==>
              AtlasCell(s.1) == (AtlasCell(s.0).0, AtlasCell(s.0).1 + 1)
    ensures forall a, b :: AtlasCell(a).1 == 1 && AtlasCell(b) == ((AtlasCell(a).0 + 1) % 4, 1) ==>
              (a, b) in HorizontalSeams()
    ensures forall a, b :: AtlasCell(b) == (AtlasCell(a).0, AtlasCell(a).1 + 1) ==>
              (a, b) in VerticalSeams()
  {
  }

  /** Across every seam of the layout, each padding pixel repeats the first
      real pixel on the other side of the seam, so filtering across the seam
      sees the neighbouring face's content. This holds for the converter's
      table and for the corrected one alike. */
  lemma HorizontalSeamContinuous<T>(faces: seq<array2<T>>, d: nat, table: seq<EdgeCall>, blank: T,
                                    s: (Direction, Direction), i: nat)
    requires FacesOfSide(faces, d) && LaidOut(table) && (table == Calls() || table == FixedCalls())
    requires s in HorizontalSeams() && i < d
    ensures PaddedPixel(faces, d, table, s.1, blank, 0, i + 1) == PaddedPixel(faces, d, table, s.0, blank, d, i + 1)
    ensures PaddedPixel(faces, d, table, s.0, blank, d + 1, i + 1) == PaddedPixel(faces, d, table, s.1, blank, 1, i + 1)
  {
    HorizontalSeamCalls(table, s);
    SideBySideBordersAgree(faces, d, table, blank, s.0, s.1, i);
  }

  /** The same for the two seams of the middle column. */
  lemma VerticalSeamContinuous<T>(faces: seq<array2<T>>, d: nat, table: seq<EdgeCall>, blank: T,
                                  s: (Direction, Direction), i: nat)
    requires FacesOfSide(faces, d) && LaidOut(table) && (table == Calls() || table == FixedCalls())
    requires s in VerticalSeams() && i < d
    ensures PaddedPixel(faces, d, table, s.1, blank, i + 1, 0) == PaddedPixel(faces, d, table, s.0, blank, i + 1, d)
    ensures PaddedPixel(faces, d, table, s.0, blank, i + 1, d + 1) == PaddedPixel(faces, d, table, s.1, blank, i + 1, 1)
  {
    VerticalSeamCalls(table, s);
    StackedBordersAgree(faces, d, table, blank, s.0, s.1, i);
  }

  /** Pixel step for a middle-row seam between faces a (left) and b (right)
      whose facing edges fill each other forward. */
  lemma SideBySideBordersAgree<T>(faces: seq<array2<T>>, d: nat, table: seq<EdgeCall>, blank: T,
                                  a: Direction, b: Direction, i: nat)
    requires FacesOfSide(faces, d) && LaidOut(table) && i < d
    requires CallFor(table, b, Left) == EdgeCall(b, Left, a, Right, Forward)
    requires CallFor(table, a, Right) == EdgeCall(a, Right, b, Left, Forward)
    ensures PaddedPixel(faces, d, table, b, blank, 0, i + 1) == PaddedPixel(faces, d, table, a, blank, d, i + 1)
    ensures PaddedPixel(faces, d, table, a, blank, d + 1, i + 1) == PaddedPixel(faces, d, table, b, blank, 1, i + 1)
  {
    BorderEdgeAtOnBorder(Left, d, 0, i + 1);
    BorderEdgeAtOnBorder(Right, d, d + 1, i + 1);
  }

  /** Pixel step for a middle-column seam between faces a (upper) and b
      (lower) whose facing edges fill each other forward. */
  lemma StackedBordersAgree<T>(faces: seq<array2<T>>, d: nat, table: seq<EdgeCall>, blank: T,
                               a: Direction, b: Direction, i: nat)
    requires FacesOfSide(faces, d) && LaidOut(table) && i < d
    requires CallFor(table, b, Top) == EdgeCall(b, Top, a, Bottom, Forward)
    requires CallFor(table, a, Bottom) == EdgeCall(a, Bottom, b, Top, Forward)
    ensures PaddedPixel(faces, d, table, b, blank, i + 1, 0) == PaddedPixel(faces, d, table, a, blank, i + 1, d)
    ensures PaddedPixel(faces, d, table, a, blank, i + 1, d + 1) == PaddedPixel(faces, d, table, b, blank, i + 1, 1)
  {
    BorderEdgeAtOnBorder(Top, d, i + 1, 0);
    BorderEdgeAtOnBorder(Bottom, d, i + 1, d + 1);
  }

  /** Across a seam of the middle row, the left face's right edge and the
      right face's left edge fill each other, walking forward. */
  lemma HorizontalSeamCalls(table: seq<EdgeCall>, s: (Direction, Direction))
    requires LaidOut(table) && (table == Calls() || table == FixedCalls())
    requires s in HorizontalSeams()
    ensures CallFor(table, s.1, Left) == EdgeCall(s.1, Left, s.0, Right, Forward)
    ensures CallFor(table, s.0, Right) == EdgeCall(s.0, Right, s.1, Left, Forward)
  {
    FixedCallsDifferOnlyInTwoTraversals();
  }

  /** Across a seam of the middle column, the upper face's bottom edge and
      the lower face's top edge fill each other, walking forward. */
  lemma VerticalSeamCalls(table: seq<EdgeCall>, s: (Direction, Direction))
    requires LaidOut(table) && (table == Calls() || table == FixedCalls())
    requires s in VerticalSeams()
    ensures CallFor(table, s.1, Top) == EdgeCall(s.1, Top, s.0, Bottom, Forward)
    ensures CallFor(table, s.0, Bottom) == EdgeCall(s.0, Bottom, s.1, Top, Forward)
  {
    FixedCallsDifferOnlyInTwoTraversals();
  }
}
