/** The texture coordinates of the mesh: the 24-entry table of cell corners
    and the loop that pulls every corner one padding pixel into its cell.

    Texture space has u growing to the right and v growing upward, while
    atlas rows grow downward, so a face in atlas row r has its texture cell
    in row 2 - r counted from the bottom:

           W                 row 2
         S B N U             row 1
           E                 row 0
*/
module Texture {
  import opened Directions
  import Atlas
  import Mesh
  import EdgeGeometry

  datatype UV = UV(u: real, v: real)

  /** An axis-aligned rectangle of texture space. */
  datatype Rect = Rect(left: real, right: real, bottom: real, top: real)

  /** The face whose cell each group of four coordinates covers, in table
      order: W, S, B, N, U, E. */
  function GroupFace(g: nat): Direction
    requires g < 6
  {
    [West, South, Down, North, Up, East][g]
  }

  /** The texture cell (column, row from the bottom) over the atlas cell
      (column, row from the top). */
  function FlipRow(cell: (nat, nat)): (nat, nat)
    requires cell.1 < 3
  {
    (cell.0, 2 - cell.1)
  }

  /** The texture cell of a face. */
  function UvCell(dir: Direction): (cell: (nat, nat))
    ensures cell.0 < 4 && cell.1 < 3
  {
    FlipRow(Atlas.AtlasCell(dir))
  }

  /** Cell (col, row) of the 4-by-3 grid, in the unit square. */
  function CellRect(cell: (nat, nat)): Rect
  {
    Rect(cell.0 as real / 4.0, (cell.0 + 1) as real / 4.0,
         cell.1 as real / 3.0, (cell.1 + 1) as real / 3.0)
  }

  function GroupRect(g: nat): Rect
    requires g < 6
  {
    CellRect(UvCell(GroupFace(g)))
  }

  /** The four corners of a rectangle in the table's order: right-top,
      left-top, left-bottom, right-bottom. */
  function RectCorner(r: Rect, c: nat): UV
    requires c < 4
  {
    if c == 0 then UV(r.right, r.top)
    else if c == 1 then UV(r.left, r.top)
    else if c == 2 then UV(r.left, r.bottom)
    else UV(r.right, r.bottom)
  }

  /** The rectangle moved in by du on the left and right and by dv at the
      bottom and top. */
  function Inset(r: Rect, du: real, dv: real): Rect
  {
    Rect(r.left + du, r.right - du, r.bottom + dv, r.top - dv)
  }

  /** The converter's literal table of texture coordinates. */
  function UvTable(): (t: seq<UV>)
    ensures |t| == 24
  {
    [ // W
      UV(2.0 / 4.0, 3.0 / 3.0), UV(1.0 / 4.0, 3.0 / 3.0), UV(1.0 / 4.0, 2.0 / 3.0), UV(2.0 / 4.0, 2.0 / 3.0),
      // S
      UV(1.0 / 4.0, 2.0 / 3.0), UV(0.0 / 4.0, 2.0 / 3.0), UV(0.0 / 4.0, 1.0 / 3.0), UV(1.0 / 4.0, 1.0 / 3.0),
      // B
      UV(2.0 / 4.0, 2.0 / 3.0), UV(1.0 / 4.0, 2.0 / 3.0), UV(1.0 / 4.0, 1.0 / 3.0), UV(2.0 / 4.0, 1.0 / 3.0),
      // N
      UV(3.0 / 4.0, 2.0 / 3.0), UV(2.0 / 4.0, 2.0 / 3.0), UV(2.0 / 4.0, 1.0 / 3.0), UV(3.0 / 4.0, 1.0 / 3.0),
      // U
      UV(4.0 / 4.0, 2.0 / 3.0), UV(3.0 / 4.0, 2.0 / 3.0), UV(3.0 / 4.0, 1.0 / 3.0), UV(4.0 / 4.0, 1.0 / 3.0),
      // E
      UV(2.0 / 4.0, 1.0 / 3.0), UV(1.0 / 4.0, 1.0 / 3.0), UV(1.0 / 4.0, 0.0 / 3.0), UV(2.0 / 4.0, 0.0 / 3.0)
    ]
  }

  /** Entry k of the table is corner k % 4 of the cell of face k / 4, so
      each group of four covers exactly its face's cell of the atlas. */
  lemma TableIsCellCorners()
    ensures forall k :: 0 <= k < 24 ==> UvTable()[k] == RectCorner(GroupRect(k / 4), k % 4)
  {
  }

  /** The step that leaves out one padding pixel: 1 / (4w) in u and
      1 / (3h) in v, for an atlas 4w wide and 3h high. */
  function PixelU(w: nat): real
    requires w > 0
  {
    1.0 / (4 * w) as real
  }

  function PixelV(h: nat): real
    requires h > 0
  {
    1.0 / (3 * h) as real
  }

  /** The four entries of group i are at 4i .. 4i + 3. */
  lemma GroupSlots(i: nat)
    ensures forall k :: i * 4 <= k < i * 4 + 4 ==> k / 4 == i && k % 4 == k - i * 4
  {
  }

  /** The inset loop: each corner moves towards the inside of its cell by
      one atlas pixel in u and in v. The result is the table of the inset
      cells' corners. */
  method InsetUvs(w: nat, h: nat) returns (uvs: seq<UV>)
    requires w > 0 && h > 0
    ensures |uvs| == 24
    ensures forall k :: 0 <= k < 24 ==>
              uvs[k] == RectCorner(Inset(GroupRect(k / 4), PixelU(w), PixelV(h)), k % 4)
  {
    uvs := UvTable();
    TableIsCellCorners();
    var du := PixelU(w);
    var dt := PixelV(h);
    for i := 0 to 6
      invariant |uvs| == 24
      invariant forall k :: 0 <= k < 4 * i ==>
                  uvs[k] == RectCorner(Inset(GroupRect(k / 4), du, dt), k % 4)
      invariant forall k :: 4 * i <= k < 24 ==> uvs[k] == RectCorner(GroupRect(k / 4), k % 4)
    {
      GroupSlots(i);
      uvs := uvs[i * 4 + 0 := UV(uvs[i * 4 + 0].u - du, uvs[i * 4 + 0].v - dt)];
      uvs := uvs[i * 4 + 1 := UV(uvs[i * 4 + 1].u + du, uvs[i * 4 + 1].v - dt)];
      uvs := uvs[i * 4 + 2 := UV(uvs[i * 4 + 2].u + du, uvs[i * 4 + 2].v + dt)];
      uvs := uvs[i * 4 + 3 := UV(uvs[i * 4 + 3].u - du, uvs[i * 4 + 3].v + dt)];
    }
  }

  // ---------------------------------------------------------------------
  // Properties of the texture layout.

  /** Whether two cells of the grid share a side. */
  predicate CellsTouch(a: (nat, nat), b: (nat, nat))
  {
    (a.1 == b.1 && (a.0 + 1 == b.0 || b.0 + 1 == a.0)) ||
    (a.0 == b.0 && (a.1 + 1 == b.1 || b.1 + 1 == a.1))
  }

  /** Quad j of the mesh is textured with group j of the table. Where two
      quads share a vertex and their cells share a side, the vertex gets the
      same texture coordinate in both, so the texture runs on across that
      cube edge. */
  lemma SharedCornersAgree(j: nat, i: nat, k: nat, l: nat)
    requires j < 6 && k < 6 && i < 4 && l < 4
    requires CellsTouch(UvCell(GroupFace(j)), UvCell(GroupFace(k)))
    requires Mesh.Quads()[j][i] == Mesh.Quads()[k][l]
    ensures UvTable()[4 * j + i] == UvTable()[4 * k + l]
  {
  }

  /** Across the seam where the middle row wraps around (Up's right side
      meets South's left side on the cube), a shared vertex gets u values
      one apart and the same v: the same point of the texture once u wraps. */
  /** (Group 4 is Up, group 1 is South.) */
  lemma WrapSeamAgrees(i: nat, l: nat)
    requires i < 4 && l < 4
    requires Mesh.Quads()[4][i] == Mesh.Quads()[1][l]
    ensures UvTable()[16 + i].u == UvTable()[4 + l].u + 1.0
    ensures UvTable()[16 + i].v == UvTable()[4 + l].v
  {
  }

  /** The inset rectangle over atlas cell `cell` of an atlas 4w by 3h. */
  function InsetOver(cell: (nat, nat), w: nat, h: nat): Rect
    requires cell.1 < 3 && w > 0 && h > 0
  {
    Inset(CellRect(FlipRow(cell)), PixelU(w), PixelV(h))
  }

  /** Scaled to the pixels of the atlas (u times its width 4w, and 1 - v
      times its height 3h, as rows grow downward), every inset cell starts
      one pixel inside its cell and ends one pixel before the cell's end. */
  lemma InsetOnPixelLines(cell: (nat, nat), w: nat, h: nat)
    requires cell.1 < 3 && w > 0 && h > 0
    ensures InsetOver(cell, w, h).left * (4 * w) as real == (cell.0 * w + 1) as real
    ensures InsetOver(cell, w, h).right * (4 * w) as real == ((cell.0 + 1) * w - 1) as real
    ensures (1.0 - InsetOver(cell, w, h).top) * (3 * h) as real == (cell.1 * h + 1) as real
    ensures (1.0 - InsetOver(cell, w, h).bottom) * (3 * h) as real == ((cell.1 + 1) * h - 1) as real
  {
    ScaleOffset(cell.0, 4, w, 1.0);
    ScaleOffset(cell.0 + 1, 4, w, -1.0);
    ScaleOffset(2 - cell.1 + 1, 3, h, -1.0);
    ScaleOffset(2 - cell.1, 3, h, 1.0);
  }

  /** c / n + s / (n w), scaled by n w, is c w + s. */
  lemma ScaleOffset(c: nat, n: nat, w: nat, s: real)
    requires n > 0 && w > 0
    ensures (c as real / n as real + s / (n * w) as real) * (n * w) as real == (c * w) as real + s
  {
  }

  /** Whether pixel x of band `band` (bands p pixels wide) lies wholly
      within [lo, hi]. */
  predicate PixelWithin(lo: real, hi: real, p: nat, band: nat, x: int)
  {
    lo <= (band * p + x) as real && (band * p + x + 1) as real <= hi
  }

  /** Whether pixel column x of atlas cell `cell`, in an atlas of padded
      faces of side p, lies wholly between the inset rectangle's left and
      right sides. */
  predicate InsetColumn(cell: (nat, nat), p: nat, x: int)
    requires cell.1 < 3 && p > 0
  {
    PixelWithin(InsetOver(cell, p, p).left * (4 * p) as real, InsetOver(cell, p, p).right * (4 * p) as real, p, cell.0, x)
  }

  /** The same for pixel row y, between the top and bottom sides. */
  predicate InsetRow(cell: (nat, nat), p: nat, y: int)
    requires cell.1 < 3 && p > 0
  {
    PixelWithin((1.0 - InsetOver(cell, p, p).top) * (3 * p) as real,
                (1.0 - InsetOver(cell, p, p).bottom) * (3 * p) as real, p, cell.1, y)
  }

  /** Within band `band` of width d + 2, the pixels between the band's
      first and last pixel lines but one are those at offsets 1 .. d. */
  lemma PixelWithinBand(lo: real, hi: real, band: nat, d: nat, x: int)
    requires lo == (band * (d + 2) + 1) as real && hi == ((band + 1) * (d + 2) - 1) as real
    ensures PixelWithin(lo, hi, d + 2, band, x) <==> 1 <= x <= d
  {
    var base := band * (d + 2);
    assert (band + 1) * (d + 2) == base + d + 2;
  }

  /** With padded faces of side p = d + 2, a pixel of a face's cell lies
      wholly inside the inset rectangle exactly when it is one of the d-by-d
      pixels where the face itself was pasted, so the mesh shows every pixel
      of the face and none of the padding. */
  lemma InsetShowsExactlyTheFace(cell: (nat, nat), d: nat, x: int, y: int)
    requires cell.1 < 3
    ensures InsetColumn(cell, d + 2, x) && InsetRow(cell, d + 2, y) <==> EdgeGeometry.Interior(d, x, y)
  {
    InsetColumnsOfFace(cell, d, x);
    InsetRowsOfFace(cell, d, y);
  }

  lemma InsetColumnsOfFace(cell: (nat, nat), d: nat, x: int)
    requires cell.1 < 3
    ensures InsetColumn(cell, d + 2, x) <==> 1 <= x <= d
  {
    var p := d + 2;
    InsetOnPixelLines(cell, p, p);
    PixelWithinBand(InsetOver(cell, p, p).left * (4 * p) as real, InsetOver(cell, p, p).right * (4 * p) as real,
                    cell.0, d, x);
  }

  lemma InsetRowsOfFace(cell: (nat, nat), d: nat, y: int)
    requires cell.1 < 3
    ensures InsetRow(cell, d + 2, y) <==> 1 <= y <= d
  {
    var p := d + 2;
    InsetOnPixelLines(cell, p, p);
    PixelWithinBand((1.0 - InsetOver(cell, p, p).top) * (3 * p) as real,
                    (1.0 - InsetOver(cell, p, p).bottom) * (3 * p) as real, cell.1, d, y);
  }

  /** The inset rectangle stays strictly inside its cell, which lies in the
      unit square, and it keeps a positive width (height) exactly when the
      atlas cell is more than two pixels wide (high), i.e. when the face has
      at least one pixel. */
  lemma InsetNonEmpty(cell: (nat, nat), w: nat, h: nat)
    requires cell.0 < 4 && cell.1 < 3 && w > 0 && h > 0
    ensures var c := CellRect(FlipRow(cell));
            var r := InsetOver(cell, w, h);
            c.left < r.left && r.right < c.right && c.bottom < r.bottom && r.top < c.top
    ensures var c := CellRect(FlipRow(cell));
            0.0 <= c.left && c.right <= 1.0 && 0.0 <= c.bottom && c.top <= 1.0
    ensures var r := InsetOver(cell, w, h);
            (r.left < r.right <==> w > 2) && (r.bottom < r.top <==> h > 2)
  {
    InsetOnPixelLines(cell, w, h);
    var r := InsetOver(cell, w, h);
    ScaledLess(r.left, r.right, (4 * w) as real);
    ScaledLess(1.0 - r.top, 1.0 - r.bottom, (3 * h) as real);
  }

  /** Comparing two values is comparing them scaled by a positive factor. */
  lemma ScaledLess(a: real, b: real, f: real)
    requires f > 0.0
    ensures a < b <==> a * f < b * f
  {
  }

  /** The signed area of the triangle a, b, c: positive when the turn
      a -> b -> c is counter-clockwise. */
  function Turn(a: UV, b: UV, c: UV): real
  {
    (b.u - a.u) * (c.v - b.v) - (b.v - a.v) * (c.u - b.u)
  }

  /** The corner order right-top, left-top, left-bottom, right-bottom runs
      counter-clockwise around any rectangle of positive size. */
  lemma CornersCounterClockwise(r: Rect, c: nat)
    requires c < 4
    requires r.left < r.right && r.bottom < r.top
    ensures Turn(RectCorner(r, c), RectCorner(r, (c + 1) % 4), RectCorner(r, (c + 2) % 4)) > 0.0
  {
    var (a, b) := (r.right - r.left, r.top - r.bottom);
    assert a * b > 0.0;
  }

  /** Every group of the inset table runs counter-clockwise, as the quads
      do seen from inside the cube, for every face of at least one pixel. */
  lemma InsetTableCounterClockwise(w: nat, h: nat, g: nat, c: nat)
    requires w > 2 && h > 2 && g < 6 && c < 4
    ensures var r := Inset(GroupRect(g), PixelU(w), PixelV(h));
            Turn(RectCorner(r, c), RectCorner(r, (c + 1) % 4), RectCorner(r, (c + 2) % 4)) > 0.0
  {
    InsetNonEmpty(Atlas.AtlasCell(GroupFace(g)), w, h);
    CornersCounterClockwise(Inset(GroupRect(g), PixelU(w), PixelV(h)), c);
  }
}
