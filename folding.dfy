/** How the padded borders fold onto the cube. Corner c of a face's texture
    cell, in the order right-top, left-top, left-bottom, right-bottom, is
    drawn at vertex c of that face's quad, so every edge of a face image runs
    between two mesh vertices. A `copy_edge` call is right when its source
    edge lies on the same cube edge as its destination edge and the walk
    starts from the cube corner where the destination edge starts. */
module Folding {
  import opened Directions
  import opened EdgeGeometry
  import opened Adjacency
  import opened Padding
  import Mesh
  import Texture

  /** The group of the texture table, and the quad of the mesh, that show
      face `dir`. */
  function GroupOf(dir: Direction): (g: nat)
    ensures g < 6 && Texture.GroupFace(g) == dir
  {
    match dir
    case West => 0
    case South => 1
    case Down => 2
    case North => 3
    case Up => 4
    case East => 5
  }

  /** The cell corners (as numbered by `Texture.RectCorner`) at the first and
      at the last step along edge `e`. Steps run down a column (the image's
      y grows downward, texture v upward) and rightward along a row. */
  function EndCorners(e: Edge): (ends: (nat, nat))
    ensures ends.0 < 4 && ends.1 < 4 && ends.0 != ends.1
  {
    match e
    case Left => (1, 2)
    case Right => (0, 3)
    case Top => (1, 0)
    case Bottom => (2, 3)
  }

  /** The two end corners lie on the side of the cell that `e` names, the
      first one where the steps of `copy_edge` start. */
  lemma EndCornersOnEdge(r: Texture.Rect, e: Edge)
    requires r.left < r.right && r.bottom < r.top
    ensures var a := Texture.RectCorner(r, EndCorners(e).0);
            var b := Texture.RectCorner(r, EndCorners(e).1);
            match e
            case Left => a.u == b.u == r.left && a.v == r.top && b.v == r.bottom
            case Right => a.u == b.u == r.right && a.v == r.top && b.v == r.bottom
            case Top => a.v == b.v == r.top && a.u == r.left && b.u == r.right
            case Bottom => a.v == b.v == r.bottom && a.u == r.left && b.u == r.right
  {
  }

  /** The mesh vertices at the first and last step along edge `e` of face
      `dir`, as `EdgeEndsAreQuadCorners` reads them off the quads. */
  function EdgeEnds(dir: Direction, e: Edge): (ends: (nat, nat))
    ensures 1 <= ends.0 <= 8 && 1 <= ends.1 <= 8 && ends.0 != ends.1
  {
    match dir
    case West => (match e case Left => (5, 7) case Right => (6, 8) case Top => (5, 6) case Bottom => (7, 8))
    case South => (match e case Left => (5, 1) case Right => (7, 3) case Top => (5, 7) case Bottom => (1, 3))
    case Down => (match e case Left => (7, 3) case Right => (8, 4) case Top => (7, 8) case Bottom => (3, 4))
    case North => (match e case Left => (8, 4) case Right => (6, 2) case Top => (8, 6) case Bottom => (4, 2))
    case Up => (match e case Left => (6, 2) case Right => (5, 1) case Top => (6, 5) case Bottom => (2, 1))
    case East => (match e case Left => (3, 1) case Right => (4, 2) case Top => (3, 4) case Bottom => (1, 2))
  }

  /** The ends are the quad's vertices at the edge's end corners. */
  lemma EdgeEndsAreQuadCorners(dir: Direction, e: Edge)
    ensures var q := Mesh.Quads()[GroupOf(dir)];
            EdgeEnds(dir, e) == (q[EndCorners(e).0], q[EndCorners(e).1])
  {
  }

  /** Whether two face edges lie on the same cube edge, in either direction. */
  predicate SameCubeEdge(a: (nat, nat), b: (nat, nat))
  {
    a == b || a == (b.1, b.0)
  }

  /** Whether a call follows the cube: its source edge has the same two ends
      as its destination edge, in the same order for a forward walk and in
      the opposite order for a reverse one. */
  predicate FoldsOntoMesh(c: EdgeCall)
  {
    var a := EdgeEnds(c.dest, c.destEdge);
    var b := EdgeEnds(c.src, c.srcEdge);
    match c.traversal
    case Forward => a == b
    case Reverse => a == (b.1, b.0)
  }

  /** The table as the converter writes it follows the cube everywhere but at
      positions 3 and 19: East's bottom edge and Up's bottom edge. */
  lemma WrittenCallsFoldExceptEastUp()
    ensures forall k :: 0 <= k < 24 ==> (FoldsOntoMesh(Calls()[k]) <==> k != 3 && k != 19)
  {
  }

  /** The input that shows it: East's bottom edge runs from RUB (vertex 1)
      to RUF (vertex 2) and Up's bottom edge from RUF to RUB, yet both calls
      walk forward, so the border pixel next to RUB is read from the end of
      the neighbouring edge next to RUF. */
  lemma EastUpSeamIsReversed()
    ensures EdgeEnds(East, Bottom) == (1, 2) && EdgeEnds(Up, Bottom) == (2, 1)
    ensures Calls()[3] == EdgeCall(East, Bottom, Up, Bottom, Forward)
    ensures Calls()[19] == EdgeCall(Up, Bottom, East, Bottom, Forward)
  {
  }

  /** Every call of the corrected table follows the cube. */
  lemma FixedCallsFoldOntoMesh()
    ensures forall k :: 0 <= k < 24 ==> FoldsOntoMesh(FixedCalls()[k])
  {
  }

  /** The face a call reads from lies across the same cube edge. */
  lemma CallSourceSharesCubeEdge(dir: Direction, e: Edge)
    ensures FoldsOntoMesh(FixedCalls()[CallIndex(dir, e)]) && FixedCalls()[CallIndex(dir, e)].src != dir
    ensures SameCubeEdge(EdgeEnds(dir, e), EdgeEnds(FixedCalls()[CallIndex(dir, e)].src, FixedCalls()[CallIndex(dir, e)].srcEdge))
  {
    var k := CallIndex(dir, e);
    FixedCallsFoldOntoMesh();
    assert FoldsOntoMesh(FixedCalls()[k]);
    NeighboursAreTheFourAdjacentFaces(FixedCalls(), dir);
    assert CallFor(FixedCalls(), dir, e) == FixedCalls()[k];
  }

  /** No other face has an edge on that cube edge: the edge of another face
      that shares the cube edge of edge e of dir is the one the table reads. */
  lemma CubeEdgeHasTwoFaces(dir: Direction, e: Edge, n: Direction, f: Edge)
    requires n != dir && SameCubeEdge(EdgeEnds(dir, e), EdgeEnds(n, f))
    ensures n == FixedCalls()[CallIndex(dir, e)].src && f == FixedCalls()[CallIndex(dir, e)].srcEdge
  {
    match e
    case Left => LeftEdgeHasTwoFaces(dir, n, f);
    case Right => RightEdgeHasTwoFaces(dir, n, f);
    case Top => TopEdgeHasTwoFaces(dir, n, f);
    case Bottom => BottomEdgeHasTwoFaces(dir, n, f);
  }

  // The four cases of `CubeEdgeHasTwoFaces`, one per destination edge.

  lemma LeftEdgeHasTwoFaces(dir: Direction, n: Direction, f: Edge)
    requires n != dir && SameCubeEdge(EdgeEnds(dir, Left), EdgeEnds(n, f))
    ensures n == FixedCalls()[CallIndex(dir, Left)].src && f == FixedCalls()[CallIndex(dir, Left)].srcEdge
  {
  }

  lemma RightEdgeHasTwoFaces(dir: Direction, n: Direction, f: Edge)
    requires n != dir && SameCubeEdge(EdgeEnds(dir, Right), EdgeEnds(n, f))
    ensures n == FixedCalls()[CallIndex(dir, Right)].src && f == FixedCalls()[CallIndex(dir, Right)].srcEdge
  {
  }

  lemma TopEdgeHasTwoFaces(dir: Direction, n: Direction, f: Edge)
    requires n != dir && SameCubeEdge(EdgeEnds(dir, Top), EdgeEnds(n, f))
    ensures n == FixedCalls()[CallIndex(dir, Top)].src && f == FixedCalls()[CallIndex(dir, Top)].srcEdge
  {
  }

  lemma BottomEdgeHasTwoFaces(dir: Direction, n: Direction, f: Edge)
    requires n != dir && SameCubeEdge(EdgeEnds(dir, Bottom), EdgeEnds(n, f))
    ensures n == FixedCalls()[CallIndex(dir, Bottom)].src && f == FixedCalls()[CallIndex(dir, Bottom)].srcEdge
  {
  }

  /** End to end: once the faces are padded with the corrected table, the
      border pixel at step i of
      edge e of face dir is the pixel of the face across that cube edge at
      the same distance from the same cube corner. */
  lemma BorderRepeatsCubeNeighbour<T>(faces: seq<array2<T>>, d: nat, blank: T,
                                      dir: Direction, e: Edge, n: Direction, f: Edge, i: nat)
    requires FacesOfSide(faces, d) && i < d
    requires n != dir && SameCubeEdge(EdgeEnds(dir, e), EdgeEnds(n, f))
    ensures var j := if EdgeEnds(n, f) == EdgeEnds(dir, e) then i else d - 1 - i;
            var q := EdgePixel(f, d, j);
            var b := BorderPixel(e, d, i + 1);
            0 <= b.0 < d + 2 && 0 <= b.1 < d + 2 && 0 <= q.0 < d && 0 <= q.1 < d && LaidOut(FixedCalls()) &&
            PaddedPixel(faces, d, FixedCalls(), dir, blank, b.0, b.1) == faces[n.Index()][q.0, q.1]
  {
    TablesLaidOut();
    CubeEdgeHasTwoFaces(dir, e, n, f);
    CallSourceSharesCubeEdge(dir, e);
    BorderPixelReadsSource(faces, d, FixedCalls(), dir, blank, e, i);
  }

  /** The converter's own padding, pixel by pixel, along East's bottom edge:
      the border pixel at step i is Up's bottom-edge pixel at step i, where
      the cube puts Up's pixel at step d - 1 - i (the corrected table's
      value, and what `BorderRepeatsCubeNeighbour` gives). For d >= 2 the
      two differ at i = 0: the pixel beside the corner Right-Up-Back comes
      from the far end of Up's edge, beside Right-Up-Front. */
  lemma WrittenPaddingMirrorsEastUpSeam<T>(faces: seq<array2<T>>, d: nat, blank: T, i: nat)
    requires FacesOfSide(faces, d) && i < d
    ensures LaidOut(Calls()) && LaidOut(FixedCalls())
    ensures PaddedPixel(faces, d, Calls(), East, blank, i + 1, d + 1) == faces[Up.Index()][i, d - 1]
    ensures PaddedPixel(faces, d, FixedCalls(), East, blank, i + 1, d + 1) == faces[Up.Index()][d - 1 - i, d - 1]
  {
    EastBottomCalls();
    EastBottomBorder(faces, d, Calls(), blank, Forward, i);
    EastBottomBorder(faces, d, FixedCalls(), blank, Reverse, i);
  }

  /** The call that fills East's bottom edge, in each table. */
  lemma EastBottomCalls()
    ensures LaidOut(Calls()) && LaidOut(FixedCalls())
    ensures CallFor(Calls(), East, Bottom) == EdgeCall(East, Bottom, Up, Bottom, Forward)
    ensures CallFor(FixedCalls(), East, Bottom) == EdgeCall(East, Bottom, Up, Bottom, Reverse)
  {
    TablesLaidOut();
    EastUpSeamIsReversed();
    FixedCallsDifferOnlyInTwoTraversals();
  }

  /** With any laid-out table whose East-bottom call reads Up's bottom edge
      with traversal t, East's bottom border pixel at step i is Up's
      bottom-edge pixel at the read position of step i. */
  lemma EastBottomBorder<T>(faces: seq<array2<T>>, d: nat, table: seq<EdgeCall>, blank: T, t: Traversal, i: nat)
    requires FacesOfSide(faces, d) && LaidOut(table) && i < d
    requires CallFor(table, East, Bottom) == EdgeCall(East, Bottom, Up, Bottom, t)
    ensures PaddedPixel(faces, d, table, East, blank, i + 1, d + 1) == faces[Up.Index()][ReadPosition(t, d, i), d - 1]
  {
    BorderPixelReadsSource(faces, d, table, East, blank, Bottom, i);
  }
}
