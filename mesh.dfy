/** The cube mesh: eight corner vertices, six quads over them, and the face
    records that pair each quad corner with a texture coordinate. Indices are
    1-based, as in the mesh file. */
module Mesh {

  datatype Vertex = Vertex(x: int, y: int, z: int)

  /** Coordinate `axis` (0 = x, 1 = y, 2 = z) of a vertex. */
  function Coord(v: Vertex, axis: nat): int
    requires axis < 3
  {
    if axis == 0 then v.x else if axis == 1 then v.y else v.z
  }

  /** The corner table of the converter's comment, by index 1..8:
      RUB, RUF, RDB, RDF, LUB, LUF, LDB, LDF (right/left is x = +-1,
      up/down is y = +-1, back/front is z = +-1). */
  function CornerTable(): (vs: seq<Vertex>)
    ensures |vs| == 8
  {
    [ Vertex(1, 1, 1), Vertex(1, 1, -1), Vertex(1, -1, 1), Vertex(1, -1, -1),
      Vertex(-1, 1, 1), Vertex(-1, 1, -1), Vertex(-1, -1, 1), Vertex(-1, -1, -1) ]
  }

  /** The vertex with 1-based index n. */
  function VertexAt(n: nat): Vertex
    requires 1 <= n <= 8
  {
    CornerTable()[n - 1]
  }

  /** The sign walked by each of the three nested loops: first 1, then -1. */
  function Sign(k: nat): int
    requires k < 2
  {
    [1, -1][k]
  }

  lemma CornerOfLoop(a: nat, b: nat, c: nat)
    requires a < 2 && b < 2 && c < 2
    ensures CornerTable()[4 * a + 2 * b + c] == Vertex(Sign(a), Sign(b), Sign(c))
  {
  }

  /** The vertex loop: x, then y, then z, each over [1, -1]; vertex k of the
      output is the k-th row of the corner table. */
  method EmitVertices() returns (vs: seq<Vertex>)
    ensures vs == CornerTable()
  {
    var signs := [1, -1];
    vs := [];
    for a := 0 to 2
      invariant vs == CornerTable()[..4 * a]
    {
      for b := 0 to 2
        invariant vs == CornerTable()[..4 * a + 2 * b]
      {
        for c := 0 to 2
          invariant vs == CornerTable()[..4 * a + 2 * b + c]
        {
          CornerOfLoop(a, b, c);
          vs := vs + [Vertex(signs[a], signs[b], signs[c])];
          assert CornerTable()[..4 * a + 2 * b + c + 1]
                 == CornerTable()[..4 * a + 2 * b + c] + [CornerTable()[4 * a + 2 * b + c]];
        }
      }
    }
  }

  /** The eight vertices are the eight corners of the cube [-1, 1]^3, each
      once. */
  lemma CornersAreTheCube()
    ensures forall n :: 1 <= n <= 8 ==>
              VertexAt(n).x in {1, -1} && VertexAt(n).y in {1, -1} && VertexAt(n).z in {1, -1}
    ensures forall n, m :: 1 <= n < m <= 8 ==> VertexAt(n) != VertexAt(m)
    ensures forall x, y, z :: x in {1, -1} && y in {1, -1} && z in {1, -1} ==>
              Vertex(x, y, z) in CornerTable()
  {
  }

  /** The six quads, as vertex indices in winding order. */
  function Quads(): (qs: seq<seq<nat>>)
    ensures |qs| == 6 && forall j :: 0 <= j < 6 ==> |qs[j]| == 4
  {
    [ [6, 5, 7, 8],
      [7, 5, 1, 3],
      [8, 7, 3, 4],
      [6, 8, 4, 2],
      [5, 6, 2, 1],
      [4, 3, 1, 2] ]
  }

  /** Every quad names four distinct vertices, all within 1..8. */
  lemma QuadsWellFormed()
    ensures forall j, i :: 0 <= j < 6 && 0 <= i < 4 ==> 1 <= Quads()[j][i] <= 8
    ensures forall j, i, k :: 0 <= j < 6 && 0 <= i < k < 4 ==> Quads()[j][i] != Quads()[j][k]
  {
  }

  /** The plane of each quad: coordinate `axis` fixed at `sign`. */
  function QuadPlane(j: nat): (plane: (nat, int))
    requires j < 6
    ensures plane.0 < 3 && plane.1 in {1, -1}
  {
    [(0, -1), (2, 1), (1, -1), (2, -1), (1, 1), (0, 1)][j]
  }

  /** Each quad lies in its plane, and the six planes are the six faces of
      the cube, each once. */
  lemma QuadsArePlanar(j: nat, i: nat)
    requires j < 6 && i < 4
    ensures 1 <= Quads()[j][i] <= 8
    ensures Coord(VertexAt(Quads()[j][i]), QuadPlane(j).0) == QuadPlane(j).1
  {
  }

  lemma PlanesDistinct()
    ensures forall j, k :: 0 <= j < k < 6 ==> QuadPlane(j) != QuadPlane(k)
  {
  }

  /** Whether two vertices differ in exactly one coordinate, i.e. are the
      two ends of a cube edge. */
  predicate CubeEdge(v: Vertex, w: Vertex)
  {
    (if v.x != w.x then 1 else 0) + (if v.y != w.y then 1 else 0) + (if v.z != w.z then 1 else 0) == 1
  }

  /** Consecutive corners of a quad (cyclically) are joined by a cube edge,
      so each quad runs around its face and never across a diagonal. */
  lemma QuadSidesAreCubeEdges(j: nat, i: nat)
    requires j < 6 && i < 4
    ensures 1 <= Quads()[j][i] <= 8 && 1 <= Quads()[j][(i + 1) % 4] <= 8
    ensures CubeEdge(VertexAt(Quads()[j][i]), VertexAt(Quads()[j][(i + 1) % 4]))
  {
  }

  /** The number of lists, among the first k of qs, that contain n. */
  function CountContaining(qs: seq<seq<nat>>, n: nat, k: nat): nat
    requires k <= |qs|
  {
    if k == 0 then 0
    else CountContaining(qs, n, k - 1) + (if n in qs[k - 1] then 1 else 0)
  }

  /** The running count is the size of the set of positions, among the
      first k, whose list contains n. */
  lemma {:induction false} CountContainingIsSetSize(qs: seq<seq<nat>>, n: nat, k: nat)
    requires k <= |qs|
    ensures CountContaining(qs, n, k) == |set j | 0 <= j < k && n in qs[j]|
  {
    if k > 0 {
      CountContainingIsSetSize(qs, n, k - 1);
      var before := set j | 0 <= j < k - 1 && n in qs[j];
      var now := set j | 0 <= j < k && n in qs[j];
      if n in qs[k - 1] {
        assert now == before + {k - 1};
        assert k - 1 !in before;
      } else {
        assert now == before;
      }
    }
  }

  /** Every vertex is a corner of exactly three quads, as every cube corner
      meets three faces. */
  lemma EachVertexInThreeQuads(n: nat)
    requires 1 <= n <= 8
    ensures |set j | 0 <= j < 6 && n in Quads()[j]| == 3
  {
    if n <= 4 {
      RightCornersInThreeQuads(n);
    } else {
      LeftCornersInThreeQuads(n);
    }
    CountContainingIsSetSize(Quads(), n, 6);
  }

  /** The count for the corners on the right (x = 1), vertices 1 to 4. */
  lemma RightCornersInThreeQuads(n: nat)
    requires 1 <= n <= 4
    ensures CountContaining(Quads(), n, 6) == 3
  {
  }

  /** The count for the corners on the left (x = -1), vertices 5 to 8. */
  lemma LeftCornersInThreeQuads(n: nat)
    requires 5 <= n <= 8
    ensures CountContaining(Quads(), n, 6) == 3
  {
  }

  /** The cross product of (b - a) and (c - b). */
  function TurnNormal(a: Vertex, b: Vertex, c: Vertex): Vertex
  {
    var (ux, uy, uz) := (b.x - a.x, b.y - a.y, b.z - a.z);
    var (vx, vy, vz) := (c.x - b.x, c.y - b.y, c.z - b.z);
    Vertex(uy * vz - uz * vy, uz * vx - ux * vz, ux * vy - uy * vx)
  }

  function Dot(a: Vertex, b: Vertex): int
  {
    a.x * b.x + a.y * b.y + a.z * b.z
  }

  /** The determinant of the matrix with rows p, q, r. */
  function Det(p: Vertex, q: Vertex, r: Vertex): int
  {
    p.x * (q.y * r.z - q.z * r.y) - p.y * (q.x * r.z - q.z * r.x) + p.z * (q.x * r.y - q.y * r.x)
  }

  /** The turn normal measured against the first corner is the determinant
      of the three corners. */
  lemma TurnNormalAgainstCorner(a: Vertex, b: Vertex, c: Vertex)
    ensures Dot(TurnNormal(a, b, c), a) == Det(a, b, c)
  {
  }

  /** Whether the turn a -> b -> c (vertex indices) has its normal pointing
      towards the centre of the cube: the normal (b - a) x (c - b) has a
      negative component along the corner a, which is the outward
      direction at a. By `TurnNormalAgainstCorner` that component is the
      determinant of the three corners. */
  predicate InwardTurn(a: nat, b: nat, c: nat)
    requires 1 <= a <= 8 && 1 <= b <= 8 && 1 <= c <= 8
  {
    Det(VertexAt(a), VertexAt(b), VertexAt(c)) < 0
  }

  /** All six quads are wound the same way: at every corner the turn's
      normal points towards the centre of the cube, so each quad is
      counter-clockwise, hence front-facing, seen from inside the cube. */
  lemma QuadsFaceInward(j: nat, i: nat)
    requires j < 6 && i < 4
    ensures var q := Quads()[j];
            1 <= q[i] <= 8 && 1 <= q[(i + 1) % 4] <= 8 && 1 <= q[(i + 2) % 4] <= 8
    ensures var q := Quads()[j];
            InwardTurn(q[i], q[(i + 1) % 4], q[(i + 2) % 4])
  {
    TurnsOfEachQuad();
    if j < 3 {
      FirstQuadsFaceInward(j, i);
    } else {
      LastQuadsFaceInward(j, i);
    }
  }

  /** The winding of quads 0 to 2 (W, S, B). */
  lemma FirstQuadsFaceInward(j: nat, i: nat)
    requires j < 3 && i < 4
    requires InwardTurn(6, 5, 7) && InwardTurn(5, 7, 8) && InwardTurn(7, 8, 6) && InwardTurn(8, 6, 5)
    requires InwardTurn(7, 5, 1) && InwardTurn(5, 1, 3) && InwardTurn(1, 3, 7) && InwardTurn(3, 7, 5)
    requires InwardTurn(8, 7, 3) && InwardTurn(7, 3, 4) && InwardTurn(3, 4, 8) && InwardTurn(4, 8, 7)
    ensures var q := Quads()[j];
            1 <= q[i] <= 8 && 1 <= q[(i + 1) % 4] <= 8 && 1 <= q[(i + 2) % 4] <= 8 &&
            InwardTurn(q[i], q[(i + 1) % 4], q[(i + 2) % 4])
  {
  }

  /** The winding of quads 3 to 5 (N, U, E). */
  lemma LastQuadsFaceInward(j: nat, i: nat)
    requires 3 <= j < 6 && i < 4
    requires InwardTurn(6, 8, 4) && InwardTurn(8, 4, 2) && InwardTurn(4, 2, 6) && InwardTurn(2, 6, 8)
    requires InwardTurn(5, 6, 2) && InwardTurn(6, 2, 1) && InwardTurn(2, 1, 5) && InwardTurn(1, 5, 6)
    requires InwardTurn(4, 3, 1) && InwardTurn(3, 1, 2) && InwardTurn(1, 2, 4) && InwardTurn(2, 4, 3)
    ensures var q := Quads()[j];
            1 <= q[i] <= 8 && 1 <= q[(i + 1) % 4] <= 8 && 1 <= q[(i + 2) % 4] <= 8 &&
            InwardTurn(q[i], q[(i + 1) % 4], q[(i + 2) % 4])
  {
  }

  /** The four turns of each quad, corner by corner. */
  lemma TurnsOfEachQuad()
    ensures InwardTurn(6, 5, 7) && InwardTurn(5, 7, 8) && InwardTurn(7, 8, 6) && InwardTurn(8, 6, 5)
    ensures InwardTurn(7, 5, 1) && InwardTurn(5, 1, 3) && InwardTurn(1, 3, 7) && InwardTurn(3, 7, 5)
    ensures InwardTurn(8, 7, 3) && InwardTurn(7, 3, 4) && InwardTurn(3, 4, 8) && InwardTurn(4, 8, 7)
    ensures InwardTurn(6, 8, 4) && InwardTurn(8, 4, 2) && InwardTurn(4, 2, 6) && InwardTurn(2, 6, 8)
    ensures InwardTurn(5, 6, 2) && InwardTurn(6, 2, 1) && InwardTurn(2, 1, 5) && InwardTurn(1, 5, 6)
    ensures InwardTurn(4, 3, 1) && InwardTurn(3, 1, 2) && InwardTurn(1, 2, 4) && InwardTurn(2, 4, 3)
  {
  }

  /** One corner of a face record: a vertex index and a texture-coordinate
      index, written `v/vt` in the mesh file. */
  datatype Corner = Corner(vertex: nat, uv: nat)

  /** The quad, and the corner within it, that texture coordinate n
      (1-based) is laid out for: the coordinates come in groups of four. */
  function UvQuad(n: nat): nat
    requires n >= 1
  {
    (n - 1) / 4
  }

  function UvCorner(n: nat): nat
    requires n >= 1
  {
    (n - 1) % 4
  }

  /** The face-record loop: quad j, corner i is paired with texture
      coordinate 1 + 4j + i. Every corner gets its own texture coordinate:
      coordinate n (1..24) is used by exactly one corner, corner (n - 1) % 4
      of quad (n - 1) / 4. */
  method EmitFaceRecords() returns (records: seq<seq<Corner>>)
    ensures |records| == 6 && forall j :: 0 <= j < 6 ==> |records[j]| == 4
    ensures forall j, i :: 0 <= j < 6 && 0 <= i < 4 ==> records[j][i].vertex == Quads()[j][i]
    ensures forall j, i :: 0 <= j < 6 && 0 <= i < 4 ==>
              1 <= records[j][i].uv <= 24 &&
              UvQuad(records[j][i].uv) == j && UvCorner(records[j][i].uv) == i
    ensures forall n :: 1 <= n <= 24 ==> records[UvQuad(n)][UvCorner(n)].uv == n
  {
    records := [];
    var j := 0;
    for q := 0 to 6
      invariant j == q == |records|
      invariant forall k :: 0 <= k < j ==> |records[k]| == 4
      invariant forall k, i :: 0 <= k < j && 0 <= i < 4 ==>
                  records[k][i] == Corner(Quads()[k][i], 1 + k * 4 + i)
    {
      var face := Quads()[q];
      var line := [];
      for i := 0 to 4
        invariant |line| == i
        invariant forall m :: 0 <= m < i ==> line[m] == Corner(face[m], 1 + j * 4 + m)
      {
        line := line + [Corner(face[i], 1 + j * 4 + i)];
      }
      records := records + [line];
      j := j + 1;
    }
  }
}
