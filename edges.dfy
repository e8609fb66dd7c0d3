/** The index arithmetic of `copy_edge`: which pixel of a padded buffer is
    written at step i, and which pixel of the source face is read.

    A face is d by d; its padded copy is (d + 2) by (d + 2) with the face at
    offset (1, 1), so the padded copy's outermost rows and columns are the
    border lines that `copy_edge` fills. */
module EdgeGeometry {
  import opened Directions

  /** The Option type of the border classification below. */
  datatype Option<T> = None | Some(value: T)

  // ---------------------------------------------------------------------
  // Reference geometry: where the edges are, stated directly.

  /** The pixel at position k along edge `e` of the padded buffer's border:
      a column (x = 0 or x = d + 1) for the vertical edges, a row (y = 0 or
      y = d + 1) for the horizontal ones. */
  function BorderPixel(e: Edge, d: nat, k: int): (int, int)
  {
    match e
    case Left => (0, k)
    case Right => (d + 1, k)
    case Top => (k, 0)
    case Bottom => (k, d + 1)
  }

  /** The pixel at position k along edge `e` of a d-by-d face. */
  function EdgePixel(e: Edge, d: nat, k: int): (int, int)
  {
    match e
    case Left => (0, k)
    case Right => (d - 1, k)
    case Top => (k, 0)
    case Bottom => (k, d - 1)
  }

  /** Whether (x, y) is one of the d pixels that `copy_edge` writes for edge
      `e`: the border line of `e` without its two corners. */
  predicate OnBorder(e: Edge, d: nat, x: int, y: int)
  {
    match e
    case Left => x == 0 && 1 <= y <= d
    case Right => x == d + 1 && 1 <= y <= d
    case Top => y == 0 && 1 <= x <= d
    case Bottom => y == d + 1 && 1 <= x <= d
  }

  /** The step of the `copy_edge` loop that writes border pixel (x, y). */
  function Step(e: Edge, x: int, y: int): int
  {
    if e.IsVertical() then y - 1 else x - 1
  }

  /** The position read at step i: i when walking forward, d - 1 - i when
      walking in reverse. */
  function ReadPosition(t: Traversal, d: nat, i: int): int
  {
    match t
    case Forward => i
    case Reverse => d - 1 - i
  }

  // ---------------------------------------------------------------------
  // The converter's encoding: (orientation flag, fixed coordinate) pairs
  // combined with the traversal flag arithmetically.

  /** For a destination edge, the pair (de, dx): de = 0 when the edge is a
      column at x = dx, de = 1 when it is a row at y = dx. */
  function DestLine(e: Edge, d: nat): (nat, nat)
  {
    match e
    case Left => (0, 0)
    case Right => (0, d + 1)
    case Top => (1, 0)
    case Bottom => (1, d + 1)
  }

  /** For a source edge, the pair (se, sx), as `DestLine` but on the
      unpadded face. */
  function SrcLine(e: Edge, d: nat): (nat, int)
  {
    match e
    case Left => (0, 0)
    case Right => (0, d - 1)
    case Top => (1, 0)
    case Bottom => (1, d - 1)
  }

  /** The pixel of the padded buffer written at step i. */
  function DestPixel(e: Edge, d: nat, i: nat): (p: (int, int))
    requires i < d
    ensures p == BorderPixel(e, d, i + 1)
    ensures 0 <= p.0 < d + 2 && 0 <= p.1 < d + 2
    ensures OnBorder(e, d, p.0, p.1) && Step(e, p.0, p.1) == i
  {
    var (de, dx) := DestLine(e, d);
    ((1 - de) * dx + de * (1 + i), de * dx + (1 - de) * (1 + i))
  }

  /** The pixel of the source face read at step i. */
  function SrcPixel(e: Edge, d: nat, t: Traversal, i: nat): (p: (int, int))
    requires i < d
    ensures p == EdgePixel(e, d, ReadPosition(t, d, i))
    ensures 0 <= p.0 < d && 0 <= p.1 < d
  {
    var (se, sx) := SrcLine(e, d);
    var flag := t.Flag();
    var along := flag * (d - 1 - i) + (1 - flag) * i;
    Select(flag, d - 1 - i, i);
    Select(se, along, sx);
    Select(se, sx, along);
    ((1 - se) * sx + se * along, se * sx + (1 - se) * along)
  }

  /** A 0/1 flag f picks a when set and b when clear in f * a + (1 - f) * b. */
  lemma Select(f: int, a: int, b: int)
    requires f == 0 || f == 1
    ensures f * a + (1 - f) * b == if f == 1 then a else b
  {
  }

  // ---------------------------------------------------------------------
  // Properties of the border lines.

  /** The d pixels written for an edge are exactly its border line without
      the corners, one per step: step i writes the pixel whose step is i. */
  lemma DestPixelOnto(e: Edge, d: nat, x: int, y: int)
    requires OnBorder(e, d, x, y)
    ensures 0 <= Step(e, x, y) < d
    ensures DestPixel(e, d, Step(e, x, y)) == (x, y)
  {
  }

  /** Two steps never write the same pixel. */
  lemma DestPixelInjective(e: Edge, d: nat, i: nat, j: nat)
    requires i < d && j < d && i != j
    ensures DestPixel(e, d, i) != DestPixel(e, d, j)
  {
  }

  /** Distinct edges have disjoint border lines, so the order in which the
      four edges of a face are filled does not matter. */
  lemma BordersDisjoint(e1: Edge, e2: Edge, d: nat, x: int, y: int)
    requires e1 != e2
    ensures !(OnBorder(e1, d, x, y) && OnBorder(e2, d, x, y))
  {
  }

  /** The edge whose border line holds (x, y), if any. */
  function BorderEdgeAt(d: nat, x: int, y: int): (r: Option<Edge>)
    ensures r.Some? ==> OnBorder(r.value, d, x, y)
    ensures r.None? ==> forall e: Edge :: !OnBorder(e, d, x, y)
  {
    if OnBorder(Left, d, x, y) then Some(Left)
    else if OnBorder(Right, d, x, y) then Some(Right)
    else if OnBorder(Top, d, x, y) then Some(Top)
    else if OnBorder(Bottom, d, x, y) then Some(Bottom)
    else None
  }

  /** A border pixel is classified under its own edge. */
  lemma BorderEdgeAtOnBorder(e: Edge, d: nat, x: int, y: int)
    requires OnBorder(e, d, x, y)
    ensures BorderEdgeAt(d, x, y) == Some(e)
  {
  }

  /** Whether (x, y) is one of the d * d pixels where the face is pasted. */
  predicate Interior(d: nat, x: int, y: int)
  {
    1 <= x <= d && 1 <= y <= d
  }

  /** Whether (x, y) is one of the four corners of the padded buffer. */
  predicate Corner(d: nat, x: int, y: int)
  {
    (x == 0 || x == d + 1) && (y == 0 || y == d + 1)
  }

  /** Every pixel of the padded buffer is exactly one of: interior, on one
      border line, or a corner, which no `copy_edge` call writes. */
  lemma PaddedPartition(d: nat, x: int, y: int)
    requires 0 <= x < d + 2 && 0 <= y < d + 2
    ensures Interior(d, x, y) || BorderEdgeAt(d, x, y).Some? || Corner(d, x, y)
    ensures Interior(d, x, y) ==> BorderEdgeAt(d, x, y).None? && !Corner(d, x, y)
    ensures Corner(d, x, y) ==> BorderEdgeAt(d, x, y).None?
  {
  }

  /** Every read lies on the source edge, and the reads of one call visit
      each pixel of that edge once, in order or in reverse order. */
  lemma SrcPixelInjective(e: Edge, d: nat, t: Traversal, i: nat, j: nat)
    requires i < d && j < d && i != j
    ensures SrcPixel(e, d, t, i) != SrcPixel(e, d, t, j)
  {
  }
}
