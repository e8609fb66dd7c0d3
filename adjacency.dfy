/** The cube topology as the converter writes it down: 24 `copy_edge` calls,
    one per (face, edge) pair, each naming the face, edge and traversal that
    supplies that border. */
module Adjacency {
  import opened Directions

  /** One call `copy_edge(newfaces[dest], destEdge, faces[src], srcEdge,
      traversal)`. */
  datatype EdgeCall = EdgeCall(dest: Direction, destEdge: Edge,
                               src: Direction, srcEdge: Edge, traversal: Traversal)

  /** The 24 calls in the order the converter makes them. */
  function Calls(): (cs: seq<EdgeCall>)
    ensures |cs| == 24
  {
    [ // East: South / North / Down / Up
      EdgeCall(East, Left, South, Bottom, Reverse),
      EdgeCall(East, Right, North, Bottom, Forward),
      EdgeCall(East, Top, Down, Bottom, Forward),
      EdgeCall(East, Bottom, Up, Bottom, Forward),
      // West: South / North / Up / Down
      EdgeCall(West, Left, South, Top, Forward),
      EdgeCall(West, Right, North, Top, Reverse),
      EdgeCall(West, Top, Up, Top, Reverse),
      EdgeCall(West, Bottom, Down, Top, Forward),
      // South: Up / Down / West / East
      EdgeCall(South, Left, Up, Right, Forward),
      EdgeCall(South, Right, Down, Left, Forward),
      EdgeCall(South, Top, West, Left, Forward),
      EdgeCall(South, Bottom, East, Left, Reverse),
      // North: Down / Up / West / East
      EdgeCall(North, Left, Down, Right, Forward),
      EdgeCall(North, Right, Up, Left, Forward),
      EdgeCall(North, Top, West, Right, Reverse),
      EdgeCall(North, Bottom, East, Right, Forward),
      // Up: North / South / West / East
      EdgeCall(Up, Left, North, Right, Forward),
      EdgeCall(Up, Right, South, Left, Forward),
      EdgeCall(Up, Top, West, Top, Reverse),
      EdgeCall(Up, Bottom, East, Bottom, Forward),
      // Down: South / North / West / East
      EdgeCall(Down, Left, South, Right, Forward),
      EdgeCall(Down, Right, North, Left, Forward),
      EdgeCall(Down, Top, West, Bottom, Forward),
      EdgeCall(Down, Bottom, East, Top, Forward)
    ]
  }

  /** The table the padding uses: `Calls()` with the traversal of the pair
      East bottom / Up bottom (positions 3 and 19) reversed, so that every
      call walks its source edge from the cube corner where the destination
      edge starts. */
  function FixedCalls(): (cs: seq<EdgeCall>)
    ensures |cs| == 24
  {
    [ // East: South / North / Down / Up
      EdgeCall(East, Left, South, Bottom, Reverse),
      EdgeCall(East, Right, North, Bottom, Forward),
      EdgeCall(East, Top, Down, Bottom, Forward),
      EdgeCall(East, Bottom, Up, Bottom, Reverse),
      // West: South / North / Up / Down
      EdgeCall(West, Left, South, Top, Forward),
      EdgeCall(West, Right, North, Top, Reverse),
      EdgeCall(West, Top, Up, Top, Reverse),
      EdgeCall(West, Bottom, Down, Top, Forward),
      // South: Up / Down / West / East
      EdgeCall(South, Left, Up, Right, Forward),
      EdgeCall(South, Right, Down, Left, Forward),
      EdgeCall(South, Top, West, Left, Forward),
      EdgeCall(South, Bottom, East, Left, Reverse),
      // North: Down / Up / West / East
      EdgeCall(North, Left, Down, Right, Forward),
      EdgeCall(North, Right, Up, Left, Forward),
      EdgeCall(North, Top, West, Right, Reverse),
      EdgeCall(North, Bottom, East, Right, Forward),
      // Up: North / South / West / East
      EdgeCall(Up, Left, North, Right, Forward),
      EdgeCall(Up, Right, South, Left, Forward),
      EdgeCall(Up, Top, West, Top, Reverse),
      EdgeCall(Up, Bottom, East, Bottom, Reverse),
      // Down: South / North / West / East
      EdgeCall(Down, Left, South, Right, Forward),
      EdgeCall(Down, Right, North, Left, Forward),
      EdgeCall(Down, Top, West, Bottom, Forward),
      EdgeCall(Down, Bottom, East, Top, Forward)
    ]
  }

  /** The corrected table differs from the converter's in exactly the
      traversal of the two calls at positions 3 and 19. */
  lemma FixedCallsDifferOnlyInTwoTraversals()
    ensures forall k :: 0 <= k < 24 && k != 3 && k != 19 ==> FixedCalls()[k] == Calls()[k]
    ensures Calls()[3].traversal == Forward && FixedCalls()[3] == Calls()[3].(traversal := Reverse)
    ensures Calls()[19].traversal == Forward && FixedCalls()[19] == Calls()[19].(traversal := Reverse)
  {
  }

  /** Position of an edge among the four calls of one face. */
  function EdgeSlot(e: Edge): (s: nat)
    ensures s < 4
  {
    match e
    case Left => 0
    case Right => 1
    case Top => 2
    case Bottom => 3
  }

  /** The position in the table of the call that fills edge `e` of `dir`. */
  function CallIndex(dir: Direction, e: Edge): (k: nat)
    ensures k < 24
  {
    4 * dir.Index() + EdgeSlot(e)
  }

  /** Distinct (face, edge) pairs have distinct call positions. */
  lemma CallIndexInjective(dir1: Direction, e1: Edge, dir2: Direction, e2: Edge)
    requires CallIndex(dir1, e1) == CallIndex(dir2, e2)
    ensures dir1 == dir2 && e1 == e2
  {
    assert dir1.Index() == dir2.Index();
    assert FromIndex(dir1.Index()) == FromIndex(dir2.Index());
  }

  /** A table of 24 calls laid out as the converter lays out its own: the
      call that fills edge e of face dir sits at position `CallIndex(dir, e)`. */
  predicate LaidOut(table: seq<EdgeCall>)
  {
    |table| == 24 &&
    forall k :: 0 <= k < 24 ==> CallIndex(table[k].dest, table[k].destEdge) == k
  }

  /** Both the converter's table and the corrected one are laid out that way. */
  lemma TablesLaidOut()
    ensures LaidOut(Calls()) && LaidOut(FixedCalls())
  {
    WrittenCallsLaidOut();
    FixedCallsDifferOnlyInTwoTraversals();
  }

  /** `Calls()` is laid out by `CallIndex`. */
  lemma WrittenCallsLaidOut()
    ensures LaidOut(Calls())
  {
    var cs := Calls();
    assert forall k :: 0 <= k < 12 ==> CallIndex(cs[k].dest, cs[k].destEdge) == k;
    assert forall k :: 12 <= k < 24 ==> CallIndex(cs[k].dest, cs[k].destEdge) == k;
  }

  /** The call of `table` that fills edge `e` of face `dir`. */
  function CallFor(table: seq<EdgeCall>, dir: Direction, e: Edge): (c: EdgeCall)
    requires LaidOut(table)
    ensures c in table
    ensures c.dest == dir && c.destEdge == e
  {
    var c := table[CallIndex(dir, e)];
    CallIndexInjective(c.dest, c.destEdge, dir, e);
    c
  }

  /** Every (face, edge) pair is the destination of exactly one call of a
      laid-out table: call k fills edge e of dir if and only if k is that
      pair's index. */
  lemma EachEdgeFilledOnce(table: seq<EdgeCall>, dir: Direction, e: Edge, k: nat)
    requires LaidOut(table) && k < 24
    ensures table[k].dest == dir && table[k].destEdge == e <==> k == CallIndex(dir, e)
  {
    var c := table[k];
    if k == CallIndex(dir, e) {
      CallIndexInjective(c.dest, c.destEdge, dir, e);
    }
  }

  /** Both tables are symmetric: if edge e of A is filled from edge f of B
      with traversal t, then edge f of B is filled from edge e of A with the
      same traversal (reversing a reversed walk gives back the original
      order). */
  lemma Symmetric(table: seq<EdgeCall>, dir: Direction, e: Edge)
    requires table == Calls() || table == FixedCalls()
    ensures LaidOut(table)
    ensures var c := CallFor(table, dir, e);
            CallFor(table, c.src, c.srcEdge) == EdgeCall(c.src, c.srcEdge, dir, e, c.traversal)
  {
    TablesLaidOut();
    var c := CallFor(table, dir, e);
    if table == Calls() {
      WrittenCallsSymmetric(CallIndex(dir, e));
    } else {
      FixedCallsSymmetric(CallIndex(dir, e));
    }
  }

  /** Symmetry of `Calls()`, position by position. */
  lemma WrittenCallsSymmetric(k: nat)
    requires k < 24
    ensures var c := Calls()[k];
            Calls()[CallIndex(c.src, c.srcEdge)] == EdgeCall(c.src, c.srcEdge, c.dest, c.destEdge, c.traversal)
  {
  }

  /** Symmetry of `FixedCalls()`, position by position. */
  lemma FixedCallsSymmetric(k: nat)
    requires k < 24
    ensures var c := FixedCalls()[k];
            FixedCalls()[CallIndex(c.src, c.srcEdge)] == EdgeCall(c.src, c.srcEdge, c.dest, c.destEdge, c.traversal)
  {
  }

  /** In both tables a face never borders itself nor its opposite face, and
      its four edges are filled from the four other faces, one each. */
  lemma NeighboursAreTheFourAdjacentFaces(table: seq<EdgeCall>, dir: Direction)
    requires table == Calls() || table == FixedCalls()
    ensures LaidOut(table)
    ensures forall e: Edge ::
              CallFor(table, dir, e).src != dir && CallFor(table, dir, e).src != dir.Opposite()
    ensures forall e1: Edge, e2: Edge ::
              e1 != e2 ==> CallFor(table, dir, e1).src != CallFor(table, dir, e2).src
  {
    TablesLaidOut();
    FixedCallsDifferOnlyInTwoTraversals();
    forall e: Edge ensures CallFor(table, dir, e).src == Calls()[CallIndex(dir, e)].src {
    }
    WrittenNeighbours(dir);
  }

  /** The neighbour property for `Calls()`, stated on positions. */
  lemma WrittenNeighbours(dir: Direction)
    ensures forall e: Edge ::
              Calls()[CallIndex(dir, e)].src != dir && Calls()[CallIndex(dir, e)].src != dir.Opposite()
    ensures forall e1: Edge, e2: Edge ::
              e1 != e2 ==> Calls()[CallIndex(dir, e1)].src != Calls()[CallIndex(dir, e2)].src
  {
  }
}
