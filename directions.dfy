/** The fixed vocabulary of the skybox converter: the six cube faces, the four
    edges of a face image, and the two ways of walking along a source edge. */
module Directions {

  /** The six cube faces, declared in the order of their input suffixes
      (east, west, south, north, up, down). */
  datatype Direction = East | West | South | North | Up | Down {

    /** Position of the face in the list of loaded images. */
    function Index(): (k: nat)
      ensures k < 6
      ensures FromIndex(k) == this
    {
      match this
      case East => 0
      case West => 1
      case South => 2
      case North => 3
      case Up => 4
      case Down => 5
    }

    /** The face on the other side of the cube. */
    function Opposite(): (o: Direction)
      ensures o != this
    {
      match this
      case East => West
      case West => East
      case South => North
      case North => South
      case Up => Down
      case Down => Up
    }
  }

  /** The face stored at position k of the list of loaded images. */
  function FromIndex(k: nat): (dir: Direction)
    requires k < 6
  {
    if k == 0 then East
    else if k == 1 then West
    else if k == 2 then South
    else if k == 3 then North
    else if k == 4 then Up
    else Down
  }

  /** One edge of a face image. The image's y axis grows downward, so `Top`
      is the row y = 0 and `Bottom` the last row. */
  datatype Edge = Left | Right | Top | Bottom {

    /** The converter names edges by reusing direction numbers:
        left = 0, right = 1, up = 4 (the `up` direction) and down = 5. */
    function Code(): (c: nat)
      ensures c in {0, 1, 4, 5}
      ensures EdgeOfCode(c) == this
    {
      match this
      case Left => 0
      case Right => 1
      case Top => Up.Index()
      case Bottom => Down.Index()
    }

    /** True for the two edges that run along a column (x is fixed). */
    predicate IsVertical()
    {
      this == Left || this == Right
    }
  }

  /** Decoding of an edge number; the converter only ever passes 0, 1, 4, 5. */
  function EdgeOfCode(c: nat): Edge
    requires c in {0, 1, 4, 5}
  {
    if c == 0 then Left else if c == 1 then Right else if c == 4 then Top else Bottom
  }

  /** How a source edge is walked: start to end, or end to start. */
  datatype Traversal = Forward | Reverse {
    /** The converter passes the traversal as the integer 0 or 1 and uses it
        arithmetically. */
    function Flag(): (t: nat)
      ensures t <= 1
      ensures t == 1 <==> this == Reverse
    {
      match this
      case Forward => 0
      case Reverse => 1
    }
  }
}
