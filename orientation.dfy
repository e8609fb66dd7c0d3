/** Turning each face into the orientation the cross layout needs:

           W
         S B N U
           E

    East is turned by 180 degrees, South by 90, North, Up and Down by 270,
    West is kept as loaded. The turn itself is the imaging library's
    `transpose`; `RotatedFrom` is this model's statement of what a
    counter-clockwise turn does to pixel positions. */
module Orientation {
  import opened Directions

  /** A counter-clockwise turn by a multiple of 90 degrees. */
  datatype Rotation = NoRotation | Rotate90 | Rotate180 | Rotate270 {
    function Degrees(): nat
    {
      match this
      case NoRotation => 0
      case Rotate90 => 90
      case Rotate180 => 180
      case Rotate270 => 270
    }

    /** The turn that undoes this one. */
    function Inverse(): (r: Rotation)
      ensures (Degrees() + r.Degrees()) % 360 == 0
    {
      match this
      case NoRotation => NoRotation
      case Rotate90 => Rotate270
      case Rotate180 => Rotate180
      case Rotate270 => Rotate90
    }
  }

  /** The turn applied to each face before padding. */
  function RotationOf(dir: Direction): Rotation
  {
    match dir
    case East => Rotate180
    case West => NoRotation
    case South => Rotate90
    case North => Rotate270
    case Up => Rotate270
    case Down => Rotate270
  }

  /** The pixel of the d-by-d original that ends up at (x, y) after the turn
      (x grows to the right, y downward). */
  function RotatedFrom(r: Rotation, d: nat, x: int, y: int): (p: (int, int))
    ensures 0 <= x < d && 0 <= y < d ==> 0 <= p.0 < d && 0 <= p.1 < d
  {
    match r
    case NoRotation => (x, y)
    case Rotate90 => (d - 1 - y, x)
    case Rotate180 => (d - 1 - x, d - 1 - y)
    case Rotate270 => (y, d - 1 - x)
  }

  /** A turn only moves pixels: turning back recovers every position, so the
      turned face holds each original pixel exactly once. */
  lemma RotationIsPermutation(r: Rotation, d: nat, x: int, y: int)
    ensures var p := RotatedFrom(r.Inverse(), d, x, y); RotatedFrom(r, d, p.0, p.1) == (x, y)
    ensures var p := RotatedFrom(r, d, x, y); RotatedFrom(r.Inverse(), d, p.0, p.1) == (x, y)
  {
  }

  /** Two quarter turns make a half turn and four make none. */
  lemma QuarterTurnsCompose(d: nat, x: int, y: int)
    ensures var p := RotatedFrom(Rotate90, d, x, y); RotatedFrom(Rotate90, d, p.0, p.1) == RotatedFrom(Rotate180, d, x, y)
    ensures var p := RotatedFrom(Rotate180, d, x, y); RotatedFrom(Rotate180, d, p.0, p.1) == (x, y)
  {
  }

  /** A turned copy of a square face. */
  method Rotate<T>(face: array2<T>, r: Rotation) returns (turned: array2<T>)
    requires face.Length0 == face.Length1
    ensures fresh(turned)
    ensures turned.Length0 == face.Length0 && turned.Length1 == face.Length1
    ensures forall x, y :: 0 <= x < face.Length0 && 0 <= y < face.Length1 ==>
              turned[x, y] == face[RotatedFrom(r, face.Length0, x, y).0, RotatedFrom(r, face.Length0, x, y).1]
  {
    var d := face.Length0;
    turned := new T[d, d]((x, y) reads face requires 0 <= x < d && 0 <= y < d =>
                            face[RotatedFrom(r, d, x, y).0, RotatedFrom(r, d, x, y).1]);
  }

  /** Reassigns the turned faces into the list, in the converter's order
      (East, South, North, Up, Down); West stays the loaded image. */
  method OrientFaces<T>(faces: seq<array2<T>>, d: nat) returns (oriented: seq<array2<T>>)
    requires |faces| == 6
    requires forall k :: 0 <= k < 6 ==> faces[k].Length0 == d && faces[k].Length1 == d
    ensures |oriented| == 6
    ensures oriented[West.Index()] == faces[West.Index()]
    ensures forall k :: 0 <= k < 6 ==> oriented[k].Length0 == d && oriented[k].Length1 == d
    ensures forall k, x, y :: 0 <= k < 6 && 0 <= x < d && 0 <= y < d ==>
              var p := RotatedFrom(RotationOf(FromIndex(k)), d, x, y);
              oriented[k][x, y] == faces[k][p.0, p.1]
  {
    oriented := faces;
    var east := Rotate(oriented[East.Index()], Rotate180);
    oriented := oriented[East.Index() := east];
    var south := Rotate(oriented[South.Index()], Rotate90);
    oriented := oriented[South.Index() := south];
    var north := Rotate(oriented[North.Index()], Rotate270);
    oriented := oriented[North.Index() := north];
    var up := Rotate(oriented[Up.Index()], Rotate270);
    oriented := oriented[Up.Index() := up];
    var down := Rotate(oriented[Down.Index()], Rotate270);
    oriented := oriented[Down.Index() := down];
  }
}
