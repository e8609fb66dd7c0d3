/** Border padding: each face is pasted at (1, 1) into a blank (d + 2)-square
    buffer, and the 24 `copy_edge` calls of the adjacency table fill the
    one-pixel border from neighbouring faces. */
module Padding {
  import opened Directions
  import opened EdgeGeometry
  import opened Adjacency
  import Raster

  /** Six d-by-d faces, indexed by `Direction.Index()`. */
  ghost predicate FacesOfSide<T>(faces: seq<array2<T>>, d: nat)
  {
    |faces| == 6 && forall k :: 0 <= k < 6 ==> faces[k].Length0 == d && faces[k].Length1 == d
  }

  /** The value a call reads for padded pixel (x, y) on its destination edge:
      the source face's pixel on the source edge at the step of (x, y). */
  function SourceValue<T>(faces: seq<array2<T>>, d: nat, c: EdgeCall, x: int, y: int): T
    reads faces
    requires FacesOfSide(faces, d)
    requires OnBorder(c.destEdge, d, x, y)
  {
    var p := SrcPixel(c.srcEdge, d, c.traversal, Step(c.destEdge, x, y));
    faces[c.src.Index()][p.0, p.1]
  }

  /** What padded face `dir` holds at (x, y) once all 24 calls of `table`
      are made: the
      face itself inside, the designated neighbour's pixel on each border
      line, and the blank fill in the four corners. */
  function PaddedPixel<T>(faces: seq<array2<T>>, d: nat, table: seq<EdgeCall>, dir: Direction, blank: T, x: int, y: int): T
    reads faces
    requires FacesOfSide(faces, d) && LaidOut(table)
    requires 0 <= x < d + 2 && 0 <= y < d + 2
  {
    if Interior(d, x, y) then faces[dir.Index()][x - 1, y - 1]
    else match BorderEdgeAt(d, x, y)
      case Some(e) => SourceValue(faces, d, CallFor(table, dir, e), x, y)
      case None => blank
  }

  /** `copy_edge`: for i in [0, d), the pixel at step i of `destEdge` in the
      padded buffer `dest` becomes the pixel of `src` at step i of `srcEdge`,
      walked as `traversal` says. Nothing else in `dest` changes. */
  method CopyEdge<T>(dest: array2<T>, destEdge: Edge, src: array2<T>, srcEdge: Edge, traversal: Traversal)
    requires src.Length0 == src.Length1
    requires dest.Length0 == dest.Length1 == src.Length0 + 2
    modifies dest
    ensures var d := src.Length0;
            forall x, y :: 0 <= x < d + 2 && 0 <= y < d + 2 ==>
              dest[x, y] == if OnBorder(destEdge, d, x, y)
                            then src[SrcPixel(srcEdge, d, traversal, Step(destEdge, x, y)).0,
                                     SrcPixel(srcEdge, d, traversal, Step(destEdge, x, y)).1]
                            else old(dest[x, y])
  {
    var d := src.Length0;
    for i := 0 to d
      invariant forall x, y :: 0 <= x < d + 2 && 0 <= y < d + 2 && !(OnBorder(destEdge, d, x, y) && Step(destEdge, x, y) < i) ==>
                  dest[x, y] == old(dest[x, y])
      invariant forall k :: 0 <= k < i ==>
                  dest[DestPixel(destEdge, d, k).0, DestPixel(destEdge, d, k).1]
                  == src[SrcPixel(srcEdge, d, traversal, k).0, SrcPixel(srcEdge, d, traversal, k).1]
    {
      var (destX, destY) := DestPixel(destEdge, d, i);
      var (srcX, srcY) := SrcPixel(srcEdge, d, traversal, i);
      dest[destX, destY] := src[srcX, srcY];
      forall k | 0 <= k < i
        ensures DestPixel(destEdge, d, k) != (destX, destY)
      {
        DestPixelInjective(destEdge, d, k, i);
      }
    }
    StepsCoverBorder(dest, destEdge, src, srcEdge, traversal);
  }

  /** Once every step i < d has written its pixel, each pixel of the border
      line holds the source pixel of its own step. */
  lemma StepsCoverBorder<T>(dest: array2<T>, destEdge: Edge, src: array2<T>, srcEdge: Edge, traversal: Traversal)
    requires src.Length0 == src.Length1
    requires dest.Length0 == dest.Length1 == src.Length0 + 2
    requires var d := src.Length0;
             forall k :: 0 <= k < d ==>
               dest[DestPixel(destEdge, d, k).0, DestPixel(destEdge, d, k).1]
               == src[SrcPixel(srcEdge, d, traversal, k).0, SrcPixel(srcEdge, d, traversal, k).1]
    ensures var d := src.Length0;
            forall x, y :: 0 <= x < d + 2 && 0 <= y < d + 2 && OnBorder(destEdge, d, x, y) ==>
              dest[x, y] == src[SrcPixel(srcEdge, d, traversal, Step(destEdge, x, y)).0,
                                SrcPixel(srcEdge, d, traversal, Step(destEdge, x, y)).1]
  {
    var d := src.Length0;
    forall x, y | 0 <= x < d + 2 && 0 <= y < d + 2 && OnBorder(destEdge, d, x, y)
      ensures dest[x, y] == src[SrcPixel(srcEdge, d, traversal, Step(destEdge, x, y)).0,
                                SrcPixel(srcEdge, d, traversal, Step(destEdge, x, y)).1]
    {
      DestPixelOnto(destEdge, d, x, y);
    }
  }

  /** Builds the six padded faces: six blank buffers, each face pasted at
      (1, 1), then the 24 calls in table order. The result does not depend on
      the order of the calls, since every call reads only the unpadded faces
      and writes only its own border line. */
  method PadFaces<T>(faces: seq<array2<T>>, d: nat, table: seq<EdgeCall>, blank: T) returns (padded: seq<array2<T>>)
    requires FacesOfSide(faces, d) && LaidOut(table)
    ensures |padded| == 6
    ensures forall k :: 0 <= k < 6 ==> fresh(padded[k])
    ensures forall k, m :: 0 <= k < m < 6 ==> padded[k] != padded[m]
    ensures forall k :: 0 <= k < 6 ==> padded[k].Length0 == d + 2 && padded[k].Length1 == d + 2
    ensures forall k, x, y :: 0 <= k < 6 && 0 <= x < d + 2 && 0 <= y < d + 2 ==>
              padded[k][x, y] == PaddedPixel(faces, d, table, FromIndex(k), blank, x, y)
  {
    padded := BlankBuffers(d, blank);
    PasteFaces(padded, faces, d, blank);
    var tableOrder := seq(24, k => k);
    forall c | 0 <= c < 24
      ensures c in tableOrder
    {
      assert tableOrder[c] == c;
    }
    FillBorders(padded, faces, d, table, blank, tableOrder);
  }

  /** Six fresh, distinct (d + 2)-square buffers of the blank fill. */
  method BlankBuffers<T>(d: nat, blank: T) returns (padded: seq<array2<T>>)
    ensures |padded| == 6
    ensures forall m :: 0 <= m < 6 ==> fresh(padded[m])
    ensures forall m, n :: 0 <= m < n < 6 ==> padded[m] != padded[n]
    ensures forall m :: 0 <= m < 6 ==> padded[m].Length0 == d + 2 && padded[m].Length1 == d + 2
    ensures forall m, x, y :: 0 <= m < 6 && 0 <= x < d + 2 && 0 <= y < d + 2 ==> padded[m][x, y] == blank
  {
    padded := [];
    for k := 0 to 6
      invariant |padded| == k
      invariant forall m :: 0 <= m < k ==> fresh(padded[m])
      invariant forall m, n :: 0 <= m < n < k ==> padded[m] != padded[n]
      invariant forall m :: 0 <= m < k ==> padded[m].Length0 == d + 2 && padded[m].Length1 == d + 2
      invariant forall m, x, y :: 0 <= m < k && 0 <= x < d + 2 && 0 <= y < d + 2 ==>
                  padded[m][x, y] == blank
    {
      var p := Raster.NewImage(d + 2, d + 2, blank);
      padded := padded + [p];
    }
  }

  /** Pastes face m at (1, 1) into blank buffer m, for every m. */
  method PasteFaces<T>(padded: seq<array2<T>>, faces: seq<array2<T>>, d: nat, blank: T)
    requires FacesOfSide(faces, d) && |padded| == 6
    requires forall m, n :: 0 <= m < n < 6 ==> padded[m] != padded[n]
    requires forall m, j :: 0 <= m < 6 && 0 <= j < 6 ==> padded[m] != faces[j]
    requires forall m :: 0 <= m < 6 ==> padded[m].Length0 == d + 2 && padded[m].Length1 == d + 2
    requires forall m, x, y :: 0 <= m < 6 && 0 <= x < d + 2 && 0 <= y < d + 2 ==> padded[m][x, y] == blank
    modifies set m | 0 <= m < 6 :: padded[m]
    ensures forall m, x, y :: 0 <= m < 6 && 0 <= x < d + 2 && 0 <= y < d + 2 ==>
              padded[m][x, y] == if Interior(d, x, y) then faces[m][x - 1, y - 1] else blank
  {
    for k := 0 to 6
      invariant forall m, x, y :: 0 <= m < k && 0 <= x < d + 2 && 0 <= y < d + 2 && Interior(d, x, y) ==>
                  padded[m][x, y] == faces[m][x - 1, y - 1]
      invariant forall m, x, y :: 0 <= m < 6 && 0 <= x < d + 2 && 0 <= y < d + 2 && !(m < k && 1 <= x <= d && 1 <= y <= d) ==>
                  padded[m][x, y] == blank
    {
      Raster.Paste(padded[k], faces[k], 1, 1);
    }
  }

  /** The `copy_edge` calls of `table` at the positions listed in `order`,
      one after the other, on the pasted buffers. Any order that makes every
      call at least once, repeats included, gives the same padded faces: the
      converter's own order is 0, 1, ..., 23. */
  method FillBorders<T>(padded: seq<array2<T>>, faces: seq<array2<T>>, d: nat, table: seq<EdgeCall>, blank: T, order: seq<nat>)
    requires FacesOfSide(faces, d) && LaidOut(table) && |padded| == 6
    requires forall m, n :: 0 <= m < n < 6 ==> padded[m] != padded[n]
    requires forall m, j :: 0 <= m < 6 && 0 <= j < 6 ==> padded[m] != faces[j]
    requires forall m :: 0 <= m < 6 ==> padded[m].Length0 == d + 2 && padded[m].Length1 == d + 2
    requires forall m, x, y :: 0 <= m < 6 && 0 <= x < d + 2 && 0 <= y < d + 2 ==>
               padded[m][x, y] == if Interior(d, x, y) then faces[m][x - 1, y - 1] else blank
    requires forall j :: 0 <= j < |order| ==> order[j] < 24
    requires forall c :: 0 <= c < 24 ==> c in order
    modifies set m | 0 <= m < 6 :: padded[m]
    ensures forall m, x, y :: 0 <= m < 6 && 0 <= x < d + 2 && 0 <= y < d + 2 ==>
              padded[m][x, y] == PaddedPixel(faces, d, table, FromIndex(m), blank, x, y)
  {
    forall m, x, y | 0 <= m < 6 && 0 <= x < d + 2 && 0 <= y < d + 2
      ensures padded[m][x, y] == Partial(faces, d, table, FromIndex(m), blank, [], x, y)
    {
      assert FromIndex(m).Index() == m;
    }
    for k := 0 to |order|
      invariant forall m, x, y :: 0 <= m < 6 && 0 <= x < d + 2 && 0 <= y < d + 2 ==>
                  padded[m][x, y] == Partial(faces, d, table, FromIndex(m), blank, order[..k], x, y)
    {
      MakeCall(padded, faces, d, table, blank, order[..k], order[k]);
      assert order[..k + 1] == order[..k] + [order[k]];
    }
    assert order[..|order|] == order;
  }

  /** One `copy_edge` call, the one at position ck of `table`: the padded
      faces move from the state after the calls in `done` to the state after
      those and ck. */
  method MakeCall<T>(padded: seq<array2<T>>, faces: seq<array2<T>>, d: nat, table: seq<EdgeCall>, blank: T,
                     done: seq<nat>, ck: nat)
    requires FacesOfSide(faces, d) && LaidOut(table) && |padded| == 6 && ck < 24
    requires forall m, n :: 0 <= m < n < 6 ==> padded[m] != padded[n]
    requires forall m, j :: 0 <= m < 6 && 0 <= j < 6 ==> padded[m] != faces[j]
    requires forall m :: 0 <= m < 6 ==> padded[m].Length0 == d + 2 && padded[m].Length1 == d + 2
    requires forall m, x, y :: 0 <= m < 6 && 0 <= x < d + 2 && 0 <= y < d + 2 ==>
               padded[m][x, y] == Partial(faces, d, table, FromIndex(m), blank, done, x, y)
    modifies padded[table[ck].dest.Index()]
    ensures forall m, x, y :: 0 <= m < 6 && 0 <= x < d + 2 && 0 <= y < d + 2 ==>
              padded[m][x, y] == Partial(faces, d, table, FromIndex(m), blank, done + [ck], x, y)
  {
    var c := table[ck];
    var target := c.dest.Index();
    CopyEdge(padded[target], c.destEdge, faces[c.src.Index()], c.srcEdge, c.traversal);
    forall m, x, y | 0 <= m < 6 && 0 <= x < d + 2 && 0 <= y < d + 2
      ensures padded[m][x, y] == Partial(faces, d, table, FromIndex(m), blank, done + [ck], x, y)
    {
      OneMoreCall(faces, d, table, FromIndex(m), blank, done, ck, x, y);
      assert FromIndex(m).Index() == m;
    }
  }

  /** The pixel of padded face `dir` once the calls of `table` at the
      positions in `done` have been made. */
  function Partial<T>(faces: seq<array2<T>>, d: nat, table: seq<EdgeCall>, dir: Direction, blank: T, done: seq<nat>, x: int, y: int): T
    reads faces
    requires FacesOfSide(faces, d) && LaidOut(table)
    requires 0 <= x < d + 2 && 0 <= y < d + 2
  {
    if Interior(d, x, y) then faces[dir.Index()][x - 1, y - 1]
    else match BorderEdgeAt(d, x, y)
      case Some(e) =>
        if CallIndex(dir, e) in done then SourceValue(faces, d, CallFor(table, dir, e), x, y) else blank
      case None => blank
  }

  /** Making call ck changes the partially padded face `dir` exactly on the
      border line that call writes, to the value it reads. */
  lemma OneMoreCall<T>(faces: seq<array2<T>>, d: nat, table: seq<EdgeCall>, dir: Direction, blank: T,
                       done: seq<nat>, ck: nat, x: int, y: int)
    requires FacesOfSide(faces, d) && LaidOut(table) && ck < 24
    requires 0 <= x < d + 2 && 0 <= y < d + 2
    ensures Partial(faces, d, table, dir, blank, done + [ck], x, y)
            == if dir == table[ck].dest && OnBorder(table[ck].destEdge, d, x, y)
               then SourceValue(faces, d, table[ck], x, y)
               else Partial(faces, d, table, dir, blank, done, x, y)
  {
    var c := table[ck];
    match BorderEdgeAt(d, x, y)
    case Some(e) =>
      if CallIndex(dir, e) == ck {
        CallIndexInjective(dir, e, c.dest, c.destEdge);
        BorderEdgeAtOnBorder(e, d, x, y);
      } else if dir == c.dest && OnBorder(c.destEdge, d, x, y) {
        BorderEdgeAtOnBorder(c.destEdge, d, x, y);
      }
    case None =>
  }

  /** Border pixel i + 1 of edge e of padded face `dir` (step i of the call
      that fills it) holds the pixel of the call's source face at the read
      position of step i on the source edge. */
  lemma BorderPixelReadsSource<T>(faces: seq<array2<T>>, d: nat, table: seq<EdgeCall>, dir: Direction, blank: T,
                                  e: Edge, i: nat)
    requires FacesOfSide(faces, d) && LaidOut(table) && i < d
    ensures var c := CallFor(table, dir, e);
            var b := BorderPixel(e, d, i + 1);
            var q := EdgePixel(c.srcEdge, d, ReadPosition(c.traversal, d, i));
            0 <= b.0 < d + 2 && 0 <= b.1 < d + 2 && 0 <= q.0 < d && 0 <= q.1 < d &&
            PaddedPixel(faces, d, table, dir, blank, b.0, b.1) == faces[c.src.Index()][q.0, q.1]
  {
    var b := DestPixel(e, d, i);
    BorderEdgeAtOnBorder(e, d, b.0, b.1);
  }
}
