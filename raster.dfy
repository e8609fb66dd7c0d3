/** The two image operations the converter uses to build its buffers: a new
    image of one colour, and pasting one image into another at an offset.
    Pixels are addressed as the imaging library does, `img[x, y]` with x the
    column and y the row; an `array2` is indexed the same way, its first
    dimension being the width and its second the height. */
module Raster {

  /** Whether (x, y) lies in the w-by-h box whose top-left pixel is (ox, oy). */
  predicate InBox(x: int, y: int, ox: int, oy: int, w: int, h: int)
  {
    ox <= x < ox + w && oy <= y < oy + h
  }

  /** A new image of the given size, every pixel `fill`. */
  method NewImage<T>(width: nat, height: nat, fill: T) returns (img: array2<T>)
    ensures fresh(img)
    ensures img.Length0 == width && img.Length1 == height
    ensures forall x, y :: 0 <= x < width && 0 <= y < height ==> img[x, y] == fill
  {
    img := new T[width, height]((x, y) => fill);
  }

  /** Pastes `src` into `dst` with its top-left pixel at (ox, oy): the box it
      covers takes `src`'s pixels, every other pixel of `dst` is unchanged. */
  method Paste<T>(dst: array2<T>, src: array2<T>, ox: nat, oy: nat)
    requires dst != src
    requires ox + src.Length0 <= dst.Length0 && oy + src.Length1 <= dst.Length1
    modifies dst
    ensures forall x, y :: 0 <= x < dst.Length0 && 0 <= y < dst.Length1 ==>
              dst[x, y] == if InBox(x, y, ox, oy, src.Length0, src.Length1)
                           then src[x - ox, y - oy] else old(dst[x, y])
  {
    for i := 0 to src.Length0
      invariant forall x, y :: 0 <= x < dst.Length0 && 0 <= y < dst.Length1 ==>
                  dst[x, y] == if InBox(x, y, ox, oy, i, src.Length1)
                               then src[x - ox, y - oy] else old(dst[x, y])
    {
      for j := 0 to src.Length1
        invariant forall x, y :: 0 <= x < dst.Length0 && 0 <= y < dst.Length1 ==>
                    dst[x, y] == if InBox(x, y, ox, oy, i, src.Length1) || InBox(x, y, ox + i, oy, 1, j)
                                 then src[x - ox, y - oy] else old(dst[x, y])
      {
        dst[ox + i, oy + j] := src[i, j];
      }
    }
  }
}
