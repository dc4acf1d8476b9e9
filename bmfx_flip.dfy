/** GRRLIB_BMFX_FlipH and GRRLIB_BMFX_FlipV: mirror a texture about its
    vertical or horizontal centre line.  Both sweep rows y = 0 .. height-1
    and in each row x = 0 .. width-1.  Source and destination must be
    different textures: in place, the second half of each row (or of the
    columns) would read pixels the first half has already overwritten. */
module BmfxFlip {
  import opened Colour
  import opened Textures

  /** GRRLIB_BMFX_FlipH: `dst[width-1-x, y] := src[x, y]`.  As x runs over
      0 .. width-1, width-1-x does too, so every pixel of the source's extent
      in the destination is written once. */
  method FlipH(src: Texture, dst: Texture)
    requires src.Valid() && dst.Valid()
    requires src.width <= dst.width && src.height <= dst.height
    requires src.pixels != dst.pixels
    modifies dst.pixels
    ensures forall x, y :: 0 <= x < src.width && 0 <= y < src.height ==>
      dst.pixels[src.width - 1 - x, y] == src.pixels[x, y]
    ensures forall x, y :: 0 <= x < dst.width && 0 <= y < dst.height && !(x < src.width && y < src.height) ==>
      dst.pixels[x, y] == old(dst.pixels[x, y])
  {
    var w := src.width;
    var y := 0;
    while y < src.height
      invariant 0 <= y <= src.height
      invariant forall i, j :: 0 <= i < w && 0 <= j < y ==> dst.pixels[w - 1 - i, j] == src.pixels[i, j]
      invariant forall i, j :: 0 <= i < dst.width && 0 <= j < dst.height && !(i < w && j < y) ==>
        dst.pixels[i, j] == old(dst.pixels[i, j])
    {
      var x := 0;
      while x < w
        invariant 0 <= x <= w
        invariant forall i, j :: 0 <= i < w && 0 <= j < y ==> dst.pixels[w - 1 - i, j] == src.pixels[i, j]
        invariant forall i :: 0 <= i < x ==> dst.pixels[w - 1 - i, y] == src.pixels[i, y]
        invariant forall i, j :: 0 <= i < dst.width && 0 <= j < dst.height && !(i < w && j < y) && !(w - x <= i < w && j == y) ==>
          dst.pixels[i, j] == old(dst.pixels[i, j])
      {
        dst.pixels[w - 1 - x, y] := src.pixels[x, y];
        x := x + 1;
      }
      y := y + 1;
    }
  }

  /** GRRLIB_BMFX_FlipV: `dst[x, height-1-y] := src[x, y]`. */
  method FlipV(src: Texture, dst: Texture)
    requires src.Valid() && dst.Valid()
    requires src.width <= dst.width && src.height <= dst.height
    requires src.pixels != dst.pixels
    modifies dst.pixels
    ensures forall x, y :: 0 <= x < src.width && 0 <= y < src.height ==>
      dst.pixels[x, src.height - 1 - y] == src.pixels[x, y]
    ensures forall x, y :: 0 <= x < dst.width && 0 <= y < dst.height && !(x < src.width && y < src.height) ==>
      dst.pixels[x, y] == old(dst.pixels[x, y])
  {
    var h := src.height;
    var y := 0;
    while y < h
      invariant 0 <= y <= h
      invariant forall i, j :: 0 <= i < src.width && 0 <= j < y ==> dst.pixels[i, h - 1 - j] == src.pixels[i, j]
      invariant forall i, j :: 0 <= i < dst.width && 0 <= j < dst.height && !(i < src.width && h - y <= j < h) ==>
        dst.pixels[i, j] == old(dst.pixels[i, j])
    {
      var x := 0;
      while x < src.width
        invariant 0 <= x <= src.width
        invariant forall i, j :: 0 <= i < src.width && 0 <= j < y ==> dst.pixels[i, h - 1 - j] == src.pixels[i, j]
        invariant forall i :: 0 <= i < x ==> dst.pixels[i, h - 1 - y] == src.pixels[i, y]
        invariant forall i, j :: 0 <= i < dst.width && 0 <= j < dst.height && !(i < src.width && h - y <= j < h) && !(i < x && j == h - 1 - y) ==>
          dst.pixels[i, j] == old(dst.pixels[i, j])
      {
        dst.pixels[x, h - 1 - y] := src.pixels[x, y];
        x := x + 1;
      }
      y := y + 1;
    }
  }

  /** Flipping horizontally into a second texture and back into a third
      reproduces the first. */
  method FlipHTwice(a: Texture, b: Texture, c: Texture)
    requires a.Valid() && b.Valid() && c.Valid()
    requires a.width == b.width == c.width && a.height == b.height == c.height
    requires a.pixels != b.pixels && b.pixels != c.pixels && a.pixels != c.pixels
    modifies b.pixels, c.pixels
    ensures forall x, y :: 0 <= x < a.width && 0 <= y < a.height ==> c.pixels[x, y] == a.pixels[x, y]
  {
    FlipH(a, b);
    FlipH(b, c);
    forall x, y | 0 <= x < a.width && 0 <= y < a.height
      ensures c.pixels[x, y] == a.pixels[x, y]
    {
      assert c.pixels[a.width - 1 - (a.width - 1 - x), y] == b.pixels[a.width - 1 - x, y];
    }
  }

  /** The same for vertical flips. */
  method FlipVTwice(a: Texture, b: Texture, c: Texture)
    requires a.Valid() && b.Valid() && c.Valid()
    requires a.width == b.width == c.width && a.height == b.height == c.height
    requires a.pixels != b.pixels && b.pixels != c.pixels && a.pixels != c.pixels
    modifies b.pixels, c.pixels
    ensures forall x, y :: 0 <= x < a.width && 0 <= y < a.height ==> c.pixels[x, y] == a.pixels[x, y]
  {
    FlipV(a, b);
    FlipV(b, c);
    forall x, y | 0 <= x < a.width && 0 <= y < a.height
      ensures c.pixels[x, y] == a.pixels[x, y]
    {
      assert c.pixels[x, a.height - 1 - (a.height - 1 - y)] == b.pixels[x, a.height - 1 - y];
    }
  }
}
