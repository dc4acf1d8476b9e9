/** GRRLIB_BMFX_Pixelate: a block mosaic.  Block corners (x, y) run over
    x = 0, f, 2f, ... while x < width-1-f, and inside that over
    y = 0, f, 2f, ... while y < height-1-f; each f-by-f block of the
    destination is filled with the source colour at its corner.  Blocks
    whose corner fails those tests are never written, so the last column and
    row (and generally a few more) keep their old contents. */
module BmfxPixelate {
  import opened Colour
  import opened Textures

  /** The corner coordinate of the block that holds `i`. */
  function BlockStart(i: nat, f: nat): (s: nat)
    requires f >= 1
    ensures s <= i < s + f
  {
    i - i % f
  }

  /** Inside the block that starts at a multiple x of f, every coordinate
      has block start x. */
  lemma BlockOf(i: nat, x: nat, f: nat)
    requires f >= 1 && x % f == 0 && x <= i < x + f
    ensures BlockStart(i, f) == x
  {
    assert x == (x / f) * f;
    DivModUnique(x / f, f, i - x);
  }

  /** Against a multiple y of f, a coordinate and its block start lie on the
      same side, and a block that starts below y also ends by y. */
  lemma BlockBelow(j: nat, y: nat, f: nat)
    requires f >= 1 && y % f == 0
    ensures BlockStart(j, f) < y <==> j < y
    ensures BlockStart(j, f) < y ==> BlockStart(j, f) + f <= y
  {
    var k := y / f - j / f;
    assert y == (y / f) * f;
    assert BlockStart(j, f) == (j / f) * f;
    assert k * f == y - BlockStart(j, f);
    MulSign(k, f);
  }

  /** When the corner loop `for (y = 0; y < bound; y += f)` stops at y, the
      coordinates below y are exactly those whose block start passed the
      loop test. */
  lemma LoopExtent(j: nat, y: nat, bound: int, f: nat)
    requires f >= 1 && y % f == 0 && bound <= y && (y == 0 || y - f < bound)
    ensures j < y <==> BlockStart(j, f) < bound
  {
    BlockBelow(j, y, f);
  }

  /** The pixels the sweep writes: those whose block corner passes both
      loop tests. */
  predicate Covered(x: nat, y: nat, w: nat, h: nat, f: nat)
    requires f >= 1
  {
    BlockStart(x, f) < w - 1 - f && BlockStart(y, f) < h - 1 - f
  }

  /** Every covered pixel lies in the texture, and the last column and the
      last row are never covered. */
  lemma CoveredBounds(x: nat, y: nat, w: nat, h: nat, f: nat)
    requires f >= 1 && Covered(x, y, w, h, f)
    ensures x < w - 1 && y < h - 1
  {
  }

  /** The next corner of the loop is again a multiple of f. */
  lemma NextCorner(x: nat, f: nat)
    requires f >= 1 && x % f == 0
    ensures (x + f) % f == 0
  {
    assert x == (x / f) * f;
    DivModUnique(x / f + 1, f, 0);
  }

  /** The two inner loops of the sweep: `dst[xx, yy] := rgb` for
      xx = x .. x+f-1 and, inside, yy = y .. y+f-1. */
  method FillBlock(dst: Texture, x: nat, y: nat, f: nat, rgb: u32)
    requires dst.Valid() && x + f <= dst.width && y + f <= dst.height
    modifies dst.pixels
    ensures forall i, j :: 0 <= i < dst.width && 0 <= j < dst.height ==>
      dst.pixels[i, j] == if x <= i < x + f && y <= j < y + f then rgb else old(dst.pixels[i, j])
  {
    var xx := x;
    while xx < x + f
      invariant x <= xx <= x + f
      invariant forall i, j :: 0 <= i < dst.width && 0 <= j < dst.height ==>
        dst.pixels[i, j] == if x <= i < xx && y <= j < y + f then rgb else old(dst.pixels[i, j])
    {
      var yy := y;
      while yy < y + f
        invariant y <= yy <= y + f
        invariant forall i, j :: 0 <= i < dst.width && 0 <= j < dst.height ==>
          dst.pixels[i, j] ==
            if (x <= i < xx && y <= j < y + f) || (i == xx && y <= j < yy) then rgb
            else old(dst.pixels[i, j])
      {
        dst.pixels[xx, yy] := rgb;
        yy := yy + 1;
      }
      xx := xx + 1;
    }
  }

  /** GRRLIB_BMFX_Pixelate.  The C computes width-1-factor and
      height-1-factor in unsigned arithmetic; the precondition is what keeps
      them from wrapping (when width is factor+1 the outer loop does not run
      and the height is never looked at), and factor >= 1 is what makes the
      loops advance. */
  method Pixelate(src: Texture, dst: Texture, factor: nat)
    requires src.Valid() && dst.Valid()
    requires src.width <= dst.width && src.height <= dst.height
    requires 1 <= factor && factor + 1 <= src.width
    requires factor + 1 < src.width ==> factor + 1 <= src.height
    modifies dst.pixels
    ensures forall x, y :: 0 <= x < dst.width && 0 <= y < dst.height ==>
      dst.pixels[x, y] ==
        if Covered(x, y, src.width, src.height, factor)
        then old(src.pixels[BlockStart(x, factor), BlockStart(y, factor)])
        else old(dst.pixels[x, y])
  {
    var f := factor;
    var lw, lh := src.width - 1 - f, src.height - 1 - f;
    var x := 0;
    while x < lw
      invariant x % f == 0 && (x == 0 || x - f < lw)
      invariant forall i, j :: 0 <= i < dst.width && 0 <= j < dst.height ==>
        dst.pixels[i, j] ==
          if i < x && BlockStart(j, f) < lh then old(src.pixels[BlockStart(i, f), BlockStart(j, f)])
          else old(dst.pixels[i, j])
      invariant forall i, j :: x <= i < src.width && 0 <= j < src.height ==>
        src.pixels[i, j] == old(src.pixels[i, j])
    {
      var y := 0;
      while y < lh
        invariant y % f == 0 && (y == 0 || y - f < lh)
        invariant forall i, j :: 0 <= i < dst.width && 0 <= j < dst.height ==>
          dst.pixels[i, j] ==
            if (i < x && BlockStart(j, f) < lh) || (x <= i < x + f && j < y)
            then old(src.pixels[BlockStart(i, f), BlockStart(j, f)])
            else old(dst.pixels[i, j])
        invariant forall i, j :: x <= i < src.width && 0 <= j < src.height && !(i < x + f && j < y) ==>
          src.pixels[i, j] == old(src.pixels[i, j])
      {
        var rgb := src.pixels[x, y];
        FillBlock(dst, x, y, f, rgb);
        forall i: nat, j: nat | x <= i < x + f && y <= j < y + f
          ensures BlockStart(i, f) == x && BlockStart(j, f) == y
        {
          BlockOf(i, x, f);
          BlockOf(j, y, f);
        }
        NextCorner(y, f);
        y := y + f;
      }
      forall j: nat | j < dst.height
        ensures j < y <==> BlockStart(j, f) < lh
      {
        LoopExtent(j, y, lh, f);
      }
      NextCorner(x, f);
      x := x + f;
    }
    forall i: nat | i < dst.width
      ensures i < x <==> BlockStart(i, f) < lw
    {
      LoopExtent(i, x, lw, f);
    }
  }
}
