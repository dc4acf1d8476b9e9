/** The effects of GRRLIB_bmfx.c that recolour each pixel on its own:
    grayscale, sepia and invert.  Each is a colour function, with its
    properties proved, and a sweep that applies it to every pixel of the
    source and stores the result at the same place in the destination.
    Since a pixel is read before its own place is written and no other place
    is read, source and destination may be the same texture. */
module BmfxPixel {
  import opened Colour
  import opened Textures

  /** The luma weights: 77 + 150 + 28 == 255, so the result is a byte. */
  function Luma(c: u32): (v: nat)
    ensures v <= 0xFF
    ensures R(c) == G(c) == B(c) ==> v == R(c)
  {
    (R(c) * 77 + G(c) * 150 + B(c) * 28) / 255
  }

  /** The grayscale pixel: the u8 `gray` in red, green and blue, the alpha
      of the source kept.  `(gray << 24) | (gray << 16) | (gray << 8) | A`
      sets four disjoint bytes, which is RGBA of those bytes. */
  function GrayOf(c: u32): (d: u32)
    ensures R(d) == Luma(c) && G(d) == Luma(c) && B(d) == Luma(c)
    ensures A(d) == A(c)
  {
    var gray := Luma(c) % 0x100;
    ByteMod(Luma(c));
    ByteMod(A(c));
    RGBA(gray, gray, gray, A(c))
  }

  /** A pixel that is already gray is left as it is. */
  lemma GrayFixedPoint(c: u32)
    requires R(c) == G(c) == B(c)
    ensures GrayOf(c) == c
  {
    ChannelsDetermine(GrayOf(c), c);
  }

  /** Grayscale is idempotent. */
  lemma GrayIdempotent(c: u32)
    ensures GrayOf(GrayOf(c)) == GrayOf(c)
  {
    GrayFixedPoint(GrayOf(c));
  }

  /** `(0xFFFFFF - (color >> 8 & 0xFFFFFF)) << 8 | (color & 0xFF)`: the
      difference is at most 0xFFFFFF, so the shift by 8 never wraps. */
  function InvertOf(c: u32): (d: u32)
    ensures R(d) == 0xFF - R(c) && G(d) == 0xFF - G(c) && B(d) == 0xFF - B(c)
    ensures A(d) == A(c)
  {
    InvertChannels(c);
    ByteMod(0xFF - R(c)); ByteMod(0xFF - G(c)); ByteMod(0xFF - B(c)); ByteMod(A(c));
    (0xFF_FFFF - c / 0x100 % 0x100_0000) * 0x100 + c % 0x100
  }

  /** The middle three bytes of a colour, read as one 24-bit number. */
  lemma InvertChannels(c: u32)
    ensures (0xFF_FFFF - c / 0x100 % 0x100_0000) * 0x100 + c % 0x100
            == RGBA(0xFF - R(c), 0xFF - G(c), 0xFF - B(c), A(c))
  {
    var rgb := R(c) * 0x1_0000 + G(c) * 0x100 + B(c);
    Decompose(c);
    assert c == rgb * 0x100 + A(c);
    DivModUnique(rgb, 0x100, A(c));
    assert c / 0x100 % 0x100_0000 == rgb;
    PackBytes(0xFF - R(c), 0xFF - G(c), 0xFF - B(c), A(c));
  }

  /** Inverting twice gives the colour back. */
  lemma InvertTwice(c: u32)
    ensures InvertOf(InvertOf(c)) == c
  {
    ChannelsDetermine(InvertOf(InvertOf(c)), c);
  }

  /** One sepia channel: the weighted sum of red, green and blue, with the
      weights given in thousandths, truncated as the conversion to u16 does.
      The sum is at most 255 * 1351 / 1000 < 2^16, so the u16 never wraps. */
  function SepiaRed(c: u32): nat { (R(c) * 393 + G(c) * 769 + B(c) * 189) / 1000 }
  function SepiaGreen(c: u32): nat { (R(c) * 349 + G(c) * 686 + B(c) * 168) / 1000 }
  function SepiaBlue(c: u32): nat { (R(c) * 272 + G(c) * 534 + B(c) * 131) / 1000 }

  /** The sepia pixel: red and green clamped to 255, blue not clamped (its
      weights sum to less than one, so it stays below 255), alpha kept. */
  function SepiaOf(c: u32): (d: u32)
    ensures A(d) == A(c)
    ensures R(d) == (if SepiaRed(c) > 255 then 255 else SepiaRed(c))
    ensures G(d) == (if SepiaGreen(c) > 255 then 255 else SepiaGreen(c))
    ensures B(d) == SepiaBlue(c) && SepiaBlue(c) <= 238
  {
    var sr := SepiaRed(c);
    var sg := SepiaGreen(c);
    var sb := SepiaBlue(c);
    var sr := if sr > 255 then 255 else sr;
    var sg := if sg > 255 then 255 else sg;
    assert sb <= 238;
    ByteMod(sr); ByteMod(sg); ByteMod(sb); ByteMod(A(c));
    RGBA(sr, sg, sb, A(c))
  }

  /** The common sweep of the three effects: rows y = 0 .. height-1, and in
      each row x = 0 .. width-1, `dst[x, y] := f(src[x, y])`.  A destination
      larger than the source keeps its other pixels. */
  method MapPixels(src: Texture, dst: Texture, f: u32 -> u32)
    requires src.Valid() && dst.Valid()
    requires src.width <= dst.width && src.height <= dst.height
    modifies dst.pixels
    ensures forall x, y :: 0 <= x < dst.width && 0 <= y < dst.height ==>
      dst.pixels[x, y] == if x < src.width && y < src.height then f(old(src.pixels[x, y]))
                          else old(dst.pixels[x, y])
  {
    var y := 0;
    while y < src.height
      invariant 0 <= y <= src.height
      invariant forall i, j :: 0 <= i < dst.width && 0 <= j < dst.height ==>
        dst.pixels[i, j] == if i < src.width && j < y then f(old(src.pixels[i, j]))
                            else old(dst.pixels[i, j])
      invariant forall i, j :: 0 <= i < src.width && y <= j < src.height ==>
        src.pixels[i, j] == old(src.pixels[i, j])
    {
      var x := 0;
      while x < src.width
        invariant 0 <= x <= src.width
        invariant forall i, j :: 0 <= i < dst.width && 0 <= j < dst.height ==>
          dst.pixels[i, j] == if i < src.width && (j < y || (j == y && i < x)) then f(old(src.pixels[i, j]))
                              else old(dst.pixels[i, j])
        invariant forall i, j :: 0 <= i < src.width && y <= j < src.height && (j > y || i >= x) ==>
          src.pixels[i, j] == old(src.pixels[i, j])
      {
        var color := src.pixels[x, y];
        dst.pixels[x, y] := f(color);
        x := x + 1;
      }
      y := y + 1;
    }
  }

  /** GRRLIB_BMFX_Grayscale: every source pixel becomes gray, alpha kept. */
  method Grayscale(src: Texture, dst: Texture)
    requires src.Valid() && dst.Valid()
    requires src.width <= dst.width && src.height <= dst.height
    modifies dst.pixels
    ensures forall x, y :: 0 <= x < src.width && 0 <= y < src.height ==>
      var c := old(src.pixels[x, y]);
      var d := dst.pixels[x, y];
      R(d) == Luma(c) && G(d) == Luma(c) && B(d) == Luma(c) && A(d) == A(c)
    ensures forall x, y :: 0 <= x < dst.width && 0 <= y < dst.height && !(x < src.width && y < src.height) ==>
      dst.pixels[x, y] == old(dst.pixels[x, y])
  {
    MapPixels(src, dst, GrayOf);
  }

  /** GRRLIB_BMFX_Sepia. */
  method Sepia(src: Texture, dst: Texture)
    requires src.Valid() && dst.Valid()
    requires src.width <= dst.width && src.height <= dst.height
    modifies dst.pixels
    ensures forall x, y :: 0 <= x < src.width && 0 <= y < src.height ==>
      dst.pixels[x, y] == SepiaOf(old(src.pixels[x, y]))
    ensures forall x, y :: 0 <= x < dst.width && 0 <= y < dst.height && !(x < src.width && y < src.height) ==>
      dst.pixels[x, y] == old(dst.pixels[x, y])
  {
    MapPixels(src, dst, SepiaOf);
  }

  /** GRRLIB_BMFX_Invert: each of red, green and blue becomes 255 minus
      itself, alpha kept. */
  method Invert(src: Texture, dst: Texture)
    requires src.Valid() && dst.Valid()
    requires src.width <= dst.width && src.height <= dst.height
    modifies dst.pixels
    ensures forall x, y :: 0 <= x < src.width && 0 <= y < src.height ==>
      var c := old(src.pixels[x, y]);
      var d := dst.pixels[x, y];
      R(d) == 0xFF - R(c) && G(d) == 0xFF - G(c) && B(d) == 0xFF - B(c) && A(d) == A(c)
    ensures forall x, y :: 0 <= x < dst.width && 0 <= y < dst.height && !(x < src.width && y < src.height) ==>
      dst.pixels[x, y] == old(dst.pixels[x, y])
  {
    MapPixels(src, dst, InvertOf);
  }

  /** Inverting a texture in place twice restores it. */
  method InvertTwiceInPlace(t: Texture)
    requires t.Valid()
    modifies t.pixels
    ensures forall x, y :: 0 <= x < t.width && 0 <= y < t.height ==> t.pixels[x, y] == old(t.pixels[x, y])
  {
    MapPixels(t, t, InvertOf);
    MapPixels(t, t, InvertOf);
    forall x, y | 0 <= x < t.width && 0 <= y < t.height
      ensures t.pixels[x, y] == old(t.pixels[x, y])
    {
      InvertTwice(old(t.pixels[x, y]));
    }
  }
}
