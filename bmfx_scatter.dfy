/** GRRLIB_BMFX_Scatter: every pixel trades places with a random partner
    nearby.  The sweep visits rows y = 0 .. height-1 and in each row
    x = 0 .. width-1; for each pixel it draws two random numbers, offsets for
    x and for y, forms the partner (val1, val2) in unsigned 32-bit
    arithmetic, and when the partner lies inside the source writes
    `dst[x, y] := src[val1, val2]` and then `dst[val1, val2] := src[x, y]`.
    When source and destination are one texture this is a swap, and the
    order of the sweep matters because later swaps see earlier ones.

    The C scales `rand()` to `(int)(2*factor * (rand() / (RAND_MAX + 1.0)))`;
    here the stream of those scaled numbers is given as `draws`, `draws(n)`
    being the answer to the n-th call: two calls per pixel, for val1 and
    then for val2, in the order of the sweep. */
module BmfxScatter {
  import opened Colour
  import opened Textures

  /** `int factorx2 = factor*2`: the u32 product, read as an int.  Below
      2^30 it is twice the factor; from there on the doubling wraps and the
      int can be zero or negative. */
  function Doubled(factor: nat): (m: int)
    ensures -0x8000_0000 <= m < 0x8000_0000
    ensures factor < 0x4000_0000 ==> m == 2 * factor
  {
    var u := (2 * factor) % 0x1_0000_0000;
    if factor < 0x4000_0000 then
      DivModUnique(0, 0x1_0000_0000, 2 * factor);
      u
    else if u < 0x8000_0000 then u else u - 0x1_0000_0000
  }

  /** What `(int) (factorx2 * (rand() / (RAND_MAX + 1.0)))` can give: the
      fraction is in [0, 1), so a positive factorx2 gives a number in
      [0, factorx2), and a zero or negative one, truncated toward zero, a
      number in (factorx2, 0]. */
  predicate ValidDraw(d: int, factor: nat) {
    var m := Doubled(factor);
    if m > 0 then 0 <= d < m else d == 0 || m < d <= 0
  }

  /** `x + draw - factor` computed in u32: the partner coordinate, which
      wraps round when the offset takes it below 0. */
  function Partner(x: nat, d: int, factor: nat): (p: u32)
    ensures 0 <= x + d - factor < 0x1_0000_0000 ==> p == x + d - factor
    ensures -0x1_0000_0000 <= x + d - factor < 0 ==> p == x + d - factor + 0x1_0000_0000
  {
    var v := x + d - factor;
    if 0 <= v < 0x1_0000_0000 then
      DivModUnique(0, 0x1_0000_0000, v);
      v % 0x1_0000_0000
    else if -0x1_0000_0000 <= v < 0 then
      DivModUnique(-1, 0x1_0000_0000, v + 0x1_0000_0000);
      v % 0x1_0000_0000
    else
      v % 0x1_0000_0000
  }

  /** A partner the test `val1 >= width` lets through is at most `factor`
      to the left and `factor - 1` to the right: a negative offset wraps to an
      unsigned value at least 2^32 - factor and is rejected, as long as the
      texture is not so wide that this value still counts as inside.  This
      needs factor < 2^30, where factorx2 does not wrap (see
      LargeFactorEscapes). */
  lemma PartnerRange(x: nat, d: int, factor: nat, w: nat)
    requires ValidDraw(d, factor) && x < w && w + factor <= 0x1_0000_0000
    requires factor < 0x4000_0000
    requires Partner(x, d, factor) < w
    ensures Partner(x, d, factor) == x + d - factor
    ensures x - factor <= Partner(x, d, factor)
    ensures factor == 0 ==> Partner(x, d, factor) == x
    ensures factor > 0 ==> Partner(x, d, factor) <= x + factor - 1
  {
    if x + d - factor < 0 {
      assert false;
    }
  }

  /** With factor 2^30 the doubling wraps to the int -2^31, a draw of -1 is
      possible, and in a texture 2^31 wide the partner of x = 2^30 + 1 is 0:
      accepted, yet further left than x - factor. */
  lemma LargeFactorEscapes()
    ensures var f, x, w := 0x4000_0000, 0x4000_0001, 0x8000_0000;
      && ValidDraw(-1, f) && x < w && w + f <= 0x1_0000_0000
      && Partner(x, -1, f) == 0 < w && Partner(x, -1, f) < x - f
  {
    var f := 0x4000_0000;
    DivModUnique(0, 0x1_0000_0000, 2 * f);
    assert Doubled(f) == -0x8000_0000;
  }

  /** One step of the sweep at pixel (x, y) with draws d1 and d2.  `s` is the
      source grid and `d` the destination grid; when they are one texture
      (`alias`) the reads see the destination as it is now.  A partner
      outside the source changes nothing; otherwise the pixel receives the
      partner's colour and the partner the pixel's (StepEffect adds that no
      other cell changes). */
  function Step(s: Grid, d: Grid, alias: bool, w: nat, h: nat, ww: nat, hh: nat,
                x: nat, y: nat, d1: int, d2: int, factor: nat): (r: Grid)
    requires IsGrid(s, w, h) && IsGrid(d, ww, hh) && w <= ww && h <= hh
    requires x < w && y < h
    ensures IsGrid(r, ww, hh)
    ensures var p, q := Partner(x, d1, factor), Partner(y, d2, factor);
      var from := if alias then d else s;
      && (p >= w || q >= h ==> r == d)
      && (p < w && q < h ==> r[p][q] == from[x][y] && r[x][y] == from[p][q])
  {
    var val1, val2 := Partner(x, d1, factor), Partner(y, d2, factor);
    if val1 >= w || val2 >= h then d
    else
      var from := if alias then d else s;
      var val3, val4 := from[x][y], from[val1][val2];
      var row: seq<u32> := d[x][y := val4];
      var d' := d[x := row];
      var row': seq<u32> := d'[val1][val2 := val3];
      d'[val1 := row']
  }

  /** Row y of the sweep, its first x pixels done, starting from `d`; the
      row's draws start at `base`, so pixel (i, y) uses draws base + 2*i and
      base + 2*i + 1. */
  function RowSweep(s: Grid, d: Grid, alias: bool, w: nat, h: nat, ww: nat, hh: nat,
                    factor: nat, draws: nat -> int, base: nat, y: nat, x: nat): (r: Grid)
    requires IsGrid(s, w, h) && IsGrid(d, ww, hh) && w <= ww && h <= hh
    requires y < h && x <= w
    ensures IsGrid(r, ww, hh)
  {
    if x == 0 then d
    else
      var n := base + 2 * (x - 1);
      Step(s, RowSweep(s, d, alias, w, h, ww, hh, factor, draws, base, y, x - 1), alias, w, h, ww, hh,
           x - 1, y, draws(n), draws(n + 1), factor)
  }

  /** The first y rows of the sweep, starting from `d`: row r's draws start
      at 2 * r * w. */
  function Sweep(s: Grid, d: Grid, alias: bool, w: nat, h: nat, ww: nat, hh: nat,
                 factor: nat, draws: nat -> int, y: nat): (r: Grid)
    requires IsGrid(s, w, h) && IsGrid(d, ww, hh) && w <= ww && h <= hh
    requires y <= h
    ensures IsGrid(r, ww, hh)
  {
    if y == 0 then d
    else
      RowSweep(s, Sweep(s, d, alias, w, h, ww, hh, factor, draws, y - 1), alias, w, h, ww, hh,
               factor, draws, 2 * (y - 1) * w, y - 1, w)
  }

  /** One more pixel of a row is one more Step. */
  lemma RowSweepNext(s: Grid, d: Grid, alias: bool, w: nat, h: nat, ww: nat, hh: nat,
                     factor: nat, draws: nat -> int, base: nat, y: nat, x: nat, n: nat)
    requires IsGrid(s, w, h) && IsGrid(d, ww, hh) && w <= ww && h <= hh
    requires y < h && x < w && n == base + 2 * x
    ensures RowSweep(s, d, alias, w, h, ww, hh, factor, draws, base, y, x + 1)
         == Step(s, RowSweep(s, d, alias, w, h, ww, hh, factor, draws, base, y, x), alias, w, h, ww, hh,
                 x, y, draws(n), draws(n + 1), factor)
  {
  }

  lemma NextRowBase(y: nat, w: nat)
    ensures 2 * (y + 1) * w == 2 * y * w + 2 * w
  {
  }

  /** The body of the sweep at pixel (x, y): it does to the destination
      what Step does to its grid. */
  method ScatterPixel(src: Texture, dst: Texture, x: nat, y: nat, d1: int, d2: int, factor: nat,
                      ghost s: Grid, ghost g: Grid) returns (ghost g': Grid)
    requires src.Valid() && dst.Valid()
    requires src.width <= dst.width && src.height <= dst.height
    requires x < src.width && y < src.height
    requires IsGrid(s, src.width, src.height) && Mirrors(dst.pixels, g)
    requires src.pixels != dst.pixels ==> Mirrors(src.pixels, s)
    modifies dst.pixels
    ensures g' == Step(s, g, src.pixels == dst.pixels, src.width, src.height, dst.width, dst.height,
                       x, y, d1, d2, factor)
    ensures Mirrors(dst.pixels, g')
  {
    g' := Step(s, g, src.pixels == dst.pixels, src.width, src.height, dst.width, dst.height,
               x, y, d1, d2, factor);
    var val1 := Partner(x, d1, factor);
    var val2 := Partner(y, d2, factor);
    if val1 >= src.width || val2 >= src.height {
    } else {
      var val3 := src.pixels[x, y];
      var val4 := src.pixels[val1, val2];
      dst.pixels[x, y] := val4;
      dst.pixels[val1, val2] := val3;
    }
  }

  /** The inner loop of the sweep: row y, x = 0 .. width-1, its draws from
      `base` on. */
  method ScatterRow(src: Texture, dst: Texture, y: nat, factor: nat, draws: nat -> int, base: nat,
                    ghost s: Grid, ghost g: Grid) returns (ghost g': Grid)
    requires src.Valid() && dst.Valid()
    requires src.width <= dst.width && src.height <= dst.height && y < src.height
    requires IsGrid(s, src.width, src.height) && Mirrors(dst.pixels, g)
    requires src.pixels != dst.pixels ==> Mirrors(src.pixels, s)
    modifies dst.pixels
    ensures g' == RowSweep(s, g, src.pixels == dst.pixels, src.width, src.height, dst.width, dst.height,
                           factor, draws, base, y, src.width)
    ensures Mirrors(dst.pixels, g')
  {
    g' := g;
    var n := base;
    var x := 0;
    while x < src.width
      invariant 0 <= x <= src.width && n == base + 2 * x
      invariant g' == RowSweep(s, g, src.pixels == dst.pixels, src.width, src.height, dst.width, dst.height,
                               factor, draws, base, y, x)
      invariant Mirrors(dst.pixels, g')
    {
      RowSweepNext(s, g, src.pixels == dst.pixels, src.width, src.height, dst.width, dst.height,
                   factor, draws, base, y, x, n);
      g' := ScatterPixel(src, dst, x, y, draws(n), draws(n + 1), factor, s, g');
      n := n + 2;
      x := x + 1;
    }
  }

  /** GRRLIB_BMFX_Scatter. */
  method Scatter(src: Texture, dst: Texture, factor: nat, draws: nat -> int)
    requires src.Valid() && dst.Valid()
    requires src.width <= dst.width && src.height <= dst.height
    modifies dst.pixels
    ensures Cells(dst.pixels) == Sweep(old(Cells(src.pixels)), old(Cells(dst.pixels)), src.pixels == dst.pixels,
                                       src.width, src.height, dst.width, dst.height, factor, draws, src.height)
  {
    var w, h := src.width, src.height;
    ghost var alias := src.pixels == dst.pixels;
    ghost var s := Cells(src.pixels);
    ghost var d0 := Cells(dst.pixels);
    ghost var g := d0;
    var n := 0;
    var y := 0;
    while y < h
      invariant 0 <= y <= h && n == 2 * y * w
      invariant g == Sweep(s, d0, alias, w, h, dst.width, dst.height, factor, draws, y)
      invariant Mirrors(dst.pixels, g)
      invariant !alias ==> Mirrors(src.pixels, s)
    {
      g := ScatterRow(src, dst, y, factor, draws, n, s, g);
      n := n + 2 * w;
      NextRowBase(y, w);
      y := y + 1;
    }
    MirrorsUnique(dst.pixels, Cells(dst.pixels), g);
  }

  /** Scattering a texture within itself keeps the number of pixels of
      every colour. */
  method ScatterInPlace(t: Texture, factor: nat, draws: nat -> int)
    requires t.Valid()
    modifies t.pixels
    ensures forall c :: Occurrences(Cells(t.pixels), c) == Occurrences(old(Cells(t.pixels)), c)
  {
    ghost var g0 := Cells(t.pixels);
    Scatter(t, t, factor, draws);
    forall c
      ensures Occurrences(Cells(t.pixels), c) == Occurrences(g0, c)
    {
      SweepInPlaceKeepsColours(g0, g0, t.width, t.height, t.width, t.height, factor, draws, t.height, c);
    }
  }

  /** What one step does when every draw is one the scaled `rand()` can give
      and the texture is not so wide that a wrapped partner counts as inside:
      a rejected partner changes nothing; an accepted one is within `factor`
      of the pixel, and the step writes exactly the pixel and its partner. */
  lemma StepEffect(s: Grid, d: Grid, alias: bool, w: nat, h: nat, ww: nat, hh: nat,
                   x: nat, y: nat, d1: int, d2: int, factor: nat)
    requires IsGrid(s, w, h) && IsGrid(d, ww, hh) && w <= ww && h <= hh
    requires x < w && y < h
    requires ValidDraw(d1, factor) && ValidDraw(d2, factor) && factor < 0x4000_0000
    requires w + factor <= 0x1_0000_0000 && h + factor <= 0x1_0000_0000
    ensures var r, p, q := Step(s, d, alias, w, h, ww, hh, x, y, d1, d2, factor),
                           Partner(x, d1, factor), Partner(y, d2, factor);
            var from := if alias then d else s;
            && (p >= w || q >= h ==> r == d)
            && (p < w && q < h ==>
                 && x - factor <= p && (p < x + factor || p == x)
                 && y - factor <= q && (q < y + factor || q == y)
                 && r[x][y] == from[p][q] && r[p][q] == from[x][y]
                 && forall i, j :: 0 <= i < ww && 0 <= j < hh && (i, j) != (x, y) && (i, j) != (p, q) ==>
                      r[i][j] == d[i][j])
  {
    var p, q := Partner(x, d1, factor), Partner(y, d2, factor);
    if p < w && q < h {
      PartnerRange(x, d1, factor, w);
      PartnerRange(y, d2, factor, h);
    }
  }

  /** How many cells of a row hold the colour c. */
  function RowOccurrences(row: seq<u32>, c: u32): nat {
    if |row| == 0 then 0 else (if row[0] == c then 1 else 0) + RowOccurrences(row[1..], c)
  }

  /** How many cells of a grid hold the colour c. */
  function Occurrences(g: Grid, c: u32): nat {
    if |g| == 0 then 0 else RowOccurrences(g[0], c) + Occurrences(g[1..], c)
  }

  /** 1 if a == c, else 0. */
  function Hit(a: u32, c: u32): nat { if a == c then 1 else 0 }

  /** Overwriting one cell of a row replaces one occurrence of its old colour
      by one of the new colour. */
  lemma {:induction false} UpdateRow(row: seq<u32>, j: nat, v: u32, c: u32)
    requires j < |row|
    ensures RowOccurrences(row[j := v], c) + Hit(row[j], c) == RowOccurrences(row, c) + Hit(v, c)
  {
    if j == 0 {
      assert row[j := v][1..] == row[1..];
    } else {
      assert row[j := v][1..] == row[1..][j - 1 := v];
      UpdateRow(row[1..], j - 1, v, c);
    }
  }

  /** The same for one cell of a grid. */
  lemma {:induction false} UpdateCell(g: Grid, i: nat, j: nat, v: u32, c: u32)
    requires i < |g| && j < |g[i]|
    ensures var row: seq<u32> := g[i][j := v];
      Occurrences(g[i := row], c) + Hit(g[i][j], c) == Occurrences(g, c) + Hit(v, c)
  {
    var row: seq<u32> := g[i][j := v];
    if i == 0 {
      assert g[i := row][1..] == g[1..];
      UpdateRow(g[0], j, v, c);
    } else {
      assert g[i := row][1..] == g[1..][i - 1 := row];
      UpdateCell(g[1..], i - 1, j, v, c);
    }
  }

  /** A swap made in place, as Step does when the source is the
      destination, keeps the number of cells of every colour. */
  lemma StepInPlaceKeepsColours(s: Grid, d: Grid, w: nat, h: nat, ww: nat, hh: nat,
                                x: nat, y: nat, d1: int, d2: int, factor: nat, c: u32)
    requires IsGrid(s, w, h) && IsGrid(d, ww, hh) && w <= ww && h <= hh
    requires x < w && y < h
    ensures Occurrences(Step(s, d, true, w, h, ww, hh, x, y, d1, d2, factor), c) == Occurrences(d, c)
  {
    var val1, val2 := Partner(x, d1, factor), Partner(y, d2, factor);
    if val1 < w && val2 < h {
      var a, b := d[x][y], d[val1][val2];
      var row: seq<u32> := d[x][y := b];
      var d' := d[x := row];
      UpdateCell(d, x, y, b, c);
      assert d'[val1][val2] == b;
      UpdateCell(d', val1, val2, a, c);
    }
  }

  lemma {:induction false} RowSweepInPlaceKeepsColours(s: Grid, d: Grid, w: nat, h: nat, ww: nat, hh: nat,
                                                       factor: nat, draws: nat -> int, base: nat, y: nat, x: nat,
                                                       c: u32)
    requires IsGrid(s, w, h) && IsGrid(d, ww, hh) && w <= ww && h <= hh
    requires y < h && x <= w
    ensures Occurrences(RowSweep(s, d, true, w, h, ww, hh, factor, draws, base, y, x), c) == Occurrences(d, c)
  {
    if x > 0 {
      var n := base + 2 * (x - 1);
      var prev := RowSweep(s, d, true, w, h, ww, hh, factor, draws, base, y, x - 1);
      RowSweepInPlaceKeepsColours(s, d, w, h, ww, hh, factor, draws, base, y, x - 1, c);
      StepInPlaceKeepsColours(s, prev, w, h, ww, hh, x - 1, y, draws(n), draws(n + 1), factor, c);
    }
  }

  /** Scatter within one texture only moves colours around: whatever the
      draws, every colour occurs in as many cells as before. */
  lemma {:induction false} SweepInPlaceKeepsColours(s: Grid, d: Grid, w: nat, h: nat, ww: nat, hh: nat,
                                                    factor: nat, draws: nat -> int, y: nat, c: u32)
    requires IsGrid(s, w, h) && IsGrid(d, ww, hh) && w <= ww && h <= hh
    requires y <= h
    ensures Occurrences(Sweep(s, d, true, w, h, ww, hh, factor, draws, y), c) == Occurrences(d, c)
  {
    if y > 0 {
      var prev := Sweep(s, d, true, w, h, ww, hh, factor, draws, y - 1);
      SweepInPlaceKeepsColours(s, d, w, h, ww, hh, factor, draws, y - 1, c);
      RowSweepInPlaceKeepsColours(s, prev, w, h, ww, hh, factor, draws, 2 * (y - 1) * w, y - 1, w, c);
    }
  }

  /** With factor 0 every draw is 0 and the partner of a pixel is the pixel
      itself: row y, its first x pixels done, has copied those pixels from
      the source, and within one texture has changed nothing. */
  lemma {:induction false} RowSweepFactorZero(s: Grid, d: Grid, alias: bool, w: nat, h: nat, ww: nat, hh: nat,
                                              draws: nat -> int, base: nat, y: nat, x: nat)
    requires IsGrid(s, w, h) && IsGrid(d, ww, hh) && w <= ww && h <= hh
    requires ww < 0x1_0000_0000 && hh < 0x1_0000_0000
    requires y < h && x <= w
    requires forall n :: ValidDraw(draws(n), 0)
    ensures var r := RowSweep(s, d, alias, w, h, ww, hh, 0, draws, base, y, x);
      forall i, j :: 0 <= i < ww && 0 <= j < hh ==>
        r[i][j] == if !alias && i < x && j == y then s[i][j] else d[i][j]
  {
    if x > 0 {
      var n := base + 2 * (x - 1);
      assert draws(n) == 0 && draws(n + 1) == 0 by {
        assert ValidDraw(draws(n), 0) && ValidDraw(draws(n + 1), 0);
      }
      DivModUnique(0, 0x1_0000_0000, x - 1);
      DivModUnique(0, 0x1_0000_0000, y);
      assert Partner(x - 1, 0, 0) == x - 1 && Partner(y, 0, 0) == y;
      RowSweepFactorZero(s, d, alias, w, h, ww, hh, draws, base, y, x - 1);
    }
  }

  /** GRRLIB_BMFX_Scatter with factor 0 copies the source into the
      destination, and within one texture leaves it as it is. */
  lemma {:induction false} SweepFactorZero(s: Grid, d: Grid, alias: bool, w: nat, h: nat, ww: nat, hh: nat,
                                           draws: nat -> int, y: nat)
    requires IsGrid(s, w, h) && IsGrid(d, ww, hh) && w <= ww && h <= hh
    requires ww < 0x1_0000_0000 && hh < 0x1_0000_0000
    requires y <= h
    requires forall n :: ValidDraw(draws(n), 0)
    ensures var r := Sweep(s, d, alias, w, h, ww, hh, 0, draws, y);
      forall i, j :: 0 <= i < ww && 0 <= j < hh ==>
        r[i][j] == if !alias && i < w && j < y then s[i][j] else d[i][j]
  {
    if y > 0 {
      var prev := Sweep(s, d, alias, w, h, ww, hh, 0, draws, y - 1);
      SweepFactorZero(s, d, alias, w, h, ww, hh, draws, y - 1);
      RowSweepFactorZero(s, prev, alias, w, h, ww, hh, draws, 2 * (y - 1) * w, y - 1, w);
    }
  }

  /** Within one texture, Scatter with factor 0 is the identity. */
  lemma SweepFactorZeroInPlace(g: Grid, w: nat, h: nat, draws: nat -> int)
    requires IsGrid(g, w, h) && w < 0x1_0000_0000 && h < 0x1_0000_0000
    requires forall n :: ValidDraw(draws(n), 0)
    ensures Sweep(g, g, true, w, h, w, h, 0, draws, h) == g
  {
    var r := Sweep(g, g, true, w, h, w, h, 0, draws, h);
    SweepFactorZero(g, g, true, w, h, w, h, draws, h);
    forall i | 0 <= i < w
      ensures r[i] == g[i]
    {
      assert forall j :: 0 <= j < h ==> r[i][j] == g[i][j];
    }
  }
}
