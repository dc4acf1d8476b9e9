/** GRRLIB_BMFX_Blur: a box blur.  For each pixel, columns x outer and rows
    y inner, the (2*factor+1)^2 colours of its neighbourhood are gathered
    into a scratch array `colours`, column k = x-factor .. x+factor outer and
    row l = y-factor .. y+factor inner; a sample outside the texture is
    replaced by the pixel's own colour.  Each channel of the result is the
    truncated mean of that channel over the scratch array.

    The loop counters k and l are s32 while x, y and factor are u32: the
    start `x - factor` wraps and is stored as a negative s32, and the test
    `k <= x + factor` converts k back to u32.  When x < factor (or
    y < factor) the converted start is huge and the loop runs zero times, so
    the scratch array keeps whatever it held before; in the C only pixels
    with x >= factor and y >= factor have a specified result.  The gathering
    loops take a flag choosing that unsigned test or the signed one the
    `k < 0` and `l < 0` tests were written for: Blur is the sweep as
    written, BlurIntended the corrected one. */
module BmfxBlur {
  import opened Colour
  import opened Textures

  /** The conversion of an s32 to u32: a negative value gains 2^32, any
      other is kept. */
  function AsUnsigned(k: int): (u: u32)
    ensures -0x8000_0000 <= k < 0x8000_0000 ==> u == if k < 0 then k + 0x1_0000_0000 else k
  {
    if -0x8000_0000 <= k < 0 then
      DivModUnique(-1, 0x1_0000_0000, k + 0x1_0000_0000);
      k % 0x1_0000_0000
    else if 0 <= k < 0x8000_0000 then
      DivModUnique(0, 0x1_0000_0000, k);
      k % 0x1_0000_0000
    else
      k % 0x1_0000_0000
  }

  /** The side of the neighbourhood, `1 + (factor << 1)`: the centre with
      factor samples on either side. */
  function Side(f: nat): nat {
    2 * f + 1
  }

  /** The sample at (k, l) for the pixel (x, y): the source colour there, or
      the pixel's own colour when (k, l) is outside the texture. */
  function Sample(g: Grid, w: nat, h: nat, x: nat, y: nat, k: int, l: int): u32
    requires IsGrid(g, w, h) && x < w && y < h
  {
    if k < 0 || k >= w || l < 0 || l >= h then g[x][y] else g[k][l]
  }

  /** For s32 coordinates the C's test, which compares k with the width and
      l with the height as unsigned numbers, picks the same sample. */
  lemma SampleAsTested(g: Grid, w: nat, h: nat, x: nat, y: nat, k: int, l: int)
    requires IsGrid(g, w, h) && x < w && y < h
    requires -0x8000_0000 <= k < 0x8000_0000 && -0x8000_0000 <= l < 0x8000_0000
    ensures Sample(g, w, h, x, y, k, l)
         == if k < 0 || AsUnsigned(k) >= w || l < 0 || AsUnsigned(l) >= h then g[x][y] else g[k][l]
  {
  }

  /** The samples of column k, rows l0 .. l0+n-1. */
  function Rows(g: Grid, w: nat, h: nat, x: nat, y: nat, k: int, l0: int, n: nat): (col: seq<u32>)
    requires IsGrid(g, w, h) && x < w && y < h
    ensures |col| == n
    ensures forall j :: 0 <= j < n ==> col[j] == Sample(g, w, h, x, y, k, l0 + j)
  {
    if n == 0 then [] else Rows(g, w, h, x, y, k, l0, n - 1) + [Sample(g, w, h, x, y, k, l0 + n - 1)]
  }

  /** The samples of column k, rows y-f .. y+f. */
  function Column(g: Grid, w: nat, h: nat, x: nat, y: nat, f: nat, k: int): (col: seq<u32>)
    requires IsGrid(g, w, h) && x < w && y < h
    ensures |col| == Side(f)
    ensures forall j :: 0 <= j < Side(f) ==> col[j] == Sample(g, w, h, x, y, k, y - f + j)
  {
    Rows(g, w, h, x, y, k, y - f, Side(f))
  }

  /** The samples of the first i columns x-f, x-f+1, ..., in the order they
      are written to the scratch array. */
  function WindowPrefix(g: Grid, w: nat, h: nat, x: nat, y: nat, f: nat, i: nat): (ws: seq<u32>)
    requires IsGrid(g, w, h) && x < w && y < h
  {
    if i == 0 then []
    else WindowPrefix(g, w, h, x, y, f, i - 1) + Column(g, w, h, x, y, f, x - f + (i - 1))
  }

  /** The whole neighbourhood of (x, y). */
  function Window(g: Grid, w: nat, h: nat, x: nat, y: nat, f: nat): seq<u32>
    requires IsGrid(g, w, h) && x < w && y < h
  {
    WindowPrefix(g, w, h, x, y, f, Side(f))
  }

  /** The sum of one channel over a sequence of colours. */
  function ChannelSum(cs: seq<u32>, ch: Channel): nat {
    if |cs| == 0 then 0 else ChannelSum(cs[..|cs| - 1], ch) + ChannelOf(cs[|cs| - 1], ch)
  }

  /** The colour whose every channel is the truncated mean of that channel
      over cs: what the accumulation, the division by `numba` and the
      final packing compute. */
  function MeanColour(cs: seq<u32>): (c: u32)
    requires |cs| > 0
    ensures forall ch :: ChannelOf(c, ch) == ChannelSum(cs, ch) / |cs|
  {
    var r, g, b, a := ChannelSum(cs, Red) / |cs|, ChannelSum(cs, Green) / |cs|,
                      ChannelSum(cs, Blue) / |cs|, ChannelSum(cs, Alpha) / |cs|;
    MeanBound(cs, Red); MeanBound(cs, Green); MeanBound(cs, Blue); MeanBound(cs, Alpha);
    ByteMod(r); ByteMod(g); ByteMod(b); ByteMod(a);
    RGBA(r, g, b, a)
  }

  /** The blurred colour of (x, y): the mean of its neighbourhood of
      Side(f) * Side(f) samples. */
  function BlurOf(g: Grid, w: nat, h: nat, x: nat, y: nat, f: nat): (c: u32)
    requires IsGrid(g, w, h) && x < w && y < h
    ensures forall ch :: ChannelOf(c, ch) == ChannelSum(Window(g, w, h, x, y, f), ch) / (Side(f) * Side(f))
  {
    WindowLength(g, w, h, x, y, f, Side(f));
    MeanColour(Window(g, w, h, x, y, f))
  }

  lemma NextMultiple(i: nat, n: nat)
    ensures (i + 1) * n == i * n + n
  {
  }

  /** i full columns hold i * Side(f) samples. */
  lemma {:induction false} WindowLength(g: Grid, w: nat, h: nat, x: nat, y: nat, f: nat, i: nat)
    requires IsGrid(g, w, h) && x < w && y < h
    ensures |WindowPrefix(g, w, h, x, y, f, i)| == i * Side(f)
    ensures i > 0 ==> |WindowPrefix(g, w, h, x, y, f, i)| > 0
  {
    if i > 0 {
      WindowLength(g, w, h, x, y, f, i - 1);
      NextMultiple(i - 1, Side(f));
    }
  }

  /** A channel is a byte, so its sum over n colours is at most 255 * n. */
  lemma {:induction false} ChannelSumBound(cs: seq<u32>, ch: Channel)
    ensures ChannelSum(cs, ch) <= 255 * |cs|
  {
    if |cs| > 0 {
      ChannelSumBound(cs[..|cs| - 1], ch);
    }
  }

  /** A sum of n bytes divided by n is a byte. */
  lemma QuotientBound(s: nat, n: nat)
    requires n > 0 && s <= 255 * n
    ensures s / n <= 255
  {
    DivModUnique(s / n, n, s % n);
    MulSign(s / n - 255, n);
    assert (s / n - 255) * n == (s / n) * n - 255 * n;
  }

  /** Each mean is a byte, and packing it loses nothing. */
  lemma MeanBound(cs: seq<u32>, ch: Channel)
    requires |cs| > 0
    ensures ChannelSum(cs, ch) / |cs| <= 255
  {
    ChannelSumBound(cs, ch);
    QuotientBound(ChannelSum(cs, ch), |cs|);
  }

  /** Every colour of cs is c. */
  predicate AllOf(cs: seq<u32>, c: u32) {
    forall t :: 0 <= t < |cs| ==> cs[t] == c
  }

  /** The sum of a channel over a sequence of one colour. */
  lemma {:induction false} ChannelSumConstant(cs: seq<u32>, c: u32, ch: Channel)
    requires AllOf(cs, c)
    ensures ChannelSum(cs, ch) == |cs| * ChannelOf(c, ch)
  {
    if |cs| > 0 {
      ChannelSumConstant(cs[..|cs| - 1], c, ch);
      NextMultiple(|cs| - 1, ChannelOf(c, ch));
    }
  }

  /** The mean colour of a sequence of one colour is that colour. */
  lemma MeanOfConstant(cs: seq<u32>, c: u32)
    requires |cs| > 0 && AllOf(cs, c)
    ensures MeanColour(cs) == c
  {
    var n := |cs|;
    var m := MeanColour(cs);
    forall ch
      ensures ChannelOf(m, ch) == ChannelOf(c, ch)
    {
      ChannelSumConstant(cs, c, ch);
      DivModUnique(ChannelOf(c, ch), n, 0);
    }
    assert ChannelOf(m, Red) == ChannelOf(c, Red) && ChannelOf(m, Green) == ChannelOf(c, Green);
    assert ChannelOf(m, Blue) == ChannelOf(c, Blue) && ChannelOf(m, Alpha) == ChannelOf(c, Alpha);
    ChannelsDetermine(m, c);
  }

  /** With factor 0 the neighbourhood is the pixel alone, and the blur
      leaves it as it is. */
  lemma BlurFactorZero(g: Grid, w: nat, h: nat, x: nat, y: nat)
    requires IsGrid(g, w, h) && x < w && y < h
    ensures Window(g, w, h, x, y, 0) == [g[x][y]]
    ensures BlurOf(g, w, h, x, y, 0) == g[x][y]
  {
    assert WindowPrefix(g, w, h, x, y, 0, 1) == [] + Column(g, w, h, x, y, 0, x);
    MeanOfConstant([g[x][y]], g[x][y]);
  }

  /** Every sample of an image of one colour is that colour. */
  lemma {:induction false} UniformWindow(g: Grid, w: nat, h: nat, x: nat, y: nat, f: nat, i: nat, c: u32)
    requires IsGrid(g, w, h) && x < w && y < h
    requires forall k, l :: 0 <= k < w && 0 <= l < h ==> g[k][l] == c
    ensures AllOf(WindowPrefix(g, w, h, x, y, f, i), c)
  {
    if i > 0 {
      UniformWindow(g, w, h, x, y, f, i - 1, c);
      var prev := WindowPrefix(g, w, h, x, y, f, i - 1);
      var col := Column(g, w, h, x, y, f, x - f + (i - 1));
      var ws := WindowPrefix(g, w, h, x, y, f, i);
      assert ws == prev + col;
      forall t | 0 <= t < |ws|
        ensures ws[t] == c
      {
        if t < |prev| {
          assert ws[t] == prev[t];
        } else {
          var j, k := t - |prev|, x - f + (i - 1);
          assert ws[t] == col[j] == Sample(g, w, h, x, y, k, y - f + j);
          assert g[x][y] == c;
        }
      }
    }
  }

  /** A uniform image is unchanged by the blur. */
  lemma BlurUniform(g: Grid, w: nat, h: nat, x: nat, y: nat, f: nat, c: u32)
    requires IsGrid(g, w, h) && x < w && y < h
    requires forall k, l :: 0 <= k < w && 0 <= l < h ==> g[k][l] == c
    ensures BlurOf(g, w, h, x, y, f) == c
  {
    WindowLength(g, w, h, x, y, f, Side(f));
    UniformWindow(g, w, h, x, y, f, Side(f), c);
    MeanOfConstant(Window(g, w, h, x, y, f), c);
  }

  /** Every sample is the centre colour or a source pixel of the
      neighbourhood; for x >= f and y >= f the replaced ones lie beyond the
      right or the bottom edge. */
  lemma {:induction false} WindowSamples(g: Grid, w: nat, h: nat, x: nat, y: nat, f: nat, i: nat)
    requires IsGrid(g, w, h) && x < w && y < h && f <= x && f <= y && i <= Side(f)
    ensures AllInNeighbourhood(g, w, h, x, y, f, WindowPrefix(g, w, h, x, y, f, i))
  {
    if i > 0 {
      WindowSamples(g, w, h, x, y, f, i - 1);
      var prev := WindowPrefix(g, w, h, x, y, f, i - 1);
      var k := x - f + (i - 1);
      var col := Column(g, w, h, x, y, f, k);
      forall j | 0 <= j < |col|
        ensures InNeighbourhood(g, w, h, x, y, f, col[j])
      {
        var l := y - f + j;
        assert col[j] == Sample(g, w, h, x, y, k, l);
        if k < w && l < h {
          assert x - f <= k <= x + f && y - f <= l <= y + f;
          assert col[j] == g[k][l];
        }
      }
      var ws := WindowPrefix(g, w, h, x, y, f, i);
      assert ws == prev + col;
      forall t | 0 <= t < |ws|
        ensures InNeighbourhood(g, w, h, x, y, f, ws[t])
      {
        if t < |prev| {
          assert ws[t] == prev[t];
        } else {
          var j := t - |prev|;
          assert ws[t] == col[j];
        }
      }
    }
  }

  ghost predicate AllInNeighbourhood(g: Grid, w: nat, h: nat, x: nat, y: nat, f: nat, cs: seq<u32>)
    requires IsGrid(g, w, h) && x < w && y < h
  {
    forall t :: 0 <= t < |cs| ==> InNeighbourhood(g, w, h, x, y, f, cs[t])
  }

  /** The colour c is the centre colour of (x, y) or that of a pixel of the
      texture at most f away in each direction. */
  ghost predicate InNeighbourhood(g: Grid, w: nat, h: nat, x: nat, y: nat, f: nat, c: u32)
    requires IsGrid(g, w, h) && x < w && y < h
  {
    || c == g[x][y]
    || exists k: nat, l: nat :: x - f <= k <= x + f && y - f <= l <= y + f && k < w && l < h && c == g[k][l]
  }

  lemma ColumnsFit(i: nat, n: nat)
    requires i < n
    ensures i * n + n <= n * n
  {
    NextMultiple(i, n);
    var d := n - (i + 1);
    assert n * n == (i + 1) * n + d * n;
  }

  /** The test of both gathering loops, `k <= x + factor`: as the C makes
      it, converting the s32 counter to u32, or (signedTest) on the signed
      value. */
  predicate LoopTest(c: int, centre: nat, f: nat, signedTest: bool) {
    if signedTest then c <= centre + f else AsUnsigned(c) <= centre + f
  }

  /** From the start centre - f on, the test is the plain comparison
      whenever it is signed or the start is not negative; with the C's test
      and a negative start it fails at once. */
  lemma LoopTestMeans(c: int, centre: nat, f: nat, signedTest: bool)
    requires centre - f <= c < 0x8000_0000 && centre + f < 0x8000_0000
    ensures signedTest || f <= centre ==> (LoopTest(c, centre, f, signedTest) <==> c <= centre + f)
    ensures !signedTest && centre < f && c == centre - f ==> !LoopTest(c, centre, f, signedTest)
  {
  }

  /** The inner gathering loop: rows l = y-factor .. y+factor of column k,
      written to the scratch array from index tmp0 on.  With the C's test
      (signedTest false) and y < factor, the converted start exceeds
      `y + factor` and nothing is written; signedTest compares l as the
      signed number it is. */
  method FillColumn(src: Texture, colours: array<u32>, x: nat, y: nat, k: int, factor: nat,
                    thiscol: u32, tmp0: nat, signedTest: bool, ghost g: Grid) returns (tmp: nat)
    requires src.Valid() && x < src.width && y < src.height && thiscol == src.pixels[x, y]
    requires Mirrors(src.pixels, g)
    requires -0x8000_0000 <= k < 0x8000_0000 && src.height + factor < 0x8000_0000
    requires signedTest || factor <= y ==> tmp0 + Side(factor) <= colours.Length
    modifies colours
    ensures !signedTest && factor > y ==> tmp == tmp0 && colours[..] == old(colours[..])
    ensures signedTest || factor <= y ==>
      && tmp == tmp0 + Side(factor) && colours[..tmp0] == old(colours[..tmp0])
      && colours[tmp0..tmp] == Column(g, src.width, src.height, x, y, factor, k)
  {
    ghost var col := Column(g, src.width, src.height, x, y, factor, k);
    ghost var runs := signedTest || factor <= y;
    var h, f := src.height, factor;
    tmp := tmp0;
    var l: int := y - f;
    LoopTestMeans(l, y, f, signedTest);
    while LoopTest(l, y, f, signedTest)
      invariant !runs ==> l == y - f && tmp == tmp0 && colours[..] == old(colours[..])
      invariant runs ==> y - f <= l <= y + f + 1 && tmp == tmp0 + (l - (y - f))
      invariant runs ==> colours[..tmp0] == old(colours[..tmp0])
      invariant runs ==> colours[tmp0..tmp] == col[..l - (y - f)]
      invariant -0x8000_0000 <= l < 0x8000_0000
      decreases y + f + 1 - l
    {
      var c;
      if k < 0 || AsUnsigned(k) >= src.width || l < 0 || AsUnsigned(l) >= h {
        c := thiscol;
      } else {
        c := src.pixels[k, l];
      }
      SampleAsTested(g, src.width, h, x, y, k, l);
      assert c == col[l - (y - f)];
      colours[tmp] := c;
      tmp := tmp + 1;
      l := l + 1;
      LoopTestMeans(l, y, f, signedTest);
    }
  }

  /** One more gathered column, written after the first i, extends the
      gathered prefix of the scratch array by that column. */
  lemma GatherStep(g: Grid, w: nat, h: nat, x: nat, y: nat, f: nat, i: nat,
                   colours: array<u32>, base: nat, tmp: nat)
    requires IsGrid(g, w, h) && x < w && y < h && base <= tmp <= colours.Length
    requires base == i * Side(f) && colours[..base] == WindowPrefix(g, w, h, x, y, f, i)
    requires colours[base..tmp] == Column(g, w, h, x, y, f, x - f + i)
    ensures tmp == (i + 1) * Side(f) && colours[..tmp] == WindowPrefix(g, w, h, x, y, f, i + 1)
  {
    NextMultiple(i, Side(f));
    assert colours[..tmp] == colours[..base] + colours[base..tmp];
  }

  /** The two gathering loops for the pixel (x, y).  With the C's unsigned
      tests the scratch array is filled only for x >= factor and
      y >= factor, and otherwise left as it was; with signed tests it holds
      the whole neighbourhood for every pixel. */
  method FillWindow(src: Texture, colours: array<u32>, x: nat, y: nat, factor: nat, signedTest: bool)
    requires src.Valid() && x < src.width && y < src.height
    requires src.width + factor < 0x8000_0000 && src.height + factor < 0x8000_0000
    requires colours.Length == Side(factor) * Side(factor)
    modifies colours
    ensures signedTest || (factor <= x && factor <= y) ==>
      colours[..] == Window(Cells(src.pixels), src.width, src.height, x, y, factor)
    ensures !signedTest && (x < factor || y < factor) ==> colours[..] == old(colours[..])
  {
    ghost var g := Cells(src.pixels);
    ghost var full := (signedTest || factor <= x) && (signedTest || factor <= y);
    ghost var i := 0;
    var f := factor;
    var thiscol := src.pixels[x, y];
    var tmp := 0;
    var k: int := x - f;
    LoopTestMeans(k, x, f, signedTest);
    while LoopTest(k, x, f, signedTest)
      invariant k == x - f + i && 0 <= i <= Side(f) && (!signedTest && x < f ==> i == 0)
      invariant 0 <= tmp <= colours.Length && Mirrors(src.pixels, g)
      invariant !signedTest && y < f ==> tmp == 0
      invariant full ==> tmp == i * Side(f) && colours[..tmp] == WindowPrefix(g, src.width, src.height, x, y, f, i)
      invariant !full ==> colours[..] == old(colours[..])
      invariant -0x8000_0000 <= k < 0x8000_0000
      decreases x + f + 1 - k
    {
      ghost var base := tmp;
      if signedTest || f <= y {
        ColumnsFit(i, Side(f));
      }
      tmp := FillColumn(src, colours, x, y, k, f, thiscol, tmp, signedTest, g);
      if full {
        GatherStep(g, src.width, src.height, x, y, f, i, colours, base, tmp);
      }
      k, i := k + 1, i + 1;
      LoopTestMeans(k, x, f, signedTest);
    }
    if full {
      assert tmp == colours.Length;
      assert colours[..] == colours[..tmp];
    }
  }

  /** With the C's test, a pixel nearer the left edge than factor gathers
      nothing: the start x - factor, converted to u32, already exceeds
      x + factor. */
  lemma UnsignedStartSkips(x: nat, f: nat)
    requires x < f && x + f < 0x8000_0000
    ensures AsUnsigned(x - f) > x + f
  {
  }

  /** The accumulation loop and the division by `numba`. */
  method Average(colours: array<u32>) returns (c: u32)
    requires colours.Length > 0 && 255 * colours.Length < 0x8000_0000
    ensures c == MeanColour(colours[..])
  {
    var numba := colours.Length;
    var newr, newg, newb, newa := 0, 0, 0, 0;
    var tmp := 0;
    while tmp < numba
      invariant 0 <= tmp <= numba
      invariant newr == ChannelSum(colours[..tmp], Red) && newg == ChannelSum(colours[..tmp], Green)
      invariant newb == ChannelSum(colours[..tmp], Blue) && newa == ChannelSum(colours[..tmp], Alpha)
    {
      assert colours[..tmp + 1][..tmp] == colours[..tmp];
      newr := newr + R(colours[tmp]);
      newg := newg + G(colours[tmp]);
      newb := newb + B(colours[tmp]);
      newa := newa + A(colours[tmp]);
      tmp := tmp + 1;
    }
    assert colours[..tmp] == colours[..];
    c := RGBA(newr / numba, newg / numba, newb / numba, newa / numba);
  }

  /** The body of the sweep at (x, y): gather, then average. */
  method BlurPixel(src: Texture, colours: array<u32>, x: nat, y: nat, factor: nat, signedTest: bool)
    returns (c: u32)
    requires src.Valid() && x < src.width && y < src.height
    requires src.width + factor < 0x8000_0000 && src.height + factor < 0x8000_0000
    requires colours.Length == Side(factor) * Side(factor) && 255 * colours.Length < 0x8000_0000
    modifies colours
    ensures signedTest || (factor <= x && factor <= y) ==>
      c == BlurOf(Cells(src.pixels), src.width, src.height, x, y, factor)
  {
    FillWindow(src, colours, x, y, factor, signedTest);
    c := Average(colours);
  }

  /** The inner loop of the sweep: column x, rows y = 0 .. height-1. */
  method BlurColumn(src: Texture, dst: Texture, colours: array<u32>, x: nat, factor: nat,
                    signedTest: bool, ghost g: Grid)
    requires src.Valid() && dst.Valid() && src.pixels != dst.pixels && Mirrors(src.pixels, g)
    requires src.width <= dst.width && src.height <= dst.height && x < src.width
    requires src.width + factor < 0x8000_0000 && src.height + factor < 0x8000_0000
    requires colours.Length == Side(factor) * Side(factor) && 255 * colours.Length < 0x8000_0000
    modifies dst.pixels, colours
    ensures forall j :: 0 <= j < src.height && (signedTest || (factor <= x && factor <= j)) ==>
      dst.pixels[x, j] == BlurOf(g, src.width, src.height, x, j, factor)
    ensures forall i, j :: 0 <= i < dst.width && 0 <= j < dst.height && !(i == x && j < src.height) ==>
      dst.pixels[i, j] == old(dst.pixels[i, j])
  {
    var y := 0;
    while y < src.height
      invariant 0 <= y <= src.height
      invariant forall j :: 0 <= j < y && (signedTest || (factor <= x && factor <= j)) ==>
        dst.pixels[x, j] == BlurOf(g, src.width, src.height, x, j, factor)
      invariant forall i, j :: 0 <= i < dst.width && 0 <= j < dst.height && !(i == x && j < y) ==>
        dst.pixels[i, j] == old(dst.pixels[i, j])
    {
      var c := BlurPixel(src, colours, x, y, factor, signedTest);
      MirrorsUnique(src.pixels, Cells(src.pixels), g);
      dst.pixels[x, y] := c;
      y := y + 1;
    }
  }

  /** The sweep: columns x outer, rows y inner, one scratch array of
      `numba` colours for all pixels. */
  method BlurSweep(src: Texture, dst: Texture, factor: nat, signedTest: bool)
    requires src.Valid() && dst.Valid() && src.pixels != dst.pixels
    requires src.width <= dst.width && src.height <= dst.height
    requires src.width + factor < 0x8000_0000 && src.height + factor < 0x8000_0000
    requires 255 * (Side(factor) * Side(factor)) < 0x8000_0000
    modifies dst.pixels
    ensures forall x, y :: 0 <= x < src.width && 0 <= y < src.height && (signedTest || (factor <= x && factor <= y)) ==>
      dst.pixels[x, y] == BlurOf(Cells(src.pixels), src.width, src.height, x, y, factor)
    ensures forall x, y :: 0 <= x < dst.width && 0 <= y < dst.height && !(x < src.width && y < src.height) ==>
      dst.pixels[x, y] == old(dst.pixels[x, y])
  {
    ghost var g := Cells(src.pixels);
    var numba := Side(factor) * Side(factor);
    var colours := new u32[numba];
    var x := 0;
    while x < src.width
      invariant 0 <= x <= src.width && Mirrors(src.pixels, g)
      invariant forall i, j :: 0 <= i < x && 0 <= j < src.height && (signedTest || (factor <= i && factor <= j)) ==>
        dst.pixels[i, j] == BlurOf(g, src.width, src.height, i, j, factor)
      invariant forall i, j :: 0 <= i < dst.width && 0 <= j < dst.height && !(i < x && j < src.height) ==>
        dst.pixels[i, j] == old(dst.pixels[i, j])
    {
      BlurColumn(src, dst, colours, x, factor, signedTest, g);
      x := x + 1;
    }
    MirrorsUnique(src.pixels, Cells(src.pixels), g);
  }

  /** GRRLIB_BMFX_Blur as written: every pixel with x >= factor and
      y >= factor gets the mean of its neighbourhood; the others get the
      mean of whatever the scratch array held. */
  method Blur(src: Texture, dst: Texture, factor: nat)
    requires src.Valid() && dst.Valid() && src.pixels != dst.pixels
    requires src.width <= dst.width && src.height <= dst.height
    requires src.width + factor < 0x8000_0000 && src.height + factor < 0x8000_0000
    requires 255 * (Side(factor) * Side(factor)) < 0x8000_0000
    modifies dst.pixels
    ensures forall x, y :: factor <= x < src.width && factor <= y < src.height ==>
      dst.pixels[x, y] == BlurOf(Cells(src.pixels), src.width, src.height, x, y, factor)
    ensures forall x, y :: 0 <= x < dst.width && 0 <= y < dst.height && !(x < src.width && y < src.height) ==>
      dst.pixels[x, y] == old(dst.pixels[x, y])
  {
    BlurSweep(src, dst, factor, false);
  }

  /** The blur with the loop tests made on signed numbers, as the
      out-of-range tests `k < 0` and `l < 0` show was meant: every pixel of
      the source's extent gets the mean of its neighbourhood, samples off
      the texture counting as the pixel's own colour. */
  method BlurIntended(src: Texture, dst: Texture, factor: nat)
    requires src.Valid() && dst.Valid() && src.pixels != dst.pixels
    requires src.width <= dst.width && src.height <= dst.height
    requires src.width + factor < 0x8000_0000 && src.height + factor < 0x8000_0000
    requires 255 * (Side(factor) * Side(factor)) < 0x8000_0000
    modifies dst.pixels
    ensures forall x, y :: 0 <= x < src.width && 0 <= y < src.height ==>
      dst.pixels[x, y] == BlurOf(Cells(src.pixels), src.width, src.height, x, y, factor)
    ensures forall x, y :: 0 <= x < dst.width && 0 <= y < dst.height && !(x < src.width && y < src.height) ==>
      dst.pixels[x, y] == old(dst.pixels[x, y])
  {
    BlurSweep(src, dst, factor, true);
  }
}
