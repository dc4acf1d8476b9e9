# GRRLIB texture effects, modelled in Dafny

GRRLIB is a 2D graphics library for a games console. This project models its
texture effects module (`GRRLIB_bmfx.c`), together with the packed-colour
macros and the texture record it relies on (`grrlib-mod.h`). Each effect
reads a source texture and writes a destination texture pixel by pixel:

- horizontal and vertical flip;
- grayscale, sepia and invert;
- box blur;
- random scatter;
- pixelate.

Files and modules:

| file | module | contents |
|---|---|---|
| `colour.dfy` | `Colour` | the `u32` colour, the channel extractors `GRRLIB_R/G/B/A` and `GRRLIB_RGBA` |
| `textures.dfy` | `Textures` | the texture record as a class with a width, a height and an `array2<u32>` of pixels indexed `[x, y]`; `Cells` reads an array as a grid value |
| `bmfx_flip.dfy` | `BmfxFlip` | FlipH and FlipV |
| `bmfx_pixel.dfy` | `BmfxPixel` | Grayscale, Sepia and Invert: a colour function each, plus the common sweep |
| `bmfx_blur.dfy` | `BmfxBlur` | Blur: the gathering loops, the accumulation and the sweep |
| `bmfx_scatter.dfy` | `BmfxScatter` | Scatter: the sweep of swaps, specified step by step on grid values |
| `bmfx_pixelate.dfy` | `BmfxPixelate` | Pixelate: the block corners and the block fill |

How the effects are modelled:

- Every effect is a `method` whose nested loops follow the C's loops in the C's order. Its `ensures` gives each destination pixel as a function of the old source and destination. The one exception is Blur's pixels with `x < factor` or `y < factor`, which stay unconstrained (see "## Left out").
- Blur and Scatter have more involved specifications, written as functions of grid values.
- `BlurOf` is the mean of a neighbourhood.
- `Sweep` is Scatter's fold of swap steps over the scan order. The random numbers are passed in as a function `draws` from the call number to the scaled value.

The C mixes signed and unsigned arithmetic. Every place where that matters is written out:

- the wrap of `x + draw - factor` in Scatter;
- the s32 counters of Blur;
- the unsigned `width - 1 - factor` of Pixelate.

Blur tests `k < 0` and `l < 0` at `src/GRRLIB_bmfx.c:158`. Those tests show that an out-of-range sample on any side of the texture was meant to count as the centre colour. As written, though, the loop tests compare unsigned, so this happens only for pixels with `x >= factor` and `y >= factor`. The model follows the code and records the difference under "## Findings".

## Model

| member | source | states |
|---|---|---|
| Colour.R | src/grrlib-mod.h:60 | the red extractor yields a byte |
| Colour.G | src/grrlib-mod.h:61 | the green extractor yields a byte |
| Colour.B | src/grrlib-mod.h:62 | the blue extractor yields a byte |
| Colour.A | src/grrlib-mod.h:63 | the alpha extractor yields a byte |
| Colour.ChannelOf | src/grrlib-mod.h:60-63 | any channel, selected by name, is a byte |
| Colour.RGBA | src/grrlib-mod.h:72-75 | each channel of the packed colour reads back as its argument modulo 256, so an oversize component never spills into another channel |
| Colour.ByteFields | src/grrlib-mod.h:60-75 | four bytes placed at shifts 24, 16, 8 and 0 give a u32 from which the extractors recover each byte |
| Colour.PackBytes | src/grrlib-mod.h:72-75 | on byte arguments, packing is the weighted sum of the bytes |
| Colour.Decompose | src/grrlib-mod.h:60-63 | every colour is the weighted sum of its four extracted channels |
| Colour.RoundTrip | src/grrlib-mod.h:60-75 | packing the four extracted channels gives the colour back, for every u32 |
| Colour.ChannelsDetermine | src/grrlib-mod.h:60-63 | two colours that agree on all four channels are equal |
| Textures.Texture.constructor | src/grrlib-mod.h:132-142 | a new texture has the given u32 width and height and a fresh pixel grid of that size |
| Textures.Cells | src/grrlib-mod.h:132-142 | the grid value of a pixel array has its dimensions and agrees with it cell by cell |
| BmfxFlip.FlipH | src/GRRLIB_bmfx.c:33-42 | every source pixel (x, y) lands at (width-1-x, y); destination pixels outside the source's extent are unchanged |
| BmfxFlip.FlipV | src/GRRLIB_bmfx.c:50-59 | every source pixel (x, y) lands at (x, height-1-y); destination pixels outside the source's extent are unchanged |
| BmfxFlip.FlipHTwice | src/GRRLIB_bmfx.c:33-42 | flipping horizontally into a second texture and back into a third reproduces the first |
| BmfxFlip.FlipVTwice | src/GRRLIB_bmfx.c:50-59 | flipping vertically into a second texture and back into a third reproduces the first |
| BmfxPixel.Luma | src/GRRLIB_bmfx.c:75-77 | the weighted gray value is a byte, and a pixel whose red, green and blue are equal has that value as its gray |
| BmfxPixel.GrayOf | src/GRRLIB_bmfx.c:75-80 | the grayscale pixel has the gray value in red, green and blue and keeps the source alpha |
| BmfxPixel.GrayFixedPoint | src/GRRLIB_bmfx.c:67-83 | a pixel that is already gray is left unchanged by grayscale |
| BmfxPixel.GrayIdempotent | src/GRRLIB_bmfx.c:67-83 | applying grayscale twice gives the same pixel as applying it once |
| BmfxPixel.InvertOf | src/GRRLIB_bmfx.c:123-124 | the inverted pixel has 255 minus each of red, green and blue, and the same alpha |
| BmfxPixel.InvertChannels | src/GRRLIB_bmfx.c:124 | subtracting the middle 24 bits from 0xFFFFFF and shifting back is packing the three complemented channels with the alpha |
| BmfxPixel.InvertTwice | src/GRRLIB_bmfx.c:116-127 | inverting a colour twice gives it back |
| BmfxPixel.SepiaOf | src/GRRLIB_bmfx.c:100-106 | alpha is kept; red and green are their weighted sums clamped to 255; blue is its weighted sum, unclamped and at most 238 |
| BmfxPixel.SepiaRed | src/GRRLIB_bmfx.c:100 | the red weighted sum 0.393 R + 0.769 G + 0.189 B, truncated; SepiaOf states how it is clamped |
| BmfxPixel.SepiaGreen | src/GRRLIB_bmfx.c:101 | the green weighted sum 0.349 R + 0.686 G + 0.168 B, truncated; SepiaOf states how it is clamped |
| BmfxPixel.SepiaBlue | src/GRRLIB_bmfx.c:102 | the blue weighted sum 0.272 R + 0.534 G + 0.131 B, truncated; SepiaOf states that it is at most 238 |
| BmfxPixel.MapPixels | src/GRRLIB_bmfx.c:71-82 | the row-major sweep sets every pixel of the source's extent to the colour function of the old source pixel, even when source and destination are one texture, and leaves the rest of the destination unchanged |
| BmfxPixel.Grayscale | src/GRRLIB_bmfx.c:67-83 | every destination pixel of the source's extent has the source pixel's gray value in red, green and blue and its alpha; the rest is unchanged |
| BmfxPixel.Sepia | src/GRRLIB_bmfx.c:92-109 | every destination pixel of the source's extent is the sepia tone of the source pixel; the rest is unchanged |
| BmfxPixel.Invert | src/GRRLIB_bmfx.c:116-127 | every destination pixel of the source's extent has the source pixel's red, green and blue complemented and its alpha kept; the rest is unchanged |
| BmfxPixel.InvertTwiceInPlace | src/GRRLIB_bmfx.c:116-127 | inverting a texture in place twice restores every pixel |
| BmfxBlur.AsUnsigned | src/GRRLIB_bmfx.c:156-157 | converting an s32 counter to u32, as the loop tests do, adds 2^32 to a negative value and keeps any other |
| BmfxBlur.LoopTest | src/GRRLIB_bmfx.c:156-157 | the test of both gathering loops, unsigned as written or signed as corrected; LoopTestMeans states what it decides |
| BmfxBlur.LoopTestMeans | src/GRRLIB_bmfx.c:156-157 | from the start centre - factor on, the test is the plain comparison with centre + factor when it is signed or the start is not negative; with the unsigned test and a negative start it fails at once |
| BmfxBlur.Side | src/GRRLIB_bmfx.c:138 | the side of the neighbourhood, 2*factor+1; WindowLength states that the whole neighbourhood has Side^2 samples, the numba of the C |
| BmfxBlur.Sample | src/GRRLIB_bmfx.c:158-162 | the sample at (k, l) is the source pixel there, or the centre colour when (k, l) is off the texture on any side; SampleAsTested states that the C's mixed signed and unsigned test selects the same sample |
| BmfxBlur.SampleAsTested | src/GRRLIB_bmfx.c:158-162 | for s32 coordinates, the C's test, which compares k and l with 0 as signed numbers and with width and height as unsigned ones, selects the same sample as Sample |
| BmfxBlur.Rows | src/GRRLIB_bmfx.c:157-164 | the samples of column k from row l0 on: n entries, the j-th being the sample at (k, l0 + j) |
| BmfxBlur.UnsignedStartSkips | src/GRRLIB_bmfx.c:156 | for x < factor the converted start x - factor already exceeds x + factor, so the column loop does not run |
| BmfxBlur.Column | src/GRRLIB_bmfx.c:157-164 | a column of samples has 2*factor+1 entries: the source pixel at (k, l), or the centre colour where (k, l) is off the texture |
| BmfxBlur.Window | src/GRRLIB_bmfx.c:156-165 | the neighbourhood, its columns x-factor .. x+factor in gathering order; WindowLength gives its length and WindowSamples what each sample is |
| BmfxBlur.WindowLength | src/GRRLIB_bmfx.c:138 | i gathered columns hold i*(2*factor+1) samples, so the whole neighbourhood fills the numba entries of the scratch array |
| BmfxBlur.WindowSamples | src/GRRLIB_bmfx.c:156-165 | for x >= factor and y >= factor every gathered sample is the centre colour or a texture pixel within factor of (x, y) in each direction |
| BmfxBlur.ChannelSum | src/GRRLIB_bmfx.c:168-173 | the accumulated channel over the samples; ChannelSumBound bounds it and ChannelSumConstant gives it for samples of one colour |
| BmfxBlur.MeanColour | src/GRRLIB_bmfx.c:168-180 | each channel of the result is the truncated mean of that channel over the samples |
| BmfxBlur.ChannelSumBound | src/GRRLIB_bmfx.c:168-173 | a channel summed over n samples is at most 255*n |
| BmfxBlur.QuotientBound | src/GRRLIB_bmfx.c:175-178 | a sum of at most 255 per sample divided by the number of samples is at most 255 |
| BmfxBlur.MeanBound | src/GRRLIB_bmfx.c:175-180 | every channel mean is at most 255, so packing it loses nothing |
| BmfxBlur.BlurOf | src/GRRLIB_bmfx.c:136-183 | each channel of a pixel's blurred value is that channel summed over its (2*factor+1)^2 neighbourhood samples and divided by their number, truncated |
| BmfxBlur.ChannelSumConstant | src/GRRLIB_bmfx.c:168-173 | over n samples of one colour a channel sums to n times that colour's channel |
| BmfxBlur.MeanOfConstant | src/GRRLIB_bmfx.c:168-180 | the mean of samples of one colour is that colour |
| BmfxBlur.BlurFactorZero | src/GRRLIB_bmfx.c:138-180 | with factor 0 the neighbourhood is the pixel alone and its blurred value is the pixel itself |
| BmfxBlur.BlurUniform | src/GRRLIB_bmfx.c:136-183 | in a texture of one colour every blurred pixel has that colour |
| BmfxBlur.FillColumn | src/GRRLIB_bmfx.c:157-164 | the row loop writes the samples of column k after the given scratch position and keeps what comes before; with the unsigned test and y < factor it writes nothing |
| BmfxBlur.FillWindow | src/GRRLIB_bmfx.c:153-165 | with the unsigned tests, for x >= factor and y >= factor the scratch array holds the neighbourhood column by column, and otherwise it is untouched; with signed tests it holds the neighbourhood for every pixel |
| BmfxBlur.Average | src/GRRLIB_bmfx.c:168-180 | the accumulation loop, the divisions by numba and the packing give the mean colour of the scratch array |
| BmfxBlur.BlurPixel | src/GRRLIB_bmfx.c:147-180 | the colour computed for (x, y) is its blurred value whenever the scratch array was filled |
| BmfxBlur.BlurColumn | src/GRRLIB_bmfx.c:147-181 | the inner loop gives column x its blurred values and changes no other destination pixel |
| BmfxBlur.BlurSweep | src/GRRLIB_bmfx.c:146-182 | the column-major sweep gives each pixel whose scratch array was filled its blurred value; destination pixels outside the source's extent are unchanged |
| BmfxBlur.Blur | src/GRRLIB_bmfx.c:136-183 | every destination pixel with factor <= x and factor <= y gets its neighbourhood's mean, with off-texture samples counted as the centre colour; destination pixels outside the source's extent are unchanged |
| BmfxBlur.BlurIntended | src/GRRLIB_bmfx.c:136-183 | with signed loop tests every pixel of the source's extent gets its neighbourhood's mean |
| BmfxScatter.Doubled | src/GRRLIB_bmfx.c:197 | `factor*2` read as an int lies in the s32 range and is twice the factor for factor < 2^30; beyond that it wraps |
| BmfxScatter.ValidDraw | src/GRRLIB_bmfx.c:201-202 | the values the scaled `rand()` term can take: [0, factorx2) for a positive factorx2, (factorx2, 0] otherwise |
| BmfxScatter.Partner | src/GRRLIB_bmfx.c:201-202 | the u32 partner coordinate `x + draw - factor` is the exact value when it is in range, and that value plus 2^32 when it is negative |
| BmfxScatter.PartnerRange | src/GRRLIB_bmfx.c:201-204 | a partner coordinate that passes the bounds test is x + draw - factor without wrap, between x - factor and x + factor - 1, and x itself for factor 0 |
| BmfxScatter.LargeFactorEscapes | src/GRRLIB_bmfx.c:197-204 | with factor 2^30 the doubling wraps, and a partner that passes the bounds test can lie further left than x - factor |
| BmfxScatter.Step | src/GRRLIB_bmfx.c:204-211 | a partner outside the source leaves the destination unchanged; an accepted one gets the pixel's colour and the pixel gets the partner's, read from the destination when the two are one texture |
| BmfxScatter.StepEffect | src/GRRLIB_bmfx.c:201-211 | a rejected partner changes nothing; an accepted one lies within factor of the pixel, and exactly the pixel and its partner are written, the pixel with the partner's colour and the partner with the pixel's |
| BmfxScatter.ScatterPixel | src/GRRLIB_bmfx.c:201-211 | the body of the sweep does to the destination what one step does to its grid, also when source and destination are one texture |
| BmfxScatter.ScatterRow | src/GRRLIB_bmfx.c:200-212 | the inner loop does to the destination what the row's steps do, using two draws per pixel in scan order |
| BmfxScatter.Scatter | src/GRRLIB_bmfx.c:192-214 | the destination ends as the row-major fold of the steps over the old source and destination, with reads from the destination when the two are one texture |
| BmfxScatter.ScatterInPlace | src/GRRLIB_bmfx.c:192-214 | scattering a texture within itself keeps the number of pixels of every colour |
| BmfxScatter.RowSweep | src/GRRLIB_bmfx.c:200-212 | the first x steps of row y folded over the destination, pixel (i, y) using draws base + 2i and base + 2i + 1; ScatterRow, RowSweepInPlaceKeepsColours and RowSweepFactorZero state what it does |
| BmfxScatter.Sweep | src/GRRLIB_bmfx.c:199-213 | the first y rows folded over the destination, row r's draws starting at 2rw; Scatter, SweepInPlaceKeepsColours and SweepFactorZero state what it does |
| BmfxScatter.UpdateCell | src/GRRLIB_bmfx.c:209-210 | writing one cell replaces one occurrence of its old colour by one of the new colour |
| BmfxScatter.StepInPlaceKeepsColours | src/GRRLIB_bmfx.c:204-211 | a step made in place keeps the number of cells of every colour |
| BmfxScatter.RowSweepInPlaceKeepsColours | src/GRRLIB_bmfx.c:200-212 | a row of steps made in place keeps the number of cells of every colour |
| BmfxScatter.SweepInPlaceKeepsColours | src/GRRLIB_bmfx.c:199-213 | the whole in-place sweep keeps the number of cells of every colour, whatever the draws |
| BmfxScatter.RowSweepFactorZero | src/GRRLIB_bmfx.c:200-212 | with factor 0 a row copies its pixels from the source, and within one texture changes nothing |
| BmfxScatter.SweepFactorZero | src/GRRLIB_bmfx.c:192-214 | with factor 0 the sweep copies the source's extent into the destination, and within one texture changes nothing |
| BmfxScatter.SweepFactorZeroInPlace | src/GRRLIB_bmfx.c:192-214 | within one texture, scatter with factor 0 is the identity |
| BmfxPixelate.BlockStart | src/GRRLIB_bmfx.c:229-233 | the block corner of coordinate i, i - i % factor, is at most i and within factor of it |
| BmfxPixelate.BlockOf | src/GRRLIB_bmfx.c:232-234 | every coordinate of the block at a multiple x of factor has block corner x |
| BmfxPixelate.BlockBelow | src/GRRLIB_bmfx.c:229-230 | against a multiple y of factor, a coordinate and its block corner lie on the same side, and a block below y ends by y |
| BmfxPixelate.LoopExtent | src/GRRLIB_bmfx.c:229-230 | when a corner loop stops, the coordinates it has covered are exactly those whose block corner passed its test |
| BmfxPixelate.Covered | src/GRRLIB_bmfx.c:229-230 | a pixel is written when its block corner passes both loop tests; CoveredBounds and Pixelate state what that means |
| BmfxPixelate.CoveredBounds | src/GRRLIB_bmfx.c:229-234 | every pixel the sweep writes lies inside the texture, and the last column and the last row are never written |
| BmfxPixelate.FillBlock | src/GRRLIB_bmfx.c:232-236 | the two inner loops set exactly the factor-by-factor block at (x, y) and nothing else |
| BmfxPixelate.Pixelate | src/GRRLIB_bmfx.c:223-239 | each destination pixel whose block corner passes both loop tests gets the source colour at that corner; every other destination pixel is unchanged, also when source and destination are one texture |

## Findings

| source | as written | input that shows it | evidently intended | confidence | as-written member | corrected member |
|---|---|---|---|---|---|---|
| src/GRRLIB_bmfx.c:156-157 | the s32 counters k and l are compared with the u32 bounds `x + factor` and `y + factor`, so they are converted to u32 first | a 1x1 texture, factor 1, pixel (0, 0): k starts at -1, which converts to 2^32-1 > 1, so the loop gathers nothing and the pixel gets the mean of the uninitialised scratch array | signed tests, so that every pixel averages its (2*factor+1)^2 samples with off-texture samples counted as the centre colour; the `k < 0` and `l < 0` tests at line 158 exist only for that case | high; not executed | BmfxBlur.FillWindow (unsigned test), BmfxBlur.UnsignedStartSkips | BmfxBlur.BlurIntended |

## Left out

- Pixel accessors: the tiled hardware layout behind `GRRLIB_GetPixelFromTexture` and `GRRLIB_SetPixelToTexture` is not modelled. The pixels are a plain `array2<u32>` indexed `[x, y]`. The accessors are declared in `src/grrlib-mod.h:223-224`, whose bodies are not part of this model.
- Texture record: only width, height and the pixels are modelled. The data pointer, the format, the hardware texture object and the texture part are not.
- Scatter's random numbers: `rand()` and its floating scaling are replaced by the parameter `draws`. `draws(2n)` and `draws(2n+1)` are the two scaled values for the n-th pixel of the sweep. The lemmas on ranges and on factor 0 assume each draw is a value the scaling can produce, in [0, 2*factor).
- BmfxScatter.ValidDraw: models the wrapped `factorx2` of `src/GRRLIB_bmfx.c:197`. From factor 2^30 on the doubling wraps, so factorx2 can be zero or negative, and so can the draws.
- BmfxScatter.PartnerRange: the range is proved only for `width + factor <= 2^32` and factor < 2^30. Beyond the first bound a wrapped negative partner can still pass the bounds test. Beyond the second, `factorx2` wraps and an accepted partner can lie left of x - factor (LargeFactorEscapes).
- BmfxScatter.StepEffect: assumes `width + factor <= 2^32`, `height + factor <= 2^32` and factor < 2^30, for the same reasons.
- BmfxPixel.SepiaOf: the C multiplies by the doubles 0.393, 0.769, and so on, and truncates to u16. The model uses the exact thousandths, 393/1000 and so on. Where the exact sum is a whole number, the double's rounding can give one less. Floating point is not modelled.
- BmfxPixel.Grayscale: the C shifts the u8 `gray` after promotion to int, so `gray << 24` can exceed the int range. The model takes the bit pattern the compiler produces.
- BmfxFlip.FlipH: requires distinct source and destination. In place, the sweep would read pixels it has already overwritten. That in-place behaviour is not modelled.
- BmfxFlip.FlipV: requires distinct textures too, for the same reason.
- BmfxBlur.Blur: requires distinct textures. In place, the sweep would read pixels it has already overwritten into later neighbourhoods. That in-place behaviour is not modelled.
- BmfxBlur.Blur: requires `width + factor` and `height + factor` below 2^31, and 255 times the scratch length below 2^31. These keep the s32 counters and the int sums from overflowing.
- BmfxBlur.Blur: pixels with x < factor or y < factor are left unconstrained. The C averages whatever its uninitialised or stale scratch array holds there. The model leaves the scratch array's initial contents unspecified.
- BmfxBlur.Blur: `(newr<<24)` at `src/GRRLIB_bmfx.c:180` shifts a signed int, which overflows the int range for a red mean of 128 or more. The model takes the bit pattern the compiler produces, as for Grayscale.
- BmfxBlur.Blur: the variable-length stack array is an `array<u32>` allocated once per call.
- BmfxPixelate.Pixelate: requires `factor >= 1`, since with 0 the loops never advance.
- BmfxPixelate.Pixelate: requires `factor + 1 <= width`, and `factor + 1 <= height` whenever the outer loop runs. These keep the unsigned `width - 1 - factor` and `height - 1 - factor` from wrapping.
- `src/GRRLIB_fileIO.c` is not part of this model: file loading, image decoding and screenshots are I/O.
- `src/GRRLIB_print.c` is not part of this model: text formatting and hardware draw calls.
- The rest of `src/grrlib-mod.h` is not part of this model either: draw settings, blend modes, texture-part geometry and video state.
