# Floyd-Steinberg grayscale dithering, modelled in Dafny

This project models `main.js` of the floyd-steinberg-dithering library. The
library turns a browser `ImageData` into a grayscale image with `2^bits` grey
levels. It uses Floyd-Steinberg error diffusion.

- `getLumaByRGBA` (module `Luma`) gives the luma of one RGBA pixel. It uses
  the ITU-R BT.601 weights (section 2.5.1 of Recommendation ITU-R BT.601)
  scaled by `a/255`.
- `findClosestLuma` (module `Quantizer`) snaps a luma to one of `2^bits`
  evenly spaced levels. It rounds twice with `Math.round`.
- `fsdGrayscale` (module `Grayscale`) makes three raster passes:
  - store each pixel's luma in a one-byte-per-pixel `Uint8Array`;
  - quantise each pixel in row-major order and diffuse its error forward to
    its neighbours (7/16 right, 3/16 below-left, 5/16 below, 1/16
    below-right);
  - expand the bytes into opaque grey RGBA.
- `fsdGrayscale_v2` (module `GrayscaleV2`) diffuses in place on a copy of the
  RGBA buffer. It recomputes the luma from the stored RGBA at every read.

Module `TypedArrays` holds the two store conversions. A `Uint8Array` store
goes through ToUint8 (section 7.1.11 of ECMA-262): truncate toward zero,
then wrap modulo 256. A `Uint8ClampedArray` store goes through ToUint8Clamp
(section 7.1.12 of ECMA-262): clamp to [0, 255], then round half to even.
Module `Raster` holds the image record, the row-major layout and the
neighbours of a pixel together with their error weights.

Each dithering function is a method over arrays that follows the source's
loops and guarded updates. Each method is proved equal to a specification
function:
- `Diffused` is the buffer at a scan position.
- `Step` is one pixel's visit.
- `Spread` is the guarded neighbour updates, applied in order.

The lemmas then prove the following about those functions:
- What is finalised stays.
- Each neighbour receives exactly its share.
- The output has the right shape and uses only grey levels.

Numbers are exact reals. Widths and heights are at least 1, because the
browser's `ImageData` constructor rejects a zero area. `bits` lies in
[1, 8].

`fsdGrayscale` departs from the textbook algorithm quoted at the end of
`main.js` (lines 144-155), which adds the error to the pixel values
themselves. Here the values live in a `Uint8Array`, so every store
truncates, and a sum outside [0, 255] wraps around instead of clamping. The
model follows the code (`TypedArrays.ToUint8Wraps`, `Grayscale.Shared`).
`Grayscale.WrapAroundTurnsWhiteBlack` shows the effect on a 2x1 image at
one bit: grey 127 then grey 250 both come out black, because
250 + 127 * 7/16 = 305.5625 is stored as 49. `fsdGrayscale_v2` stores into
a `Uint8ClampedArray`, and `GrayscaleV2.ClampKeepsWhite` shows that the
same image comes out black then white there. `Grayscale.FullDepthKeepsLumas`
shows another consequence of the truncating store: at eight bits the output
is each pixel's luma truncated, not rounded.

`findClosestLuma` is used as a table on bytes in `fsdGrayscale`
(`Grayscale.Palette`), since that pass only ever quantises stored bytes. The
step `255 / (2^bits - 1)` is written out for each bit depth
(`Quantizer.Scale`), and `Quantizer.StepSpansRange` proves it is that
ratio.

`fsdGrayscale_v2` writes each diffused neighbour as `(l, l, l, a)`, where
`a` is the neighbour's own alpha. When the scan reaches a pixel that is not
opaque, its luma is scaled by its alpha once more. The model keeps this
behaviour (`GrayscaleV2.Shared`, `GrayscaleV2.AlphaUntilVisited`).

## Model

| member | source | states |
|---|---|---|
| TypedArrays.Trunc | main.js:26 | the integer part toward zero: within one unit of x, below it for a positive x and above it for a negative x |
| TypedArrays.ToUint8 | main.js:26 | a store into a Uint8Array always yields a byte |
| TypedArrays.ToUint8Wraps | main.js:41 | the stored byte is the truncation modulo 256: the fraction is dropped in [0, 256), and a truncation in (-256, 0) wraps to 256 plus that truncation |
| TypedArrays.ToUint8Clamp | main.js:94 | a store into a Uint8ClampedArray yields a byte; anything at or below 0 gives 0 and at or above 255 gives 255; in between it is within 0.5 of the value, and ties go to the even byte |
| TypedArrays.StoresKeepBytes | main.js:35 | storing a value that already is a byte leaves it unchanged, in both kinds of array |
| Luma.LumaByRgba | main.js:138-142 | for byte channels the luma is in [0, 255]; alpha 0 gives 0; a grey pixel (v,v,v,a) gives v*a/255, so an opaque grey pixel gives exactly v |
| Luma.ScaledByAlpha | main.js:141 | scaling a value in [0, 255] by an alpha in [0, 255] over 255 stays in [0, 255] |
| Quantizer.Levels | main.js:133 | 2^bits - 1 lies in [1, 255], and it is 255 exactly at 8 bits |
| Quantizer.Scale | main.js:133 | the step is 1 exactly at 8 bits and lies in [2, 255] below 8 bits |
| Quantizer.StepSpansRange | main.js:133 | step times (2^bits - 1) is 255, so the levels span [0, 255] |
| Quantizer.Round | main.js:134 | Math.round: the result lies in (x - 1/2, x + 1/2], so halves round up |
| Quantizer.Snap | main.js:134 | the double rounding `Math.round(Math.round(luma / s) * s)` for a step s; its properties are SnapFacts |
| Quantizer.Level | main.js:133-134 | level k of a bit depth is round(k * step); LevelInRange and LevelIsFixedPoint state its properties |
| Quantizer.FindClosestLuma | main.js:132-136 | for a luma in [0, 255] the result is a byte and one of the levels round(k * step) with 0 <= k <= 2^bits - 1; it is never more than (step + 1)/2 from the luma |
| Quantizer.SnapFacts | main.js:134 | on a grid spanning [0, 255] the step index is in range, the snapped value is a byte, and it lies within (s + 1)/2 of the luma |
| Quantizer.LevelInRange | main.js:133-134 | every level is a byte; the lowest level is 0 and the highest is 255 |
| Quantizer.RoundBack | main.js:134 | when the step is 1 or at least 2, rounding k*s, dividing by s and rounding gives back k |
| Quantizer.GridPointIsFixed | main.js:134 | snapping a rounded grid point returns it |
| Quantizer.LevelIsFixedPoint | main.js:133-134 | quantising a level returns that level |
| Quantizer.QuantizerIdempotent | main.js:132-136 | quantising findClosestLuma's own result returns it unchanged |
| Quantizer.OneBitLevels | main.js:132-135 | with one bit the levels are exactly 0 and 255 |
| Quantizer.OneBitThreshold | main.js:132-135 | with one bit a luma in [0, 255] becomes 0 below 127.5 and 255 from 127.5 on |
| Quantizer.FullDepthIsIdentity | main.js:133-134 | with eight bits every integer quantises to itself |
| Raster.PixelAt | main.js:24 | the four channels read from a byte buffer form a valid pixel |
| Raster.Weight | main.js:41-56 | the weights 7, 3, 5 and 1 sixteenths of right, below-left, below and below-right; NeighbourWeights states their sums |
| Raster.Portion | main.js:41-56 | `quantError * k / 16` for the direction's k; PortionIsWeighted states that it is err times the weight over 16 |
| Raster.Inside | main.js:38-53 | the four bounds guards; InsideInRange states that each admits only pixels of the image |
| Raster.Offset | main.js:39-54 | the index offsets 1, w - 1, w and w + 1; NeighboursListed states them with their guards |
| Raster.NeighboursAlong | main.js:38-57 | the guarded neighbours in the given directions, in order; NeighboursAlongSnoc and NeighboursAlongInside state their properties |
| Raster.Neighbours | main.js:38-57 | the guarded neighbours in source order; NeighboursListed, NeighboursAfter, NeighboursDistinct and NeighbourWeights state their properties |
| Raster.NeighboursAlongSnoc | main.js:38-57 | one more direction adds its neighbour last, exactly when its guard holds |
| Raster.NeighboursAlongInside | main.js:38-57 | every neighbour index is strictly after the pixel and, for a pixel of the image, below width*height |
| Raster.NeighboursAfter | main.js:38-57 | writes go forward only: every neighbour index is greater than y*w + x and less than w*h |
| Raster.NeighboursListed | main.js:38-57 | the neighbours are the four guarded indices p+1, p+w-1, p+w, p+w+1, in source order, each present exactly when its guard holds |
| Raster.NeighboursDistinct | main.js:38-57 | no neighbour index is listed twice |
| Raster.InsideInRange | main.js:38-56 | a neighbour that its guard lets through is a pixel of the image |
| Raster.NeighbourWeights | main.js:37-57 | the weights a pixel forwards lie in [0, 16] sixteenths and sum to 16 exactly when the pixel is interior |
| Raster.ErrorShares | main.js:37-57 | the error forwarded is err times the kept weight over 16; an interior pixel forwards exactly err |
| Raster.ForwardedIsScaledWeight | main.js:41-56 | the portions of any list of shares add up to err times their total weight over 16 |
| Raster.PortionIsWeighted | main.js:41-56 | err*7/16, err*3/16, err*5/16 and err*1/16 are err times the direction's weight over 16 |
| Raster.SinglePixelHasNoNeighbours | main.js:38-57 | a 1x1 image diffuses nothing |
| Raster.RowMajor | main.js:22 | the index y*width + x of a pixel lies in [0, width*height) |
| Raster.RowMajorOrder | main.js:20-22 | scan order of positions is the order of their indices |
| Raster.PositionIndex | main.js:20-22 | the index of a scan position lies in [0, width*height] |
| Grayscale.StoredLuma | main.js:22-26 | the first pass stores a byte, and for byte channels it is the floor of the pixel's luma |
| Grayscale.LumaBuffer | main.js:18-28 | after the first pass the buffer has one byte per pixel, each the stored luma of that pixel |
| Grayscale.Shared | main.js:40-41 | a neighbour's new byte: a byte, and the floor of its old byte plus its portion of the error whenever that sum lies in [0, 256) |
| Grayscale.AddShare | main.js:40-41 | one guarded update keeps the buffer's length and keeps it a byte buffer |
| Grayscale.Spread | main.js:38-57 | the guarded updates change only the neighbour indices and keep the buffer a byte buffer |
| Grayscale.SpreadAlongSnoc | main.js:38-57 | the update for one more direction applies its share last when the guard holds, and otherwise changes nothing |
| Grayscale.Palette | main.js:34 | a table of 256 bytes whose entry v is findClosestLuma(v, bits) |
| Grayscale.PaletteLevels | main.js:34 | every palette entry is a level; with one bit, 0 or 255 |
| Grayscale.Step | main.js:32-57 | visiting pixel p stores its quantised byte at p, leaves every index before p unchanged, and after p changes only the neighbours; the buffer stays bytes |
| Grayscale.Diffused | main.js:30-59 | the buffer at every scan position has the input's length and holds bytes |
| Grayscale.Visited | main.js:30-59 | right after visiting (x, y), the pixel holds the quantisation of what the scan found there, and every earlier pixel is unchanged |
| Grayscale.FinalisedStays | main.js:30-59 | a pixel finalised before one scan position keeps its value at every later position |
| Grayscale.VisitedFromPalette | main.js:33-35 | every pixel before a scan position holds a palette entry |
| Grayscale.FinalValue | main.js:33-35 | the final byte of each pixel is the quantisation of the byte the scan found there: its stored luma as left by the truncating, wrapping stores of the earlier pixels' error shares |
| Grayscale.StepAddsShares | main.js:37-57 | a visit stores into each neighbour its old byte plus its own portion of the error, through ToUint8 |
| Grayscale.SpreadEach | main.js:38-57 | with distinct indices, every listed neighbour receives exactly its own update |
| Grayscale.Expand | main.js:61-68 | pixel p of the expansion is (g, g, g, 255), where g is gray byte p |
| Grayscale.Dithered | main.js:15-73 | the image fsdGrayscale returns has the input's width, height and byte count; DitheredShape states its pixels |
| Grayscale.DitheredShape | main.js:61-72 | the output has the input's width, height and byte count, and every pixel is (g, g, g, 255) with g a level; with one bit, g is 0 or 255 |
| Grayscale.SpreadZero | main.js:37-57 | with a zero error the guarded updates leave a byte buffer unchanged |
| Grayscale.FullDepthStep | main.js:32-57 | at eight bits a visit changes nothing |
| Grayscale.FullDepthDiffused | main.js:30-59 | at eight bits the second pass leaves the stored lumas unchanged at every scan position |
| Grayscale.FullDepthKeepsLumas | main.js:15-73 | at eight bits the output is the opaque grey of each pixel's stored (truncated) luma |
| Grayscale.SinglePixel | main.js:15-73 | a 1x1 image becomes (g, g, g, 255), g the quantisation of its stored luma |
| Grayscale.TwoByOne | main.js:30-59 | on a 2x1 image the first pixel takes its palette entry and the second is quantised after receiving 7/16 of the error |
| Grayscale.TwoGreyLumas | main.js:18-28 | the stored lumas of two opaque greys are the greys |
| Grayscale.ExpandTwo | main.js:61-68 | two gray bytes expand to two opaque grey pixels |
| Grayscale.WhiteThenBlack | main.js:15-73 | greys 200 and 50 at one bit give white then black |
| Grayscale.WrapAroundTurnsWhiteBlack | main.js:15-73 | greys 127 and 250 at one bit both give black, because the second pixel's 305.5625 wraps to 49 |
| Grayscale.StoreWraps | main.js:41 | 250 plus 7/16 of 127 is stored in a Uint8Array as 49 |
| Grayscale.FsdGrayscale | main.js:15-73 | the method returns exactly the dithered image of the specification |
| Grayscale.StoreLumas | main.js:18-28 | the first pass leaves a fresh buffer equal to the luma buffer |
| Grayscale.DiffuseErrors | main.js:30-59 | the second pass leaves the buffer as the scan specification leaves it after the last pixel |
| Grayscale.VisitPixel | main.js:32-57 | the loop body performs exactly one Step |
| Grayscale.DiffuseNeighbours | main.js:37-57 | the four guarded updates perform exactly Spread over the pixel's neighbours |
| Grayscale.DiffuseAlong | main.js:38-57 | one guarded update extends the spread by that direction |
| Grayscale.AddErrorShare | main.js:40-41 | one store replaces the neighbour by its byte plus its portion of the error, through ToUint8 |
| Grayscale.ExpandToRgba | main.js:61-68 | the third pass leaves a fresh RGBA buffer equal to the expansion |
| Grayscale.SetGrey | main.js:66 | one store sets the four bytes of pixel p to (g, g, g, 255), keeps the earlier pixels expanded, and changes no byte outside pixel p |
| Grayscale.ExpandedAll | main.js:61-68 | a buffer with every pixel expanded is the expansion |
| GrayscaleV2.Pixels | main.js:89-90 | a buffer of 4n bytes has n pixels, pixel p being bytes 4p to 4p+3 |
| GrayscaleV2.Bytes | main.js:94 | byte j of a pixel sequence is channel j mod 4 of pixel j/4 |
| GrayscaleV2.PixelsOfBytes | main.js:89-94 | reading back the pixels of the written bytes gives the same pixels |
| GrayscaleV2.BytesOfPixels | main.js:85-86 | writing out the pixels of a buffer gives the same buffer |
| GrayscaleV2.BytesValid | main.js:94 | the bytes of valid pixels are bytes |
| GrayscaleV2.PixelsValid | main.js:90 | the pixels of a byte buffer are valid pixels |
| GrayscaleV2.Grey | main.js:93-94 | storing (v, v, v, alpha) into the clamped array gives a valid pixel whose three colour channels are ToUint8Clamp(v), within 0.5 of v for v in [0, 255], and which keeps a byte alpha |
| GrayscaleV2.Shared | main.js:99-101 | a neighbour becomes a valid grey pixel that keeps its own alpha; StepAddsShares states which grey |
| GrayscaleV2.AddShare | main.js:99-101 | one guarded update keeps the number of pixels |
| GrayscaleV2.Spread | main.js:97-120 | the guarded updates keep the number of pixels; SpreadFrame and SpreadEach state what they change |
| GrayscaleV2.SpreadFrame | main.js:97-120 | the guarded updates change only the neighbours, keep pixels valid and change no alpha |
| GrayscaleV2.SpreadAlongSnoc | main.js:97-120 | the update for one more direction applies its share last when the guard holds, and otherwise changes nothing |
| GrayscaleV2.Quantised | main.js:91-92 | the grey picked for a valid pixel is a byte and a level of the bit depth |
| GrayscaleV2.QuantError | main.js:96 | the error lies within half a step plus half a unit of zero |
| GrayscaleV2.Step | main.js:89-120 | visiting pixel p makes it the opaque grey (g, g, g, 255) of its quantised luma; nothing before p changes; after p only neighbours change, and no alpha does |
| GrayscaleV2.StepGreyLevel | main.js:91-94 | the visited pixel becomes an opaque grey at a level of the bit depth |
| GrayscaleV2.StepAddsShares | main.js:96-120 | each neighbour becomes grey at its own luma plus its portion of the real error, keeping its alpha |
| GrayscaleV2.SpreadEach | main.js:97-120 | with distinct indices, every listed neighbour receives exactly its own update |
| GrayscaleV2.Diffused | main.js:87-122 | the pixels at every scan position are valid and as many as in the input |
| GrayscaleV2.Visited | main.js:87-122 | visiting (x, y) leaves every earlier pixel as the scan found it |
| GrayscaleV2.FinalisedStays | main.js:87-122 | a pixel finalised before one scan position keeps its value at every later position |
| GrayscaleV2.NextPosition | main.js:88 | one visit moves the scan state from (x, y) to (x + 1, y) |
| GrayscaleV2.RowStart | main.js:87-88 | the state at the start of a row is the state at the end of the previous row |
| GrayscaleV2.VisitKeepsPrefix | main.js:89-120 | visiting a pixel leaves every earlier pixel unchanged |
| GrayscaleV2.VisitedAreGreyLevels | main.js:87-122 | every pixel before a scan position is opaque grey at a level |
| GrayscaleV2.AlphaUntilVisited | main.js:97-120 | a pixel the scan has not reached still has its input alpha |
| GrayscaleV2.FinalPixel | main.js:87-122 | the final pixel is the opaque grey of the quantised luma the scan found there |
| GrayscaleV2.Dithered | main.js:81-125 | the image fsdGrayscale_v2 returns has the input's width, height and byte count; DitheredShape states its pixels |
| GrayscaleV2.SinglePixel | main.js:81-125 | a 1x1 image becomes (g, g, g, 255), g the quantisation of its pixel's luma |
| GrayscaleV2.TwoByOne | main.js:87-122 | on a 2x1 image the first pixel becomes the opaque grey of its quantised luma and the second is quantised after receiving 7/16 of the error |
| GrayscaleV2.TwoGreyBytes | main.js:94 | the bytes of two opaque grey pixels |
| GrayscaleV2.TwoGreyPixels | main.js:90 | the pixels read from the bytes of two opaque greys |
| GrayscaleV2.TwoGreysOneBit | main.js:81-125 | the output for two opaque greys at one bit, in terms of the first's quantisation and the second's shared value |
| GrayscaleV2.WhiteThenBlack | main.js:81-125 | greys 200 and 50 at one bit give white then black |
| GrayscaleV2.DarkNeighbour | main.js:99-101 | 50 minus 7/16 of 55 is stored in the clamped array as 26 |
| GrayscaleV2.ClampKeepsWhite | main.js:81-125 | greys 127 and 250 at one bit give black then white, because 305.5625 is clamped to 255 |
| GrayscaleV2.StoreClamps | main.js:99-101 | 250 plus 7/16 of 127 is stored in the clamped array as 255 |
| GrayscaleV2.DitheredShape | main.js:84-125 | the output has the input's width, height and byte count, all bytes are in [0, 255], every pixel is (g, g, g, 255) with g a level, and with one bit g is 0 or 255 |
| GrayscaleV2.FsdGrayscaleV2 | main.js:81-125 | the method returns exactly the dithered image of the specification |
| GrayscaleV2.DiffuseErrors | main.js:87-122 | the two loops leave the pixels as the scan specification leaves them after the last pixel |
| GrayscaleV2.DiffuseRow | main.js:88-121 | the inner loop takes the pixels from the scan state at the start of row y to the state at the start of row y + 1 |
| GrayscaleV2.VisitPixel | main.js:89-120 | the loop body performs exactly one Step on the pixels |
| GrayscaleV2.SetPixel | main.js:94 | one four-byte store replaces pixel index/4 by Grey(v, alpha) and nothing else |
| GrayscaleV2.DiffuseNeighbours | main.js:97-120 | the four guarded updates perform exactly Spread over the pixel's neighbours |
| GrayscaleV2.DiffuseAlong | main.js:97-120 | one guarded update extends the spread by that direction |
| GrayscaleV2.AddErrorShare | main.js:98-101 | at nextIndex = index + offset*4, the neighbour becomes grey at its luma plus its portion of the error, with its own alpha |

## Left out

- IEEE-754 doubles: lumas, steps and errors are exact reals. The double rounding error in `0.299 + 0.587 + 0.114` and in `255 / (2 ** bits - 1)` is not modelled. In `fsdGrayscale` the error is an integer and `err * k / 16` is a dyadic fraction, so exact reals agree with doubles there.
- Luma.LumaByRgba: in doubles the luma of an opaque grey (v, v, v, 255) falls just below v for 65 of the 256 greys (for v = 254 it is 253.99999999999997). The truncating first pass of `fsdGrayscale` then stores v - 1 (254 becomes 253, 128 becomes 127, 1 becomes 0). The model computes exactly v and stores v.
- NaN and infinities: they cannot arise from byte inputs under exact arithmetic, so the NaN cases of ToUint8 and ToUint8Clamp are absent.
- The browser `ImageData` constructor, `TypedArray.prototype.set` and `slice` are host APIs. They are modelled as a record, fresh arrays and element-wise stores and reads.
- The constructor's rejection of a zero-area image is a precondition (`width, height >= 1`), not an error path.
- No check on `bits` or on the buffer length exists in the code. Both are preconditions: `1 <= bits <= 8` and `|data| == width * height * 4`.
- Default parameters (`bits = 1` for the dithering functions, `bits = 8` for `findClosestLuma`) are not modelled: every call passes `bits` explicitly.
- The sloppy-mode implicit globals `oldPixel` and `newPixel` are treated as locals.
- The commented pseudocode at the end of the file is reference text, not part of the library's code.
- Quantizer.FindClosestLuma: proves that the result is a level within (step + 1)/2 of the luma, not that it is the nearest of all levels; the source's name claims nearness, but its double rounding is all the code performs.
