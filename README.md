# paletter in Dafny

A model of the core of paletter, a Go tool that extracts a colour palette from an
image. The tool converts every pixel to CIE L\*a\*b\*, partitions the pixels with
k-means, sorts the cluster centres by descending lightness and hands the colours
to an output. The PNG output draws the original image on a canvas with a strip
of colour swatches below it.

The model covers three source files:

- `Colors.dfy` models `colors.go`. `ColorLab` is a datatype with `Coordinates`
  and the squared `Distance`. `Palette` is an `array<ColorLab>`, because Go's
  `Swap` updates the slice in place. `Len`, `Less` and `Swap` are its
  `sort.Interface` methods. `Sort` models `sort.Sort` as an insertion sort that
  goes through `Len`, `Less` and `Swap` only. Its contract is a permutation in
  non-increasing lightness. `LightnessProfileUnique` proves that this fixes the
  lightness at every position, even though the order of equally light colours
  is not fixed.
- `Paletter.dfy` models `paletter.go`. `ImageToObservation` keeps the source's
  nested row and column loops and is proved equal to `Observations`, the
  row-major scan of the image. `ColorsFromClusters` fills an array from the
  cluster centres, sorts it in place and converts each colour. `Generate`
  chains these steps, returns a partitioning error unchanged, and otherwise
  returns what `Output.Write` returns.
- `ImageLayout.dfy` models `output/image.go`. Go's float expressions are
  written with exact reals: `Floor`, `Trunc` for Go's float-to-int conversion
  and for the integer part of `math.Modf`, and `Round` for `math.Round`. The
  contracts of `CalcPaletteWidth` and `CalcPaletteHeight` reduce them to
  integer division. Lemmas prove the canvas size. When the image is at least
  `Border * (nColors - 1)` wide, they also prove the strip: swatches `Border` apart that fill the
  image's width exactly, all on the canvas, below the image and disjoint.
  Narrower images break the layout, and a lemma shows two swatches overlapping.

`Geometry.dfy` models the parts of Go's `image.Point`, `image.Rectangle` and
`image.Rect` that the core uses. `Arithmetic.dfy` holds two integer lemmas.
`Wrappers.dfy` holds `Option` and `Result`.

Collaborators that are not part of this model are parameters:

- `toLab` is `colorful.MakeColor(c)` followed by `.Lab()`.
- `toColor` is `colorful.Lab(l, a, b).Clamped()`.
- `calculatePalette` is `CalculatePalette`, that is, k-means `Partition` with `DeltaThreshold`.
- An image is its bounds plus a function from `(x, y)` to the pixel's colour.

Two properties of the source shape the contracts:

- `sort.Sort` is not stable, so only a permutation in non-increasing lightness
  is promised, never the order of equally light colours.
- The palette has one colour per cluster the partitioner returns, so
  `ColorsFromClusters` promises `|ret| == |cs|`.

## Model

| member | source | states |
|---|---|---|
| Colors.ColorLab.Coordinates | colors.go:16-18 | the coordinates are three values and the first is the lightness L |
| Colors.FromCoordinates | paletter.go:103 | the colour built from a centre's first three values has exactly those values as its coordinates |
| Colors.CoordinatesRoundTrip | colors.go:16-18 | Coordinates returns exactly L, A, B in that order: reading the three values back gives the same colour, and any point's first three coordinates survive the round trip |
| Colors.ColorLab.Distance | colors.go:21-27 | the squared distance is never negative; it needs at least three coordinates, as Go indexes pos[0..2] |
| Colors.DistanceToSelf | colors.go:21-27 | a colour is at distance 0 from its own coordinates |
| Colors.DistanceSymmetric | colors.go:21-27 | a.Distance(b.Coordinates()) equals b.Distance(a.Coordinates()) |
| Colors.DistanceReadsThreeCoordinates | colors.go:22-24 | only pos[0], pos[1] and pos[2] take part: further coordinates do not change the distance |
| Colors.Len | colors.go:33-35 | Len is the number of colours in the palette |
| Colors.Swap | colors.go:37-39 | colours i and j are exchanged, every other position is unchanged and the multiset of colours is kept |
| Colors.Less | colors.go:41-44 | Less(i, j) holds exactly when colour i is strictly lighter than colour j, so larger L sorts first; a colour never sorts before an equal one |
| Colors.LessIsStrictWeakOrder | colors.go:41-44 | Less (strictly lighter) is irreflexive and transitive, and incomparability is transitive, as sort.Interface requires |
| Colors.Sort | paletter.go:106-107 | after sort.Sort no colour is Less than an earlier one, and the palette is a permutation of the old one with non-increasing L |
| Colors.Insert | paletter.go:107 | one insertion step of sort.Sort, through Less and Swap only: with the first i colours in non-increasing L, afterwards the first i + 1 are, the colours after position i stay where they are, and the palette holds the same colours |
| Colors.LightnessProfileUnique | paletter.go:106-107 | two permutations of the same colours that both have non-increasing L have the same length and the same L at every index, so the unstable sort fixes the lightness sequence |
| Paletter.FromImage | paletter.go:32-37 | the Paletter keeps the given colour count and image as they are |
| Paletter.Observations | paletter.go:62-77 | the scan yields Columns * Rows observations, none for empty bounds |
| Paletter.ObservationAt | paletter.go:64-75 | for every pixel (x, y) inside the bounds, position (y - Min.Y) * Dx + (x - Min.X) holds the Lab conversion of that pixel (row-major order, no sampling) |
| Paletter.ImageToObservation | paletter.go:59-80 | the nested y/x loops return exactly Observations: Columns * Rows observations (Dx * Dy for well-formed bounds) in row-major order |
| Paletter.ColorsFromClusters | paletter.go:98-114 | one colour per cluster; the result is the clusters' centres, each read as L, A, B, put in non-increasing L order (a permutation), then converted with toColor position by position |
| Paletter.Output.Write | output/output.go:6-10 | the sink receives the palette (recorded after those written before) and its verdict is returned |
| Paletter.Generate | paletter.go:41-50 | on a partitioning error that error is returned and nothing is written; otherwise exactly one palette, the assembly of the clusters, is written and the sink's verdict is returned |
| ImageLayout.Trunc | output/image.go:37 | Go's float-to-int conversion (and math.Modf's integer part) rounds toward zero: non-negative inputs give the floor, negative ones the ceiling |
| ImageLayout.Round | output/image.go:44 | math.Round returns an integer within one half of its argument |
| ImageLayout.CalcPaletteHeight | output/image.go:36-38 | calcPaletteHeight(h) is h / 2 for h >= 0, and half of h rounded toward zero below that |
| ImageLayout.CalcPaletteWidth | output/image.go:41-45 | with nColors >= 1 and room = srcWidth - border*(nColors-1), the width is room div nColors; the remainder is room mod nColors when room >= 0, and minus the remainder of -room when room < 0 |
| ImageLayout.FloorAndRemainder | output/image.go:42-44 | Floor(q / n) is q div n and Round(frac * n), with frac the signed fractional part from math.Modf, is q mod n for q >= 0 and -((-q) mod n) for q < 0 |
| ImageLayout.PaletteWidthDivMod | output/image.go:41-45 | when the gaps fit (room >= 0) width and remainder are non-negative, the remainder is below nColors, and width*nColors + remainder == room |
| ImageLayout.PaletteWidthNarrow | output/image.go:41-45 | when the room is negative, width*nColors + remainder falls nColors short of the room unless nColors divides it |
| ImageLayout.ImgRect | output/image.go:48-52 | the canvas has its origin at (0, 0), width 2*border + srcWidth and height 3*border + srcHeight + calcPaletteHeight(srcHeight) |
| ImageLayout.Swatch | output/image.go:65-72 | for non-negative width, remainder and height, swatch i starts at x = i*(width+border) + border and y = yOffset, is width wide (the last one width + remainder) and height high |
| ImageLayout.SwatchAt | output/image.go:59-72 | when the image is at least border*(nColors-1) wide, swatch i starts at x = i*(room div nColors + border) + border and y = 2*border + srcHeight, is room div nColors wide (the last one room mod nColors wider) and srcHeight / 2 high |
| ImageLayout.Swatches | output/image.go:55-76 | colorRects yields nColors rectangles, none when nColors <= 0 |
| ImageLayout.ColorRects | output/image.go:55-76 | the loop, which widens the last swatch by mutating width, returns exactly the swatch rectangles |
| ImageLayout.SwatchLayout | output/image.go:59-73 | when the image is at least border*(nColors-1) wide and nColors >= 1: every swatch starts 2*border + srcHeight down and is calcPaletteHeight(srcHeight) high; the first starts at x = border and each later one border right of the previous one's right edge; all but the last are width wide, and the last is width + remainder wide and ends at border + srcWidth, flush with the image |
| ImageLayout.PictureOnCanvas | output/image.go:94-101 | for an image whose bounds start at the origin, as decoded images do, the image drawn at (border, border) lies on the canvas, border from its right edge and 2*border + palette height from its bottom |
| ImageLayout.SwatchesOnCanvas | output/image.go:55-73 | when the image is at least border*(nColors-1) wide and nColors >= 1, every swatch lies inside imgRect and does not overlap the image |
| ImageLayout.SwatchesDisjoint | output/image.go:64-73 | when the image is at least border*(nColors-1) wide and nColors >= 1, any two swatches are at least border apart, in order, so none overlap |
| ImageLayout.NarrowSwatchesOverlap | output/image.go:41-72 | a 4 pixel wide image with 7 colours gets width -3 and remainder -6, image.Rect turns the swatches around, and the first two overlap |

## Left out

- k-means partitioning (`CalculatePalette`, `DeltaThreshold`): the library it calls is not part of this model, so it is the parameter `calculatePalette`.
- go-colorful conversions (`MakeColor(...).Lab()`, `Lab(...).Clamped()`, `Hex()`): foreign floating-point colour transforms, so they are the parameters `toLab` and `toColor`. `MakeColor`'s ignored success flag is not modelled.
- ImageLayout.SwatchLayout, ImageLayout.SwatchesOnCanvas, ImageLayout.SwatchesDisjoint: these hold only when the image is at least `Border * (nColors - 1)` wide. Narrower images are accepted by the source, which rejects only negative colour counts. For them the width is negative, `image.Rect` turns each swatch around, and the swatches overlap and are neither `Border` apart nor flush with the image. `NarrowSwatchesOverlap` shows one such case.
- ImageLayout.PictureOnCanvas: the picture is placed at `(Border, Border)` to `(Border + width, Border + height)`. `PNG.Write` shifts the image's own bounds by `(Border, Border)`, and the two agree only for bounds that start at the origin, as decoded images have.
- Machine integers: Go's `int` is 64 bits and wraps on overflow, for example in `i*(width+border)` and `border*(nColors-1)`, and `float64` of the room is exact only below 2^53. The model's integers are unbounded. Neither limit is reached by real image sizes.
- Floating point: coordinates and layout arithmetic are exact reals, with no NaN, infinities or rounding error. `calcPaletteHeight` multiplies in `float32`, which is exact only up to 2^24 pixels.
- `sort.Sort` internals: Go's pattern-defeating quicksort is modelled by an insertion sort through the same `Len`, `Less` and `Swap`. Only what the interface guarantees is claimed (permutation, non-increasing L), never the order of equally light colours.
- Colors.ColorLab.Coordinates: its own contract gives only the length and the first value; the full content `[L, A, B]` is stated by `CoordinatesRoundTrip`.
- Colors.ColorLab.Distance: does not state that the distance is positive between distinct points; the solver cannot use facts about squared reals, so only non-negativity, zero on self and symmetry are proved.
- ImageLayout.Round: the contract bounds the result within one half of its argument; the rule that halves go away from zero is in the body only.
- Go panics on an index out of range: a `pos` shorter than three coordinates in `Distance`, indices outside the palette in `Less` and `Swap`, and a cluster centre with fewer than three coordinates in `ColorsFromClusters` and `Generate`. These are preconditions.
- `colorRects` with `nColors <= 0`: Go still evaluates `calcPaletteWidth`, dividing by zero in floating point, but the loop never runs and the values are unused. The model returns the empty list without evaluating the width.
- Rendering and I/O: `PNG.Write` (drawing, file creation, PNG encoding), `HTML.Write`, `WriteHTML`, `colorsToHex`, `OpenImage` and `FromPath`. Only the positions `PNG.Write` uses are modelled, through `imgRect`, `colorRects` and `PictureOnCanvas`.
- The `Output` interface's I/O: `Output` is a class that records each palette written and takes its verdict from an `outcome` function fixed at construction.
- Command-line handling and profiling (`cmd/paletter/main.go`), the build script (`build.go`) and package documentation (`doc.go`): not part of the core.
