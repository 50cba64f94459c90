# Image Compare — a Dafny model of the diff engine and the batch driver

Image Compare is a browser application. It compares one "before" image with
every image in a chosen folder and shows how much each one differs. This
project models its two pieces of logic and proves properties about them.

* **The pixel diff engine** of the `DiffCanvas` component (`diff_canvas.dfy`):
  * Both images are drawn onto a canvas. The canvas is as wide as the wider
    image and as high as the higher one.
  * The two RGBA buffers are walked four bytes at a time.
  * A pixel whose RGB Euclidean distance exceeds the threshold becomes a red
    marker `(255, 50, 50, 200)` and is counted.
  * Every other pixel becomes the rounded luminance of the "before" pixel,
    with alpha 128.
  * The count is turned into a percentage text with two decimals.
  * The loop is a method over a fresh `array<int>`, `ScanPixels`. Its loop
    body is `PaintPixel`. It is proved against the specification functions
    `DiffRaster` and `DiffCount`. The lemmas about the engine are stated
    about those functions.
* **The application shell** (`app.dfy`). The component state is a class,
  `AppState`, whose handlers update its fields. The module also covers, as
  functions and methods outside the class:
  * the threshold derived from the sensitivity slider, `151 - sensitivity`;
  * the guard of the compare handler and its loop, `CompareAll`, which runs
    the engine once per folder image;
  * the filter of visible results by `parseFloat(percentage) <= maxDiff`;
  * the chart data;
  * the CSV text: a header line, then one quoted row per visible result,
    joined by line breaks.
* Supporting modules:
  * `percent.dfy` covers the percentage as exact hundredths,
    `toFixed(2)` and `parseFloat`.
  * `decimal.dfy` covers decimal digit strings.
  * `csv_row.dfy` covers quoted CSV rows and a reader for them.
  * `seqs.dfy` covers filter, join/split and counting.

Floating point is replaced by exact integer reasoning:
* `Math.sqrt(d) > t` becomes `t < 0 || d > t²`. The lemma
  `FlaggedIffDistanceAboveThreshold` proves this agrees with a real square
  root.
* `Math.round(0.3R + 0.59G + 0.11B)` becomes `(30R + 59G + 11B + 50) / 100`.
* `((c / n) * 100).toFixed(2)` becomes the hundredths `10000 c / n`, rounded
  half up. The quotient `0 / 0` would be NaN, but the engine never reaches
  it: on a canvas of zero width or height, `getImageData` throws first.

Drawing an image scaled onto the canvas and reading the pixels back
(`drawImage` then `getImageData`) is the parameter `render`. The model
assumes two things about it:
* For a canvas of positive area it returns an RGBA buffer of the requested
  size, with bytes in 0..255 (`Renders`).
* It is a function, so the same image drawn at the same size gives the same
  bytes. `SameImageNoDifference` relies on this.

Three behaviours of the code are worth stating:
* The CSV header is `Förebild,Efterbild,Skillnad`.
* `drawImage(img, 0, 0, width, height)` scales each image to the canvas. It
  does not pad the smaller image.
* When both images have zero width, or both have zero height, the canvas has
  no area. `getImageData` then throws an `IndexSizeError`, and the comparison
  fails. The model writes that exception as `None` (`Diff`, `ComputeDiff`,
  `CompareAll`). The compare handler then stops inside its loop, after it has
  set `processing` and cleared the results. So `processing` stays true and
  the result list stays empty.

## Model

| member | source | states |
|---|---|---|
| DiffCanvas.CanvasSize | src/components/DiffCanvas.jsx:11-12 | the canvas width is at least both natural widths and equal to one of them; the same holds for the height |
| DiffCanvas.Exceeds | src/components/DiffCanvas.jsx:42-44 | `Math.sqrt(squared) > threshold` decided on integers: always true for a negative threshold, otherwise the squared distance exceeds the squared threshold (agreement shown by ExceedsIffDistanceAbove) |
| DiffCanvas.Flagged | src/components/DiffCanvas.jsx:39-44 | the decision for pixel `p`: the distance of bytes `4p..4p+2` of the two buffers exceeds the threshold, alpha not read (FlaggedIffDistanceAboveThreshold) |
| DiffCanvas.Square | src/components/DiffCanvas.jsx:42 | the square `x * x` of one channel difference, built from linear steps (SquareIsProduct) |
| DiffCanvas.SquaredNorm | src/components/DiffCanvas.jsx:42 | the value under the square root, `dr * dr + dg * dg + db * db` |
| DiffCanvas.SquaredDistance | src/components/DiffCanvas.jsx:39-42 | the squared distance between the R, G and B bytes of pixel `p` of both buffers; alpha is not read (AlphaIgnored), and it is zero exactly when the colours agree (DistanceZeroIffSameColour) |
| DiffCanvas.DistanceZeroIffSameColour | src/components/DiffCanvas.jsx:39-42 | the squared distance of a pixel pair is zero if and only if their R, G and B bytes agree |
| DiffCanvas.SquareIsProduct | src/components/DiffCanvas.jsx:42 | the integer square used for `dr * dr` etc. is the product `x * x` |
| DiffCanvas.SquareMonotone | src/components/DiffCanvas.jsx:42-44 | squaring keeps the order of non-negative values, so comparing squares compares distances |
| DiffCanvas.ExceedsIffDistanceAbove | src/components/DiffCanvas.jsx:42-44 | for a real `distance` whose square is the squared norm, the integer test holds exactly when `distance > threshold`, for every integer threshold including negative ones |
| DiffCanvas.FlaggedIffDistanceAboveThreshold | src/components/DiffCanvas.jsx:39-44 | a pixel is flagged if and only if the Euclidean distance of its R, G, B differences exceeds the threshold |
| DiffCanvas.Grey | src/components/DiffCanvas.jsx:51-53 | the grey level is a byte within one half of `0.3 R + 0.59 G + 0.11 B` (the nearest integer, halves upwards) |
| DiffCanvas.PixelOf | src/components/DiffCanvas.jsx:44-57 | always four bytes: the marker `Marker` = (255, 50, 50, 200) for a flagged pixel, otherwise its grey level three times followed by `UnchangedAlpha` = 128 |
| DiffCanvas.PaintAt | src/components/DiffCanvas.jsx:44-57 | pixel `p` of the output occupies bytes `4p..4p+3` and holds the marker or the grey pixel decided for it |
| DiffCanvas.ScanStep | src/components/DiffCanvas.jsx:38-49 | one more iteration appends exactly that pixel's four bytes to the written prefix and adds one to the count exactly when the pixel is flagged |
| DiffCanvas.FlagsAt | src/components/DiffCanvas.jsx:39-44 | the decision recorded for pixel `p` is the distance test on bytes `4p..4p+2` of both buffers |
| DiffCanvas.GreysAt | src/components/DiffCanvas.jsx:51-53 | the grey level recorded for pixel `p` is the luminance of the "before" pixel's bytes `4p..4p+2` |
| DiffCanvas.DiffRaster | src/components/DiffCanvas.jsx:38-59 | the whole diff buffer: the painted pixel of every decision and grey level in scan order (contents given by DiffPixelReveals, computed by ScanPixels) |
| DiffCanvas.DiffCount | src/components/DiffCanvas.jsx:38-59 | the final `diffCount`: the number of flagged pixels (DiffCountIsNumberFlagged, computed by ScanPixels) |
| DiffCanvas.DiffRasterShape | src/components/DiffCanvas.jsx:31-38 | the diff buffer is exactly as long as the input buffers and holds bytes only |
| DiffCanvas.GreysAllBytes | src/components/DiffCanvas.jsx:51-53 | every grey level of a byte buffer is a byte |
| DiffCanvas.PaintAllBytes | src/components/DiffCanvas.jsx:44-57 | painting markers and byte grey levels writes only bytes |
| DiffCanvas.PixelCount | src/components/DiffCanvas.jsx:36 | `totalPixels`, the canvas width times its height; positive exactly when both sides are (PixelCountPositive) |
| DiffCanvas.Renders | src/components/DiffCanvas.jsx:21-29 | what drawing an image at the canvas size and reading it back yields for a canvas of positive area: an RGBA buffer of `4 * width * height` bytes |
| DiffCanvas.Drawable | src/components/DiffCanvas.jsx:21-22 | a comparison can proceed exactly when the canvas has positive area; otherwise `getImageData` throws |
| DiffCanvas.PixelCountPositive | src/components/DiffCanvas.jsx:11-22 | the canvas has positive area exactly when both its width and its height are positive |
| DiffCanvas.Diff | src/components/DiffCanvas.jsx:11-63 | the comparison fails exactly when the canvas has no area (`getImageData` throws); otherwise the output has the canvas size and its pixels are an RGBA buffer of that size |
| DiffCanvas.PaintPixel | src/components/DiffCanvas.jsx:39-58 | one pass of the loop body returns the pixel's decision, writes the marker or the pixel's grey with alpha 128 into bytes `i..i+3`, and leaves every other byte unchanged |
| DiffCanvas.ScanPixels | src/components/DiffCanvas.jsx:31-59 | the loop, stepping by 4 over a fresh buffer, produces exactly the specified diff buffer, and its counter equals the number of flagged pixels |
| DiffCanvas.ComputeDiff | src/components/DiffCanvas.jsx:11-63 | the effect body (size, render both images, scan, format the percentage) yields the specified diff output, and fails on a zero-area canvas |
| DiffCanvas.DiffCountAtMostPixels | src/components/DiffCanvas.jsx:35-36 | `diffCount` never exceeds the number of pixels |
| DiffCanvas.DiffCountIsNumberFlagged | src/components/DiffCanvas.jsx:44-49 | `diffCount` is the cardinality of the set of flagged pixel indices |
| DiffCanvas.PaintedBytes | src/components/DiffCanvas.jsx:44-57 | a pixel is written with alpha 200 exactly when flagged; flagged pixels are `(255, 50, 50, 200)`, others have R = G = B = their grey and alpha 128 |
| DiffCanvas.DiffPixelReveals | src/components/DiffCanvas.jsx:44-57 | for the diff of two buffers: alpha 200 if and only if flagged, flagged pixels are the marker, unflagged pixels are the "before" pixel's grey level with alpha 128 |
| DiffCanvas.ZeroNotExceeding | src/components/DiffCanvas.jsx:44 | a zero distance exceeds no threshold that is not negative |
| DiffCanvas.SameBufferZeroDistance | src/components/DiffCanvas.jsx:39-42 | a pixel compared with itself has squared distance 0 |
| DiffCanvas.IdenticalPixelUnflagged | src/components/DiffCanvas.jsx:42-44 | with a threshold that is not negative, a pixel compared with itself is not flagged |
| DiffCanvas.IdenticalFlagsNone | src/components/DiffCanvas.jsx:42-44 | comparing a buffer with itself flags no pixel |
| DiffCanvas.IdenticalBuffersUnflagged | src/components/DiffCanvas.jsx:42-49 | comparing a buffer with itself leaves `diffCount` at 0 |
| DiffCanvas.IdenticalRasterGrey | src/components/DiffCanvas.jsx:50-57 | comparing a buffer with itself paints every pixel as its own grey level (R = G = B = `Grey`) with alpha 128 |
| DiffCanvas.IdenticalRasterAllGrey | src/components/DiffCanvas.jsx:38-59 | the whole diff of a buffer against itself has its length and is the buffer in grey: every pixel R = G = B = `Grey` with alpha 128 |
| DiffCanvas.SameImageNoDifference | src/components/DiffCanvas.jsx:11-63 | an image compared with itself fails exactly when it has no area; otherwise the canvas has its own size, the percentage is "0.00" and every diff pixel is the image pixel's grey level with alpha 128 |
| DiffCanvas.ExceedsAntitone | src/components/DiffCanvas.jsx:44 | a distance above a threshold is above every smaller threshold |
| DiffCanvas.DiffCountAntitone | src/components/DiffCanvas.jsx:44-49 | raising the threshold never increases `diffCount` |
| DiffCanvas.DiffPercentage | src/components/DiffCanvas.jsx:63 | a comparison fails at every threshold or at none; when it succeeds, its percentage text reads as a value in [0, 100] that never rises with the threshold |
| DiffCanvas.SameColoursPixel | src/components/DiffCanvas.jsx:39-41 | buffers that differ only in alpha bytes agree on the R, G, B bytes of every pixel |
| DiffCanvas.SameColoursSameDistance | src/components/DiffCanvas.jsx:39-42 | changing only alpha bytes leaves every colour distance unchanged |
| DiffCanvas.SameColoursFlagsAt | src/components/DiffCanvas.jsx:39-44 | changing only alpha bytes leaves every pixel's decision unchanged |
| DiffCanvas.SameColoursGreysAt | src/components/DiffCanvas.jsx:51-53 | changing only alpha bytes leaves every grey level unchanged |
| DiffCanvas.AlphaIgnored | src/components/DiffCanvas.jsx:39-57 | the input alpha channel influences neither the diff buffer nor `diffCount` |
| DiffCanvas.RedderFlagged | src/components/DiffCanvas.jsx:39-44 | a pixel whose red is 20 higher is flagged at threshold 10 |
| DiffCanvas.HalfChangedFlags | src/components/DiffCanvas.jsx:39-44 | of an unchanged pixel and one 20 redder, only the second is flagged at threshold 10 |
| DiffCanvas.HalfPercentage | src/components/DiffCanvas.jsx:63 | one flagged pixel of two formats as "50.00" |
| DiffCanvas.HalfChangedExample | src/components/DiffCanvas.jsx:35-63 | that two-pixel comparison counts one flagged pixel and reports "50.00" |
| Percent.RoundedHundredths | src/components/DiffCanvas.jsx:63 | the hundredths are `10000 * count / total` rounded to the nearest integer, halves upwards |
| Percent.OfCounts | src/components/DiffCanvas.jsx:63 | divided by a positive pixel count, the share of flagged pixels is always a number of hundredths, never NaN (NaN only arises from `parseFloat` of a text that is not a number) |
| Percent.OfCountsRange | src/components/DiffCanvas.jsx:63 | a share of the pixels lies in [0.00, 100.00], with 0.00 for none and 100.00 for all |
| Percent.OfCountsMonotone | src/components/DiffCanvas.jsx:63 | more flagged pixels never give a smaller percentage |
| Percent.ToFixed2 | src/components/DiffCanvas.jsx:63 | `toFixed(2)`: the integer part without leading zeros, a point and two digits, or "NaN" (inverted by ParseToFixed2) |
| Percent.ParseFloat | src/App.jsx:20 | `parseFloat` on percentage texts: an integer part, a point and two digits give that many hundredths; anything else is NaN |
| Percent.AtMost | src/App.jsx:20 | `parseFloat(...) <= maxDiff`: false for NaN, otherwise the hundredths are at most `100 * maxDiff` |
| Percent.ParseToFixed2 | src/App.jsx:20 | `parseFloat` of the `toFixed(2)` text gives back exactly the formatted percentage, NaN included |
| Percent.ParsedPlain | src/App.jsx:64 | a percentage text that reads as a number holds neither a line break nor a double quote |
| Decimal.Digit | src/components/DiffCanvas.jsx:63 | a digit below 10 is printed as the character with that value above '0' |
| Decimal.DigitValue | src/App.jsx:20 | the value read from a digit character is below 10 and prints back as that character |
| Decimal.NatToString | src/components/DiffCanvas.jsx:63 | the integer part is printed as a non-empty digit string without leading zeros |
| Decimal.ParseNatToString | src/App.jsx:20 | reading back a printed integer part gives the same number |
| Seqs.Filter | src/App.jsx:19-22 | the kept elements are elements of the input that satisfy the test, and every input element that satisfies it is kept |
| Seqs.FilterConcat | src/App.jsx:19-22 | filtering a concatenation is concatenating the filters, so relative order is kept |
| Seqs.FilterKeepsAll | src/App.jsx:19-22 | when every element satisfies the test, the filter returns the input unchanged |
| Seqs.Join | src/App.jsx:66 | a single line is joined to itself |
| Seqs.SplitJoin | src/App.jsx:66 | splitting the joined text at the separator gives back the lines when none contains the separator |
| Seqs.CountTrueAtMostLength | src/components/DiffCanvas.jsx:49 | a counter incremented at most once per step never exceeds the number of steps |
| Seqs.CountTrueIsCardinality | src/components/DiffCanvas.jsx:49 | the count of increments is the number of positions where one happened |
| Seqs.CountTrueNone | src/components/DiffCanvas.jsx:49 | with no increment the counter stays 0 |
| Seqs.CountTrueMonotone | src/components/DiffCanvas.jsx:49 | where every increment of one run is matched by one in another, the first count is no larger |
| CsvRow.RenderRow | src/App.jsx:64 | a row of at least one field starts with a double quote |
| CsvRow.RenderRowAvoids | src/App.jsx:64 | a character that is neither a quote nor a comma and occurs in no field does not occur in the row |
| CsvRow.ParseLastField | src/App.jsx:64 | one quoted field without inner quotes reads back as that field |
| CsvRow.ParseNextField | src/App.jsx:64 | a quoted field followed by a comma and a readable rest reads back as that field followed by the rest's fields |
| CsvRow.ParseRenderRow | src/App.jsx:64 | a row of quoted fields reads back as its fields when no field contains a double quote |
| App.ThresholdOf | src/App.jsx:11 | the threshold lies in 1..150 exactly when the sensitivity is a slider position 1..150 (both directions) |
| App.CanCompare | src/App.jsx:17 | a comparison needs a before image and at least one folder image |
| App.AllDrawable | src/App.jsx:48-49 | no engine run of the batch throws: every folder image can be compared with the before image |
| App.ResultFor | src/App.jsx:49-54 | the record pushed for a folder image that can be compared holds that image, a diff canvas of the larger size that is an RGBA buffer, and the percentage |
| App.HigherSensitivityFlagsMore | src/App.jsx:11 | a higher sensitivity, and so a lower threshold, flags at least as many pixels |
| App.HigherSensitivityNoLowerPercentage | src/App.jsx:11 | when a comparison succeeds at one sensitivity it succeeds at every higher one, and never reports a lower percentage there |
| App.Batch | src/App.jsx:47-55 | a batch in which every image can be compared has one result per folder image |
| App.BatchAt | src/App.jsx:47-55 | result `k` is folder image `k` compared with the same before image at the same threshold |
| App.BatchStep | src/App.jsx:48-54 | one more image that can be compared extends the batch by exactly its result |
| App.BatchResult | src/App.jsx:48-54 | result `k` holds folder image `k`, the diff canvas of that comparison (sized to the larger image) and its percentage |
| App.CompareAll | src/App.jsx:47-55 | the loop completes exactly when every folder image can be compared, and then pushes exactly the batch's results in folder order; otherwise it stops at the first failing image |
| App.Shown | src/App.jsx:20 | the filter test: the parsed percentage is a number no greater than `maxDiff` |
| App.Visible | src/App.jsx:19-22 | the results that pass the test, in their order (VisibleMembers, VisibleKeepsOrder) |
| App.VisibleMembers | src/App.jsx:19-22 | a result is visible if and only if it is one of the results and its parsed percentage is at most `maxDiff` |
| App.VisibleKeepsOrder | src/App.jsx:19-22 | the visible rows of two runs of results are those of the first followed by those of the second |
| App.VisibleWidens | src/App.jsx:19-22 | raising `maxDiff` hides no row that was visible |
| App.ResultWithinRange | src/App.jsx:20 | every recorded result is shown at the limit 100 |
| App.FullRangeShowsAll | src/App.jsx:19-22 | with `maxDiff = 100` the visible results are the whole batch |
| App.ChartData | src/App.jsx:24-31 | the chart has one bar per visible result |
| App.ChartWithinLimit | src/App.jsx:24-31 | bar `k` carries the name of visible result `k` and a number no greater than `maxDiff` |
| App.Row | src/App.jsx:64 | `"<before name>","<image name>","<percentage>%"` (read back by RowFields) |
| App.CsvText | src/App.jsx:62-66 | the header `Header`, the literal `Förebild,Efterbild,Skillnad`, followed by the rows, joined by line breaks (split back by CsvLines) |
| App.Rows | src/App.jsx:63-65 | there is one CSV row per visible result |
| App.CsvExport | src/App.jsx:61-66 | the export fails exactly when there is no before image and at least one row needs its name |
| App.RowFields | src/App.jsx:64 | a row reads back as the before name, the image name and the percentage followed by `%` when no name holds a double quote |
| App.RowOneLine | src/App.jsx:64 | a row is a single line when no name holds a line break |
| App.CsvLines | src/App.jsx:62-66 | the lines of the export are the header followed by one row per visible result, in order |
| App.CsvRowsReadBack | src/App.jsx:62-66 | line `k + 1` of the export reads back as the three fields of visible result `k`, after the header line |
| App.QuoteInNameBreaksRow | src/App.jsx:64 | a name containing a double quote yields a row that does not read back as its fields, since quotes are not escaped |
| App.StartsWith | src/App.jsx:35 | `startsWith`: the prefix is no longer than the text and equals its first characters |
| App.IsImageFile | src/App.jsx:34-35 | the file filter's test: the MIME type starts with `image/` |
| App.ImageFiles | src/App.jsx:34-36 | the chosen files whose type starts with `image/`, in order (ImageFilesMembers) |
| App.ImageFilesMembers | src/App.jsx:34-36 | a file is kept if and only if it was chosen and its type starts with `image/` |
| App.LoadAll | src/App.jsx:37 | one loaded image per kept file |
| App.CompareThenShowAll | src/App.jsx:42-59 | after a comparison that completes, every folder image has its result in order, and at limit 100 all of them are visible |
| App.AppState.constructor | src/App.jsx:8-14 | the initial state: no before image, no folder images or results, sensitivity 120, limit 100, not processing |
| App.AppState.Valid | src/App.jsx:144-166 | the state the two sliders allow: sensitivity in 1..150 (lines 146-147) and `maxDiff` in 0..100 (lines 162-163); every handler keeps it |
| App.AppState.SetBeforeImage | src/App.jsx:95 | choosing a before image changes only that field and keeps the slider ranges |
| App.AppState.SetSensitivity | src/App.jsx:149 | moving the sensitivity slider changes only the sensitivity and keeps it within 1..150 |
| App.AppState.SetMaxDiff | src/App.jsx:165 | moving the limit slider changes only `maxDiff` and keeps it within 0..100 |
| App.AppState.HandleFolderSelect | src/App.jsx:33-40 | the folder images become the loaded image files, in order, and the results are cleared; nothing else changes |
| App.AppState.HandleCompare | src/App.jsx:42-59 | without a before image or folder images nothing changes; when an engine run throws, processing stays true and the results stay empty; otherwise the results become the batch for the current threshold, which lies in 1..150, and processing ends false |

## Left out

- Canvas plumbing is not modelled: creating canvases, `drawImage`, `getImageData`, `putImageData` and `toDataURL` (src/components/DiffCanvas.jsx:14-31, 61-64). Drawing and reading back is the `render` parameter. The diff output carries the pixel buffer instead of a PNG data URL.
- The early return when an image is missing (src/components/DiffCanvas.jsx:7) is not modelled; `Diff` always receives two images.
- `computeDiff` and `loadImage` from `src/utils/computeDiff` are not part of this model. The batch runs the `DiffCanvas` loop as its engine, and loading is the `load` parameter of `HandleFolderSelect`.
- DiffCanvas.Grey: `Math.round` applied to the floating-point sum `0.3R + 0.59G + 0.11B` is modelled with exact arithmetic. Where the exact value is a half, binary rounding of the float may land on the other side.
- Percent.RoundedHundredths: `toFixed(2)` of the floating-point `(c / n) * 100` is modelled as exact rounding, halves upwards. Exact half-hundredth cases may differ from the double result.
- Percent.ParseFloat: `parseFloat` is modelled on the texts `toFixed(2)` produces and on "NaN". Any other text is NaN, whereas JavaScript would read a numeric prefix.
- Export side effects are not modelled: the `Blob`, the download link and the file name built from the current date and time (src/App.jsx:67-75).
- Not modelled: `handleDownload`, the `ImageSlider` and `ImageUploader` components, the React rendering, and the recharts chart beyond its data.
- App.AppState.HandleCompare: the intermediate state (`processing` true, results empty) is only visible between the handler's steps, or at the end after a failed run. The rejected promise of the `async` handler, its scheduling and React's batching of state updates are not modelled.
- App.AppState.HandleFolderSelect: `Promise.all` is modelled as loading every file in order. Load failures are not modelled.
