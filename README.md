# images_resizer in Dafny

A model of the deterministic core of `images_resizer.go`, a tool that shrinks
every JPEG, PNG and GIF image of a directory by a factor between 0 and 1 and
writes each result beside its original as `name_resized.ext`.

- **Sampler** (`sampler.dfy`): the colour types, `clamp` (`Sampler.Clamp`) and the
  2x2 box filter `average2x2` (`Sampler.Average2x2`). The filter adds four 16-bit
  samples per channel and divides by 1024, truncating to 8 bits. The sum is at
  most 262140 < 2^24, so the source's `float32` division is exact and the model
  uses integer floor division.
- **Resizer** (`resizer.dfy`): `resizeImage` as an imperative method
  (`Resizer.ResizeImage`, inner loop `Resizer.ResizeRow`). The output canvas is an
  `array2` that starts out zero. The method visits every source pixel in row-major
  order and writes the sample to `(floor(j*f), floor(i*f))`. It drops writes that
  fall outside the canvas, and later writes replace earlier ones. The method is
  proved against `Resizer.ResizedPixel`: each cell holds the sample of the last
  source pixel mapped to it (`Resizer.LastPreimage`). The scale factor is the
  rational `num/den` with `0 < num < den`, and `int(float64(k)*factor)` is
  `(k*num)/den`.
- **Enumerator** (`enumerator.dfy`): the filter loop over the directory listing
  (`Enumerator.EnumerateJobs`, proved against `Enumerator.Jobs`) and the output name
  `name + "_resized" + lower(ext)` (`Enumerator.OutputName`). The loop appears three
  times in the source (lines 81-89, 133-143 and 199-209) with the same selection
  test. The model follows the copy at 199-209.

The output name uses the lower-cased extension (lines 218 and 237), not the
original extension string. As a result `a.PNG` and `a.png` are two different
jobs that write the same file (`Enumerator.OutputNameCaseCollision`).

Forward mapping could in principle leave canvas cells unwritten. With exact
rational arithmetic it does not: every cell of the canvas is written
(`Resizer.EveryCellReached`), so no cell keeps its zero value.

## Model

| member | source | states |
|---|---|---|
| `Sampler.Average2x2` | images_resizer.go:24-35 | the channel-wise truncated average of the 2x2 neighbourhood; its contract is carried by `AverageChannel` (floor of the sum over 1024, 8-bit range, min/max bound), `AverageOfEqual` and `AverageOfSolid` |
| `Sampler.AverageChannel` | images_resizer.go:29-34 | one channel of the average is the floor of the four-sample sum over 1024 (`1024*v <= sum < 1024*(v+1)`), fits 8 bits, and lies between the high bytes of the smallest and the largest sample |
| `Sampler.AverageOfEqual` | images_resizer.go:30-34 | averaging four copies of one 16-bit colour yields its high byte in every channel |
| `Sampler.NarrowWiden` | images_resizer.go:29 | an 8-bit colour reported on the 16-bit scale (`v*257`) narrows back to itself |
| `Sampler.AverageOfSolid` | images_resizer.go:29-34 | four samples of one solid 8-bit colour average to exactly that colour |
| `Sampler.Clamp` | images_resizer.go:38-51 | for a non-empty axis the result is inside `[0, w-1]` (resp. `[0, h-1]`) and is the axis point nearest the argument; an in-range coordinate is returned unchanged |
| `Sampler.ClampAxesIndependent` | images_resizer.go:39-51 | the clamped x does not depend on y or h, and the clamped y does not depend on x or w |
| `Resizer.Scale` | images_resizer.go:61-62 | `int(float64(k)*factor)` with factor num/den; `ScaleIsFloor` states it is the floor of k*num/den, `ScaleStep` and `ScaleMonotone` how it moves |
| `Resizer.ScaleIsFloor` | images_resizer.go:61-62 | the scaled coordinate s satisfies s*den <= k*num < (s+1)*den |
| `Resizer.Sample` | images_resizer.go:63-65 | the colour computed for source pixel (j, i); `NeighbourhoodInBounds` and `SampleReadsPixels` state that it averages the four clamped in-bounds pixels |
| `Resizer.ResizedPixel` | images_resizer.go:59-68 | the closed form `ResizeImage` is proved against: the sample of the last preimage pair of (x, y), by `LastPreimage`; `EveryCellReached`, `LastWriteWins` and `SolidStaysSolid` state its properties |
| `Resizer.LastPreimage` | images_resizer.go:59-62 | returns the largest k < n whose scaled coordinate is x, with no larger k mapping to x; returns None exactly when no k < n maps to x |
| `Resizer.ResizeImage` | images_resizer.go:54-70 | the fresh canvas is `floor(H*f)` by `floor(W*f)`, and every cell holds `ResizedPixel`, the sample of the last source pixel in row-major order mapped to it |
| `Resizer.ResizeRow` | images_resizer.go:60-67 | visiting one source row takes the canvas from the state after the rows before it to the state after that row; writes off the canvas change nothing |
| `Resizer.CellInRowStep` | images_resizer.go:61-66 | visiting (j, i) changes only the cell (floor(j*f), floor(i*f)), which then holds the sample of (j, i) |
| `Resizer.CellInRowDone` | images_resizer.go:59-67 | after a full row i the canvas is the state after rows 0..i |
| `Resizer.ScaleStep` | images_resizer.go:61-62 | moving one source pixel along moves the scaled coordinate by zero or one |
| `Resizer.ScaleMonotone` | images_resizer.go:61-62 | the scaled coordinate never decreases as the source coordinate grows |
| `Resizer.ScaleShrinks` | images_resizer.go:55-56 | each output dimension is at most the source dimension, and strictly smaller when the source dimension is non-zero |
| `Resizer.HalfSizeExample` | images_resizer.go:55-56 | at f = 1/2 a 4x4 image becomes 2x2 and a 2x2 image becomes 1x1 |
| `Resizer.EveryCellReached` | images_resizer.go:55-66 | every coordinate below the output dimension is the image of some source coordinate, so every canvas cell is written |
| `Resizer.ForwardMapBound` | images_resizer.go:55-66 | a visited pixel maps at most to the output dimension itself, so dropped writes fall exactly one past the last row or column |
| `Resizer.DroppedWriteExample` | images_resizer.go:61-66 | at W = 3 and f = 1/2 the column j = 2 maps to x = 1, the canvas width, so that write is dropped |
| `Resizer.NeighbourhoodInBounds` | images_resizer.go:63-65 | for every visited (j, i), including the last row and column, the four clamped sample points lie inside the source bounds |
| `Resizer.SampleReadsPixels` | images_resizer.go:63-65 | the sample of (j, i) averages the pixels at (j, i), (j+1, i), (j, i+1) and (j+1, i+1), with the last column and row standing in for one past them |
| `Resizer.SolidStaysSolid` | images_resizer.go:54-70 | a source image of one solid colour resizes to a canvas whose every cell is that colour |
| `Resizer.RowMajorOrder` | images_resizer.go:59-60 | a pixel in a row and column no later than another's is visited no later |
| `Resizer.LastWriteWins` | images_resizer.go:59-68 | the cell that (j, i) maps to holds the sample of a pixel mapped to the same cell that is visited no earlier than (j, i) |
| `Enumerator.ToLower` | images_resizer.go:203 | the result has the input's length; each upper-case ASCII letter becomes its lower-case partner (code point + 32) and every other character is unchanged |
| `Enumerator.Ext` | images_resizer.go:203 | `filepath.Ext` of a bare name; `ExtIsLastDotSuffix` and `ExtOfSuffix` state its contract |
| `Enumerator.ExtIsLastDotSuffix` | images_resizer.go:203 | the extension is a suffix of the name; it is empty exactly when the name has no '.'; otherwise it starts at a '.' and holds no other |
| `Enumerator.Name` | images_resizer.go:204 | the file name without its last `len(ext)` characters; `SplitImageName` and `OutputNameExt` state what it returns |
| `Enumerator.Contains` | images_resizer.go:206 | `strings.Contains`: some position of the string starts the substring; `MarkedNameContainsMarker` and `ExampleSkipped` use it |
| `Enumerator.IsImageJob` | images_resizer.go:203-206 | the selection test: lower-cased extension recognised and base name without `_resized`; `ImageJobOf`, `RecognisedImageJob` and `OutputNameNotSelected` state when it holds |
| `Enumerator.Jobs` | images_resizer.go:199-209 | the selected entries in listing order; `JobsAppend`, `JobsSingleton` and `JobsMembership` characterise it |
| `Enumerator.EnumerateJobs` | images_resizer.go:199-209 | the loop builds exactly `Jobs(listing)` |
| `Enumerator.JobsAppend` | images_resizer.go:199-209 | the jobs of a concatenated listing are the jobs of each part, in order, so listing order is kept |
| `Enumerator.JobsSingleton` | images_resizer.go:206-207 | a one-entry listing yields that entry exactly when it passes the selection test |
| `Enumerator.JobsMembership` | images_resizer.go:199-209 | a name is a job if and only if it is in the listing and passes the selection test |
| `Enumerator.ImageExtensionShape` | images_resizer.go:193-198 | every recognised extension is one '.' followed by lower-case letters |
| `Enumerator.ExtOfSuffix` | images_resizer.go:218 | a suffix that starts with its only '.' is the extension of any name it ends |
| `Enumerator.SplitImageName` | images_resizer.go:203-204 | a base name joined to a recognised extension splits back into that base name and extension |
| `Enumerator.ImageJobOf` | images_resizer.go:203-206 | a base name without the marker, joined to an extension whose lower-case form is recognised, is selected, and its output is `base + "_resized" + lower(ext)` |
| `Enumerator.OutputName` | images_resizer.go:237 | `name + "_resized" + lower(ext)`; `ImageJobOf`, `OutputNameExt`, `OutputNameDeterminesJob` and `OutputNameNotSelected` state its contract |
| `Enumerator.OutputNameExt` | images_resizer.go:218-237 | an output name has the job's lower-cased extension as its own extension and `name + "_resized"` as its base name |
| `Enumerator.OutputNameNotSelected` | images_resizer.go:204-206 | no output name (line 237) passes the selection test |
| `Enumerator.OutputNameDeterminesJob` | images_resizer.go:218-237 | two jobs with the same output name have the same base name and the same extension up to case |
| `Enumerator.OutputNameCaseCollision` | images_resizer.go:218-237 | `a.PNG` and `a.png` are both selected and both write `a_resized.png` |
| `Enumerator.NoOutputIsAJob` | images_resizer.go:204-206 | a listing made only of the output names of jobs yields no jobs |
| `Enumerator.SecondRunSelectsNoOutputs` | images_resizer.go:199-209 | re-running over a directory that holds first-run entries and first-run outputs selects only first-run jobs |
| `Enumerator.RerunIsIdempotent` | images_resizer.go:199-209 | a listing extended by the first run's outputs yields the same job list |
| `Enumerator.JobsOfThree` | images_resizer.go:199-209 | the jobs of a three-entry listing are its selected entries, in order |
| `Enumerator.RecognisedImageJob` | images_resizer.go:203-237 | a base name without the marker joined to a recognised extension is selected and written as `base + "_resized" + ext` |
| `Enumerator.JobsOfTwoImagesAndAnOutput` | images_resizer.go:199-209 | two unmarked names with `.png` and `.jpg` extensions around a marked `.gif` name yield exactly the two unmarked ones, in order, with their output names |
| `Enumerator.ExampleSkipped` | images_resizer.go:204-206 | `c_resized.gif` is not selected |
| `Enumerator.ExampleRun` | images_resizer.go:199-209 | the listing `a.png`, `b.jpg`, `c_resized.gif` yields the jobs `a.png` and `b.jpg`, with outputs `a_resized.png` and `b_resized.jpg` |

## Left out

- Directory listing, file open/create/close and deferred closing (`ioutil.ReadDir`, `os.Open`, `os.Create`): filesystem I/O. A listing is a parameter (`seq<string>`).
- `image.Decode` and the JPEG, PNG and GIF encoders: external codec libraries. The decoded image is a grid of 16-bit samples (`Resizer.Image16`) whose bounds start at (0, 0). A GIF frame with offset bounds is not modelled.
- `asyncResizeImages`, the worker pool of `workersPoolResizeImages` and the sequential driver `resizeImages`: goroutines, channels and result collection are concurrency and I/O. Only their shared filter loop and output naming are modelled.
- `log.Fatal` abort paths, progress `Printf` output and `main` (flag parsing, usage, timing, the check that the factor lies in (0, 1)). The factor's range becomes the precondition `0 < num < den`.
- `Resizer.ResizeImage`: `float64` rounding in `int(float64(k)*factor)` is not modelled. The factor is an exact rational and the product is floored exactly.
- `Enumerator.ToLower`: only ASCII letters are lowered. Go's Unicode case mapping, which can also change a string's byte length, is not modelled.
- `Enumerator.Ext`: the stop at a path separator in `filepath.Ext` is not modelled, because directory entries are bare names.
