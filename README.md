# EAST + CRNN text reader: decoding core

This project models the decoding core of `OCR_CRNNDetect`, a scene-text reader.
An EAST network finds rotated text boxes, and a CRNN network reads the text in each
box. The model covers the three pieces of pure logic between the networks:

- **Recognition post-processing.** `Postprocess(Mat scores)` performs greedy CTC decoding.
  - For each timestep row it takes the class with the highest score (MinMaxLoc).
  - Class 0 maps to the blank marker `'_'`, and class `k > 0` maps to `Alphabet[k - 1]`.
  - A class past the end of the alphabet makes the indexer throw. The model returns `Err` for it.
  - The raw symbols are then collapsed: a symbol is kept when it is not `'_'` and differs from the raw symbol just before it.
  - Modules: `SequenceDecoder` (specification functions, lemmas and the imperative `RecognitionPostprocess` with its two loops) and `Results`.
- **EAST geometry decoding.** `Decode(scores, geometry, ...)` checks the two maps' shapes and walks the grid row by row. For every cell whose score reaches the confidence threshold, it builds a rotated rectangle from the cell's four side distances and its angle. Modules:
  - `GeometryDecoder`: the imperative `Decode`, whose inner loop is `DecodeRow`, and the specification `DecodeSpec`.
  - `Geometry`: points, rectangles and the box formula.
  - `Tensors`: a Mat as a flat row-major buffer read by `At`.
- **Crop rectification target.** `GetCropImage` maps each box onto a fixed 100 x 32 image whose corners are listed bottom-left, top-left, top-right, bottom-right. Module: `CropRectifier`.

Each imperative method is proved equal to a pure specification function. The
lemmas then state what that function promises:
- the first-maximum class per row;
- the per-row symbol and the first failing row;
- that the collapse equals "merge repeats, then drop blanks";
- the kept cells are exactly the in-grid cells that reach the threshold, in row-major order;
- the box sizes and the rectangle corners.

Notes on behaviour that the model keeps as the code has it:

- **Row slices use `height`, not `width`.** `Decode` builds each row's arrays with
  `Enumerable.Range(0, height)` and then reads them at `x < width`.
  - When the map has rows and is wider than tall, the first row's read at `x = height` throws. The model returns `Err(SliceIndexOutOfRange(0, height, height))`, which is exactly what `DecodeSpec` returns in that case.
  - When it is taller than wide, the extra elements read the next row and are never used.
  - The square maps the detector produces are unaffected.
- **A literal `'_'` in the alphabet cannot be told apart from the blank.** Such a character is dropped by the collapse.
- **At does no bounds check.** `Mat.At` does not check its indices against the dimensions, so a column past the width reads the next row (`Tensors.RowSliceRunsIntoNextRow`).

## Model

| member | source | states |
|---|---|---|
| SequenceDecoder.ArgMax | src/yolovdetection/OCR-CRNN/OCR_CRNNDetect.cs:395 | the class index lies in the row, its score is maximal, and every earlier score is strictly smaller (MinMaxLoc's first maximum) |
| SequenceDecoder.ArgMaxUnique | src/yolovdetection/OCR-CRNN/OCR_CRNNDetect.cs:395 | those two properties hold of an index exactly when it is ArgMax's result |
| SequenceDecoder.RawSymbolsPerRow | src/yolovdetection/OCR-CRNN/OCR_CRNNDetect.cs:391-406 | building the element list succeeds iff every row's class is at most the alphabet length; then there is one symbol per row, blank for class 0 and `alphabet[k-1]` for class k |
| SequenceDecoder.RawSymbolsFirstError | src/yolovdetection/OCR-CRNN/OCR_CRNNDetect.cs:397-400 | a failure names a row whose class has no character, with every earlier row's class in range (the first throwing row) |
| SequenceDecoder.RawSymbolsPrefixError | src/yolovdetection/OCR-CRNN/OCR_CRNNDetect.cs:391-406 | once the rows read so far fail, the whole matrix fails with that same error (the throw ends the loop) |
| SequenceDecoder.Collapse | src/yolovdetection/OCR-CRNN/OCR_CRNNDetect.cs:409-421 | the text is no longer than the raw symbols and never contains the blank |
| SequenceDecoder.CollapseIsMergeThenRemoveBlanks | src/yolovdetection/OCR-CRNN/OCR_CRNNDetect.cs:409-421 | the collapse equals the textbook CTC rule: merge runs of equal symbols, then delete blanks |
| SequenceDecoder.CollapseAppend | src/yolovdetection/OCR-CRNN/OCR_CRNNDetect.cs:415-421 | one more raw symbol is appended to the text iff it is not blank and differs from its predecessor |
| SequenceDecoder.CollapseEmptyIffAllBlank | src/yolovdetection/OCR-CRNN/OCR_CRNNDetect.cs:409-421 | the text is empty iff every raw symbol is blank |
| SequenceDecoder.CollapseRun | src/yolovdetection/OCR-CRNN/OCR_CRNNDetect.cs:415-421 | a run of n+1 equal symbols yields the same text as one such symbol |
| SequenceDecoder.CollapseSplitsAtBlank | src/yolovdetection/OCR-CRNN/OCR_CRNNDetect.cs:415-421 | a blank separates the text: the parts before and after it collapse independently and are concatenated |
| SequenceDecoder.CollapseExampleBlankSeparated | src/yolovdetection/OCR-CRNN/OCR_CRNNDetect.cs:409-421 | `_aa_a` decodes to `aa` for any non-blank `a` |
| SequenceDecoder.CollapseExampleRuns | src/yolovdetection/OCR-CRNN/OCR_CRNNDetect.cs:409-421 | `aaa` decodes to `a` and `a_a` to `aa` |
| SequenceDecoder.CtcDecode | src/yolovdetection/OCR-CRNN/OCR_CRNNDetect.cs:384-424 | decoding succeeds iff every row's class is at most the alphabet length; the text is at most one character per row and holds no blank |
| SequenceDecoder.AllBlankRowsDecodeEmpty | src/yolovdetection/OCR-CRNN/OCR_CRNNDetect.cs:397-421 | rows whose maximum is always class 0, or no rows at all, decode to the empty string |
| SequenceDecoder.AlphabetCoveringClassesDecodes | src/yolovdetection/OCR-CRNN/OCR_CRNNDetect.cs:397-400 | an alphabet with a character for every non-blank class never makes the indexer fail |
| SequenceDecoder.RecognitionPostprocess | src/yolovdetection/OCR-CRNN/OCR_CRNNDetect.cs:384-424 | the two loops return exactly CtcDecode of the score rows, including the error of the first out-of-alphabet row |
| SequenceDecoder.CollapseElements | src/yolovdetection/OCR-CRNN/OCR_CRNNDetect.cs:409-423 | the first-element test and the `j >= 1` loop compute exactly Collapse of the element list |
| Tensors.RowSlice | src/yolovdetection/OCR-CRNN/OCR_CRNNDetect.cs:197-206 | a slice built over `Range(0, n)` has exactly n elements, and element col within the row's width is `At(0, channel, y, col)`, the value of cell (y, col) |
| Tensors.OffsetInBuffer | src/yolovdetection/OCR-CRNN/OCR_CRNNDetect.cs:197-206 | indices within the four sizes of a valid Mat address its own buffer, so At reads that element |
| Tensors.RowSliceRunsIntoNextRow | src/yolovdetection/OCR-CRNN/OCR_CRNNDetect.cs:197-206 | a column index at or past the width reads column `col - width` of the next row |
| Geometry.DecodeBoxShape | src/yolovdetection/OCR-CRNN/OCR_CRNNDetect.cs:217-237 | the box is (left+right) wide and (top+bottom) high, its angle is the negated angle in degrees, and its center is the anchor `(4x, 4y)` plus ((right-left)/2, (bottom-top)/2) rotated by the angle |
| Geometry.BoxCornersFormRectangle | src/yolovdetection/OCR-CRNN/OCR_CRNNDetect.cs:228-236 | when cos^2 + sin^2 = 1, p1 lies h from the offset point, p3 lies w from it, and the two sides are perpendicular |
| Geometry.AxisAlignedBoxSides | src/yolovdetection/OCR-CRNN/OCR_CRNNDetect.cs:217-237 | at angle 0 the box's four sides lie exactly top, right, bottom and left away from the anchor |
| GeometryDecoder.GridCellsRowMajor | src/yolovdetection/OCR-CRNN/OCR_CRNNDetect.cs:192-209 | the two loops visit height*width cells, each in-grid cell once, in row-major order |
| GeometryDecoder.QualifyingKeepsPassingCells | src/yolovdetection/OCR-CRNN/OCR_CRNNDetect.cs:212-213 | a cell is kept iff it is visited and its score reaches the threshold |
| GeometryDecoder.QualifyingSorted | src/yolovdetection/OCR-CRNN/OCR_CRNNDetect.cs:209-241 | filtering by the threshold keeps the visiting order |
| GeometryDecoder.CellStep | src/yolovdetection/OCR-CRNN/OCR_CRNNDetect.cs:212-240 | one cell of the walk appends its box and its score exactly when its score reaches the threshold |
| GeometryDecoder.Decode | src/yolovdetection/OCR-CRNN/OCR_CRNNDetect.cs:177-244 | the method's result is exactly DecodeSpec: empty lists on a failed shape check, the slice error on a map wider than tall, otherwise the boxes and scores of the qualifying cells in visiting order |
| GeometryDecoder.DecodeRow | src/yolovdetection/OCR-CRNN/OCR_CRNNDetect.cs:197-242 | one row finishes iff width <= height, and then extends both lists by that row's qualifying cells |
| GeometryDecoder.BadShapesGiveNoBoxes | src/yolovdetection/OCR-CRNN/OCR_CRNNDetect.cs:182-187 | a null map, a wrong rank, a wrong batch or channel count, or mismatched heights or widths give two empty lists |
| GeometryDecoder.DecodeFailsOnlyWhenWiderThanTall | src/yolovdetection/OCR-CRNN/OCR_CRNNDetect.cs:197-212 | with fitting shapes, decoding fails iff 0 < height < width |
| GeometryDecoder.DecodeKeepsQualifyingCellsInOrder | src/yolovdetection/OCR-CRNN/OCR_CRNNDetect.cs:192-243 | the lists have equal length; entry i is the box and the score of the i-th qualifying cell in row-major order; the qualifying cells are exactly the in-grid cells whose score reaches the threshold |
| GeometryDecoder.AllCellsPassGiveOneBoxEach | src/yolovdetection/OCR-CRNN/OCR_CRNNDetect.cs:209-240 | when every score passes (and width <= height), there are height*width boxes |
| GeometryDecoder.CellBoxReadsOwnCell | src/yolovdetection/OCR-CRNN/OCR_CRNNDetect.cs:197-226 | for an in-grid cell of valid maps, the score and the five geometry values come from that cell's own buffer entries |
| GeometryDecoder.WiderMapFailsAsWritten | src/yolovdetection/OCR-CRNN/OCR_CRNNDetect.cs:197-212 | a 1x2 map whose two cells pass makes the code as written fail, while width-long slices give two boxes |
| GeometryDecoder.DecodeOverWidth | src/yolovdetection/OCR-CRNN/OCR_CRNNDetect.cs:197-212 | with width-long slices, the lists have equal length, agree with the code whenever it does not fail, and are empty on a failed shape check |
| GeometryDecoder.DecodeOverWidthKeepsQualifyingCellsInOrder | src/yolovdetection/OCR-CRNN/OCR_CRNNDetect.cs:192-243 | with width-long slices and any fitting shapes, the lists have equal length; entry i is the box and the score of the i-th qualifying cell in row-major order; the qualifying cells are exactly the in-grid cells whose score reaches the threshold |
| CropRectifier.DestinationCorners | src/yolovdetection/OCR-CRNN/OCR_CRNNDetect.cs:277-281 | four corners, the second at the origin; vertical and horizontal sides span width-1 and height-1 |
| CropRectifier.CropCornersSpanOutputPixels | src/yolovdetection/OCR-CRNN/OCR_CRNNDetect.cs:275-281 | for 100x32 the corners are (0,31), (0,0), (99,0), (99,31); they enclose every output pixel, and each is itself a pixel of the output |

## Findings

| source | as written | input that shows it | evidently intended | confidence | as-written member | corrected member |
|---|---|---|---|---|---|---|
| src/yolovdetection/OCR-CRNN/OCR_CRNNDetect.cs:197-212 | each row slice holds `height` elements but is read at `x < width` | fitting maps of height 1 and width 2 whose scores are both 0.9, with threshold 0.5: reading `scoresData[1]` is out of range | row slices over `Range(0, width)`, so every fitting pair of maps decodes | high (not executed) | GeometryDecoder.WiderMapFailsAsWritten | GeometryDecoder.DecodeOverWidth |

`GeometryDecoder.Decode` models the code as written. `DecodeOverWidth` is the
corrected definition. `DecodeOverWidthKeepsQualifyingCellsInOrder` proves its
intended property: for any fitting maps, the output holds exactly the qualifying
cells, in row-major order. Its contract also shows that it agrees with the code whenever the code
does not throw.

## Left out

- Non-maximum suppression (`NMSBoxes`), `RotatedRect.Points()`, and the scaling of box vertices back to the original image's size. These are OpenCV calls outside the decoding core.
- The perspective transform, the warp and the colour conversion of `GetCropImage`. Only the destination corners are modelled.
- Network loading and inference, image I/O, blob creation, drawing, the demo entry point, the UI and the configuration classes. The confidence threshold and the alphabet become parameters.
- `Math.Cos` and `Math.Sin` are not computed: `Geometry.Trig` passes them in as parameters.
- `Math.PI` is the literal 3.141592653589793.
- Single-precision floating point becomes exact `real` arithmetic, so rounding and the float casts are not modelled.
- SequenceDecoder.ArgMax: MinMaxLoc's tie-break is taken to be the first maximal index in row order. OpenCV does not document this.
- SequenceDecoder.RecognitionPostprocess: the `Reshape(1, Size(0))` is not modelled. The input is the reshaped matrix, as one non-empty row of class scores per timestep.
- Tensors.At: a read past the end of the buffer yields 0.0. On real hardware it could read other memory or fault.
- GeometryDecoder.Decode: the source has the row loop inline. The model splits it into the method `DecodeRow`, which performs the same slices and the same walk.
- SequenceDecoder.Collapse: the contract does not state that the text is a subsequence of the raw symbols.
- SequenceDecoder.ClassSymbol: the alphabet is assumed to hold only characters of the Basic Multilingual Plane. C# indexes a string by UTF-16 code unit, while a Dafny `char` is a whole Unicode scalar value. With a character outside that plane in the label file, the source counts two classes where the model counts one, shifts every later class, and can emit half a surrogate pair, which the model cannot represent.
