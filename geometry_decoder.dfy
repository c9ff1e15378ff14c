/**
  The EAST decoder (OCR_CRNNDetect.Decode): turns the detector's score map
  (1 x 1 x H x W) and geometry map (1 x 5 x H x W) into one rotated rectangle
  and one confidence per cell whose score reaches the threshold, in row-major
  cell order. Tensors of the wrong shape give no boxes.

  The source reads each row through slices of `height` elements and indexes
  them with x < width: when the width exceeds the height (and the map has at
  least one row) the index runs off the slice and the source throws; that is
  the Err result here.
*/
module GeometryDecoder {
  import opened Results
  import opened Tensors
  import opened Geometry

  /** A score-map cell: row y, column x. */
  datatype Cell = Cell(y: nat, x: nat)

  datatype DecodeError =
    /** A row slice of `length` elements was indexed at `index` on row `y`. */
    SliceIndexOutOfRange(y: nat, index: nat, length: nat)

  /** The two lists Decode fills: boxes[i] is the box of confidences[i]. */
  datatype Detections = Detections(boxes: seq<RotatedRect>, confidences: seq<real>)

  /** The shape guard: scores is 1 x 1 x H x W, geometry is 1 x 5 x H x W. */
  predicate ShapesFit(scores: Mat, geometry: Mat) {
    && Is4D(scores) && scores.sizes[0] == 1 && scores.sizes[1] == 1
    && Is4D(geometry) && geometry.sizes[0] == 1 && geometry.sizes[1] == 5
    && scores.sizes[2] == geometry.sizes[2] && scores.sizes[3] == geometry.sizes[3]
  }

  /** The score the source reads for a cell. */
  function Score(scores: Mat, c: Cell): real
    requires Is4D(scores)
  {
    At(scores, 0, 0, c.y, c.x)
  }

  /** The box the source builds for a cell from its five geometry channels. */
  function CellBox(geometry: Mat, trig: Trig, c: Cell): RotatedRect
    requires Is4D(geometry)
  {
    DecodeBox(trig, c.x, c.y,
              At(geometry, 0, 0, c.y, c.x), At(geometry, 0, 1, c.y, c.x),
              At(geometry, 0, 2, c.y, c.x), At(geometry, 0, 3, c.y, c.x),
              At(geometry, 0, 4, c.y, c.x))
  }

  // ---------------------------------------------------------------------------
  // Row-major cell order
  // ---------------------------------------------------------------------------

  /** Cell a is visited before cell b by the y-outer, x-inner loops. */
  predicate Before(a: Cell, b: Cell) {
    a.y < b.y || (a.y == b.y && a.x < b.x)
  }

  predicate RowMajorSorted(cells: seq<Cell>) {
    forall i, j :: 0 <= i < j < |cells| ==> Before(cells[i], cells[j])
  }

  /** Cells (y, 0), ..., (y, n - 1). */
  function RowCells(y: nat, n: nat): (r: seq<Cell>)
    ensures |r| == n
  {
    seq(n, x requires 0 <= x < n => Cell(y, x))
  }

  /** Rows 0 .. m - 1 of a grid of width w, row after row. */
  function GridCells(m: nat, w: nat): seq<Cell> {
    if m == 0 then [] else GridCells(m - 1, w) + RowCells(m - 1, w)
  }

  /** The cells the loops visit before cell (y, x) of a grid of width w. */
  function Visited(y: nat, x: nat, w: nat): seq<Cell> {
    GridCells(y, w) + RowCells(y, x)
  }

  lemma VisitedStep(y: nat, x: nat, w: nat)
    ensures Visited(y, 0, w) == GridCells(y, w)
    ensures Visited(y, x + 1, w) == Visited(y, x, w) + [Cell(y, x)]
    ensures Visited(y, w, w) == GridCells(y + 1, w)
  {
    assert RowCells(y, x + 1) == RowCells(y, x) + [Cell(y, x)];
    assert RowCells(y, 0) == [];
  }

  /** The grid holds each of its m * w cells once, in row-major order. */
  lemma {:induction false} GridCellsRowMajor(m: nat, w: nat)
    ensures |GridCells(m, w)| == m * w
    ensures forall c :: c in GridCells(m, w) <==> c.y < m && c.x < w
    ensures RowMajorSorted(GridCells(m, w))
  {
    if m > 0 {
      GridCellsRowMajor(m - 1, w);
      var g, row := GridCells(m - 1, w), RowCells(m - 1, w);
      assert (m - 1) * w + w == m * w;
      forall c: Cell | c.y < m && c.x < w ensures c in g + row {
        if c.y < m - 1 { assert c in g; } else { assert row[c.x] == c; }
      }
      forall i, j | 0 <= i < j < |g + row| ensures Before((g + row)[i], (g + row)[j]) {
        if j < |g| {
        } else if i < |g| {
          assert g[i] in g;
        }
      }
    }
  }

  // ---------------------------------------------------------------------------
  // Threshold filter and the two output lists
  // ---------------------------------------------------------------------------

  /** The cells whose score reaches the threshold, in their given order. */
  function Qualifying(cells: seq<Cell>, scores: Mat, threshold: real): seq<Cell>
    requires Is4D(scores)
  {
    if |cells| == 0 then []
    else
      var last := |cells| - 1;
      var c := cells[last];
      Qualifying(cells[..last], scores, threshold) + (if Score(scores, c) >= threshold then [c] else [])
  }

  /** A cell is kept exactly when it is one of the cells and its score reaches
      the threshold; nothing is added. */
  lemma {:induction false} QualifyingKeepsPassingCells(cells: seq<Cell>, scores: Mat, threshold: real)
    requires Is4D(scores)
    ensures |Qualifying(cells, scores, threshold)| <= |cells|
    ensures forall c :: c in Qualifying(cells, scores, threshold) <==> c in cells && Score(scores, c) >= threshold
  {
    if |cells| > 0 {
      var last := |cells| - 1;
      QualifyingKeepsPassingCells(cells[..last], scores, threshold);
      assert cells == cells[..last] + [cells[last]];
    }
  }

  lemma {:induction false} QualifyingAppend(cells: seq<Cell>, c: Cell, scores: Mat, threshold: real)
    requires Is4D(scores)
    ensures Qualifying(cells + [c], scores, threshold) ==
            Qualifying(cells, scores, threshold) + (if Score(scores, c) >= threshold then [c] else [])
  {
    assert (cells + [c])[..|cells|] == cells;
  }

  /** Visiting one more cell keeps it when its score reaches the threshold. */
  lemma QualifyingVisitedStep(y: nat, x: nat, w: nat, scores: Mat, threshold: real)
    requires Is4D(scores)
    ensures Qualifying(Visited(y, x + 1, w), scores, threshold) ==
            Qualifying(Visited(y, x, w), scores, threshold) +
            (if Score(scores, Cell(y, x)) >= threshold then [Cell(y, x)] else [])
  {
    VisitedStep(y, x, w);
    QualifyingAppend(Visited(y, x, w), Cell(y, x), scores, threshold);
  }

  /** Filtering keeps row-major order. */
  lemma {:induction false} QualifyingSorted(cells: seq<Cell>, scores: Mat, threshold: real)
    requires Is4D(scores) && RowMajorSorted(cells)
    ensures RowMajorSorted(Qualifying(cells, scores, threshold))
  {
    if |cells| > 0 {
      var last := |cells| - 1;
      var init := cells[..last];
      QualifyingSorted(init, scores, threshold);
      QualifyingKeepsPassingCells(init, scores, threshold);
      var q := Qualifying(init, scores, threshold);
      forall i | 0 <= i < |q| ensures Before(q[i], cells[last]) {
        assert q[i] in init;
      }
    }
  }

  function BoxesOf(cells: seq<Cell>, geometry: Mat, trig: Trig): (r: seq<RotatedRect>)
    requires Is4D(geometry)
    ensures |r| == |cells|
  {
    seq(|cells|, i requires 0 <= i < |cells| => CellBox(geometry, trig, cells[i]))
  }

  function ScoresOf(cells: seq<Cell>, scores: Mat): (r: seq<real>)
    requires Is4D(scores)
    ensures |r| == |cells|
  {
    seq(|cells|, i requires 0 <= i < |cells| => Score(scores, cells[i]))
  }

  lemma KeepCell(kept: seq<Cell>, c: Cell, scores: Mat, geometry: Mat, trig: Trig)
    requires Is4D(scores) && Is4D(geometry)
    ensures BoxesOf(kept + [c], geometry, trig) == BoxesOf(kept, geometry, trig) + [CellBox(geometry, trig, c)]
    ensures ScoresOf(kept + [c], scores) == ScoresOf(kept, scores) + [Score(scores, c)]
  {
  }

  /** One cell of the walk: appending the cell when its score passes keeps the
      kept cells and both lists in step with the cells visited so far. */
  lemma CellStep(y: nat, x: nat, w: nat, scores: Mat, geometry: Mat, threshold: real, trig: Trig,
                 kept: seq<Cell>, boxes: seq<RotatedRect>, confidences: seq<real>)
    requires Is4D(scores) && Is4D(geometry)
    requires kept == Qualifying(Visited(y, x, w), scores, threshold)
    requires boxes == BoxesOf(kept, geometry, trig) && confidences == ScoresOf(kept, scores)
    ensures var c := Cell(y, x);
            var pass := Score(scores, c) >= threshold;
            var kept' := if pass then kept + [c] else kept;
            && kept' == Qualifying(Visited(y, x + 1, w), scores, threshold)
            && BoxesOf(kept', geometry, trig) == (if pass then boxes + [CellBox(geometry, trig, c)] else boxes)
            && ScoresOf(kept', scores) == (if pass then confidences + [Score(scores, c)] else confidences)
  {
    QualifyingVisitedStep(y, x, w, scores, threshold);
    KeepCell(kept, Cell(y, x), scores, geometry, trig);
  }

  // ---------------------------------------------------------------------------
  // Decode
  // ---------------------------------------------------------------------------

  /** Specification of Decode. */
  function DecodeSpec(scores: Mat, geometry: Mat, threshold: real, trig: Trig): Result<Detections, DecodeError> {
    if !ShapesFit(scores, geometry) then Ok(Detections([], []))
    else
      var height, width := scores.sizes[2], scores.sizes[3];
      if 0 < height < width then Err(SliceIndexOutOfRange(0, height, height))
      else
        var kept := Qualifying(GridCells(height, width), scores, threshold);
        Ok(Detections(BoxesOf(kept, geometry, trig), ScoresOf(kept, scores)))
  }

  /** Decode: walk the grid row by row, keep the cells that reach the threshold. */
  method Decode(scores: Mat, geometry: Mat, confThreshold: real, trig: Trig)
    returns (r: Result<Detections, DecodeError>)
    ensures r == DecodeSpec(scores, geometry, confThreshold, trig)
  {
    var confidences: seq<real> := [];
    var boxes: seq<RotatedRect> := [];

    if (scores.NullMat? || |scores.sizes| != 4 || scores.sizes[0] != 1 || scores.sizes[1] != 1) ||
       (geometry.NullMat? || |geometry.sizes| != 4 || geometry.sizes[0] != 1 || geometry.sizes[1] != 5) ||
       (scores.sizes[2] != geometry.sizes[2] || scores.sizes[3] != geometry.sizes[3])
    {
      return Ok(Detections(boxes, confidences));
    }

    var height := scores.sizes[2];
    var width := scores.sizes[3];
    ghost var kept: seq<Cell> := [];

    var y := 0;
    while y < height
      invariant 0 <= y <= height
      invariant y > 0 ==> width <= height
      invariant kept == Qualifying(GridCells(y, width), scores, confThreshold)
      invariant boxes == BoxesOf(kept, geometry, trig)
      invariant confidences == ScoresOf(kept, scores)
    {
      var rowDone;
      rowDone, boxes, confidences, kept := DecodeRow(scores, geometry, confThreshold, trig, y, boxes, confidences, kept);
      if !rowDone {
        return Err(SliceIndexOutOfRange(y, height, height));
      }
      y := y + 1;
    }
    return Ok(Detections(boxes, confidences));
  }

  /** The body of Decode's outer loop for row y: the six row slices of `height`
      elements, then the walk along the row's `width` cells. The walk stops
      (the source throws) when a slice shorter than the width runs out. */
  method DecodeRow(scores: Mat, geometry: Mat, confThreshold: real, trig: Trig, y: nat,
                   boxesIn: seq<RotatedRect>, confidencesIn: seq<real>, ghost keptIn: seq<Cell>)
    returns (rowDone: bool, boxes: seq<RotatedRect>, confidences: seq<real>, ghost kept: seq<Cell>)
    requires ShapesFit(scores, geometry) && y < scores.sizes[2]
    requires keptIn == Qualifying(GridCells(y, scores.sizes[3]), scores, confThreshold)
    requires boxesIn == BoxesOf(keptIn, geometry, trig) && confidencesIn == ScoresOf(keptIn, scores)
    ensures rowDone <==> scores.sizes[3] <= scores.sizes[2]
    ensures rowDone ==> && kept == Qualifying(GridCells(y + 1, scores.sizes[3]), scores, confThreshold)
                        && boxes == BoxesOf(kept, geometry, trig)
                        && confidences == ScoresOf(kept, scores)
  {
    var height := scores.sizes[2];
    var width := scores.sizes[3];
    boxes, confidences, kept := boxesIn, confidencesIn, keptIn;

    var scoresData := RowSlice(scores, 0, y, height);
    var x0Data := RowSlice(geometry, 0, y, height);
    var x1Data := RowSlice(geometry, 1, y, height);
    var x2Data := RowSlice(geometry, 2, y, height);
    var x3Data := RowSlice(geometry, 3, y, height);
    var anglesData := RowSlice(geometry, 4, y, height);

    var x := 0;
    VisitedStep(y, x, width);
    while x < width
      invariant 0 <= x <= width && x <= height
      invariant kept == Qualifying(Visited(y, x, width), scores, confThreshold)
      invariant boxes == BoxesOf(kept, geometry, trig)
      invariant confidences == ScoresOf(kept, scores)
    {
      if x >= |scoresData| {
        return false, boxes, confidences, kept;
      }
      var c := Cell(y, x);
      CellStep(y, x, width, scores, geometry, confThreshold, trig, kept, boxes, confidences);

      var score := scoresData[x];
      assert score == Score(scores, c);
      if score >= confThreshold {
        var box := DecodeBox(trig, x, y, x0Data[x], x1Data[x], x2Data[x], x3Data[x], anglesData[x]);
        assert box == CellBox(geometry, trig, c);
        confidences := confidences + [score];
        boxes := boxes + [box];
        kept := kept + [c];
      }
      x := x + 1;
    }
    VisitedStep(y, x, width);
    rowDone := true;
  }

  // ---------------------------------------------------------------------------
  // Properties of Decode
  // ---------------------------------------------------------------------------

  /** Every failed shape check gives two empty lists. */
  lemma BadShapesGiveNoBoxes(scores: Mat, geometry: Mat, threshold: real, trig: Trig)
    requires || !Is4D(scores) || scores.sizes[0] != 1 || scores.sizes[1] != 1
             || !Is4D(geometry) || geometry.sizes[0] != 1 || geometry.sizes[1] != 5
             || scores.sizes[2] != geometry.sizes[2] || scores.sizes[3] != geometry.sizes[3]
    ensures DecodeSpec(scores, geometry, threshold, trig) == Ok(Detections([], []))
  {
  }

  /** With fitting shapes, Decode fails exactly when a map with rows is wider than tall. */
  lemma DecodeFailsOnlyWhenWiderThanTall(scores: Mat, geometry: Mat, threshold: real, trig: Trig)
    requires ShapesFit(scores, geometry)
    ensures DecodeSpec(scores, geometry, threshold, trig).Err? <==> 0 < scores.sizes[2] < scores.sizes[3]
  {
  }

  /** Decode's lists have equal length and hold one entry per cell whose score
      reaches the threshold, in row-major order: boxes[i] is the box of cell
      kept[i] and confidences[i] its score, which reaches the threshold. A cell
      below the threshold contributes nothing, whatever its geometry. */
  lemma {:induction false} DecodeKeepsQualifyingCellsInOrder(scores: Mat, geometry: Mat, threshold: real, trig: Trig)
    requires ShapesFit(scores, geometry)
    requires DecodeSpec(scores, geometry, threshold, trig).Ok?
    ensures var d := DecodeSpec(scores, geometry, threshold, trig).value;
            var height, width := scores.sizes[2], scores.sizes[3];
            exists kept: seq<Cell> {:trigger RowMajorSorted(kept)} ::
              && |kept| == |d.boxes| == |d.confidences|
              && RowMajorSorted(kept)
              && (forall c :: c in kept <==> c.y < height && c.x < width && Score(scores, c) >= threshold)
              && (forall i :: 0 <= i < |kept| ==>
                    d.boxes[i] == CellBox(geometry, trig, kept[i]) &&
                    d.confidences[i] == Score(scores, kept[i]) &&
                    d.confidences[i] >= threshold)
  {
    var height, width := scores.sizes[2], scores.sizes[3];
    var kept := Qualifying(GridCells(height, width), scores, threshold);
    GridCellsRowMajor(height, width);
    QualifyingSorted(GridCells(height, width), scores, threshold);
    QualifyingKeepsPassingCells(GridCells(height, width), scores, threshold);
    assert forall i :: 0 <= i < |kept| ==> kept[i] in kept;
  }

  /** A map whose every score reaches the threshold yields height * width boxes. */
  lemma {:induction false} AllCellsPassGiveOneBoxEach(scores: Mat, geometry: Mat, threshold: real, trig: Trig)
    requires ShapesFit(scores, geometry) && scores.sizes[3] <= scores.sizes[2]
    requires forall c: Cell :: c.y < scores.sizes[2] && c.x < scores.sizes[3] ==> Score(scores, c) >= threshold
    ensures |DecodeSpec(scores, geometry, threshold, trig).value.boxes| == scores.sizes[2] * scores.sizes[3]
  {
    var height, width := scores.sizes[2], scores.sizes[3];
    GridCellsRowMajor(height, width);
    QualifyingAll(GridCells(height, width), scores, threshold);
  }

  lemma {:induction false} QualifyingAll(cells: seq<Cell>, scores: Mat, threshold: real)
    requires Is4D(scores)
    requires forall i :: 0 <= i < |cells| ==> Score(scores, cells[i]) >= threshold
    ensures Qualifying(cells, scores, threshold) == cells
  {
    if |cells| > 0 {
      var last := |cells| - 1;
      QualifyingAll(cells[..last], scores, threshold);
      assert cells[..last] + [cells[last]] == cells;
    }
  }

  /** On a fitting, valid geometry map the values Decode reads for an in-grid
      cell are that cell's own entries of the buffer, never a neighbour's. */
  lemma CellBoxReadsOwnCell(scores: Mat, geometry: Mat, c: Cell, channel: nat)
    requires ShapesFit(scores, geometry) && Valid(geometry) && Valid(scores)
    requires c.y < scores.sizes[2] && c.x < scores.sizes[3] && channel < 5
    ensures Offset(geometry.sizes, 0, channel, c.y, c.x) < |geometry.data| &&
            At(geometry, 0, channel, c.y, c.x) == geometry.data[Offset(geometry.sizes, 0, channel, c.y, c.x)]
    ensures Offset(scores.sizes, 0, 0, c.y, c.x) < |scores.data| &&
            Score(scores, c) == scores.data[Offset(scores.sizes, 0, 0, c.y, c.x)]
  {
    OffsetInBuffer(geometry, 0, channel, c.y, c.x);
    OffsetInBuffer(scores, 0, 0, c.y, c.x);
  }

  // ---------------------------------------------------------------------------
  // Row slices of `width` elements
  // ---------------------------------------------------------------------------

  /** Decode with each row slice taken over the `width` columns of its row, as
      the walk along x < width evidently intends: the kept cells of the whole
      grid, for every fitting pair of maps. */
  function DecodeOverWidth(scores: Mat, geometry: Mat, threshold: real, trig: Trig): (d: Detections)
    ensures |d.boxes| == |d.confidences|
    ensures ShapesFit(scores, geometry) && !(0 < scores.sizes[2] < scores.sizes[3]) ==>
              DecodeSpec(scores, geometry, threshold, trig) == Ok(d)
    ensures !ShapesFit(scores, geometry) ==> d == Detections([], [])
  {
    if !ShapesFit(scores, geometry) then Detections([], [])
    else
      var kept := Qualifying(GridCells(scores.sizes[2], scores.sizes[3]), scores, threshold);
      Detections(BoxesOf(kept, geometry, trig), ScoresOf(kept, scores))
  }

  /** With width-long slices, for every fitting pair of maps (wider than tall
      included), the lists hold one entry per in-grid cell that reaches the
      threshold, and no other, in row-major order: boxes[i] is the box of cell
      kept[i] and confidences[i] its score. */
  lemma {:induction false} DecodeOverWidthKeepsQualifyingCellsInOrder(
    scores: Mat, geometry: Mat, threshold: real, trig: Trig)
    requires ShapesFit(scores, geometry)
    ensures var d := DecodeOverWidth(scores, geometry, threshold, trig);
            var height, width := scores.sizes[2], scores.sizes[3];
            exists kept: seq<Cell> {:trigger RowMajorSorted(kept)} ::
              && |kept| == |d.boxes| == |d.confidences|
              && RowMajorSorted(kept)
              && (forall c :: c in kept <==> c.y < height && c.x < width && Score(scores, c) >= threshold)
              && (forall i :: 0 <= i < |kept| ==>
                    d.boxes[i] == CellBox(geometry, trig, kept[i]) &&
                    d.confidences[i] == Score(scores, kept[i]) &&
                    d.confidences[i] >= threshold)
  {
    var height, width := scores.sizes[2], scores.sizes[3];
    var kept := Qualifying(GridCells(height, width), scores, threshold);
    GridCellsRowMajor(height, width);
    QualifyingSorted(GridCells(height, width), scores, threshold);
    QualifyingKeepsPassingCells(GridCells(height, width), scores, threshold);
    assert forall i :: 0 <= i < |kept| ==> kept[i] in kept;
  }

  /** A 1 x 2 score map whose two cells both pass: the source's height-long
      slices hold one element, so reading x = 1 fails, where width-long slices
      give the two boxes. */
  lemma WiderMapFailsAsWritten()
    ensures var scores := Mat([1, 1, 1, 2], [0.9, 0.9]);
            var geometry := Mat([1, 5, 1, 2], seq(10, i => 1.0));
            var trig := Trig(a => 1.0, a => 0.0);
            && DecodeSpec(scores, geometry, 0.5, trig) == Err(SliceIndexOutOfRange(0, 1, 1))
            && |DecodeOverWidth(scores, geometry, 0.5, trig).boxes| == 2
  {
    var scores := Mat([1, 1, 1, 2], [0.9, 0.9]);
    assert GridCells(1, 2) == [Cell(0, 0), Cell(0, 1)] by {
      assert GridCells(0, 2) == [];
      assert RowCells(0, 2) == [Cell(0, 0), Cell(0, 1)];
    }
    assert Score(scores, Cell(0, 0)) == 0.9 && Score(scores, Cell(0, 1)) == 0.9;
    QualifyingAll([Cell(0, 0), Cell(0, 1)], scores, 0.5);
  }
}
