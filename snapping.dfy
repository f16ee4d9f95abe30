/**
 * Pixel-to-cell arithmetic: the cell size derived from a measured container,
 * JavaScript's Math.round, the conversion of a drag's pixel delta into whole
 * cells, and the modifier that snaps an in-progress drag to the grid pitch.
 * Pixels are exact reals here; the source computes them in floating point.
 */
module Snapping {

  /** Pixel size of one cell; (0, 0) until the container has been measured. */
  datatype CellSize = CellSize(width: real, height: real)

  /** The transform of an in-progress drag, in pixels. */
  datatype Transform = Transform(x: real, y: real, scaleX: real, scaleY: real)

  /** The cell size is known: neither dimension is zero. */
  predicate Measured(cell: CellSize) {
    cell.width != 0.0 && cell.height != 0.0
  }

  /** A measured cell size has a non-zero pitch (cell plus gap) on both axes, so pixel deltas can be divided by it. */
  predicate Pitched(cell: CellSize, gap: real) {
    Measured(cell) ==> cell.width + gap != 0.0 && cell.height + gap != 0.0
  }

  /**
   * JavaScript's Math.round: the nearest integer, halves rounded toward
   * positive infinity.
   */
  function Round(v: real): (r: int)
    ensures v - 0.5 < r as real <= v + 0.5
  {
    (v + 0.5).Floor
  }

  /** v lies exactly halfway between two integers. */
  predicate IsHalfway(v: real) {
    (v + 0.5).Floor as real == v + 0.5
  }

  /** Rounding leaves integers alone. */
  lemma RoundOfInteger(k: int)
    ensures Round(k as real) == k
  {
  }

  /** Away from halfway points rounding commutes with negation, so an exactly reversed drag cancels out. */
  lemma RoundOpposite(v: real)
    requires !IsHalfway(v)
    ensures Round(-v) == -Round(v)
  {
  }

  /**
   * The pixel size of one cell: the container less the gaps between the
   * cells, shared equally among the cells.
   */
  function CellLength(containerPx: real, cells: int, gap: real): (r: real)
    requires cells > 0
    ensures r * cells as real + (cells - 1) as real * gap == containerPx
  {
    (containerPx - (cells - 1) as real * gap) / cells as real
  }

  /**
   * A non-negative container and gap give a cell that is either zero (not
   * usable) or has a positive pitch.
   */
  lemma CellPitchPositive(containerPx: real, cells: int, gap: real)
    requires cells > 0 && containerPx >= 0.0 && gap >= 0.0
    ensures var c := CellLength(containerPx, cells, gap); c == 0.0 || c + gap > 0.0
  {
  }

  /** The cell-size examples: 1000 px over 10 cells is 100 px without gap and 91 px with a 10 px gap. */
  lemma CellLengthExample()
    ensures CellLength(1000.0, 10, 0.0) == 100.0
    ensures CellLength(1000.0, 10, 10.0) == 91.0
  {
  }

  /** A pixel delta as a whole number of cells: the delta over the pitch, rounded. */
  function CellDelta(deltaPx: real, cellPx: real, gap: real): (d: int)
    requires cellPx + gap != 0.0
    ensures var pitch := cellPx + gap;
      pitch > 0.0 ==> (d as real - 0.5) * pitch <= deltaPx < (d as real + 0.5) * pitch
  {
    ScaledRoundBounds(deltaPx, cellPx + gap);
    Round(deltaPx / (cellPx + gap))
  }

  /** Rounding the quotient keeps the dividend within half a pitch of the rounded multiple. */
  lemma ScaledRoundBounds(deltaPx: real, pitch: real)
    requires pitch != 0.0
    ensures var d := Round(deltaPx / pitch);
      pitch > 0.0 ==> (d as real - 0.5) * pitch <= deltaPx < (d as real + 0.5) * pitch
  {
    var v := deltaPx / pitch;
    var d := Round(v);
    assert deltaPx == v * pitch;
    if pitch > 0.0 {
      MulMonotone(d as real - 0.5, v, pitch);
      MulStrict(v, d as real + 0.5, pitch);
      assert v * pitch < (d as real + 0.5) * pitch;
      assert deltaPx < (d as real + 0.5) * pitch;
    }
  }

  lemma MulMonotone(a: real, b: real, c: real)
    requires a <= b && c > 0.0
    ensures a * c <= b * c
  {
  }

  lemma MulStrict(a: real, b: real, c: real)
    requires a < b && c > 0.0
    ensures a * c < b * c
  {
  }

  /** A drag of exactly k pitches is k cells. */
  lemma CellDeltaWholeCells(k: int, deltaPx: real, cellPx: real, gap: real)
    requires cellPx + gap != 0.0
    requires deltaPx == (k as real) * (cellPx + gap)
    ensures CellDelta(deltaPx, cellPx, gap) == k
  {
    assert deltaPx / (cellPx + gap) == k as real;
    RoundOfInteger(k);
  }

  /** Reversing a drag by the same pixel amount reverses its cell delta, except at halfway points. */
  lemma CellDeltaOpposite(deltaPx: real, cellPx: real, gap: real)
    requires cellPx + gap != 0.0
    requires !IsHalfway(deltaPx / (cellPx + gap))
    ensures CellDelta(-deltaPx, cellPx, gap) == -CellDelta(deltaPx, cellPx, gap)
  {
    var pitch := cellPx + gap;
    assert -deltaPx / pitch == -(deltaPx / pitch);
    RoundOpposite(deltaPx / pitch);
  }

  /**
   * The modifier applied while a drag is in progress: each axis of the
   * transform is moved to the nearest whole multiple of the pitch; the
   * transform passes through unchanged while the cell size is unknown.
   */
  function SnapToGrid(t: Transform, cell: CellSize, gap: real): (r: Transform)
    requires Pitched(cell, gap)
    ensures r.scaleX == t.scaleX && r.scaleY == t.scaleY
    ensures !Measured(cell) ==> r == t
  {
    if !Measured(cell) then t
    else
      var pitchX, pitchY := cell.width + gap, cell.height + gap;
      t.(x := (CellDelta(t.x, cell.width, gap) as real) * pitchX,
         y := (CellDelta(t.y, cell.height, gap) as real) * pitchY)
  }

  /**
   * The snapped transform lands on the very cell the commit will choose:
   * converting the snapped offset gives the same cell delta as converting
   * the raw one, and the snap moves the drag by at most half a pitch.
   */
  lemma SnapAgreesWithCommit(t: Transform, cell: CellSize, gap: real)
    requires Measured(cell) && Pitched(cell, gap)
    ensures var r := SnapToGrid(t, cell, gap);
      && CellDelta(r.x, cell.width, gap) == CellDelta(t.x, cell.width, gap)
      && CellDelta(r.y, cell.height, gap) == CellDelta(t.y, cell.height, gap)
  {
    var r := SnapToGrid(t, cell, gap);
    var dx, dy := CellDelta(t.x, cell.width, gap), CellDelta(t.y, cell.height, gap);
    CellDeltaWholeCells(dx, r.x, cell.width, gap);
    CellDeltaWholeCells(dy, r.y, cell.height, gap);
  }

  /** While a positive pitch is known, snapping moves each axis by at most half a pitch. */
  lemma SnapWithinHalfPitch(t: Transform, cell: CellSize, gap: real)
    requires Measured(cell) && cell.width + gap > 0.0 && cell.height + gap > 0.0
    ensures var r := SnapToGrid(t, cell, gap);
      && -(cell.width + gap) / 2.0 < r.x - t.x <= (cell.width + gap) / 2.0
      && -(cell.height + gap) / 2.0 < r.y - t.y <= (cell.height + gap) / 2.0
  {
  }
}
