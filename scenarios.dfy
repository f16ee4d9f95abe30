/**
 * Concrete layouts and gestures: the move, revert and clamp examples, the
 * span that a move past the right edge leaves behind, and a controlled
 * session driven through the hook.
 */
module Scenarios {
  import opened Wrappers
  import opened Geometry
  import opened Snapping
  import opened Layout
  import opened Hook

  /** Two items on a 12 x 12 grid: A at the top-left corner, B right beside it. */
  function Pair(): seq<Instance<string>> {
    [Instance("a", "Red", Pos(0, 0, 2, 2)), Instance("b", "Blue", Pos(2, 0, 3, 1))]
  }

  /** A move of A by one 50-pixel cell to the right. */
  function MoveARight(): Gesture {
    Gesture(Some("a"), MOVE, 50.0, 0.0)
  }

  /** A move of A by one 50-pixel cell down. */
  function MoveADown(): Gesture {
    Gesture(Some("a"), MOVE, 0.0, 50.0)
  }

  /**
   * Moving A one cell right puts it on column 2, B's first column, so the
   * move is reverted and the list stays as it was.
   */
  lemma MoveOntoNeighbourReverted()
    ensures var o := Resolve(Pair(), 12, 12, CellSize(50.0, 50.0), 0.0, MoveARight());
      o == Reverted(0, Pos(1, 0, 2, 2)) && Apply(Pair(), o) == Pair()
  {
    CellDeltaWholeCells(1, 50.0, 50.0, 0.0);
    CellDeltaWholeCells(0, 0.0, 50.0, 0.0);
    assert Pair()[1].id != "a" && IsColliding(Pos(1, 0, 2, 2), Pair()[1].position);
  }

  /** Moving A one cell down clears B, which occupies row 0 only, and commits. */
  lemma MoveClearOfNeighbourCommits()
    ensures var o := Resolve(Pair(), 12, 12, CellSize(50.0, 50.0), 0.0, MoveADown());
      o == Committed(0, Pos(0, 1, 2, 2)) && Apply(Pair(), o)[0].position == Pos(0, 1, 2, 2)
  {
    CellDeltaWholeCells(1, 50.0, 50.0, 0.0);
    CellDeltaWholeCells(0, 0.0, 50.0, 0.0);
    assert !IsColliding(Pos(0, 1, 2, 2), Pos(2, 0, 3, 1));
  }

  /**
   * A resize by five cells of an item in the bottom-right corner is cut back
   * to its own size by the grid's edges, and committed as a no-op.
   */
  lemma ResizeClampedToCorner()
    ensures var items := [Instance("c", "Green", Pos(10, 10, 2, 2))];
      var o := Resolve(items, 12, 12, CellSize(50.0, 50.0), 0.0, Gesture(Some("c"), RESIZE, 250.0, 250.0));
      o == Committed(0, Pos(10, 10, 2, 2)) && Apply(items, o) == items
  {
    CellDeltaWholeCells(5, 250.0, 50.0, 0.0);
  }

  /**
   * A move of twenty cells to the right is not pushed back into the grid:
   * the origin lands past the right edge and the span is cut to 12 - 20,
   * and the degenerate position is committed.
   */
  lemma MovePastRightEdge()
    ensures var items := [Instance("a", "Red", Pos(0, 0, 2, 2))];
      var o := Resolve(items, 12, 12, CellSize(50.0, 50.0), 0.0, Gesture(Some("a"), MOVE, 1000.0, 0.0));
      o == Committed(0, Pos(20, 0, -8, 2)) && !Proper(o.position)
  {
    CellDeltaWholeCells(20, 1000.0, 50.0, 0.0);
    CellDeltaWholeCells(0, 0.0, 50.0, 0.0);
  }

  /** The example layout: twelve items filling part of a 12 x 12 grid, with fixed ids in place of random UUIDs. */
  function ExampleLayout(): seq<Instance<string>> {
    [ Instance("a", "Red", Pos(0, 0, 2, 2)),
      Instance("b", "Blue", Pos(2, 0, 3, 1)),
      Instance("c", "Green", Pos(0, 2, 1, 4)),
      Instance("d", "Yellow", Pos(5, 0, 4, 3)),
      Instance("e", "Purple", Pos(1, 2, 2, 2)),
      Instance("f", "Orange", Pos(9, 0, 3, 5)),
      Instance("g", "Red", Pos(3, 3, 6, 2)),
      Instance("h", "Blue", Pos(0, 6, 5, 2)),
      Instance("i", "Green", Pos(5, 5, 2, 3)),
      Instance("j", "Yellow", Pos(0, 8, 2, 4)),
      Instance("k", "Purple", Pos(7, 5, 5, 5)),
      Instance("l", "Orange", Pos(2, 8, 5, 4)) ]
  }

  lemma ExampleIdsUnique()
    ensures UniqueIds(ExampleLayout())
  {
    var ex := ExampleLayout();
    assert forall i, j :: 0 <= i < j < |ex| ==> ex[i].id[0] != ex[j].id[0];
  }

  lemma ExamplePairsApart()
    ensures var ex := ExampleLayout();
      forall i, j :: 0 <= i < j < |ex| ==> !IsColliding(ex[i].position, ex[j].position)
  {
  }

  /** The example layout is a valid starting point: within the grid bounds, unique ids, no two items overlapping. */
  lemma ExampleLayoutSound()
    ensures AllInBounds(ExampleLayout(), 12, 12)
    ensures UniqueIds(ExampleLayout()) && Separated(ExampleLayout())
  {
    var ex := ExampleLayout();
    ExampleIdsUnique();
    ExamplePairsApart();
    forall i, j | 0 <= i < |ex| && 0 <= j < |ex| && ex[i].id != ex[j].id
      ensures !IsColliding(ex[i].position, ex[j].position)
    {
      if j < i {
        CollidingSymmetric(ex[i].position, ex[j].position);
      }
    }
  }

  /**
   * Whatever drags follow, the example layout stays within the grid bounds and no
   * two of its items ever overlap.
   */
  lemma ExampleStaysApart(cell: CellSize, gap: real, gs: seq<Gesture>)
    requires Pitched(cell, gap)
    ensures var r := Run(ExampleLayout(), 12, 12, cell, gap, gs);
      && AllInBounds(r, 12, 12)
      && forall i, j :: 0 <= i < |r| && 0 <= j < |r| && i != j ==> !IsColliding(r[i].position, r[j].position)
  {
    ExampleLayoutSound();
    RunKeepsApart(ExampleLayout(), 12, 12, cell, gap, gs);
  }

  /**
   * An owner driving the hook through a sequence of drags. In controlled
   * mode it feeds the list it receives from onChange back as the items
   * prop; otherwise the hook keeps its own copy. Either way the list after
   * the drags is the one Run computes from the starting list.
   */
  method Session<T>(grid: TouchGrid<T>, gs: seq<Gesture>)
    requires grid.Valid()
    modifies grid
    ensures grid.Valid() && grid.IsControlled() == old(grid.IsControlled())
    ensures grid.CurrentItems() == Run(old(grid.CurrentItems()), grid.width, grid.height, grid.cellSize, grid.gap, gs)
  {
    ghost var start := grid.CurrentItems();
    var i := 0;
    while i < |gs|
      invariant 0 <= i <= |gs|
      invariant grid.Valid() && grid.IsControlled() == old(grid.IsControlled())
      invariant grid.cellSize == old(grid.cellSize)
      invariant Run(grid.CurrentItems(), grid.width, grid.height, grid.cellSize, grid.gap, gs[i..])
             == Run(start, grid.width, grid.height, grid.cellSize, grid.gap, gs)
    {
      ghost var before := grid.CurrentItems();
      var calls := grid.HandleDragEnd(gs[i]);
      if |calls| > 0 && calls[0].OnChange? {
        grid.Rerender(Some(calls[0].items), grid.hasOnChange, grid.hasOnItemChange);
      }
      assert grid.CurrentItems() == Apply(before, Resolve(before, grid.width, grid.height, grid.cellSize, grid.gap, gs[i]));
      assert gs[i..][1..] == gs[i + 1..];
      i := i + 1;
    }
  }
}
