/**
 * The headless grid hook as an object: the props it was given, the state it
 * keeps (its own copy of the items and the measured cell size), and the
 * handler run at the end of every drag. The owner's callbacks are calls into
 * code the hook cannot see, so the handler returns the calls it makes, in
 * order, instead of making them.
 */
module Hook {
  import opened Wrappers
  import opened Geometry
  import opened Snapping
  import opened Layout

  /** One call the hook makes to its owner: onChange with the new list, or onItemChange with the updated item and the gesture type. */
  datatype Callback<T> = OnChange(items: seq<Instance<T>>) | OnItemChange(item: Instance<T>, kind: string)

  /** The findIndex search: the first slot holding `id`, or -1. */
  method FindIndex<T>(items: seq<Instance<T>>, id: string) returns (k: int)
    ensures k == IndexOf(items, id)
  {
    k := 0;
    while k < |items|
      invariant 0 <= k <= |items|
      invariant forall j :: 0 <= j < k ==> items[j].id != id
    {
      if items[k].id == id {
        return;
      }
      k := k + 1;
    }
    k := -1;
  }

  /** The some search: does any item of another id collide with `p`? */
  method AnyCollision<T>(items: seq<Instance<T>>, id: string, p: Pos) returns (hit: bool)
    ensures hit == Collides(items, id, p)
  {
    var i := 0;
    while i < |items|
      invariant 0 <= i <= |items|
      invariant forall j :: 0 <= j < i ==> !(items[j].id != id && IsColliding(p, items[j].position))
    {
      if items[i].id != id && IsColliding(p, items[i].position) {
        return true;
      }
      i := i + 1;
    }
    return false;
  }

  class TouchGrid<T> {
    /** Grid dimensions in cells, and the gap between cells in pixels. */
    const width: int
    const height: int
    const gap: real
    /** Whether the owner passed onChange and onItemChange, as last rendered. */
    var hasOnChange: bool
    var hasOnItemChange: bool
    /** The items prop as last rendered; None when the owner passes none. */
    var items: Option<seq<Instance<T>>>
    /** The hook's own copy of the items, seeded from the items prop. */
    var internalItems: seq<Instance<T>>
    /** The measured cell size; (0, 0) until the container is measured. */
    var cellSize: CellSize

    /**
     * The gap is not negative, and a measured cell size has a positive pitch
     * on both axes, so dividing a pixel delta by it is defined.
     */
    predicate Valid()
      reads this`cellSize
    {
      && gap >= 0.0
      && (cellSize.width == 0.0 || cellSize.width + gap > 0.0)
      && (cellSize.height == 0.0 || cellSize.height + gap > 0.0)
    }

    /** The owner holds the list when it passes both items and onChange. */
    predicate IsControlled()
      reads this
    {
      items.Some? && hasOnChange
    }

    /** The list the hook works on and renders: the owner's in controlled mode, its own otherwise. */
    function CurrentItems(): seq<Instance<T>>
      reads this
    {
      if IsControlled() then items.value else internalItems
    }

    /** The first render: the own copy starts as the items prop, or empty; the cell size is unknown. */
    constructor (width: int, height: int, items: Option<seq<Instance<T>>>, hasOnChange: bool, hasOnItemChange: bool, gap: real)
      requires gap >= 0.0
      ensures Valid()
      ensures this.width == width && this.height == height && this.gap == gap
      ensures this.hasOnChange == hasOnChange && this.hasOnItemChange == hasOnItemChange
      ensures this.items == items && internalItems == items.GetOr([])
      ensures cellSize == CellSize(0.0, 0.0) && !Measured(cellSize)
    {
      this.width, this.height, this.gap := width, height, gap;
      this.hasOnChange, this.hasOnItemChange := hasOnChange, hasOnItemChange;
      this.items := items;
      internalItems := items.GetOr([]);
      cellSize := CellSize(0.0, 0.0);
    }

    /**
     * A later render with new props: the items prop and the presence of the
     * two callbacks are read again, so the mode can change between renders;
     * the own copy is not reseeded and the cell size is kept.
     */
    method Rerender(items: Option<seq<Instance<T>>>, hasOnChange: bool, hasOnItemChange: bool)
      modifies this`items, this`hasOnChange, this`hasOnItemChange
      ensures this.items == items
      ensures this.hasOnChange == hasOnChange && this.hasOnItemChange == hasOnItemChange
      ensures internalItems == old(internalItems) && cellSize == old(cellSize)
    {
      this.items, this.hasOnChange, this.hasOnItemChange := items, hasOnChange, hasOnItemChange;
    }

    /**
     * The layout effect: with the container measured at clientWidth x
     * clientHeight pixels, each cell gets its share of the container after
     * the gaps. Keeps the pitch positive whenever the cell is non-zero.
     */
    method Measure(clientWidth: real, clientHeight: real)
      requires Valid()
      requires width > 0 && height > 0 && clientWidth >= 0.0 && clientHeight >= 0.0
      modifies this`cellSize
      ensures Valid()
      ensures cellSize == CellSize(CellLength(clientWidth, width, gap), CellLength(clientHeight, height, gap))
    {
      CellPitchPositive(clientWidth, width, gap);
      CellPitchPositive(clientHeight, height, gap);
      cellSize := CellSize(CellLength(clientWidth, width, gap), CellLength(clientHeight, height, gap));
    }

    /**
     * The end of a drag. When Resolve commits, the new list is handed to
     * onChange in controlled mode and becomes the own copy otherwise, and
     * onItemChange (if given) then receives the updated item and the gesture
     * type. Ignored and reverted gestures change nothing and call nothing.
     */
    method HandleDragEnd(g: Gesture) returns (calls: seq<Callback<T>>)
      requires Valid()
      modifies this`internalItems
      ensures Valid()
      ensures var o := Resolve(old(CurrentItems()), width, height, cellSize, gap, g);
        var next := Apply(old(CurrentItems()), o);
        if !o.Committed? then
          internalItems == old(internalItems) && calls == []
        else
          && internalItems == (if IsControlled() then old(internalItems) else next)
          && calls == (if IsControlled() then [OnChange(next)] else [])
                      + (if hasOnItemChange then [OnItemChange(next[o.index], g.kind)] else [])
      ensures Separated(old(CurrentItems())) ==> Separated(CurrentItems())
      ensures forall c :: c in calls && c.OnChange? ==> IsControlled() && (Separated(old(CurrentItems())) ==> Separated(c.items))
    {
      calls := [];
      assert Pitched(cellSize, gap);
      if g.instanceId.None? || g.kind == "" || cellSize.width == 0.0 || cellSize.height == 0.0 {
        return;
      }
      var current := CurrentItems();
      ghost var o := Resolve(current, width, height, cellSize, gap, g);
      var index := FindIndex(current, g.instanceId.value);
      if index == -1 {
        assert o.Ignored?;
        return;
      }
      var dragged := current[index];
      var newPosition := dragged.position;
      var dx := CellDelta(g.deltaX, cellSize.width, gap);
      var dy := CellDelta(g.deltaY, cellSize.height, gap);
      if g.kind == RESIZE {
        newPosition := newPosition.(xspan := Max(1, newPosition.xspan + dx));
        newPosition := newPosition.(yspan := Max(1, newPosition.yspan + dy));
      } else if g.kind == MOVE {
        newPosition := newPosition.(x := newPosition.x + dx);
        newPosition := newPosition.(y := newPosition.y + dy);
      }
      // Boundary checks: origin first, then the spans against what is left.
      newPosition := newPosition.(x := Max(0, newPosition.x));
      newPosition := newPosition.(y := Max(0, newPosition.y));
      newPosition := newPosition.(xspan := Min(newPosition.xspan, width - newPosition.x));
      newPosition := newPosition.(yspan := Min(newPosition.yspan, height - newPosition.y));
      assert newPosition == ClampToGrid(Shift(dragged.position, g.kind, dx, dy), width, height);
      var hasCollision := AnyCollision(current, dragged.id, newPosition);
      if hasCollision {
        assert o.Reverted?;
        return;
      }
      assert o == Committed(index, newPosition);
      var newItems := current[index := dragged.(position := newPosition)];
      assert newItems == Apply(current, o);
      if Separated(current) {
        ResolveKeepsSeparated(current, width, height, cellSize, gap, g);
      }
      if IsControlled() {
        calls := [OnChange(newItems)];
      } else {
        internalItems := newItems;
      }
      if hasOnItemChange {
        calls := calls + [OnItemChange(newItems[index], g.kind)];
      }
    }
  }
}
