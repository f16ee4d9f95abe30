/**
 * What the end of a gesture does to the item list, as pure functions: which
 * item is dragged, the candidate position, the collision test against the
 * other items, and the list that results. The hook's imperative
 * HandleDragEnd is proved against Resolve and Apply; the lemmas here state
 * the layout guarantees (bounds, no overlap, one slot changed) for any
 * number of gestures.
 */
module Layout {
  import opened Wrappers
  import opened Geometry
  import opened Snapping

  /** The two gesture types the engine knows; any other non-empty type is clamped, checked and committed or reverted without a delta. */
  const MOVE: string := "move"
  const RESIZE: string := "resize"

  /** A placed item: a stable id, the caller's payload (never inspected) and its position. */
  datatype Instance<T> = Instance(id: string, item: T, position: Pos)

  /**
   * The end of a drag: the id of the dragged instance (None when the drag
   * carries no instance), the gesture type ("" when it carries none) and the
   * pixel delta of the whole drag.
   */
  datatype Gesture = Gesture(instanceId: Option<string>, kind: string, deltaX: real, deltaY: real)

  /**
   * The three ways a gesture can end: nothing to do; a candidate for item
   * `index` that collides with another item; a candidate that is committed.
   */
  datatype Outcome = Ignored | Reverted(index: nat, candidate: Pos) | Committed(index: nat, position: Pos)

  /** The first index holding `id`, or -1 (JavaScript's findIndex). */
  function IndexOf<T>(items: seq<Instance<T>>, id: string): (k: int)
    ensures -1 <= k < |items|
    ensures k == -1 <==> forall j :: 0 <= j < |items| ==> items[j].id != id
    ensures 0 <= k ==> items[k].id == id && forall j :: 0 <= j < k ==> items[j].id != id
  {
    if |items| == 0 then -1
    else if items[0].id == id then 0
    else
      var k := IndexOf(items[1..], id);
      if k == -1 then -1 else k + 1
  }

  /** Some item whose id differs from `id` collides with `p`. */
  predicate Collides<T>(items: seq<Instance<T>>, id: string, p: Pos) {
    exists j :: 0 <= j < |items| && items[j].id != id && IsColliding(p, items[j].position)
  }

  /**
   * The candidate before the boundary checks: a resize grows both spans by
   * the delta, each floored at 1, and keeps the origin; a move shifts the
   * origin and keeps the spans; any other type leaves the position as it is.
   */
  function Shift(p: Pos, kind: string, dx: int, dy: int): Pos {
    if kind == RESIZE then p.(xspan := Max(1, p.xspan + dx), yspan := Max(1, p.yspan + dy))
    else if kind == MOVE then p.(x := p.x + dx, y := p.y + dy)
    else p
  }

  /**
   * The decision taken at the end of gesture `g` on `items`, in a grid of
   * width x height cells with the given cell size and gap.
   */
  function Resolve<T>(items: seq<Instance<T>>, width: int, height: int, cell: CellSize, gap: real, g: Gesture): (o: Outcome)
    requires Pitched(cell, gap)
    ensures !o.Ignored? ==> g.instanceId.Some? && o.index == IndexOf(items, g.instanceId.value)
    ensures o.Committed? ==> InBounds(o.position, width, height) && !Collides(items, items[o.index].id, o.position)
    ensures o.Reverted? ==> InBounds(o.candidate, width, height) && Collides(items, items[o.index].id, o.candidate)
  {
    if g.instanceId.None? || g.kind == "" || !Measured(cell) then Ignored
    else
      var k := IndexOf(items, g.instanceId.value);
      if k == -1 then Ignored
      else
        var dx := CellDelta(g.deltaX, cell.width, gap);
        var dy := CellDelta(g.deltaY, cell.height, gap);
        var p := ClampToGrid(Shift(items[k].position, g.kind, dx, dy), width, height);
        if Collides(items, items[k].id, p) then Reverted(k, p) else Committed(k, p)
  }

  /** The item list after an outcome: a commit replaces one slot's position, anything else keeps the list. */
  function Apply<T>(items: seq<Instance<T>>, o: Outcome): seq<Instance<T>>
    requires o.Committed? ==> o.index < |items|
  {
    if o.Committed? then items[o.index := items[o.index].(position := o.position)] else items
  }

  /** No two items with different ids overlap. */
  ghost predicate Separated<T>(items: seq<Instance<T>>) {
    forall i, j :: 0 <= i < |items| && 0 <= j < |items| && items[i].id != items[j].id ==>
      !IsColliding(items[i].position, items[j].position)
  }

  /** No two slots hold the same id. */
  ghost predicate UniqueIds<T>(items: seq<Instance<T>>) {
    forall i, j :: 0 <= i < j < |items| ==> items[i].id != items[j].id
  }

  /** Every item is within the grid bounds (see InBounds: a degenerate item may still lie past the far edge). */
  ghost predicate AllInBounds<T>(items: seq<Instance<T>>, width: int, height: int) {
    forall i :: 0 <= i < |items| ==> InBounds(items[i].position, width, height)
  }

  /** The ids, slot by slot. */
  function Ids<T>(items: seq<Instance<T>>): (ids: seq<string>)
    ensures |ids| == |items| && forall i :: 0 <= i < |items| ==> ids[i] == items[i].id
  {
    if |items| == 0 then [] else [items[0].id] + Ids(items[1..])
  }

  /**
   * A gesture is ignored exactly when it carries no instance or no type, the
   * cell size is not measured yet, or no item has the instance's id.
   */
  lemma IgnoredExactly<T>(items: seq<Instance<T>>, width: int, height: int, cell: CellSize, gap: real, g: Gesture)
    requires Pitched(cell, gap)
    ensures Resolve(items, width, height, cell, gap, g).Ignored? <==>
      (|| g.instanceId.None?
       || g.kind == ""
       || cell.width == 0.0
       || cell.height == 0.0
       || forall j :: 0 <= j < |items| ==> items[j].id != g.instanceId.value)
  {
  }

  /**
   * On a resize of an item whose origin is not negative, the candidate
   * keeps the origin and each span becomes the grown span, floored at 1 and
   * then cut at the grid's edge.
   */
  lemma ResizeCandidate<T>(items: seq<Instance<T>>, width: int, height: int, cell: CellSize, gap: real, g: Gesture)
    requires Pitched(cell, gap)
    requires g.kind == RESIZE && g.instanceId.Some? && Measured(cell)
    requires var k := IndexOf(items, g.instanceId.value);
      k >= 0 && items[k].position.x >= 0 && items[k].position.y >= 0
    ensures var o := Resolve(items, width, height, cell, gap, g);
      var p := items[o.index].position;
      var c := if o.Committed? then o.position else o.candidate;
      && c.x == p.x && c.y == p.y
      && c.xspan == Min(Max(1, p.xspan + CellDelta(g.deltaX, cell.width, gap)), width - p.x)
      && c.yspan == Min(Max(1, p.yspan + CellDelta(g.deltaY, cell.height, gap)), height - p.y)
  {
  }

  /**
   * On a move the candidate's origin is the shifted origin raised to 0, and
   * the spans change only where they are cut at the grid's edge: a move past
   * the right or bottom edge shrinks the item instead of pushing it back.
   */
  lemma MoveCandidate<T>(items: seq<Instance<T>>, width: int, height: int, cell: CellSize, gap: real, g: Gesture)
    requires Pitched(cell, gap)
    requires g.kind == MOVE && g.instanceId.Some? && Measured(cell)
    requires IndexOf(items, g.instanceId.value) >= 0
    ensures var o := Resolve(items, width, height, cell, gap, g);
      var p := items[o.index].position;
      var c := if o.Committed? then o.position else o.candidate;
      && c.x == Max(0, p.x + CellDelta(g.deltaX, cell.width, gap))
      && c.y == Max(0, p.y + CellDelta(g.deltaY, cell.height, gap))
      && c.xspan == Min(p.xspan, width - c.x)
      && c.yspan == Min(p.yspan, height - c.y)
  {
  }

  /**
   * A type other than move and resize applies no delta: the candidate is
   * the item's own position, clamped, and it is still checked and may be
   * committed.
   */
  lemma OtherKindCandidate<T>(items: seq<Instance<T>>, width: int, height: int, cell: CellSize, gap: real, g: Gesture)
    requires Pitched(cell, gap)
    requires g.kind != MOVE && g.kind != RESIZE && g.kind != "" && g.instanceId.Some? && Measured(cell)
    requires IndexOf(items, g.instanceId.value) >= 0
    ensures var o := Resolve(items, width, height, cell, gap, g);
      var c := if o.Committed? then o.position else o.candidate;
      !o.Ignored? && c == ClampToGrid(items[o.index].position, width, height)
  {
  }

  /**
   * A commit changes exactly one slot, and only its position: the list keeps
   * its length, every id and every payload, and every other slot.
   */
  lemma ApplyChangesOneSlot<T>(items: seq<Instance<T>>, width: int, height: int, cell: CellSize, gap: real, g: Gesture)
    requires Pitched(cell, gap)
    ensures var o := Resolve(items, width, height, cell, gap, g);
      var next := Apply(items, o);
      && |next| == |items|
      && Ids(next) == Ids(items)
      && (forall j :: 0 <= j < |items| ==> next[j].id == items[j].id && next[j].item == items[j].item)
      && (o.Committed? ==>
            && next[o.index].position == o.position
            && forall j :: 0 <= j < |items| && j != o.index ==> next[j] == items[j])
      && (!o.Committed? ==> next == items)
  {
    var o := Resolve(items, width, height, cell, gap, g);
    var next := Apply(items, o);
    if o.Committed? {
      assert next == items[o.index := items[o.index].(position := o.position)];
      assert Ids(next) == Ids(items);
    } else {
      assert next == items;
    }
  }

  /**
   * A gesture keeps a separated list separated: the committed position
   * collides with no item of another id, and every other pair is untouched.
   */
  lemma ResolveKeepsSeparated<T>(items: seq<Instance<T>>, width: int, height: int, cell: CellSize, gap: real, g: Gesture)
    requires Pitched(cell, gap)
    requires Separated(items)
    ensures Separated(Apply(items, Resolve(items, width, height, cell, gap, g)))
  {
  }

  /** A gesture keeps every item of the list within the grid bounds. */
  lemma ResolveKeepsInBounds<T>(items: seq<Instance<T>>, width: int, height: int, cell: CellSize, gap: real, g: Gesture)
    requires Pitched(cell, gap)
    requires AllInBounds(items, width, height)
    ensures AllInBounds(Apply(items, Resolve(items, width, height, cell, gap, g)), width, height)
  {
  }

  /** With unique ids, a separated list has no two overlapping items at all. */
  lemma SeparatedUniqueNoOverlap<T>(items: seq<Instance<T>>)
    requires Separated(items) && UniqueIds(items)
    ensures forall i, j :: 0 <= i < |items| && 0 <= j < |items| && i != j ==>
      !IsColliding(items[i].position, items[j].position)
  {
  }

  /**
   * Clamping alone never causes a revert: in a separated list, a reverted
   * candidate always differs from the item's current position.
   */
  lemma UnmovedCandidateCommits<T>(items: seq<Instance<T>>, width: int, height: int, cell: CellSize, gap: real, g: Gesture)
    requires Pitched(cell, gap)
    requires Separated(items)
    ensures var o := Resolve(items, width, height, cell, gap, g);
      o.Reverted? ==> o.candidate != items[o.index].position
  {
  }

  /** The list after a sequence of gestures, each applied to the result of the one before. */
  function Run<T>(items: seq<Instance<T>>, width: int, height: int, cell: CellSize, gap: real, gs: seq<Gesture>): seq<Instance<T>>
    requires Pitched(cell, gap)
    decreases |gs|
  {
    if gs == [] then items
    else Run(Apply(items, Resolve(items, width, height, cell, gap, gs[0])), width, height, cell, gap, gs[1..])
  }

  /**
   * The layout invariants hold for every sequence of gestures: the ids stay
   * the same slot by slot, a separated list stays separated, and a list
   * within the grid bounds stays within them.
   */
  lemma {:induction false} RunKeepsLayout<T>(items: seq<Instance<T>>, width: int, height: int, cell: CellSize, gap: real, gs: seq<Gesture>)
    requires Pitched(cell, gap)
    ensures var r := Run(items, width, height, cell, gap, gs);
      && Ids(r) == Ids(items)
      && (Separated(items) ==> Separated(r))
      && (AllInBounds(items, width, height) ==> AllInBounds(r, width, height))
    decreases |gs|
  {
    if gs != [] {
      var next := Apply(items, Resolve(items, width, height, cell, gap, gs[0]));
      ApplyChangesOneSlot(items, width, height, cell, gap, gs[0]);
      if Separated(items) {
        ResolveKeepsSeparated(items, width, height, cell, gap, gs[0]);
      }
      if AllInBounds(items, width, height) {
        ResolveKeepsInBounds(items, width, height, cell, gap, gs[0]);
      }
      RunKeepsLayout(next, width, height, cell, gap, gs[1..]);
    }
  }

  /**
   * The no-overlap invariant: starting from a list with unique ids, no two
   * overlapping items and every item within the grid bounds, every sequence of
   * gestures yields such a list again.
   */
  lemma RunKeepsApart<T>(items: seq<Instance<T>>, width: int, height: int, cell: CellSize, gap: real, gs: seq<Gesture>)
    requires Pitched(cell, gap)
    requires UniqueIds(items) && Separated(items) && AllInBounds(items, width, height)
    ensures var r := Run(items, width, height, cell, gap, gs);
      && UniqueIds(r)
      && AllInBounds(r, width, height)
      && forall i, j :: 0 <= i < |r| && 0 <= j < |r| && i != j ==> !IsColliding(r[i].position, r[j].position)
  {
    var r := Run(items, width, height, cell, gap, gs);
    RunKeepsLayout(items, width, height, cell, gap, gs);
    assert UniqueIds(r) by {
      forall i, j | 0 <= i < j < |r| ensures r[i].id != r[j].id {
        assert r[i].id == Ids(r)[i] == Ids(items)[i];
        assert r[j].id == Ids(r)[j] == Ids(items)[j];
      }
    }
    SeparatedUniqueNoOverlap(r);
  }
}
