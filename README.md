# Touch-grid layout engine in Dafny

A model of the layout engine inside the headless React hook `useTouchGrid`
of the touch-grid component. The engine places rectangular items on a grid of
`width x height` integer cells and lets the user move and resize them by
dragging. At the end of a drag it converts the pixel delta into whole cells,
builds a candidate position, clamps it to the grid, and commits it only if it
overlaps no item with another id. Otherwise it reverts silently.

Modules (one file each):

- `Geometry` (`geometry.dfy`): the position record `Pos`, the overlap test
  `IsColliding`, and the boundary clamp `ClampToGrid`.
- `Snapping` (`snapping.dfy`): the cell size derived from a measured
  container, JavaScript's `Math.round`, the pixel-to-cell conversion, and the
  snap modifier applied while a drag is in progress. Pixel values are exact
  reals.
- `Layout` (`layout.dfy`): the end-of-drag decision as pure functions.
  `IndexOf` is `findIndex`, `Collides` is the `some` search, `Resolve` gives
  the outcome, `Apply` gives the new list, and `Run` chains gestures. The
  lemmas cover bounds, non-overlap, the one changed slot, and the no-op cases.
- `Hook` (`hook.dfy`): the hook as a class `TouchGrid`. It holds the props,
  its own copy of the items and the measured cell size. `HandleDragEnd` is
  the imperative handler, with the `findIndex` and `some` loops as methods.
  The handler's contract ties it to `Resolve` and `Apply`. The owner's
  callbacks (`onChange`, `onItemChange`) are code the hook cannot see, so the
  handler returns the calls it makes, in order.
- `Scenarios` (`scenarios.dfy`): concrete layouts and drags, the example
  12 x 12 layout, and an owner loop `Session` that feeds `onChange` back as
  the items prop.
- `Wrappers` (`wrappers.dfy`): `Option`, for JavaScript's `undefined`.

Facts about the code that the model keeps and that are easy to miss:

- useTouchGrid.js:79-82 apply no floor at 1 after the cut at the far edge.
  A move that takes `x` to `width` or beyond leaves `xspan = width - x`,
  which is zero or less, and that position is committed
  (`Scenarios.MovePastRightEdge`). A move past the right or bottom edge
  shrinks the item instead of pushing it back. Committed positions are
  therefore only within bounds (`Geometry.InBounds`): `x, y >= 0`,
  `x + xspan <= width`, `y + yspan <= height`. An item with spans of at
  least 1 within bounds lies inside the grid (`Geometry.ProperInBoundsInside`);
  one with a non-positive span may have its origin past the far edge
  (`Geometry.DegenerateInBoundsOutside`).
- The test at useTouchGrid.js:8-13 uses strict comparisons on half-open
  extents, so moving `{0,0,2,2}` one cell right beside `{2,0,3,1}` gives
  `{1,0,2,2}`, which covers column 2 where the neighbour starts: the move is
  reverted (`Scenarios.MoveOntoNeighbourReverted`). Moving it one cell down
  instead commits (`Scenarios.MoveClearOfNeighbourCommits`).
- useTouchGrid.js:59-65 ignore a drag with no instance, no type, a zero cell
  dimension, or an id found in no item (`Layout.IgnoredExactly`).
  useTouchGrid.js:70-77 apply no delta for a type other than `move` and
  `resize`, but useTouchGrid.js:79-89 still clamp and check that position,
  and commit or revert it (`Layout.OtherKindCandidate`).
- useTouchGrid.js:84 skips every item whose id equals the dragged item's id,
  not only the dragged slot. The invariant kept is therefore `Separated`: no
  two items with different ids overlap. With unique ids that is pairwise
  non-overlap (`Layout.SeparatedUniqueNoOverlap`).
- useTouchGrid.js:68-69 convert pixels to cells with `Math.round`, which
  rounds halves toward positive infinity (`Snapping.Round`).
- useTouchGrid.js:22-25 read `items`, `onChange` and `onItemChange` afresh on
  every render, so the mode can change from one render to the next
  (`Hook.TouchGrid.Rerender`).

## Model

| member | source | states |
|---|---|---|
| `Geometry.IsColliding` | src/hooks/useTouchGrid.js:8-13 | `isColliding`: the four strict comparisons of the overlap test; its properties are stated by `CollidingSymmetric`, `EdgeAdjacentApart`, `SharedCellCollides` and `CollidingSharesCell` |
| `Geometry.CollidingSymmetric` | src/hooks/useTouchGrid.js:8-13 | the overlap test gives the same answer with its arguments swapped |
| `Geometry.EdgeAdjacentApart` | src/hooks/useTouchGrid.js:8-13 | rectangles that only touch along a vertical or horizontal edge do not collide, in either order |
| `Geometry.SharedCellCollides` | src/hooks/useTouchGrid.js:8-13 | two rectangles covering a common cell (half-open intervals) collide |
| `Geometry.CollidingSharesCell` | src/hooks/useTouchGrid.js:8-13 | two colliding rectangles with spans of at least 1 share a cell, so for proper rectangles the test is exactly "share a cell" |
| `Geometry.OverlapBoundaryExample` | src/hooks/useTouchGrid.js:8-13 | `{0,0,2,2}` and `{2,0,2,2}` are apart; `{1,0,2,2}` and `{0,0,2,2}` collide and share a cell |
| `Geometry.ClampToGrid` | src/hooks/useTouchGrid.js:79-82 | the clamped position is within bounds (`x, y >= 0`, `x + xspan <= width`, `y + yspan <= height`; with a non-positive span the origin can still be past the far edge); the origin moves only up to 0; a span only shrinks, and only to meet the edge; a position already within bounds is left alone |
| `Geometry.ProperInBoundsInside` | src/hooks/useTouchGrid.js:79-82 | a position within bounds whose spans are at least 1 has its origin inside the grid (`0 <= x < width`, `0 <= y < height`) |
| `Geometry.DegenerateInBoundsOutside` | src/hooks/useTouchGrid.js:79-82 | `{20,0,-8,2}` is within the bounds of a 12-wide grid though its origin is past the right edge |
| `Geometry.ClampIdempotent` | src/hooks/useTouchGrid.js:79-82 | clamping a clamped position changes nothing |
| `Snapping.Round` | src/hooks/useTouchGrid.js:68-69 | `Math.round`: the result is the integer within half of the input, halves going up |
| `Snapping.RoundOfInteger` | src/hooks/useTouchGrid.js:68-69 | rounding leaves integers unchanged |
| `Snapping.RoundOpposite` | src/hooks/useTouchGrid.js:68-69 | away from halfway points, rounding a negated value negates the result |
| `Snapping.CellLength` | src/hooks/useTouchGrid.js:33-34 | the cells plus the gaps between them fill the measured container exactly |
| `Snapping.CellPitchPositive` | src/hooks/useTouchGrid.js:29-37 | for a non-negative container and gap, a cell is either zero, so unusable, or has a positive pitch (cell plus gap) |
| `Snapping.CellLengthExample` | src/hooks/useTouchGrid.js:33-34 | 1000 px over 10 cells is 100 px with no gap and 91 px with a 10 px gap |
| `Snapping.CellDelta` | src/hooks/useTouchGrid.js:68-69 | with a positive pitch, the cell delta `d` satisfies `(d - 1/2) * pitch <= delta < (d + 1/2) * pitch` |
| `Snapping.ScaledRoundBounds` | src/hooks/useTouchGrid.js:68-69 | rounding the delta over the pitch keeps the delta within half a pitch of the rounded multiple |
| `Snapping.CellDeltaWholeCells` | src/hooks/useTouchGrid.js:68-69 | a drag of exactly `k` pitches is `k` cells |
| `Snapping.CellDeltaOpposite` | src/hooks/useTouchGrid.js:68-69 | a drag reversed by the same pixel amount reverses the cell delta, except at halfway points |
| `Snapping.SnapToGrid` | src/hooks/useTouchGrid.js:41-52 | with the cell size unknown, the transform passes through unchanged; scale is never touched |
| `Snapping.SnapAgreesWithCommit` | src/hooks/useTouchGrid.js:41-52 | the snapped offset converts to the same cell delta as the raw offset, so the preview shows the cell the commit will choose |
| `Snapping.SnapWithinHalfPitch` | src/hooks/useTouchGrid.js:45-50 | snapping moves each axis by more than minus half a pitch and at most half a pitch |
| `Layout.IndexOf` | src/hooks/useTouchGrid.js:62-65 | `findIndex`: -1 exactly when no item has the id; otherwise the first slot holding it |
| `Layout.Collides` | src/hooks/useTouchGrid.js:84 | the `some` search: some item of another id collides with the candidate; `Hook.AnyCollision` computes it and `Layout.ResolveKeepsSeparated` relies on it |
| `Layout.Shift` | src/hooks/useTouchGrid.js:70-77 | the candidate before the boundary checks (resize grows the spans floored at 1, move shifts the origin, other types keep the position); its effect is stated by `ResizeCandidate`, `MoveCandidate` and `OtherKindCandidate` |
| `Layout.Resolve` | src/hooks/useTouchGrid.js:56-87 | a non-ignored gesture targets the first slot with the instance id; a committed position is within bounds and collides with no item of another id; a reverted candidate is within bounds and collides with one |
| `Layout.Apply` | src/hooks/useTouchGrid.js:88-89 | the copied list with the dragged slot's position replaced on a commit; stated by `ApplyChangesOneSlot` |
| `Layout.IgnoredExactly` | src/hooks/useTouchGrid.js:59-65 | a gesture is ignored if and only if it has no instance, no type, a zero cell dimension, or an id found in no item |
| `Layout.ResizeCandidate` | src/hooks/useTouchGrid.js:70-82 | a resize keeps the origin of an item whose origin is not negative; each span becomes `min(max(1, span + d), width - x)` (resp. height) |
| `Layout.MoveCandidate` | src/hooks/useTouchGrid.js:74-82 | a move puts the origin at `max(0, x + dx)`, `max(0, y + dy)`; spans change only by the cut at the far edge |
| `Layout.OtherKindCandidate` | src/hooks/useTouchGrid.js:70-82 | a gesture of a type other than `move` and `resize` on a found item is not ignored, and its candidate is the item's own position clamped to the grid |
| `Layout.ApplyChangesOneSlot` | src/hooks/useTouchGrid.js:84-89 | after any gesture the list has the same length, ids and payloads; a commit changes only the dragged slot's position; any other outcome leaves the list equal |
| `Layout.ResolveKeepsSeparated` | src/hooks/useTouchGrid.js:84-89 | if no two items of different ids overlap before a gesture, none do after it |
| `Layout.ResolveKeepsInBounds` | src/hooks/useTouchGrid.js:79-89 | if every item is within bounds before a gesture, every item is after it |
| `Layout.SeparatedUniqueNoOverlap` | src/hooks/useTouchGrid.js:84 | with unique ids, separation means no two distinct slots overlap |
| `Layout.UnmovedCandidateCommits` | src/hooks/useTouchGrid.js:78-87 | in a separated list, a reverted candidate always differs from the item's current position: clamping alone never causes a revert |
| `Layout.Run` | src/hooks/useTouchGrid.js:56-97 | the list after a sequence of drag ends, each resolved and applied to the previous list; stated by `RunKeepsLayout`, `RunKeepsApart` and `Scenarios.Session` |
| `Layout.RunKeepsLayout` | src/hooks/useTouchGrid.js:56-97 | over any sequence of gestures the ids stay slot by slot, separation is kept, and being within bounds is kept |
| `Layout.RunKeepsApart` | src/hooks/useTouchGrid.js:56-97 | from unique ids, no overlap and all within bounds, every sequence of gestures yields unique ids, all within bounds, no two slots overlapping |
| `Hook.FindIndex` | src/hooks/useTouchGrid.js:62 | the `findIndex` loop returns exactly `IndexOf` |
| `Hook.AnyCollision` | src/hooks/useTouchGrid.js:84 | the `some` loop returns true exactly when some item of another id collides with the candidate |
| `Hook.TouchGrid.IsControlled` | src/hooks/useTouchGrid.js:23 | controlled exactly when the items prop and onChange are both given; used by the contracts of `Rerender`, `HandleDragEnd` and `Session` |
| `Hook.TouchGrid.CurrentItems` | src/hooks/useTouchGrid.js:25 | the rendered list: the items prop in controlled mode, the own copy otherwise; `HandleDragEnd` is stated over it |
| `Hook.TouchGrid.constructor` | src/hooks/useTouchGrid.js:22-26 | the first render keeps the props, seeds the own copy with the items prop or an empty list, and leaves the cell size unmeasured |
| `Hook.TouchGrid.Rerender` | src/hooks/useTouchGrid.js:23-25 | a new render takes the new items prop and the new presence of onChange and onItemChange, so ownership (`IsControlled`) is decided again; the own copy is not reseeded and the cell size is kept |
| `Hook.TouchGrid.Measure` | src/hooks/useTouchGrid.js:29-37 | the measured cell size is the container's share per cell after the gaps, and the class invariant (positive pitch) is kept |
| `Hook.TouchGrid.HandleDragEnd` | src/hooks/useTouchGrid.js:56-97 | ignored or reverted: own copy unchanged, no call. Committed: in controlled mode `onChange(next)` and the own copy untouched; otherwise the own copy becomes `next`; then `onItemChange(next[index], type)` if given. `onChange` is called only in controlled mode. Separation of the rendered list is kept |
| `Scenarios.MoveOntoNeighbourReverted` | src/hooks/useTouchGrid.js:84-87 | moving `{0,0,2,2}` one cell right next to `{2,0,3,1}` collides and leaves the list as it was |
| `Scenarios.MoveClearOfNeighbourCommits` | src/hooks/useTouchGrid.js:74-89 | moving the same item one cell down clears the neighbour and commits `{0,1,2,2}` |
| `Scenarios.ResizeClampedToCorner` | src/hooks/useTouchGrid.js:70-82 | a five-cell resize of `{10,10,2,2}` on a 12 x 12 grid is cut back to its own size and committed as a no-op |
| `Scenarios.MovePastRightEdge` | src/hooks/useTouchGrid.js:74-82 | a twenty-cell move of `{0,0,2,2}` on a 12-wide grid commits `{20,0,-8,2}`, whose span is not positive |
| `Scenarios.ExampleIdsUnique` | src/components/TouchGrid/TouchGrid.example.tsx:83-100 | the example layout's instances have distinct ids; the model gives them the fixed ids "a" to "l" where the example draws them from `crypto.randomUUID()` |
| `Scenarios.ExamplePairsApart` | src/components/TouchGrid/TouchGrid.example.tsx:83-100 | no two items of the example layout overlap |
| `Scenarios.ExampleLayoutSound` | src/components/TouchGrid/TouchGrid.example.tsx:83-107 | the example layout is within the bounds of its 12 x 12 grid, has unique ids and is separated |
| `Scenarios.ExampleStaysApart` | src/components/TouchGrid/TouchGrid.example.tsx:83-107 | after any sequence of drags the example layout stays within the grid bounds with no two items overlapping |
| `Scenarios.Session` | src/hooks/useTouchGrid.js:90-95 | an owner that feeds each `onChange` list back as the items prop (controlled) or leaves the hook its own copy (uncontrolled) ends with the list `Run` computes, in the same mode |

## Left out

- React plumbing. `useState`, `useRef` and `useLayoutEffect` become the fields
  and methods of `TouchGrid`. When a re-render happens is up to the owner
  (`Rerender`, `Session`). A change of `width`, `height` or `gap` between
  renders is not modelled: they are constants of the object. `items`,
  `onChange` and `onItemChange` are re-read by `Rerender`.
- DOM measurement. `clientWidth` and `clientHeight` are parameters of
  `Measure`. A render where the container ref is still null is a render
  where `Measure` is not called.
- Floating point. Pixel arithmetic (cell size, division by the pitch,
  `Math.round`, snapped offsets) is done over exact reals. Rounding error
  and `-0` are not modelled. Positions are integers; the source's `number`
  positions could in principle be fractional or `NaN`.
- Non-finite arithmetic. JavaScript would give `Infinity` or `NaN` for a grid
  dimension of 0 or a zero pitch. The model excludes these cases instead.
- Hook.TouchGrid.Measure: requires positive grid dimensions and a non-negative
  container size, because the source divides by the dimension and the DOM
  never reports a negative size.
- Hook.TouchGrid.HandleDragEnd: requires the class invariant `Valid()` (a
  non-negative gap, set by the constructor, and a positive pitch once
  measured), so that the division by `cellSize + gap` is defined.
- Hook.TouchGrid.constructor: requires `gap >= 0`. The source accepts any
  number but only defaults it to 0.
- The dnd-kit event shape. A gesture is the dragged instance's id (or none),
  the `type` string, and the pixel delta. JavaScript's other falsy `type`
  values (`undefined`, `null`) are represented by `""`. The gesture carries
  only the instance's id, which is all the handler reads from it.
- The owner's callbacks. They are returned as an ordered list of calls
  rather than invoked. What the owner then does is outside the hook, except
  in `Scenarios.Session`.
- The returned hook object (`gridContainerRef`, `handleDragEnd`,
  `snapToGridModifier`, `cellSize`, `gap`). Its `items` field is
  `TouchGrid.CurrentItems`.
- Scenarios.ExampleLayout: the example's ids come from `crypto.randomUUID()`,
  which is randomness; the model uses the fixed distinct ids "a" to "l".
- Rendering and wiring: the item renderer and editor, the default move
  overlay and resize handle, the draggable item's pixel styles, the pages,
  the app entry points and the build configuration. They hold no engine
  logic. The type shapes of `TouchGridTypes.tsx` appear only as
  `Pos` and `Instance`, whose payload is a type parameter the engine never
  inspects.
