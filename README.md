# FitTheBread occupancy grid, in Dafny

This project models `GridInventorySystem` (Assets/Code/Scripts/GridManager.cs), the occupancy grid of the
FitTheBread block-fitting puzzle. The grid is `gridWidth` x `gridHeight` cells. It keeps:

- one occupancy flag per cell (`gridSpaces`);
- two running counters (`freeCellsCount`, `occupiedCellsCount`) and `totalCells`;
- for each placed item, the list of cells it claimed (`itemOccupiedCells`);
- the list of placed items (`itemsInGrid`).

The operations are `InitializeGrid` (run from `Start`), `CanPlaceItem`, `PlaceItem`, `RemoveItem`,
`ClearItemCells`, `StartMovingItem`, `IsCellOccupied` and `ClearGrid`.

The project has three modules:

- `GridSpec` (grid_spec.dfy) is the state as a value, `Grid`, with one function per operation. Each
  function follows the code's branches: out-of-grid cells are skipped, and a counter moves only when a
  flag really changes. `WellFormed` is the invariant every reachable state keeps:
  - the counters agree with the flags, and `totalCells` is `width * height`;
  - flags and records lie on the grid;
  - the item list holds exactly the recorded items, each once;
  - every set flag is claimed by some item.

  `Sound` is the stronger property that claims and flags agree exactly.
- `GridProperties` (grid_properties.dfy) holds what each operation guarantees and how operations combine.
- `GridManager` (grid_manager.dfy) is the component as a class:
  - the flags are an `array2<bool>` updated in place;
  - the loops are the code's loops, with their invariants;
  - every public operation (`PlaceItem`, `RemoveItem`, `StartMovingItem`, `ClearGrid`) is proved to
    keep `Valid()`, and the constructor establishes it;
  - the new state `Abs()` of each of these operations, and of the private steps `ClearItemCells` and
    `OccupyItemCells`, is proved to be the `GridSpec` function of the old state. `InitializeGrid` is
    specified directly: a fresh array with no flag set and the counters reset.

Items can be of any type with equality. Cells are integer pairs `(x, y)`, and a cell may lie off the grid.

Occupancy is one flag per cell, not a collection of occupants. `ClearItemCells` therefore clears a flag
even when another item has also recorded that cell. Claims are guaranteed to stay disjoint when every placement
was approved by `CanPlaceItem` first (`PlaceItemKeepsSound`). `InventoryItem` (Assets/Code/Scripts/Shape Drag
Drop.cs) never calls `CanPlaceItem`: it rotates and mirrors by `RemoveItem` followed by an unchecked
`PlaceItem`. So overlapping claims are reachable in the game. `SharedCellFreedByOtherRemoval` shows what
follows: once item `a` is removed, item `b` still claims a cell whose flag is now clear. The state is then
still `WellFormed`, but no longer `Sound`. The model keeps this behaviour as the code has it.

## Model

| member | source | states |
|---|---|---|
| GridManager.GridInventorySystem.constructor | Assets/Code/Scripts/GridManager.cs:30-57 | After `Start`, every cell is free, nothing is tracked, `freeCellsCount == totalCells == gridWidth * gridHeight`, `occupiedCellsCount == 0`, and the invariant holds |
| GridManager.GridInventorySystem.InitializeGrid | Assets/Code/Scripts/GridManager.cs:41-57 | Allocates a fresh `gridWidth` x `gridHeight` flag array with no flag set; counts one free cell per grid cell and no occupied cell; leaves the records and the item list alone |
| GridManager.GridInventorySystem.CanPlaceItem | Assets/Code/Scripts/GridManager.cs:96-118 | Returns true exactly when every given cell lies in `[0,gridWidth) x [0,gridHeight)` and is not occupied; changes nothing |
| GridManager.GridInventorySystem.ClearItemCells | Assets/Code/Scripts/GridManager.cs:173-196 | Clears the flag of each on-grid cell the item recorded. A counter moves only for a flag that was set. The record itself is kept. The result equals `GridSpec.ClearItemCells` of the old state |
| GridManager.GridInventorySystem.OccupyItemCells | Assets/Code/Scripts/GridManager.cs:133-150 | The marking loop of `PlaceItem`: sets the flag of each on-grid cell and appends it to the item's record. Off-grid cells are skipped. A counter moves only for a flag that was clear. The result equals `GridSpec.OccupyCells` of the old state |
| GridManager.GridInventorySystem.PlaceItem | Assets/Code/Scripts/GridManager.cs:120-158 | Releases the item's previous cells, resets its record, occupies and records the on-grid cells, and lists the item if it is absent. The new state is `GridSpec.PlaceItem` of the old one and keeps the invariant |
| GridManager.GridInventorySystem.RemoveItem | Assets/Code/Scripts/GridManager.cs:161-171 | Releases the recorded cells, deletes the record and unlists the item; the cell list argument is ignored. The new state is `GridSpec.RemoveItem` of the old one and keeps the invariant |
| GridManager.GridInventorySystem.StartMovingItem | Assets/Code/Scripts/GridManager.cs:199-207 | A tracked item releases its cells and keeps an empty record; an untracked item changes nothing. The new state is `GridSpec.StartMovingItem` of the old one and keeps the invariant |
| GridManager.GridInventorySystem.IsCellOccupied | Assets/Code/Scripts/GridManager.cs:223-231 | Returns the cell's flag; any off-grid coordinate gives false, never an error |
| GridManager.GridInventorySystem.ClearGrid | Assets/Code/Scripts/GridManager.cs:233-256 | Clears every flag and forgets every item, with `freeCellsCount == totalCells` and `occupiedCellsCount == 0`. The new state is `GridSpec.ClearGrid` of the old one and keeps the invariant |
| GridSpec.InBoundsOnly | Assets/Code/Scripts/GridManager.cs:139-149 | The cells `PlaceItem` records are exactly the given cells that lie on the grid; when all of them do, all are recorded |
| GridSpec.RemoveFirst | Assets/Code/Scripts/GridManager.cs:167-170 | `List.Remove` takes away exactly one occurrence of the item (as multisets) |
| GridSpec.FreeCells | Assets/Code/Scripts/GridManager.cs:176-193 | The freeing loop touches only flags and counters: dimensions, `totalCells`, records and item list stay the same |
| GridSpec.OccupyCells | Assets/Code/Scripts/GridManager.cs:134-150 | The marking loop keeps the set of tracked items, the dimensions, `totalCells` and the item list |
| GridProperties.AllCellsSize | Assets/Code/Scripts/GridManager.cs:37 | A `width` x `height` grid has exactly `width * height` cells, the value `totalCells` gets |
| GridProperties.CountersInRange | Assets/Code/Scripts/GridManager.cs:25-27 | In every well-formed state both counters lie in `[0, totalCells]` |
| GridProperties.FreeCellStep | Assets/Code/Scripts/GridManager.cs:183-192 | One freeing step clears only the given on-grid cell; the counter sum is unchanged, and `occupiedCellsCount` still tracks the number of set flags |
| GridProperties.OccupyCellStep | Assets/Code/Scripts/GridManager.cs:139-149 | One marking step sets only the given on-grid cell; the counter sum is unchanged, and `occupiedCellsCount` still tracks the number of set flags |
| GridProperties.FreeCellsEffect | Assets/Code/Scripts/GridManager.cs:176-193 | The freeing loop clears exactly the on-grid cells it is given, conserves `freeCellsCount + occupiedCellsCount`, and changes nothing else |
| GridProperties.OccupyCellsEffect | Assets/Code/Scripts/GridManager.cs:134-150 | The marking loop sets exactly the on-grid cells it is given (no other cell becomes occupied) and conserves `freeCellsCount + occupiedCellsCount` |
| GridProperties.OccupyCellsRecords | Assets/Code/Scripts/GridManager.cs:139-149 | The marking loop appends exactly the on-grid cells, in order, to the item's record and leaves every other record alone |
| GridProperties.ClearItemCellsEffect | Assets/Code/Scripts/GridManager.cs:173-196 | `ClearItemCells` frees exactly the item's recorded cells, keeps the counters in step with the flags, and keeps records, list and dimensions |
| GridProperties.EmptyIsWellFormed | Assets/Code/Scripts/GridManager.cs:41-57 | The initial state keeps the invariant, is sound, and has `freeCellsCount` equal to the number of grid cells |
| GridProperties.ClearGridEffect | Assets/Code/Scripts/GridManager.cs:233-256 | `ClearGrid` yields the same state as a fresh `Start` on the same dimensions; that state is well-formed and sound |
| GridProperties.ClearedEffect | Assets/Code/Scripts/GridManager.cs:122-131 | Before marking, `PlaceItem` has freed exactly the item's old cells and reset its record to empty |
| GridProperties.PlaceItemOccupied | Assets/Code/Scripts/GridManager.cs:120-150 | After `PlaceItem`, the occupied cells are the old ones minus the item's old cells, plus its new on-grid cells; the counters agree with the flags |
| GridProperties.PlaceItemRecords | Assets/Code/Scripts/GridManager.cs:122-149 | After `PlaceItem`, the item's record is exactly its on-grid cells in order; every other record is unchanged |
| GridProperties.PlaceItemItems | Assets/Code/Scripts/GridManager.cs:153-156 | `PlaceItem` appends the item to the list only if it is not already there |
| GridProperties.PlaceItemEffect | Assets/Code/Scripts/GridManager.cs:120-158 | The whole effect of `PlaceItem` on flags, records, list, dimensions and counters |
| GridProperties.PlaceItemKeepsWellFormed | Assets/Code/Scripts/GridManager.cs:120-158 | `PlaceItem` keeps the invariant, and afterwards the item is in `itemsInGrid` exactly once |
| GridProperties.RemoveItemOccupied | Assets/Code/Scripts/GridManager.cs:161-163 | `RemoveItem` frees exactly the item's recorded cells, and the counters agree with the flags |
| GridProperties.RemoveItemRecords | Assets/Code/Scripts/GridManager.cs:164-170 | `RemoveItem` deletes only this item's record and takes it off the list |
| GridProperties.RemoveItemEffect | Assets/Code/Scripts/GridManager.cs:161-171 | `RemoveItem` keeps the invariant, and afterwards the item is neither recorded nor listed |
| GridProperties.RemoveUntrackedItem | Assets/Code/Scripts/GridManager.cs:161-176 | Removing an untracked item changes no cell, no counter and nothing else |
| GridProperties.StartMovingItemEffect | Assets/Code/Scripts/GridManager.cs:199-207 | A tracked item frees its recorded cells, stays listed and keeps an empty record; an untracked item changes nothing; the invariant is kept |
| GridProperties.PlaceItemKeepsSound | Assets/Code/Scripts/GridManager.cs:96-158 | A placement that `CanPlaceItem` approved keeps claims pairwise disjoint, with every claimed cell occupied |
| GridProperties.RemoveItemKeepsSound | Assets/Code/Scripts/GridManager.cs:161-196 | Removing an item keeps claims disjoint and occupied |
| GridProperties.StartMovingItemKeepsSound | Assets/Code/Scripts/GridManager.cs:199-207 | Picking an item up keeps claims disjoint and occupied |
| GridProperties.SoundFlagsMatchClaims | Assets/Code/Scripts/GridManager.cs:18-22 | In a sound state a cell's flag is set exactly when some item has recorded that cell |
| GridProperties.SharedCellFreedByOtherRemoval | Assets/Code/Scripts/GridManager.cs:185-190 | After an unchecked placement of `b` over a cell of `a`, removing `a` clears that cell's flag while `b` still claims the cell. `CanPlaceItem` would have refused `b`, and the state is well-formed but not sound |
| GridProperties.PlaceItemWhereItStands | Assets/Code/Scripts/GridManager.cs:120-158 | Placing a listed item on the cells it already records and occupies changes nothing |
| GridProperties.PlaceItemIdempotent | Assets/Code/Scripts/GridManager.cs:122-131 | Placing the same item on the same cells twice gives the same state as placing it once: no stale claims |
| GridProperties.PlaceItemForgetsOldClaims | Assets/Code/Scripts/GridManager.cs:122-131 | Two well-formed states that differ only in the item's old record and the cells it held give the same state after `PlaceItem`: where the item stood before leaves no trace |
| GridProperties.PickUpThenPlace | Assets/Code/Scripts/GridManager.cs:199-207 | `StartMovingItem` followed by `PlaceItem` gives the same state as `PlaceItem` alone |
| GridProperties.PickUpFreesOwnCells | Assets/Code/Scripts/GridManager.cs:199-207 | Once an item is picked up, `CanPlaceItem` accepts the item's own old cells |

## Left out

- World positions and `SnapToGrid`: the float conversion `Mathf.RoundToInt((p - gridCenter) / cellSize)` and `SnapToGrid` are float arithmetic. The model takes integer cell coordinates directly, and a record holds the cell rather than the world position it was computed from. `ClearItemCells` converts a stored position back to the same cell, as long as `gridCenter` and `cellSize` stay fixed.
- Rendering: `CreateGridVisuals`, `UpdateGridCellColor`, `gridCellObjects`, the colour fields and the `ValidateGridState` coroutine only recolour cells. `Debug.Log` output is not modelled either.
- Counter overflow: the counters and `gridWidth * gridHeight` are C# 32-bit `int`s, and the model uses unbounded integers. The counters stay within `[0, totalCells]` (`CountersInRange`), so wrap-around needs a grid of more than 2^31 - 1 cells.
- Dimensions: `gridWidth` and `gridHeight` are constants of the class. Changing them in the Unity inspector after `Start` is not modelled.
- GridManager.GridInventorySystem.constructor: the dimensions are `nat`. In the code `gridWidth` and `gridHeight` are `int` inspector fields, and a negative value makes `new bool[gridWidth, gridHeight]` throw inside `Start`. That error path is not modelled.
- Calls before `Start`: the constructor stands for the field initialisers together with `Start`, so `gridSpaces` always exists. The `NullReferenceException` from calling an operation before `Start` is not modelled.
- Item identity: items are any type with equality. `Dictionary` and `List` use `InventoryItem`'s reference equality, which the model takes as `==`.
- `PlaceItem`'s marking loop is the separate method `OccupyItemCells`, called at the point of `PlaceItem` where the loop stands. The steps are unchanged.
- `InventoryItem` (piece geometry, rotation, mirroring, drag and snap) is not part of this model. It is the caller of the grid; the model records only that it never calls `CanPlaceItem`.
- AudioManager.cs, RotateFlip.cs, UIManager.cs and MainMenu.cs hold sound playback, transform toggling and menu plumbing, with no grid state; they are not part of this model.
- A win-condition query does not exist in GridManager.cs; none is modelled.
