/** The GridInventorySystem component (Assets/Code/Scripts/GridManager.cs) as a class: the
    occupancy flags are a two-dimensional array updated in place, the item list and the
    per-item records are fields the methods reassign. Every method is proved against the value
    model in GridSpec through `Abs()`, and keeps `Valid()`. */
module GridManager {
  import opened GridSpec
  import opened GridProperties

  class GridInventorySystem<Item(==)> {
    const gridWidth: nat
    const gridHeight: nat
    var gridSpaces: array2<bool>
    var itemsInGrid: seq<Item>
    var itemOccupiedCells: map<Item, seq<Cell>>
    var totalCells: int
    var freeCellsCount: int
    var occupiedCellsCount: int

    /** The flag array has one entry per grid cell. */
    ghost predicate Shaped()
      reads this
    {
      gridSpaces.Length0 == gridWidth && gridSpaces.Length1 == gridHeight
    }

    /** The cells whose flag is set. */
    ghost function Occupied(): (r: set<Cell>)
      reads this, gridSpaces
      ensures forall c :: c in r <==>
        0 <= c.0 < gridSpaces.Length0 && 0 <= c.1 < gridSpaces.Length1 && gridSpaces[c.0, c.1]
    {
      set c | c in AllCells(gridSpaces.Length0, gridSpaces.Length1) && gridSpaces[c.0, c.1]
    }

    /** The component's state as a GridSpec value. */
    ghost function Abs(): Grid<Item>
      reads this, gridSpaces
    {
      Grid(gridWidth, gridHeight, Occupied(), totalCells, freeCellsCount, occupiedCellsCount,
           itemOccupiedCells, itemsInGrid)
    }

    ghost predicate Valid()
      reads this, gridSpaces
    {
      Shaped() && WellFormed(Abs())
    }

    /** Start: allocate and initialise the flags, then set totalCells. The component starts with
        every cell free and nothing tracked. */
    constructor (width: nat, height: nat)
      ensures gridWidth == width && gridHeight == height
      ensures Abs() == Empty(width, height)
      ensures Valid()
      ensures fresh(gridSpaces)
    {
      gridWidth, gridHeight := width, height;
      gridSpaces := new bool[0, 0];
      itemsInGrid, itemOccupiedCells := [], map[];
      totalCells, freeCellsCount, occupiedCellsCount := 0, 0, 0;
      new;
      InitializeGrid();
      totalCells := gridWidth * gridHeight;
      assert Abs() == Empty<Item>(width, height);
      EmptyIsWellFormed<Item>(width, height);
    }

    /** InitializeGrid: a fresh flag array with every flag cleared, one free cell counted per
        cell and no occupied cell. */
    method InitializeGrid()
      modifies this
      ensures fresh(gridSpaces) && Shaped() && Occupied() == {}
      ensures freeCellsCount == gridWidth * gridHeight && occupiedCellsCount == 0
      ensures totalCells == old(totalCells)
      ensures itemsInGrid == old(itemsInGrid) && itemOccupiedCells == old(itemOccupiedCells)
    {
      gridSpaces := new bool[gridWidth, gridHeight];
      freeCellsCount := 0;
      occupiedCellsCount := 0;
      for x := 0 to gridWidth
        modifies gridSpaces, `freeCellsCount
        invariant freeCellsCount == x * gridHeight
        invariant forall i, j :: 0 <= i < x && 0 <= j < gridHeight ==> !gridSpaces[i, j]
      {
        for y := 0 to gridHeight
          modifies gridSpaces, `freeCellsCount
          invariant freeCellsCount == x * gridHeight + y
          invariant forall i, j :: 0 <= i < x && 0 <= j < gridHeight ==> !gridSpaces[i, j]
          invariant forall j :: 0 <= j < y ==> !gridSpaces[x, j]
        {
          gridSpaces[x, y] := false;
          freeCellsCount := freeCellsCount + 1;
        }
        RowStep(x + 1, gridHeight);
      }
      assert Occupied() == {} by {
        forall c ensures c !in Occupied() {
        }
      }
    }

    /** CanPlaceItem: true exactly when every cell lies on the grid and is free. */
    method CanPlaceItem(cells: seq<Cell>) returns (r: bool)
      requires Valid()
      ensures r == CanPlace(Abs(), cells)
    {
      for i := 0 to |cells|
        invariant forall j :: 0 <= j < i ==>
          InBounds(gridWidth, gridHeight, cells[j]) && cells[j] !in Occupied()
      {
        var (x, y) := cells[i];
        if x < 0 || y < 0 || x >= gridWidth || y >= gridHeight {
          return false;
        }
        if gridSpaces[x, y] {
          return false;
        }
      }
      return true;
    }

    /** ClearItemCells: clear the flag of every on-grid cell the item recorded, counting a cell
        free only when its flag was set. */
    method ClearItemCells(item: Item)
      requires Shaped()
      modifies gridSpaces, `freeCellsCount, `occupiedCellsCount
      ensures Shaped() && Abs() == GridSpec.ClearItemCells(old(Abs()), item)
    {
      if item in itemOccupiedCells {
        var positions := itemOccupiedCells[item];
        ghost var g0 := Abs();
        for i := 0 to |positions|
          invariant Abs() == FreeCells(g0, positions[..i])
        {
          var cell := positions[i];
          var (x, y) := cell;
          ghost var before := Abs();
          if x >= 0 && y >= 0 && x < gridWidth && y < gridHeight {
            if gridSpaces[x, y] {
              freeCellsCount := freeCellsCount + 1;
              occupiedCellsCount := occupiedCellsCount - 1;
            }
            gridSpaces[x, y] := false;
            assert Occupied() == before.occupied - {cell} by {
              forall c ensures c in Occupied() <==> c in before.occupied - {cell} {
              }
            }
          }
          FreeCellByFields(before, Abs(), cell);
          assert positions[..i + 1][..i] == positions[..i];
        }
        assert positions[..|positions|] == positions;
      }
    }

    /** The marking loop of PlaceItem: set the flag of every on-grid cell and append it to the
        item's record, counting a cell occupied only when its flag was clear. */
    method OccupyItemCells(item: Item, cells: seq<Cell>)
      requires Shaped() && item in itemOccupiedCells
      modifies gridSpaces, `freeCellsCount, `occupiedCellsCount, `itemOccupiedCells
      ensures Shaped() && Abs() == OccupyCells(old(Abs()), item, cells)
    {
      ghost var g0 := Abs();
      for i := 0 to |cells|
        invariant item in itemOccupiedCells
        invariant Abs() == OccupyCells(g0, item, cells[..i])
      {
        var cell := cells[i];
        var (x, y) := cell;
        ghost var before := Abs();
        if x >= 0 && y >= 0 && x < gridWidth && y < gridHeight {
          if !gridSpaces[x, y] {
            freeCellsCount := freeCellsCount - 1;
            occupiedCellsCount := occupiedCellsCount + 1;
          }
          gridSpaces[x, y] := true;
          assert Occupied() == before.occupied + {cell} by {
            forall c ensures c in Occupied() <==> c in before.occupied + {cell} {
            }
          }
          itemOccupiedCells := itemOccupiedCells[item := itemOccupiedCells[item] + [cell]];
        }
        OccupyCellByFields(before, Abs(), item, cell);
        assert cells[..i + 1][..i] == cells[..i];
      }
      assert cells[..|cells|] == cells;
    }

    /** PlaceItem: release the item's previous cells and reset its record, occupy and record each
        on-grid cell, then list the item if it is not listed yet. */
    method PlaceItem(item: Item, cells: seq<Cell>)
      requires Valid()
      modifies this, gridSpaces
      ensures gridSpaces == old(gridSpaces)
      ensures Abs() == GridSpec.PlaceItem(old(Abs()), item, cells)
      ensures Valid()
    {
      ghost var g0 := Abs();
      if item in itemOccupiedCells {
        ClearItemCells(item);
        itemOccupiedCells := itemOccupiedCells[item := []];
      } else {
        itemOccupiedCells := itemOccupiedCells[item := []];
      }
      assert Abs() == Cleared(g0, item);
      OccupyItemCells(item, cells);
      if item !in itemsInGrid {
        itemsInGrid := itemsInGrid + [item];
      }
      assert Abs() == GridSpec.PlaceItem(g0, item, cells);
      PlaceItemKeepsWellFormed(g0, item, cells);
    }

    /** RemoveItem: release the item's cells, forget its record and unlist it. The cell list the
        caller passes is not used: the recorded cells are released. */
    method RemoveItem(item: Item, cells: seq<Cell>)
      requires Valid()
      modifies this, gridSpaces
      ensures gridSpaces == old(gridSpaces)
      ensures Abs() == GridSpec.RemoveItem(old(Abs()), item)
      ensures Valid()
    {
      ghost var g0 := Abs();
      ClearItemCells(item);
      itemOccupiedCells := itemOccupiedCells - {item};
      if item in itemsInGrid {
        itemsInGrid := RemoveFirst(itemsInGrid, item);
      }
      assert Abs() == GridSpec.RemoveItem(g0, item);
      RemoveItemEffect(g0, item);
    }

    /** StartMovingItem: a tracked item releases its cells and keeps an empty record. */
    method StartMovingItem(item: Item)
      requires Valid()
      modifies this, gridSpaces
      ensures gridSpaces == old(gridSpaces)
      ensures Abs() == GridSpec.StartMovingItem(old(Abs()), item)
      ensures Valid()
    {
      ghost var g0 := Abs();
      if item in itemOccupiedCells {
        ClearItemCells(item);
        itemOccupiedCells := itemOccupiedCells[item := []];
      }
      assert Abs() == GridSpec.StartMovingItem(g0, item);
      StartMovingItemEffect(g0, item);
    }

    /** IsCellOccupied: the flag of an on-grid cell; false off the grid. */
    method IsCellOccupied(x: int, y: int) returns (occupied: bool)
      requires Valid()
      ensures occupied <==> (x, y) in Abs().occupied
      ensures !InBounds(gridWidth, gridHeight, (x, y)) ==> !occupied
    {
      if x >= 0 && y >= 0 && x < gridWidth && y < gridHeight {
        return gridSpaces[x, y];
      }
      return false;
    }

    /** ClearGrid: clear every flag, forget every item, reset the counters from totalCells. */
    method ClearGrid()
      requires Valid()
      modifies this, gridSpaces
      ensures gridSpaces == old(gridSpaces)
      ensures Abs() == GridSpec.ClearGrid(old(Abs()))
      ensures Valid()
    {
      ghost var g0 := Abs();
      for x := 0 to gridWidth
        modifies gridSpaces, `freeCellsCount, `occupiedCellsCount
        invariant forall i, j :: 0 <= i < x && 0 <= j < gridHeight ==> !gridSpaces[i, j]
      {
        for y := 0 to gridHeight
          modifies gridSpaces, `freeCellsCount, `occupiedCellsCount
          invariant forall i, j :: 0 <= i < x && 0 <= j < gridHeight ==> !gridSpaces[i, j]
          invariant forall j :: 0 <= j < y ==> !gridSpaces[x, j]
        {
          if gridSpaces[x, y] {
            freeCellsCount := freeCellsCount + 1;
            occupiedCellsCount := occupiedCellsCount - 1;
          }
          gridSpaces[x, y] := false;
        }
      }
      assert Occupied() == {} by {
        forall c ensures c !in Occupied() {
        }
      }
      itemsInGrid := [];
      itemOccupiedCells := map[];
      freeCellsCount := totalCells;
      occupiedCellsCount := 0;
      ClearGridEffect(g0);
    }
  }
}
