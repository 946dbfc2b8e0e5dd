/** What the operations of GridInventorySystem guarantee, proved on the value model. */
module GridProperties {
  import opened GridSpec

  // ---------------------------------------------------------------------------
  // Size of the grid and range of the counters
  // ---------------------------------------------------------------------------

  function Column(x: int, height: nat): set<Cell> {
    set y | 0 <= y < height :: (x, y)
  }

  lemma {:induction false} ColumnSize(x: int, height: nat)
    ensures |Column(x, height)| == height
  {
    if height > 0 {
      ColumnSize(x, height - 1);
      assert Column(x, height) == Column(x, height - 1) + {(x, height - 1)};
    }
  }

  lemma RowStep(width: nat, height: nat)
    requires width > 0
    ensures width * height == (width - 1) * height + height
  {
  }

  /** A `width` x `height` grid has `width * height` cells (`totalCells`). */
  lemma {:induction false} AllCellsSize(width: nat, height: nat)
    ensures |AllCells(width, height)| == width * height
  {
    if width > 0 {
      var x := width - 1;
      AllCellsSize(x, height);
      ColumnSize(x, height);
      forall c | c in AllCells(width, height) ensures c in AllCells(x, height) + Column(x, height) {
        if c.0 < x {
          assert c in AllCells(x, height);
        } else {
          assert c == (x, c.1);
        }
      }
      assert AllCells(width, height) == AllCells(x, height) + Column(x, height);
      assert AllCells(x, height) !! Column(x, height);
      RowStep(width, height);
    }
  }

  /** Both counters stay within [0, totalCells]. */
  lemma CountersInRange<Item>(g: Grid<Item>)
    requires WellFormed(g)
    ensures 0 <= g.occupiedCount <= g.total
    ensures 0 <= g.freeCount <= g.total
  {
    var all := AllCells(g.width, g.height);
    forall c | c in g.occupied ensures c in all {
      assert c == (c.0, c.1);
    }
    AllCellsSize(g.width, g.height);
    assert all == g.occupied + (all - g.occupied);
    assert g.occupied !! (all - g.occupied);
  }

  // ---------------------------------------------------------------------------
  // The two loops of the grid: freeing and occupying a run of cells
  // ---------------------------------------------------------------------------

  /** One step of ClearItemCells' loop. */
  lemma FreeCellStep<Item>(p: Grid<Item>, c: Cell)
    ensures var r := FreeCell(p, c);
      && r.occupied == p.occupied - (if InBounds(p.width, p.height, c) then {c} else {})
      && r.freeCount + r.occupiedCount == p.freeCount + p.occupiedCount
      && r.occupiedCount - |r.occupied| == p.occupiedCount - |p.occupied|
      && r.width == p.width && r.height == p.height && r.total == p.total
      && r.records == p.records && r.items == p.items
  {
  }

  /** A state whose fields are those FreeCell computes is FreeCell's result. */
  lemma FreeCellByFields<Item>(p: Grid<Item>, r: Grid<Item>, c: Cell)
    requires r.width == p.width && r.height == p.height && r.total == p.total
    requires r.records == p.records && r.items == p.items
    requires InBounds(p.width, p.height, c) ==> r.occupied == p.occupied - {c}
    requires !InBounds(p.width, p.height, c) ==> r.occupied == p.occupied
    requires r.freeCount == (if InBounds(p.width, p.height, c) && c in p.occupied then p.freeCount + 1 else p.freeCount)
    requires r.occupiedCount == (if InBounds(p.width, p.height, c) && c in p.occupied then p.occupiedCount - 1 else p.occupiedCount)
    ensures r == FreeCell(p, c)
  {
    if InBounds(p.width, p.height, c) && c !in p.occupied {
      assert p.occupied - {c} == p.occupied;
    }
  }

  /** A state whose fields are those OccupyCell computes is OccupyCell's result. */
  lemma OccupyCellByFields<Item>(p: Grid<Item>, r: Grid<Item>, item: Item, c: Cell)
    requires item in p.records
    requires r.width == p.width && r.height == p.height && r.total == p.total && r.items == p.items
    requires InBounds(p.width, p.height, c) ==> r.occupied == p.occupied + {c}
    requires InBounds(p.width, p.height, c) ==> r.records == p.records[item := p.records[item] + [c]]
    requires !InBounds(p.width, p.height, c) ==> r.occupied == p.occupied && r.records == p.records
    requires r.freeCount == (if InBounds(p.width, p.height, c) && c !in p.occupied then p.freeCount - 1 else p.freeCount)
    requires r.occupiedCount == (if InBounds(p.width, p.height, c) && c !in p.occupied then p.occupiedCount + 1 else p.occupiedCount)
    ensures r == OccupyCell(p, item, c)
  {
  }

  /** One step of PlaceItem's loop, apart from the record. */
  lemma OccupyCellStep<Item>(p: Grid<Item>, item: Item, c: Cell)
    requires item in p.records
    ensures var r := OccupyCell(p, item, c);
      && r.occupied == p.occupied + (if InBounds(p.width, p.height, c) then {c} else {})
      && r.freeCount + r.occupiedCount == p.freeCount + p.occupiedCount
      && r.occupiedCount - |r.occupied| == p.occupiedCount - |p.occupied|
      && r.width == p.width && r.height == p.height && r.total == p.total && r.items == p.items
  {
    if InBounds(p.width, p.height, c) && c in p.occupied {
      assert p.occupied + {c} == p.occupied;
    }
  }

  lemma OnGridSnoc(width: int, height: int, cells: seq<Cell>)
    requires cells != []
    ensures var last := cells[|cells| - 1];
      InBoundsOnly(width, height, cells)
      == InBoundsOnly(width, height, cells[..|cells| - 1]) + (if InBounds(width, height, last) then [last] else [])
  {
  }

  lemma OnGridSnocElems(width: int, height: int, cells: seq<Cell>)
    requires cells != []
    ensures var last := cells[|cells| - 1];
      Elems(InBoundsOnly(width, height, cells))
      == Elems(InBoundsOnly(width, height, cells[..|cells| - 1])) + (if InBounds(width, height, last) then {last} else {})
  {
  }

  /** ClearItemCells' loop frees exactly the on-grid cells it is given, moves the counters by
      one per cell that really changes, and touches nothing else. */
  lemma {:induction false} FreeCellsEffect<Item>(g: Grid<Item>, cells: seq<Cell>)
    ensures var r := FreeCells(g, cells);
      && r.occupied == g.occupied - Elems(InBoundsOnly(g.width, g.height, cells))
      && r.freeCount + r.occupiedCount == g.freeCount + g.occupiedCount
      && r.occupiedCount - |r.occupied| == g.occupiedCount - |g.occupied|
      && r.width == g.width && r.height == g.height && r.total == g.total
      && r.records == g.records && r.items == g.items
    decreases |cells|
  {
    if cells != [] {
      var init, last := cells[..|cells| - 1], cells[|cells| - 1];
      FreeCellsEffect(g, init);
      FreeCellStep(FreeCells(g, init), last);
      OnGridSnocElems(g.width, g.height, cells);
    }
  }

  /** PlaceItem's loop occupies exactly the on-grid cells it is given, moves the counters by
      one per cell that really changes, and leaves the dimensions and the item list alone. */
  lemma {:induction false} OccupyCellsEffect<Item>(g: Grid<Item>, item: Item, cells: seq<Cell>)
    requires item in g.records
    ensures var r := OccupyCells(g, item, cells);
      && r.occupied == g.occupied + Elems(InBoundsOnly(g.width, g.height, cells))
      && r.freeCount + r.occupiedCount == g.freeCount + g.occupiedCount
      && r.occupiedCount - |r.occupied| == g.occupiedCount - |g.occupied|
      && r.width == g.width && r.height == g.height && r.total == g.total && r.items == g.items
    decreases |cells|
  {
    if cells != [] {
      var init, last := cells[..|cells| - 1], cells[|cells| - 1];
      OccupyCellsEffect(g, item, init);
      OccupyCellStep(OccupyCells(g, item, init), item, last);
      OnGridSnocElems(g.width, g.height, cells);
    }
  }

  /** PlaceItem's loop appends exactly the on-grid cells, in order, to the item's record and
      leaves every other record alone. */
  lemma {:induction false} OccupyCellsRecords<Item>(g: Grid<Item>, item: Item, cells: seq<Cell>)
    requires item in g.records
    ensures OccupyCells(g, item, cells).records
         == g.records[item := g.records[item] + InBoundsOnly(g.width, g.height, cells)]
    ensures OccupyCells(g, item, cells).width == g.width && OccupyCells(g, item, cells).height == g.height
    decreases |cells|
  {
    var before := g.records[item];
    if cells == [] {
      assert before + [] == before;
      assert g.records[item := before] == g.records;
    } else {
      var init, last := cells[..|cells| - 1], cells[|cells| - 1];
      OccupyCellsRecords(g, item, init);
      var p := OccupyCells(g, item, init);
      var soFar := before + InBoundsOnly(g.width, g.height, init);
      assert p.records == g.records[item := soFar];
      OnGridSnoc(g.width, g.height, cells);
      var extra := if InBounds(g.width, g.height, last) then [last] else [];
      assert before + InBoundsOnly(g.width, g.height, cells) == soFar + extra;
      if InBounds(g.width, g.height, last) {
        assert OccupyCell(p, item, last).records == p.records[item := soFar + [last]];
      } else {
        assert soFar + extra == soFar;
        assert p.records[item := soFar] == p.records;
      }
    }
  }

  /** With every record on the grid, ClearItemCells frees exactly the item's recorded cells. */
  lemma ClearItemCellsEffect<Item>(g: Grid<Item>, item: Item)
    requires OnGrid(g)
    ensures var r := ClearItemCells(g, item);
      && r.occupied == g.occupied - Elems(Recorded(g, item))
      && r.freeCount + r.occupiedCount == g.freeCount + g.occupiedCount
      && r.occupiedCount - |r.occupied| == g.occupiedCount - |g.occupied|
      && r.width == g.width && r.height == g.height && r.total == g.total
      && r.records == g.records && r.items == g.items
  {
    if item in g.records {
      var rec := g.records[item];
      FreeCellsEffect(g, rec);
      assert InBoundsOnly(g.width, g.height, rec) == rec by {
        forall i | 0 <= i < |rec| ensures InBounds(g.width, g.height, rec[i]) {
          assert rec[i] in g.records[item];
        }
      }
    }
  }

  // ---------------------------------------------------------------------------
  // Each operation: its effect, and the invariant it keeps
  // ---------------------------------------------------------------------------

  /** Start and ClearGrid leave every cell free with free == width * height and nothing tracked;
      both states satisfy the invariant and are sound. */
  lemma EmptyIsWellFormed<Item>(width: nat, height: nat)
    ensures WellFormed(Empty<Item>(width, height)) && Sound(Empty<Item>(width, height))
    ensures Empty<Item>(width, height).freeCount == |AllCells(width, height)|
  {
    AllCellsSize(width, height);
  }

  lemma ClearGridEffect<Item>(g: Grid<Item>)
    requires WellFormed(g)
    ensures ClearGrid(g) == Empty(g.width, g.height)
    ensures WellFormed(ClearGrid(g)) && Sound(ClearGrid(g))
  {
  }

  /** Releasing the item's claims frees exactly its recorded cells and keeps the counters
      in agreement with the flags. */
  lemma ClearedEffect<Item>(g: Grid<Item>, item: Item)
    requires WellFormed(g)
    ensures var c := Cleared(g, item);
      && c.occupied == g.occupied - Elems(Recorded(g, item))
      && CountersAgree(c)
      && c.width == g.width && c.height == g.height
      && c.records == g.records[item := []] && c.items == g.items
  {
    ClearItemCellsEffect(g, item);
  }

  /** PlaceItem occupies exactly the item's on-grid cells after releasing its old ones, and the
      counters still agree with the flags. */
  lemma PlaceItemOccupied<Item>(g: Grid<Item>, item: Item, cells: seq<Cell>)
    requires WellFormed(g)
    ensures var r := PlaceItem(g, item, cells);
      && r.occupied == (g.occupied - Elems(Recorded(g, item))) + Elems(InBoundsOnly(g.width, g.height, cells))
      && r.width == g.width && r.height == g.height
      && CountersAgree(r)
  {
    var cleared := Cleared(g, item);
    ClearedEffect(g, item);
    OccupyCellsEffect(cleared, item, cells);
  }

  /** PlaceItem replaces the item's record by its on-grid cells in order and keeps every other
      record. */
  lemma PlaceItemRecords<Item>(g: Grid<Item>, item: Item, cells: seq<Cell>)
    ensures PlaceItem(g, item, cells).records == g.records[item := InBoundsOnly(g.width, g.height, cells)]
  {
    var onGrid := InBoundsOnly(g.width, g.height, cells);
    var cleared := Cleared(g, item);
    OccupyCellsRecords(cleared, item, cells);
    EmptyPrefix(onGrid);
    UpdateTwice(g.records, item, [], onGrid);
  }

  lemma EmptyPrefix<T>(s: seq<T>)
    ensures [] + s == s
  {
  }

  lemma UpdateTwice<K, V>(m: map<K, V>, k: K, v1: V, v2: V)
    ensures m[k := v1][k := v2] == m[k := v2]
  {
  }

  /** PlaceItem lists the item at the end if it was not listed, and leaves the list alone
      otherwise. */
  lemma PlaceItemItems<Item>(g: Grid<Item>, item: Item, cells: seq<Cell>)
    ensures PlaceItem(g, item, cells).items == (if item in g.items then g.items else g.items + [item])
  {
  }

  /** PlaceItem's whole effect. */
  lemma PlaceItemEffect<Item>(g: Grid<Item>, item: Item, cells: seq<Cell>)
    requires WellFormed(g)
    ensures var r := PlaceItem(g, item, cells);
      && r.occupied == (g.occupied - Elems(Recorded(g, item))) + Elems(InBoundsOnly(g.width, g.height, cells))
      && r.records == g.records[item := InBoundsOnly(g.width, g.height, cells)]
      && r.items == (if item in g.items then g.items else g.items + [item])
      && r.width == g.width && r.height == g.height
      && CountersAgree(r)
  {
    PlaceItemOccupied(g, item, cells);
    PlaceItemRecords(g, item, cells);
    PlaceItemItems(g, item, cells);
  }

  /** Giving `item` a record and listing it if needed keeps the item list in step with the
      records, and lists the item once. */
  lemma ListedAfterRecord<Item>(g: Grid<Item>, r: Grid<Item>, item: Item, rec: seq<Cell>)
    requires Listed(g)
    requires r.records == g.records[item := rec]
    requires r.items == (if item in g.items then g.items else g.items + [item])
    ensures Listed(r) && multiset(r.items)[item] == 1
  {
    if item !in g.items {
      assert multiset(r.items) == multiset(g.items) + multiset{item};
    }
    assert r.records.Keys == (set x | x in r.items);
  }

  /** Occupying only cells that the item now records leaves no occupied cell unclaimed. */
  lemma NoOrphanAfterRecord<Item>(g: Grid<Item>, r: Grid<Item>, item: Item, rec: seq<Cell>)
    requires NoOrphan(g)
    requires r.records == g.records[item := rec]
    requires r.occupied == (g.occupied - Elems(Recorded(g, item))) + Elems(rec)
    ensures NoOrphan(r)
  {
    forall c | c in r.occupied ensures ClaimedBySome(r.records, c) {
      if c in Elems(rec) {
        assert item in r.records && c in r.records[item];
      } else {
        assert c in g.occupied && c !in Elems(Recorded(g, item));
        var owner :| owner in g.records && c in g.records[owner];
        assert owner != item;
        assert owner in r.records && c in r.records[owner];
      }
    }
  }

  /** Recording only on-grid cells, and occupying only old flags or recorded cells, keeps
      everything on the grid. */
  lemma OnGridAfterRecord<Item>(g: Grid<Item>, r: Grid<Item>, item: Item, rec: seq<Cell>)
    requires OnGrid(g)
    requires r.width == g.width && r.height == g.height
    requires forall c :: c in rec ==> InBounds(g.width, g.height, c)
    requires r.records == g.records[item := rec]
    requires r.occupied <= g.occupied + Elems(rec)
    ensures OnGrid(r)
  {
  }

  /** PlaceItem keeps the invariant, and afterwards the item is listed exactly once. */
  lemma PlaceItemKeepsWellFormed<Item>(g: Grid<Item>, item: Item, cells: seq<Cell>)
    requires WellFormed(g)
    ensures WellFormed(PlaceItem(g, item, cells))
    ensures multiset(PlaceItem(g, item, cells).items)[item] == 1
  {
    var r := PlaceItem(g, item, cells);
    var onGrid := InBoundsOnly(g.width, g.height, cells);
    PlaceItemEffect(g, item, cells);
    ListedAfterRecord(g, r, item, onGrid);
    NoOrphanAfterRecord(g, r, item, onGrid);
    OnGridAfterRecord(g, r, item, onGrid);
  }

  /** RemoveItem frees exactly the item's recorded cells and keeps the counters in agreement
      with the flags. */
  lemma RemoveItemOccupied<Item>(g: Grid<Item>, item: Item)
    requires WellFormed(g)
    ensures var r := RemoveItem(g, item);
      && r.occupied == g.occupied - Elems(Recorded(g, item))
      && r.width == g.width && r.height == g.height
      && CountersAgree(r)
  {
    ClearItemCellsEffect(g, item);
  }

  /** RemoveItem forgets the item's record and takes it off the list; nothing else is forgotten. */
  lemma RemoveItemRecords<Item>(g: Grid<Item>, item: Item)
    ensures var r := RemoveItem(g, item);
      && r.records == g.records - {item}
      && r.items == (if item in g.items then RemoveFirst(g.items, item) else g.items)
  {
    if item in g.records {
      FreeCellsEffect(g, g.records[item]);
    }
  }

  /** Taking a listed item off the list and forgetting its record keeps the two in step. */
  lemma ListedAfterForget<Item>(g: Grid<Item>, r: Grid<Item>, item: Item)
    requires Listed(g)
    requires r.records == g.records - {item}
    requires r.items == (if item in g.items then RemoveFirst(g.items, item) else g.items)
    ensures Listed(r) && item !in r.items
  {
    if item in g.items {
      assert multiset(r.items) == multiset(g.items) - multiset{item};
      forall x | x in r.items ensures multiset(r.items)[x] == 1 {
        assert x != item;
      }
      assert r.records.Keys == (set x | x in r.items);
    } else {
      assert g.records - {item} == g.records;
    }
  }

  /** Freeing the item's cells together with its record leaves no occupied cell unclaimed. */
  lemma NoOrphanAfterForget<Item>(g: Grid<Item>, r: Grid<Item>, item: Item)
    requires NoOrphan(g)
    requires r.records == g.records - {item}
    requires r.occupied == g.occupied - Elems(Recorded(g, item))
    ensures NoOrphan(r)
  {
    forall c | c in r.occupied ensures ClaimedBySome(r.records, c) {
      var owner :| owner in g.records && c in g.records[owner];
      assert owner != item;
      assert owner in r.records && c in r.records[owner];
    }
  }

  /** RemoveItem frees the item's recorded cells, forgets its record and unlists it, keeping
      the invariant. */
  lemma RemoveItemEffect<Item>(g: Grid<Item>, item: Item)
    requires WellFormed(g)
    ensures var r := RemoveItem(g, item);
      && WellFormed(r)
      && r.occupied == g.occupied - Elems(Recorded(g, item))
      && r.records == g.records - {item}
      && item !in r.items
      && r.width == g.width && r.height == g.height
  {
    var r := RemoveItem(g, item);
    RemoveItemOccupied(g, item);
    RemoveItemRecords(g, item);
    ListedAfterForget(g, r, item);
    NoOrphanAfterForget(g, r, item);
  }

  /** Removing an item that is not tracked changes nothing. */
  lemma RemoveUntrackedItem<Item>(g: Grid<Item>, item: Item)
    requires WellFormed(g) && item !in g.records
    ensures RemoveItem(g, item) == g
  {
    assert item !in g.items;
    assert g.records - {item} == g.records;
  }

  /** StartMovingItem frees the item's recorded cells and keeps it tracked with an empty record,
      still listed; for an untracked item it changes nothing. The invariant is kept. */
  lemma StartMovingItemEffect<Item>(g: Grid<Item>, item: Item)
    requires WellFormed(g)
    ensures var r := StartMovingItem(g, item);
      && WellFormed(r)
      && r.width == g.width && r.height == g.height && r.total == g.total
      && (item in g.records ==>
            && r.occupied == g.occupied - Elems(g.records[item])
            && r.records == g.records[item := []]
            && r.items == g.items)
      && (item !in g.records ==> r == g)
  {
    if item in g.records {
      ClearItemCellsEffect(g, item);
      var r := StartMovingItem(g, item);
      forall c | c in r.occupied ensures ClaimedBySome(r.records, c) {
        var owner :| owner in g.records && c in g.records[owner];
        assert owner != item;
        assert owner in r.records && r.records[owner] == g.records[owner];
      }
    }
  }

  // ---------------------------------------------------------------------------
  // Exclusive claims hold only while placements are checked first
  // ---------------------------------------------------------------------------

  /** A placement that CanPlaceItem approved keeps claims disjoint and occupied. */
  lemma PlaceItemKeepsSound<Item>(g: Grid<Item>, item: Item, cells: seq<Cell>)
    requires WellFormed(g) && Sound(g) && CanPlace(g, cells)
    ensures Sound(PlaceItem(g, item, cells))
  {
    PlaceItemEffect(g, item, cells);
    var r := PlaceItem(g, item, cells);
    assert InBoundsOnly(g.width, g.height, cells) == cells;
    assert r.records[item] == cells;
    forall a, b, c | a in r.records && b in r.records && a != b && c in r.records[a]
      ensures c !in r.records[b]
    {
      if a == item {
        assert c !in g.occupied;
        assert r.records[b] == g.records[b];
      } else if b == item {
        assert c in g.records[a] && c in g.occupied;
      } else {
        assert r.records[a] == g.records[a] && r.records[b] == g.records[b];
      }
    }
    forall x, c | x in r.records && c in r.records[x] ensures c in r.occupied {
      if x != item {
        assert c in g.records[x] && c in g.occupied;
        assert c !in Elems(Recorded(g, item));
      }
    }
  }

  lemma RemoveItemKeepsSound<Item>(g: Grid<Item>, item: Item)
    requires WellFormed(g) && Sound(g)
    ensures Sound(RemoveItem(g, item))
  {
    RemoveItemEffect(g, item);
    var r := RemoveItem(g, item);
    forall x, c | x in r.records && c in r.records[x] ensures c in r.occupied {
      assert c in g.records[x] && c in g.occupied;
      assert c !in Elems(Recorded(g, item));
    }
  }

  lemma StartMovingItemKeepsSound<Item>(g: Grid<Item>, item: Item)
    requires WellFormed(g) && Sound(g)
    ensures Sound(StartMovingItem(g, item))
  {
    StartMovingItemEffect(g, item);
    var r := StartMovingItem(g, item);
    forall x, c | x in r.records && c in r.records[x] ensures c in r.occupied {
      if x != item {
        assert c in g.records[x] && c in g.occupied;
        assert c !in Elems(Recorded(g, item));
      }
    }
  }

  /** In a sound state a cell is occupied exactly when some item has recorded it. */
  lemma SoundFlagsMatchClaims<Item>(g: Grid<Item>, c: Cell)
    requires WellFormed(g) && Sound(g)
    ensures c in g.occupied <==> ClaimedBySome(g.records, c)
  {
    if ClaimedBySome(g.records, c) {
      var owner :| owner in g.records && c in g.records[owner];
    }
  }

  /** The quirk: occupancy is one flag per cell, so when an unchecked placement lets item `b`
      record a cell that item `a` already holds, removing `a` frees that cell while `b` still
      claims it. The state stays well-formed but is no longer sound. */
  lemma SharedCellFreedByOtherRemoval<Item>(
    g: Grid<Item>, a: Item, cellsA: seq<Cell>, b: Item, cellsB: seq<Cell>, c: Cell)
    requires WellFormed(g) && a != b
    requires c in cellsA && c in cellsB && InBounds(g.width, g.height, c)
    ensures var g1 := PlaceItem(g, a, cellsA);
      var g3 := RemoveItem(PlaceItem(g1, b, cellsB), a);
      && !CanPlace(g1, cellsB)
      && b in g3.records && c in g3.records[b]
      && c !in g3.occupied
      && WellFormed(g3) && !Sound(g3)
  {
    var g1 := PlaceItem(g, a, cellsA);
    assert WellFormed(g1) && c in g1.occupied && a in g1.records && c in g1.records[a] by {
      PlaceItemEffect(g, a, cellsA);
      PlaceItemKeepsWellFormed(g, a, cellsA);
    }
    var g2 := PlaceItem(g1, b, cellsB);
    assert WellFormed(g2) && b in g2.records && c in g2.records[b] && Recorded(g2, a) == g1.records[a] by {
      PlaceItemEffect(g1, b, cellsB);
      PlaceItemKeepsWellFormed(g1, b, cellsB);
    }
    var g3 := RemoveItem(g2, a);
    RemoveItemEffect(g2, a);
    assert b in g3.records && c in g3.records[b];
    assert c in Elems(Recorded(g2, a));
    var i :| 0 <= i < |cellsB| && cellsB[i] == c;
  }

  // ---------------------------------------------------------------------------
  // Moving an item
  // ---------------------------------------------------------------------------

  /** Two states with the same flags, claims and list, both with counters that agree, are the
      same state. */
  lemma SameState<Item>(a: Grid<Item>, b: Grid<Item>)
    requires CountersAgree(a) && CountersAgree(b)
    requires a.width == b.width && a.height == b.height && a.occupied == b.occupied
    requires a.records == b.records && a.items == b.items
    ensures a == b
  {
  }

  /** Placing an item exactly where it already stands changes nothing. */
  lemma PlaceItemWhereItStands<Item>(p: Grid<Item>, item: Item, cells: seq<Cell>)
    requires WellFormed(p)
    requires item in p.records && p.records[item] == InBoundsOnly(p.width, p.height, cells)
    requires Elems(p.records[item]) <= p.occupied && item in p.items
    ensures PlaceItem(p, item, cells) == p
  {
    PlaceItemEffect(p, item, cells);
    ReclaimedAsBefore(p, PlaceItem(p, item, cells), item, InBoundsOnly(p.width, p.height, cells));
  }

  /** A state that re-records and re-occupies exactly what `item` already held, with the same
      list, is the state it started from. */
  lemma ReclaimedAsBefore<Item>(p: Grid<Item>, r: Grid<Item>, item: Item, rec: seq<Cell>)
    requires CountersAgree(p) && CountersAgree(r)
    requires item in p.records && p.records[item] == rec && Elems(rec) <= p.occupied
    requires r.occupied == (p.occupied - Elems(Recorded(p, item))) + Elems(rec)
    requires r.records == p.records[item := rec] && r.items == p.items
    requires r.width == p.width && r.height == p.height
    ensures r == p
  {
    assert r.occupied == p.occupied;
    assert r.records == p.records;
    SameState(r, p);
  }

  /** Placing the same item on the same cells twice is the same as placing it once: PlaceItem
      never leaves stale claims behind. */
  lemma PlaceItemIdempotent<Item>(g: Grid<Item>, item: Item, cells: seq<Cell>)
    requires WellFormed(g)
    ensures PlaceItem(PlaceItem(g, item, cells), item, cells) == PlaceItem(g, item, cells)
  {
    var p1 := PlaceItem(g, item, cells);
    PlaceItemEffect(g, item, cells);
    PlaceItemKeepsWellFormed(g, item, cells);
    PlaceItemWhereItStands(p1, item, cells);
  }

  /** PlaceItem does not depend on where the item stood before: two states that differ only in
      the item's own claims lead to the same state. */
  lemma PlaceItemForgetsOldClaims<Item>(a: Grid<Item>, b: Grid<Item>, item: Item, cells: seq<Cell>)
    requires WellFormed(a) && WellFormed(b)
    requires a.width == b.width && a.height == b.height && a.items == b.items
    requires a.records - {item} == b.records - {item}
    requires a.occupied - Elems(Recorded(a, item)) == b.occupied - Elems(Recorded(b, item))
    ensures PlaceItem(a, item, cells) == PlaceItem(b, item, cells)
  {
    var ra, rb := PlaceItem(a, item, cells), PlaceItem(b, item, cells);
    PlaceItemEffect(a, item, cells);
    PlaceItemEffect(b, item, cells);
    SameUpdate(a.records, b.records, item, InBoundsOnly(a.width, a.height, cells));
    SameState(ra, rb);
  }

  lemma SameUpdate<K, V>(ma: map<K, V>, mb: map<K, V>, k: K, v: V)
    requires ma - {k} == mb - {k}
    ensures ma[k := v] == mb[k := v]
  {
    var ua, ub := ma[k := v], mb[k := v];
    forall x | x in ua ensures x in ub && ua[x] == ub[x] {
      if x != k {
        assert x in ma - {k};
      }
    }
    forall x | x in ub ensures x in ua {
      if x != k {
        assert x in mb - {k};
      }
    }
  }

  /** Picking an item up (drag start) and then dropping it is the same as placing it directly. */
  lemma PickUpThenPlace<Item>(g: Grid<Item>, item: Item, cells: seq<Cell>)
    requires WellFormed(g)
    ensures PlaceItem(StartMovingItem(g, item), item, cells) == PlaceItem(g, item, cells)
  {
    if item in g.records {
      var s := StartMovingItem(g, item);
      StartMovingItemEffect(g, item);
      assert s.records - {item} == g.records - {item};
      PlaceItemForgetsOldClaims(s, g, item, cells);
    }
  }

  /** Once picked up, an item's old cells are free, so putting it back where it was is legal. */
  lemma PickUpFreesOwnCells<Item>(g: Grid<Item>, item: Item)
    requires WellFormed(g) && item in g.records
    ensures CanPlace(StartMovingItem(g, item), g.records[item])
  {
    StartMovingItemEffect(g, item);
    var rec := g.records[item];
    forall i | 0 <= i < |rec| ensures InBounds(g.width, g.height, rec[i]) && rec[i] in Elems(rec) {
      assert rec[i] in g.records[item];
    }
  }
}
