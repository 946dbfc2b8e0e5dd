/** The state kept by GridInventorySystem (Assets/Code/Scripts/GridManager.cs) as a value,
    and each of its operations as a function from state to state.

    - `occupied` is the set of cells whose `gridSpaces` flag is true;
    - `total`, `freeCount`, `occupiedCount` are `totalCells`, `freeCellsCount`,
      `occupiedCellsCount`;
    - `records` is `itemOccupiedCells`, the cells each item has claimed;
    - `items` is the list `itemsInGrid`.

    Cells are integer coordinates; the conversion from world positions is not modelled. */
module GridSpec {

  /** A grid cell (x, y). It may lie outside the grid: the operations check bounds themselves. */
  type Cell = (int, int)

  datatype Grid<Item(==)> = Grid(
    width: nat,
    height: nat,
    occupied: set<Cell>,
    total: int,
    freeCount: int,
    occupiedCount: int,
    records: map<Item, seq<Cell>>,
    items: seq<Item>)

  predicate InBounds(width: int, height: int, c: Cell) {
    0 <= c.0 < width && 0 <= c.1 < height
  }

  function Elems(cells: seq<Cell>): set<Cell> {
    set c | c in cells
  }

  /** Every cell of a `width` x `height` grid. */
  function AllCells(width: nat, height: nat): set<Cell> {
    set x, y | 0 <= x < width && 0 <= y < height :: (x, y)
  }

  /** The cells of `cells` that lie on the grid, in their order: what PlaceItem records. */
  function InBoundsOnly(width: int, height: int, cells: seq<Cell>): (r: seq<Cell>)
    ensures forall c :: c in r <==> c in cells && InBounds(width, height, c)
    ensures (forall i :: 0 <= i < |cells| ==> InBounds(width, height, cells[i])) ==> r == cells
    decreases |cells|
  {
    if cells == [] then []
    else
      var init, last := cells[..|cells| - 1], cells[|cells| - 1];
      assert cells == init + [last];
      InBoundsOnly(width, height, init) + (if InBounds(width, height, last) then [last] else [])
  }

  /** The list with its first occurrence of `x` removed (List.Remove). */
  function RemoveFirst<T(==)>(s: seq<T>, x: T): (r: seq<T>)
    ensures multiset(r) == multiset(s) - multiset{x}
  {
    if s == [] then []
    else
      assert s == [s[0]] + s[1..];
      if s[0] == x then s[1..] else [s[0]] + RemoveFirst(s[1..], x)
  }

  /** The cells `item` has recorded; none when it is not tracked. */
  function Recorded<Item(==)>(g: Grid<Item>, item: Item): seq<Cell> {
    if item in g.records then g.records[item] else []
  }

  /** Some item has recorded cell `c`. */
  ghost predicate ClaimedBySome<Item>(records: map<Item, seq<Cell>>, c: Cell) {
    exists item :: item in records && c in records[item]
  }

  /** The counters agree with the occupancy flags and with each other. */
  ghost predicate CountersAgree<Item>(g: Grid<Item>) {
    && g.total == g.width * g.height
    && g.occupiedCount == |g.occupied|
    && g.freeCount + g.occupiedCount == g.total
  }

  /** Every occupancy flag and every recorded cell lies on the grid. */
  ghost predicate OnGrid<Item>(g: Grid<Item>) {
    && (forall c :: c in g.occupied ==> InBounds(g.width, g.height, c))
    && (forall item, c :: item in g.records && c in g.records[item] ==> InBounds(g.width, g.height, c))
  }

  /** The item list holds exactly the recorded items, each once. */
  ghost predicate Listed<Item>(g: Grid<Item>) {
    && g.records.Keys == (set item | item in g.items)
    && (forall item :: item in g.items ==> multiset(g.items)[item] == 1)
  }

  /** No occupied cell is without an item that recorded it. */
  ghost predicate NoOrphan<Item>(g: Grid<Item>) {
    forall c :: c in g.occupied ==> ClaimedBySome(g.records, c)
  }

  /** What every reachable state satisfies, whatever the callers do. */
  ghost predicate WellFormed<Item>(g: Grid<Item>) {
    CountersAgree(g) && OnGrid(g) && Listed(g) && NoOrphan(g)
  }

  /** No cell is recorded by two different items. */
  ghost predicate Exclusive<Item>(records: map<Item, seq<Cell>>) {
    forall a, b, c :: a in records && b in records && a != b && c in records[a] ==> c !in records[b]
  }

  /** Claims and flags agree exactly: records are pairwise disjoint and every recorded cell is
      occupied. This holds only while every placement was checked with CanPlace first. */
  ghost predicate Sound<Item>(g: Grid<Item>) {
    && Exclusive(g.records)
    && (forall item, c :: item in g.records && c in g.records[item] ==> c in g.occupied)
  }

  /** The state right after Start: every cell free, nothing tracked. */
  function Empty<Item(==)>(width: nat, height: nat): Grid<Item> {
    Grid(width, height, {}, width * height, width * height, 0, map[], [])
  }

  /** CanPlaceItem: every cell lies on the grid and is free. */
  predicate CanPlace<Item(==)>(g: Grid<Item>, cells: seq<Cell>) {
    forall i :: 0 <= i < |cells| ==> InBounds(g.width, g.height, cells[i]) && cells[i] !in g.occupied
  }

  /** One step of ClearItemCells: an on-grid cell becomes free; the counters move only when it
      was occupied. */
  function FreeCell<Item(==)>(g: Grid<Item>, c: Cell): Grid<Item> {
    if InBounds(g.width, g.height, c) && c in g.occupied then
      g.(occupied := g.occupied - {c}, freeCount := g.freeCount + 1, occupiedCount := g.occupiedCount - 1)
    else
      g
  }

  function FreeCells<Item(==)>(g: Grid<Item>, cells: seq<Cell>): (r: Grid<Item>)
    ensures r.width == g.width && r.height == g.height && r.total == g.total
    ensures r.records == g.records && r.items == g.items
    decreases |cells|
  {
    if cells == [] then g else FreeCell(FreeCells(g, cells[..|cells| - 1]), cells[|cells| - 1])
  }

  /** ClearItemCells: frees every cell the item recorded, leaving its record in place. */
  function ClearItemCells<Item(==)>(g: Grid<Item>, item: Item): Grid<Item> {
    if item in g.records then FreeCells(g, g.records[item]) else g
  }

  /** One step of PlaceItem's loop: an on-grid cell becomes occupied and is appended to the
      item's record; the counters move only when it was free. Off-grid cells are skipped. */
  function OccupyCell<Item(==)>(g: Grid<Item>, item: Item, c: Cell): Grid<Item>
    requires item in g.records
  {
    if !InBounds(g.width, g.height, c) then g
    else
      g.(occupied := g.occupied + {c},
         freeCount := if c in g.occupied then g.freeCount else g.freeCount - 1,
         occupiedCount := if c in g.occupied then g.occupiedCount else g.occupiedCount + 1,
         records := g.records[item := g.records[item] + [c]])
  }

  function OccupyCells<Item(==)>(g: Grid<Item>, item: Item, cells: seq<Cell>): (r: Grid<Item>)
    requires item in g.records
    ensures r.records.Keys == g.records.Keys
    ensures r.width == g.width && r.height == g.height && r.total == g.total && r.items == g.items
    decreases |cells|
  {
    if cells == [] then g else OccupyCell(OccupyCells(g, item, cells[..|cells| - 1]), item, cells[|cells| - 1])
  }

  /** Releasing an item's claims: its recorded cells are freed and its record becomes empty.
      PlaceItem starts this way, and StartMovingItem does only this. */
  function Cleared<Item(==)>(g: Grid<Item>, item: Item): Grid<Item> {
    ClearItemCells(g, item).(records := g.records[item := []])
  }

  /** PlaceItem: free what the item recorded before and reset its record, then occupy and
      record each on-grid cell, then list the item if it is not listed yet. */
  function PlaceItem<Item(==)>(g: Grid<Item>, item: Item, cells: seq<Cell>): Grid<Item> {
    var placed := OccupyCells(Cleared(g, item), item, cells);
    if item in placed.items then placed else placed.(items := placed.items + [item])
  }

  /** RemoveItem: free what the item recorded, forget its record, unlist it. */
  function RemoveItem<Item(==)>(g: Grid<Item>, item: Item): Grid<Item> {
    var cleared := ClearItemCells(g, item);
    cleared.(records := cleared.records - {item},
             items := if item in cleared.items then RemoveFirst(cleared.items, item) else cleared.items)
  }

  /** StartMovingItem: a tracked item frees its cells and keeps an empty record. */
  function StartMovingItem<Item(==)>(g: Grid<Item>, item: Item): Grid<Item> {
    if item in g.records then Cleared(g, item) else g
  }

  /** ClearGrid: every cell free, nothing tracked, counters reset from `total`. */
  function ClearGrid<Item(==)>(g: Grid<Item>): Grid<Item> {
    g.(occupied := {}, freeCount := g.total, occupiedCount := 0, records := map[], items := [])
  }
}
