/** The slot-addressing table of the vending machine: a fixed two-dimensional
    table of item names, loaded in row-major order, addressed by selection
    keys, and searched by name for removal.

    The table is modelled as it is allocated: the constructor takes
    `(columnLength, rowLength)` and allocates `columnLength` outer arrays of
    `rowLength` cells each, while every access indexes `cells[row][col]`.
    Every array access is therefore a checked access that raises
    `ArrayIndexOutOfBounds` when it falls outside the storage, and no
    operation needs a precondition. */
module AlphanumericGrid {
  import opened Outcomes
  import opened SelectionKey

  /** One slot: an item name, or null. */
  type Cell = Option<string>

  /** The object's fields. `columnLength` and `rowLength` bound the loops of
      load and removal; `cells` is the storage as allocated. */
  datatype Grid = Grid(columnLength: nat, rowLength: nat, cells: seq<seq<Cell>>, selectedItem: Cell)

  // ---------------------------------------------------------------------------
  // Storage
  // ---------------------------------------------------------------------------

  /** `cells[i][j]` exists. */
  predicate InStorage(cells: seq<seq<Cell>>, i: int, j: int) {
    0 <= i < |cells| && 0 <= j < |cells[i]|
  }

  /** How many cells of `cells[r]` exist (none when the outer index is out of
      range, so an access `cells[r][0]` already faults). Storage rows are
      prefixes: `cells[r][j]` exists iff `j < Stored(cells, r)`. */
  function Stored(cells: seq<seq<Cell>>, r: nat): nat {
    if r < |cells| then |cells[r]| else 0
  }

  /** Storage of `outer` arrays of `inner` cells each, as `new String[outer][inner]`. */
  predicate Allocated(cells: seq<seq<Cell>>, outer: nat, inner: nat) {
    |cells| == outer && forall i :: 0 <= i < |cells| ==> |cells[i]| == inner
  }

  /** Two storages with the same outer length and the same row lengths. */
  predicate SameShape(a: seq<seq<Cell>>, b: seq<seq<Cell>>) {
    |a| == |b| && forall i :: 0 <= i < |a| ==> |a[i]| == |b[i]|
  }

  function Store(cells: seq<seq<Cell>>, i: nat, j: nat, v: Cell): (r: seq<seq<Cell>>)
    requires InStorage(cells, i, j)
    ensures SameShape(r, cells)
    ensures forall a, b :: InStorage(cells, a, b) ==> r[a][b] == if a == i && b == j then v else cells[a][b]
  {
    cells[i := cells[i][j := v]]
  }

  /** `g` and `h` differ at most in the cells: same loop bounds, same selected
      item, same storage shape. */
  predicate SameFrame(g: Grid, h: Grid) {
    h.columnLength == g.columnLength && h.rowLength == g.rowLength
    && h.selectedItem == g.selectedItem && SameShape(h.cells, g.cells)
  }

  // ---------------------------------------------------------------------------
  // Construction
  // ---------------------------------------------------------------------------

  /** The constructor: `new String[columnLength][rowLength]`, every cell null,
      nothing selected. A negative dimension raises; a zero one does not. */
  function Create(columnLength: int, rowLength: int): (r: Result<Grid>)
    ensures r.Err? <==> columnLength < 0 || rowLength < 0
    ensures r.Err? ==> r.error == NegativeArraySize
    ensures r.Ok? ==> r.value.columnLength == columnLength && r.value.rowLength == rowLength
                      && r.value.selectedItem == None
                      && Allocated(r.value.cells, columnLength, rowLength)
                      && forall i, j :: InStorage(r.value.cells, i, j) ==> r.value.cells[i][j] == None
  {
    if columnLength < 0 || rowLength < 0 then Err(NegativeArraySize)
    else Ok(Grid(columnLength, rowLength, seq(columnLength, _ => seq(rowLength, _ => None)), None))
  }

  // ---------------------------------------------------------------------------
  // Load
  // ---------------------------------------------------------------------------

  /** The load loops' item counter at row `r`, column `c`: the inner loop runs
      `columnLength` times per row. */
  function ItemIndex(g: Grid, r: nat, c: nat): nat {
    r * g.columnLength + c
  }

  /** The load loops visit row `r`, column `c` with item index `r * columnLength + c`
      and write there when that index is below the number of items. */
  predicate Due(g: Grid, n: nat, r: nat, c: nat) {
    0 <= r < g.rowLength && 0 <= c < g.columnLength && ItemIndex(g, r, c) < n
  }

  /** Loading `n` items faults in loop row `r`: some column of it is due but
      lies beyond the storage, i.e. the first missing column is still due. */
  predicate LoadFaultsInRow(g: Grid, n: nat, r: nat) {
    r < g.rowLength && Stored(g.cells, r) < g.columnLength
    && ItemIndex(g, r, Stored(g.cells, r)) < n
  }

  /** No loop row in `from..r` faults, so loading gets through them. */
  predicate LoadReachesFrom(g: Grid, n: nat, from: nat, r: nat) {
    forall k :: from <= k < r ==> !LoadFaultsInRow(g, n, k)
  }

  /** The inner loop of `loadDisplayableItems` for row `r`, from column `c` on,
      with the running item counter `idx`, which advances by one per column. */
  function LoadRow(g: Grid, items: seq<string>, r: nat, c: nat, idx: nat): (o: Outcome<Grid>)
    requires r < g.rowLength && c <= g.columnLength
    requires idx == ItemIndex(g, r, c)
    ensures SameFrame(g, o.state)
    ensures o.Thrown? ==> o.error == ArrayIndexOutOfBounds
    ensures o.Thrown? <==> var s := if c < Stored(g.cells, r) then Stored(g.cells, r) else c;
                           s < g.columnLength && ItemIndex(g, r, s) < |items|
    ensures forall i, j :: InStorage(g.cells, i, j) ==>
              o.state.cells[i][j] == if i == r && c <= j && Due(g, |items|, i, j)
                                     then Some(items[ItemIndex(g, i, j)]) else g.cells[i][j]
    decreases g.columnLength - c
  {
    if c == g.columnLength then Normal(g)
    else if idx < |items| then
      if InStorage(g.cells, r, c) then
        var h := g.(cells := Store(g.cells, r, c, Some(items[idx])));
        LoadRowStoreStep(g, h, r);
        LoadRow(h, items, r, c + 1, idx + 1)
      else
        Thrown(ArrayIndexOutOfBounds, g)
    else
      LoadRow(g, items, r, c + 1, idx + 1)
  }

  /** A store into row `r` keeps what the inner loop depends on: the loop
      bounds, the item numbering and the row's stored length. */
  lemma LoadRowStoreStep(g: Grid, h: Grid, r: nat)
    requires SameFrame(g, h)
    ensures Stored(h.cells, r) == Stored(g.cells, r)
    ensures forall i: nat, j: nat :: ItemIndex(h, i, j) == ItemIndex(g, i, j)
  {
  }

  /** After a full row the counter has advanced by `columnLength`, which is
      the index of the next row's first cell. */
  lemma NextRowIndex(g: Grid, r: nat)
    ensures ItemIndex(g, r, 0) + g.columnLength == ItemIndex(g, r + 1, 0)
  {
    assert (r + 1) * g.columnLength == r * g.columnLength + g.columnLength;
  }

  /** The outer loop of `loadDisplayableItems`, from row `r` on, entered with
      the item counter `idx`. */
  function LoadRows(g: Grid, items: seq<string>, r: nat, idx: nat): (o: Outcome<Grid>)
    requires r <= g.rowLength
    requires idx == ItemIndex(g, r, 0)
    ensures SameFrame(g, o.state)
    ensures o.Thrown? ==> o.error == ArrayIndexOutOfBounds
    ensures o.Normal? <==> LoadReachesFrom(g, |items|, r, g.rowLength)
    ensures forall i, j :: InStorage(g.cells, i, j) ==>
              o.state.cells[i][j] == if r <= i && Due(g, |items|, i, j) && LoadReachesFrom(g, |items|, r, i)
                                     then Some(items[ItemIndex(g, i, j)]) else g.cells[i][j]
    decreases g.rowLength - r
  {
    if r == g.rowLength then Normal(g)
    else
      match LoadRow(g, items, r, 0, idx)
      case Thrown(e, s) =>
        assert LoadFaultsInRow(g, |items|, r);
        Thrown(e, s)
      case Normal(s) =>
        NextRowIndex(g, r);
        var o := LoadRows(s, items, r + 1, idx + g.columnLength);
        LoadRowsStep(g, s, o, items, r);
        o
  }

  /** The rows after a row that loaded without fault load as they would have
      from the original grid. */
  lemma LoadRowsStep(g: Grid, s: Grid, o: Outcome<Grid>, items: seq<string>, r: nat)
    requires r < g.rowLength
    requires SameFrame(g, s) && !LoadFaultsInRow(g, |items|, r)
    requires forall i, j :: InStorage(g.cells, i, j) ==>
              s.cells[i][j] == if i == r && Due(g, |items|, i, j) then Some(items[ItemIndex(g, i, j)]) else g.cells[i][j]
    requires SameFrame(s, o.state)
    requires o.Normal? <==> LoadReachesFrom(s, |items|, r + 1, s.rowLength)
    requires forall i, j :: InStorage(s.cells, i, j) ==>
              o.state.cells[i][j] == if r + 1 <= i && Due(s, |items|, i, j) && LoadReachesFrom(s, |items|, r + 1, i)
                                     then Some(items[ItemIndex(s, i, j)]) else s.cells[i][j]
    ensures o.Normal? <==> LoadReachesFrom(g, |items|, r, g.rowLength)
    ensures forall i, j :: InStorage(g.cells, i, j) ==>
              o.state.cells[i][j] == if r <= i && Due(g, |items|, i, j) && LoadReachesFrom(g, |items|, r, i)
                                     then Some(items[ItemIndex(g, i, j)]) else g.cells[i][j]
  {
    var n := |items|;
    LoadReachesStep(g, s, n, r);
    forall i, j | InStorage(g.cells, i, j)
      ensures o.state.cells[i][j] == if r <= i && Due(g, n, i, j) && LoadReachesFrom(g, n, r, i)
                                     then Some(items[ItemIndex(g, i, j)]) else g.cells[i][j]
    {
      assert InStorage(s.cells, i, j);
      LoadRowsStepCell(g, s, o.state.cells[i][j], items, r, i, j);
    }
  }

  /** One cell of `LoadRowsStep`. */
  lemma LoadRowsStepCell(g: Grid, s: Grid, v: Cell, items: seq<string>, r: nat, i: nat, j: nat)
    requires SameFrame(g, s) && InStorage(g.cells, i, j)
    requires s.cells[i][j] == if i == r && Due(g, |items|, i, j) then Some(items[ItemIndex(g, i, j)]) else g.cells[i][j]
    requires v == if r + 1 <= i && Due(s, |items|, i, j) && LoadReachesFrom(s, |items|, r + 1, i)
                  then Some(items[ItemIndex(s, i, j)]) else s.cells[i][j]
    requires r < i ==> (LoadReachesFrom(g, |items|, r, i) <==> LoadReachesFrom(s, |items|, r + 1, i))
    ensures v == if r <= i && Due(g, |items|, i, j) && LoadReachesFrom(g, |items|, r, i)
                 then Some(items[ItemIndex(g, i, j)]) else g.cells[i][j]
  {
    if i == r {
      assert LoadReachesFrom(g, |items|, r, i);
    }
  }

  /** Past a row that loads without fault, loading reaches the same rows from
      the grid before and after that row. */
  lemma LoadReachesStep(g: Grid, s: Grid, n: nat, r: nat)
    requires SameFrame(g, s) && !LoadFaultsInRow(g, n, r)
    ensures forall i :: r < i ==> (LoadReachesFrom(g, n, r, i) <==> LoadReachesFrom(s, n, r + 1, i))
  {
    LoadFaultsDependOnFrame(g, s, n);
  }

  /** Whether loading faults in a row depends only on the loop bounds and the
      storage shape, not on the cells' contents. */
  lemma LoadFaultsDependOnFrame(g: Grid, h: Grid, n: nat)
    requires SameFrame(g, h)
    ensures forall k :: LoadFaultsInRow(g, n, k) == LoadFaultsInRow(h, n, k)
  {
  }

  /** `loadDisplayableItems`: fills the table in row-major order, the column
      varying fastest. Cell (r, c) receives item `r * columnLength + c` when
      that item exists; every other cell keeps its previous value, so a reload
      does not clear untouched cells and items beyond the table are dropped.
      The load raises exactly when some due cell lies outside the storage; the
      cells written before the fault keep their new values. */
  function LoadDisplayableItems(g: Grid, items: seq<string>): (o: Outcome<Grid>)
    ensures SameFrame(g, o.state)
    ensures o.Normal? <==> LoadReachesFrom(g, |items|, 0, g.rowLength)
    ensures o.Thrown? ==> o.error == ArrayIndexOutOfBounds
    ensures forall i, j :: InStorage(g.cells, i, j) ==>
              o.state.cells[i][j] == if Due(g, |items|, i, j) && LoadReachesFrom(g, |items|, 0, i)
                                     then Some(items[ItemIndex(g, i, j)]) else g.cells[i][j]
  {
    LoadRows(g, items, 0, 0)
  }

  // ---------------------------------------------------------------------------
  // Lookup
  // ---------------------------------------------------------------------------

  /** A checked array read. */
  function Read(cells: seq<seq<Cell>>, i: nat, j: nat): Result<Cell> {
    if InStorage(cells, i, j) then Ok(cells[i][j]) else Err(ArrayIndexOutOfBounds)
  }

  /** `enterSelectionKey`: validates the key, decodes it, checks the column
      guard and then the row guard (both reject only an index above the
      length), reads the cell and records it as the selected item. Only the
      selected item can change, and only on success: every failure leaves the
      whole object as it was. */
  function EnterSelectionKey(g: Grid, key: string): (o: Outcome<Grid>)
    ensures o.state.(selectedItem := g.selectedItem) == g
    ensures o.Thrown? ==> o.state == g
    ensures o.Thrown? ==> o.error in {InvalidFormat, ColumnOutOfBounds, RowOutOfBounds, ArrayIndexOutOfBounds}
    ensures o.Thrown? && o.error == InvalidFormat <==> !IsValidKey(key)
    ensures IsValidKey(key) ==>
              var p := DecodeKey(key).value;
              && (o.Normal? <==> p.col <= g.columnLength && p.row <= g.rowLength && InStorage(g.cells, p.row, p.col))
              && (o.Thrown? && o.error == ColumnOutOfBounds <==> p.col > g.columnLength)
              && (o.Thrown? && o.error == RowOutOfBounds <==> p.col <= g.columnLength && p.row > g.rowLength)
              && (o.Thrown? && o.error == ArrayIndexOutOfBounds <==>
                    p.col <= g.columnLength && p.row <= g.rowLength && !InStorage(g.cells, p.row, p.col))
              && (o.Normal? ==> InStorage(g.cells, p.row, p.col) && o.state.selectedItem == g.cells[p.row][p.col])
  {
    match DecodeKey(key)
    case Err(e) => Thrown(e, g)
    case Ok(p) =>
      if p.col > g.columnLength then Thrown(ColumnOutOfBounds, g)
      else if p.row > g.rowLength then Thrown(RowOutOfBounds, g)
      else
        match Read(g.cells, p.row, p.col)
        case Err(e) => Thrown(e, g)
        case Ok(v) => Normal(g.(selectedItem := v))
  }

  // ---------------------------------------------------------------------------
  // Removal
  // ---------------------------------------------------------------------------

  /** No cell of row `r` with a column in `lo..hi` that exists holds `name`. */
  predicate NoMatchBetween(cells: seq<seq<Cell>>, r: nat, name: string, lo: nat, hi: nat) {
    forall j :: lo <= j < hi && InStorage(cells, r, j) ==> cells[r][j] != Some(name)
  }

  /** `cells[r][c]` is the first cell of its row holding `name`. */
  predicate FirstInRow(cells: seq<seq<Cell>>, r: nat, c: nat, name: string) {
    InStorage(cells, r, c) && cells[r][c] == Some(name) && NoMatchBetween(cells, r, name, 0, c)
  }

  /** The removal scan faults in loop row `r`: no cell of the row within the
      loop bound holds the name, and the loop runs past the row's storage. */
  predicate RemoveFaultsInRow(g: Grid, name: string, r: nat) {
    r < g.rowLength && Stored(g.cells, r) < g.columnLength
    && NoMatchBetween(g.cells, r, name, 0, g.columnLength)
  }

  /** No loop row in `from..r` faults, so the removal scan gets through them. */
  predicate RemoveReachesFrom(g: Grid, name: string, from: nat, r: nat) {
    forall k :: from <= k < r ==> !RemoveFaultsInRow(g, name, k)
  }

  /** The inner loop of `removeItemByName` for row `r`, from column `c` on: it
      clears the first cell holding the name and leaves the row (`break`). */
  function RemoveRow(g: Grid, name: string, r: nat, c: nat): (o: Outcome<Grid>)
    requires c <= g.columnLength
    ensures SameFrame(g, o.state)
    ensures o.Thrown? ==> o.error == ArrayIndexOutOfBounds
    ensures o.Thrown? <==> (if c < Stored(g.cells, r) then Stored(g.cells, r) else c) < g.columnLength
                           && NoMatchBetween(g.cells, r, name, c, g.columnLength)
    ensures forall i, j :: InStorage(g.cells, i, j) ==>
              o.state.cells[i][j] == if i == r && c <= j < g.columnLength && g.cells[i][j] == Some(name)
                                        && NoMatchBetween(g.cells, i, name, c, j)
                                     then None else g.cells[i][j]
    decreases g.columnLength - c
  {
    if c == g.columnLength then Normal(g)
    else
      match Read(g.cells, r, c)
      case Err(e) => Thrown(e, g)
      case Ok(v) =>
        if v == Some(name) then Normal(g.(cells := Store(g.cells, r, c, None)))
        else RemoveRow(g, name, r, c + 1)
  }

  /** The outer loop of `removeItemByName`, from row `r` on. */
  function RemoveRows(g: Grid, name: string, r: nat): (o: Outcome<Grid>)
    requires r <= g.rowLength
    ensures SameFrame(g, o.state)
    ensures o.Thrown? ==> o.error == ArrayIndexOutOfBounds
    ensures o.Normal? <==> RemoveReachesFrom(g, name, r, g.rowLength)
    ensures forall i, j :: InStorage(g.cells, i, j) ==>
              o.state.cells[i][j] == if r <= i < g.rowLength && j < g.columnLength && FirstInRow(g.cells, i, j, name)
                                        && RemoveReachesFrom(g, name, r, i)
                                     then None else g.cells[i][j]
    decreases g.rowLength - r
  {
    if r == g.rowLength then Normal(g)
    else
      match RemoveRow(g, name, r, 0)
      case Thrown(e, s) =>
        assert RemoveFaultsInRow(g, name, r);
        Thrown(e, s)
      case Normal(s) =>
        RemoveOtherRowsUnchanged(g, s, name, r);
        RemoveRows(s, name, r + 1)
  }

  /** A grid that differs from `g` only in row `r` scans every other row as `g` does. */
  lemma RemoveOtherRowsUnchanged(g: Grid, h: Grid, name: string, r: nat)
    requires SameFrame(g, h)
    requires forall i, j :: InStorage(g.cells, i, j) && i != r ==> h.cells[i][j] == g.cells[i][j]
    ensures forall k :: k != r ==> RemoveFaultsInRow(g, name, k) == RemoveFaultsInRow(h, name, k)
    ensures forall i, j :: i != r ==> FirstInRow(g.cells, i, j, name) == FirstInRow(h.cells, i, j, name)
  {
  }

  /** `removeItemByName`: scans the rows; in each row it clears the first cell
      (within the loop bound) holding the name and moves to the next row. After
      the scan it raises "Item could not be found!" whatever it removed; the
      scan itself raises when it runs past the storage. */
  function RemoveItemByName(g: Grid, name: string): (o: Outcome<Grid>)
    ensures o.Thrown?
    ensures SameFrame(g, o.state)
    ensures o.error == NotFound <==> RemoveReachesFrom(g, name, 0, g.rowLength)
    ensures o.error != NotFound ==> o.error == ArrayIndexOutOfBounds
    ensures forall i, j :: InStorage(g.cells, i, j) ==>
              o.state.cells[i][j] == if i < g.rowLength && j < g.columnLength && FirstInRow(g.cells, i, j, name)
                                        && RemoveReachesFrom(g, name, 0, i)
                                     then None else g.cells[i][j]
  {
    match RemoveRows(g, name, 0)
    case Thrown(e, s) => Thrown(e, s)
    case Normal(s) => Thrown(NotFound, s)
  }
}
