/** Properties of the grid as the source writes it: when loading fits the
    storage, what a reload keeps, the load-then-select round trip, when a
    lookup succeeds, and what removal leaves behind. */
module GridProperties {
  import opened Outcomes
  import opened Decimal
  import opened SelectionKey
  import opened AlphanumericGrid

  /** Every loop row `r < rowLength` has at least `columnLength` stored cells,
      so no access made by the load or removal loops can fault. */
  predicate CoversLoops(g: Grid) {
    forall r :: 0 <= r < g.rowLength ==> g.columnLength <= Stored(g.cells, r)
  }

  /** The storage as the constructor allocates it for a square table. */
  predicate SquareAsAllocated(g: Grid) {
    g.columnLength == g.rowLength && Allocated(g.cells, g.columnLength, g.rowLength)
  }

  lemma SquareCoversLoops(g: Grid)
    requires SquareAsAllocated(g)
    ensures CoversLoops(g)
  {
  }

  lemma CoversLoopsInStorage(g: Grid, r: nat, c: nat)
    ensures CoversLoops(g) && r < g.rowLength && c < g.columnLength ==> InStorage(g.cells, r, c)
  {
    if CoversLoops(g) && r < g.rowLength && c < g.columnLength {
      assert g.columnLength <= Stored(g.cells, r);
    }
  }

  /** Two storages of the same shape that agree on every cell are equal. */
  lemma CellsExtensional(a: seq<seq<Cell>>, b: seq<seq<Cell>>)
    requires SameShape(a, b)
    requires forall i, j :: InStorage(a, i, j) ==> a[i][j] == b[i][j]
    ensures a == b
  {
    forall i | 0 <= i < |a|
      ensures a[i] == b[i]
    {
      assert forall j :: 0 <= j < |a[i]| ==> InStorage(a, i, j);
    }
  }

  // ---------------------------------------------------------------------------
  // Load
  // ---------------------------------------------------------------------------

  /** Loading raises exactly when some cell the loops would write lies outside
      the storage. */
  lemma LoadSucceedsIff(g: Grid, items: seq<string>)
    ensures LoadDisplayableItems(g, items).Normal?
            <==> forall r: nat, c: nat :: Due(g, |items|, r, c) ==> InStorage(g.cells, r, c)
  {
    var n := |items|;
    if LoadReachesFrom(g, n, 0, g.rowLength) {
      forall r: nat, c: nat | Due(g, n, r, c)
        ensures InStorage(g.cells, r, c)
      {
        assert !LoadFaultsInRow(g, n, r);
      }
    } else {
      var k: nat :| k < g.rowLength && LoadFaultsInRow(g, n, k);
      assert Due(g, n, k, Stored(g.cells, k)) && !InStorage(g.cells, k, Stored(g.cells, k));
    }
  }

  /** The fill formula on a table whose storage covers the loops: cell (r, c)
      holds item `r * columnLength + c` when there is one and keeps its old
      value otherwise; items beyond the table are dropped without error. */
  lemma LoadFillsRowMajor(g: Grid, items: seq<string>)
    requires CoversLoops(g)
    ensures LoadDisplayableItems(g, items).Normal?
    ensures forall r, c :: InStorage(g.cells, r, c) ==>
              LoadDisplayableItems(g, items).state.cells[r][c]
                == if Due(g, |items|, r, c) then Some(items[ItemIndex(g, r, c)]) else g.cells[r][c]
  {
    forall r | 0 <= r
      ensures LoadReachesFrom(g, |items|, 0, r)
    {
    }
  }

  /** Loading the same items twice leaves the table as loading them once, on
      every storage, faulting or not. */
  lemma LoadIdempotent(g: Grid, items: seq<string>)
    ensures LoadDisplayableItems(LoadDisplayableItems(g, items).state, items) == LoadDisplayableItems(g, items)
  {
    var o1 := LoadDisplayableItems(g, items);
    var o2 := LoadDisplayableItems(o1.state, items);
    LoadFaultsDependOnFrame(g, o1.state, |items|);
    assert forall r :: LoadReachesFrom(g, |items|, 0, r) == LoadReachesFrom(o1.state, |items|, 0, r);
    CellsExtensional(o2.state.cells, o1.state.cells);
  }

  /** A reload overwrites only the cells its own items reach: a cell the second
      list is too short for keeps what the first load put there. */
  lemma ReloadKeepsUntouched(g: Grid, first: seq<string>, second: seq<string>)
    requires CoversLoops(g)
    ensures var once := LoadDisplayableItems(g, first).state;
            var twice := LoadDisplayableItems(once, second);
            twice.Normal? &&
            forall r, c :: InStorage(g.cells, r, c) ==>
              twice.state.cells[r][c]
                == if Due(g, |second|, r, c) then Some(second[ItemIndex(g, r, c)])
                   else if Due(g, |first|, r, c) then Some(first[ItemIndex(g, r, c)])
                   else g.cells[r][c]
  {
    var once := LoadDisplayableItems(g, first).state;
    LoadFillsRowMajor(g, first);
    assert forall r :: Stored(once.cells, r) == Stored(g.cells, r);
    LoadFillsRowMajor(once, second);
  }

  // ---------------------------------------------------------------------------
  // Lookup
  // ---------------------------------------------------------------------------

  /** On a square table, a valid key selects exactly when its row and column
      are both below the side length; the `>` guards let an index equal to the
      length through, and the checked read rejects it. Every failure is the
      format error or an index-out-of-bounds error. */
  lemma SelectInSquareGrid(g: Grid, key: string)
    requires SquareAsAllocated(g)
    ensures var o := EnterSelectionKey(g, key);
            (o.Thrown? ==> o.error == InvalidFormat || IsIndexOutOfBounds(o.error))
            && (IsValidKey(key) ==>
                  var p := DecodeKey(key).value;
                  o.Normal? <==> p.row < g.rowLength && p.col < g.columnLength)
  {
  }

  /** On storage as allocated, `new String[columnLength][rowLength]`, a valid
      key selects exactly when its row is below `columnLength` and its column
      below `rowLength` (the storage's own dimensions) and both pass the guards. */
  lemma SelectReadsTransposedStorage(g: Grid, key: string)
    requires Allocated(g.cells, g.columnLength, g.rowLength)
    requires IsValidKey(key)
    ensures var p := DecodeKey(key).value;
            EnterSelectionKey(g, key).Normal?
            <==> p.row < g.columnLength && p.col < g.rowLength
                 && p.col <= g.columnLength && p.row <= g.rowLength
  {
  }

  /** Load then select: in a square table, the key naming row `r` and
      column `c` selects item `r * side + c`, whenever that item exists, the
      row has a letter and the column number `c + 1` has no zero digit. */
  lemma LoadThenSelect(g: Grid, items: seq<string>, p: Position)
    requires SquareAsAllocated(g)
    requires p.row < g.rowLength && p.col < g.columnLength
    requires ItemIndex(g, p.row, p.col) < |items|
    requires p.row < 26 && ZeroFree(p.col + 1)
    ensures var loaded := LoadDisplayableItems(g, items).state;
            EnterSelectionKey(loaded, EncodeKey(p))
              == Normal(loaded.(selectedItem := Some(items[ItemIndex(g, p.row, p.col)])))
  {
    var loaded := LoadDisplayableItems(g, items).state;
    LoadFillsRowMajor(g, items);
    assert InStorage(g.cells, p.row, p.col) && Due(g, |items|, p.row, p.col);
    DecodeEncode(p);
    SelectDecodedPosition(loaded, EncodeKey(p), p);
  }

  /** A key that decodes to a stored position within the guards selects that cell. */
  lemma SelectDecodedPosition(g: Grid, key: string, p: Position)
    requires DecodeKey(key) == Ok(p)
    requires p.col <= g.columnLength && p.row <= g.rowLength && InStorage(g.cells, p.row, p.col)
    ensures EnterSelectionKey(g, key) == Normal(g.(selectedItem := g.cells[p.row][p.col]))
  {
  }

  /** The one existing test expects key `a2` to select "Classic Coke" after
      loading three items into a 10 x 10 table. By the code, "Classic Coke"
      goes to row 0, column 0, named by `a1`, and `a2` selects the second item. */
  lemma GridTestExpectationDisagrees()
    ensures var g := Create(10, 10).value;
            var loaded := LoadDisplayableItems(g, ["Classic Coke", "Diary Chocolate", "Lays Original"]).state;
            EnterSelectionKey(loaded, "a2").state.selectedItem == Some("Diary Chocolate")
            && EnterSelectionKey(loaded, "a1").state.selectedItem == Some("Classic Coke")
  {
    var g := Create(10, 10).value;
    var items := ["Classic Coke", "Diary Chocolate", "Lays Original"];
    assert ZeroFree(1) && ZeroFree(2);
    assert EncodeKey(Position(0, 1)) == "a2" && EncodeKey(Position(0, 0)) == "a1";
    LoadThenSelect(g, items, Position(0, 1));
    LoadThenSelect(g, items, Position(0, 0));
  }

  // ---------------------------------------------------------------------------
  // Removal
  // ---------------------------------------------------------------------------

  /** On a table whose storage covers the loops, removal always ends in the
      not-found error, and its effect is that in every row the first cell
      holding the name is cleared and every other cell is unchanged. */
  lemma RemoveClearsFirstInEachRow(g: Grid, name: string)
    requires CoversLoops(g)
    ensures var o := RemoveItemByName(g, name);
            o.Thrown? && o.error == NotFound
            && forall r, c :: InStorage(g.cells, r, c) ==>
                 o.state.cells[r][c] == if r < g.rowLength && c < g.columnLength && FirstInRow(g.cells, r, c, name)
                                        then None else g.cells[r][c]
  {
    forall r | 0 <= r
      ensures RemoveReachesFrom(g, name, 0, r)
    {
    }
  }

  /** The name occurs at most once within the loop bounds. */
  predicate AtMostOnce(g: Grid, name: string) {
    forall r1, c1, r2, c2 ::
      0 <= r1 < g.rowLength && 0 <= c1 < g.columnLength && 0 <= r2 < g.rowLength && 0 <= c2 < g.columnLength
      && InStorage(g.cells, r1, c1) && InStorage(g.cells, r2, c2)
      && g.cells[r1][c1] == Some(name) && g.cells[r2][c2] == Some(name)
      ==> r1 == r2 && c1 == c2
  }

  /** Removing an item held once in a square table and then selecting its key
      finds the slot empty. */
  lemma RemoveThenSelectFindsEmpty(g: Grid, name: string, p: Position)
    requires SquareAsAllocated(g) && AtMostOnce(g, name)
    requires p.row < g.rowLength && p.col < g.columnLength && g.cells[p.row][p.col] == Some(name)
    requires p.row < 26 && ZeroFree(p.col + 1)
    ensures var removed := RemoveItemByName(g, name).state;
            EnterSelectionKey(removed, EncodeKey(p)) == Normal(removed.(selectedItem := None))
  {
    RemoveClearsFirstInEachRow(g, name);
    DecodeEncode(p);
    assert FirstInRow(g.cells, p.row, p.col, name);
  }
}
