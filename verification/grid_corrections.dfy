/** Corrected counterparts of three defects in the grid, each next to a lemma
    exhibiting the input on which the code as written goes wrong:
    - the storage is allocated transposed, so non-square tables fault;
    - the bounds guards use `>` and let an index equal to the length through;
    - removal does not stop at the first match and always raises afterwards. */
module GridCorrections {
  import opened Outcomes
  import opened Decimal
  import opened SelectionKey
  import opened AlphanumericGrid
  import opened GridProperties

  // ---------------------------------------------------------------------------
  // Allocation
  // ---------------------------------------------------------------------------

  /** The constructor with the storage allocated in the order the accesses
      use it: `rowLength` outer arrays of `columnLength` cells. */
  function CreateCorrected(columnLength: int, rowLength: int): (r: Result<Grid>)
    ensures r.Err? <==> columnLength < 0 || rowLength < 0
    ensures r.Err? ==> r.error == NegativeArraySize
    ensures r.Ok? ==> r.value.columnLength == columnLength && r.value.rowLength == rowLength
                      && r.value.selectedItem == None
                      && Allocated(r.value.cells, rowLength, columnLength)
                      && CoversLoops(r.value)
                      && forall i, j :: InStorage(r.value.cells, i, j) ==> r.value.cells[i][j] == None
  {
    if columnLength < 0 || rowLength < 0 then Err(NegativeArraySize)
    else Ok(Grid(columnLength, rowLength, seq(rowLength, _ => seq(columnLength, _ => None)), None))
  }

  /** With the corrected allocation, loading never faults, whatever the
      dimensions: every item that fits lands at its row-major cell. */
  lemma CorrectedAllocationLoadsAnyShape(columnLength: nat, rowLength: nat, items: seq<string>)
    ensures var g := CreateCorrected(columnLength, rowLength).value;
            var o := LoadDisplayableItems(g, items);
            o.Normal?
            && forall r, c :: 0 <= r < rowLength && 0 <= c < columnLength ==>
                 o.state.cells[r][c] == if r * columnLength + c < |items|
                                        then Some(items[r * columnLength + c]) else None
  {
    var g := CreateCorrected(columnLength, rowLength).value;
    LoadFillsRowMajor(g, items);
    assert forall r, c :: 0 <= r < rowLength && 0 <= c < columnLength ==> InStorage(g.cells, r, c);
  }

  /** With the allocation as written, loading into a non-square table faults
      exactly when an item is due at an outer index or an inner index the
      storage lacks: row `columnLength` when there are more rows than columns,
      column `rowLength` of row 0 when there are more columns than rows. */
  lemma TransposedLoadFaultsIff(g: Grid, items: seq<string>)
    requires Allocated(g.cells, g.columnLength, g.rowLength)
    ensures var cols, rows, n := g.columnLength, g.rowLength, |items|;
            LoadDisplayableItems(g, items).Thrown?
            <==> (0 < cols < rows && cols * cols < n) || (0 < rows < cols && rows < n)
  {
    var cols, rows, n := g.columnLength, g.rowLength, |items|;
    if 0 < cols < rows && cols * cols < n {
      assert LoadFaultsInRow(g, n, cols);
    } else if 0 < rows < cols && rows < n {
      assert LoadFaultsInRow(g, n, 0);
    } else {
      forall k | 0 <= k < rows
        ensures !LoadFaultsInRow(g, n, k)
      {
        if k >= cols && cols < rows {
          MonotoneProduct(cols, k, cols);
        }
      }
    }
  }

  lemma MonotoneProduct(a: nat, b: nat, c: nat)
    requires a <= b
    ensures a * c <= b * c
  {
  }

  /** The smallest table the defect shows on: two columns, three rows. The
      fifth item is due at row 2, which the storage of two outer arrays does not
      have; the corrected allocation takes all five items. */
  lemma TransposedLoadCounterexample()
    ensures LoadDisplayableItems(Create(2, 3).value, ["a", "b", "c", "d", "e"]) .Thrown?
    ensures LoadDisplayableItems(Create(2, 3).value, ["a", "b", "c", "d", "e"]).error == ArrayIndexOutOfBounds
    ensures LoadDisplayableItems(CreateCorrected(2, 3).value, ["a", "b", "c", "d", "e"]).Normal?
  {
    TransposedLoadFaultsIff(Create(2, 3).value, ["a", "b", "c", "d", "e"]);
    CorrectedAllocationLoadsAnyShape(2, 3, ["a", "b", "c", "d", "e"]);
  }

  // ---------------------------------------------------------------------------
  // Bounds guards
  // ---------------------------------------------------------------------------

  /** `enterSelectionKey` with the guards written `>=`: the column guard rejects
      every column outside the table, then the row guard every row outside it,
      so on storage that covers the table the array read never faults. */
  function EnterSelectionKeyCorrected(g: Grid, key: string): (o: Outcome<Grid>)
    ensures o.state.(selectedItem := g.selectedItem) == g
    ensures o.Thrown? ==> o.state == g
    ensures o.Thrown? && o.error == InvalidFormat <==> !IsValidKey(key)
    ensures IsValidKey(key) ==>
              var p := DecodeKey(key).value;
              && (o.Thrown? && o.error == ColumnOutOfBounds <==> p.col >= g.columnLength)
              && (o.Thrown? && o.error == RowOutOfBounds <==> p.col < g.columnLength && p.row >= g.rowLength)
              && (CoversLoops(g) ==> (o.Normal? <==> p.row < g.rowLength && p.col < g.columnLength))
              && (o.Normal? ==> InStorage(g.cells, p.row, p.col) && o.state.selectedItem == g.cells[p.row][p.col])
  {
    match DecodeKey(key)
    case Err(e) => Thrown(e, g)
    case Ok(p) =>
      if p.col >= g.columnLength then Thrown(ColumnOutOfBounds, g)
      else if p.row >= g.rowLength then Thrown(RowOutOfBounds, g)
      else
        CoversLoopsInStorage(g, p.row, p.col);
        match Read(g.cells, p.row, p.col)
        case Err(e) => Thrown(e, g)
        case Ok(v) => Normal(g.(selectedItem := v))
  }

  /** In a square table of side `n`, a key whose column is exactly `n` passes
      the `>` guard as written and faults at the array read; the corrected guard
      rejects it itself. On a 10 x 10 table, `a11` is such a key. */
  lemma GuardAdmitsIndexEqualToLength(g: Grid, row: nat)
    requires SquareAsAllocated(g) && row < g.rowLength && row < 26 && ZeroFree(g.columnLength + 1)
    ensures var key := EncodeKey(Position(row, g.columnLength));
            EnterSelectionKey(g, key) == Thrown(ArrayIndexOutOfBounds, g)
            && EnterSelectionKeyCorrected(g, key) == Thrown(ColumnOutOfBounds, g)
  {
    DecodeEncode(Position(row, g.columnLength));
  }

  lemma GuardCounterexample()
    ensures EnterSelectionKey(Create(10, 10).value, "a11") == Thrown(ArrayIndexOutOfBounds, Create(10, 10).value)
    ensures EnterSelectionKeyCorrected(Create(10, 10).value, "a11") == Thrown(ColumnOutOfBounds, Create(10, 10).value)
  {
    assert ZeroFree(11);
    assert EncodeKey(Position(0, 10)) == "a11";
    GuardAdmitsIndexEqualToLength(Create(10, 10).value, 0);
  }

  // ---------------------------------------------------------------------------
  // Removal
  // ---------------------------------------------------------------------------

  /** Cell (r, c) lies within the loop bounds and the storage and holds `name`. */
  predicate Holds(g: Grid, name: string, r: int, c: int) {
    0 <= r < g.rowLength && 0 <= c < g.columnLength && InStorage(g.cells, r, c)
    && g.cells[r][c] == Some(name)
  }

  /** Some cell within the loop bounds holds `name`. */
  ghost predicate Present(g: Grid, name: string) {
    exists r, c :: Holds(g, name, r, c)
  }

  /** Cell (r, c) is the first holding `name` in row-major order among the
      rows from `from` on. */
  ghost predicate FirstFrom(g: Grid, name: string, from: nat, r: int, c: int) {
    from <= r && Holds(g, name, r, c)
    && forall i, j :: from <= i && Holds(g, name, i, j) ==> r < i || (r == i && c <= j)
  }

  /** The column of the first cell of row `r`, from column `c` on, holding `name`. */
  function FindInRow(g: Grid, name: string, r: nat, c: nat): (res: Result<nat>)
    requires r < g.rowLength && c <= g.columnLength
    ensures res.Ok? ==> c <= res.value && Holds(g, name, r, res.value)
                        && forall j :: c <= j < res.value ==> !Holds(g, name, r, j)
    ensures res.Err? ==> res.error == NotFound || res.error == ArrayIndexOutOfBounds
    ensures res.Err? && res.error == NotFound ==> forall j :: c <= j ==> !Holds(g, name, r, j)
    ensures res.Err? && res.error == ArrayIndexOutOfBounds ==> Stored(g.cells, r) < g.columnLength
    decreases g.columnLength - c
  {
    if c == g.columnLength then Err(NotFound)
    else
      match Read(g.cells, r, c)
      case Err(e) => Err(e)
      case Ok(v) => if v == Some(name) then Ok(c) else FindInRow(g, name, r, c + 1)
  }

  /** The corrected scan from row `r` on: it clears the first match and
      returns; it raises `NotFound`, having changed nothing, only when no row
      holds the name. */
  function RemoveFirstFrom(g: Grid, name: string, r: nat): (o: Outcome<Grid>)
    requires r <= g.rowLength
    ensures o.Thrown? ==> o.state == g
    ensures o.Normal? ==> exists i, j :: FirstFrom(g, name, r, i, j)
                                         && o.state == g.(cells := Store(g.cells, i, j, None))
    ensures o.Thrown? && o.error == NotFound ==> forall i, j :: r <= i ==> !Holds(g, name, i, j)
    ensures o.Thrown? ==> o.error == NotFound || !CoversLoops(g)
    decreases g.rowLength - r
  {
    if r == g.rowLength then Thrown(NotFound, g)
    else
      match FindInRow(g, name, r, 0)
      case Ok(c) =>
        assert FirstFrom(g, name, r, r, c);
        Normal(g.(cells := Store(g.cells, r, c, None)))
      case Err(e) =>
        if e == NotFound then
          var o := RemoveFirstFrom(g, name, r + 1);
          assert o.Normal? ==> exists i, j :: FirstFrom(g, name, r, i, j)
                                              && o.state == g.(cells := Store(g.cells, i, j, None));
          o
        else
          Thrown(e, g)
  }

  /** `removeItemByName` as evidently intended: clear the first cell holding
      the name in row-major order and return; raise `NotFound`, with nothing
      changed, only when no cell holds it. */
  function RemoveFirst(g: Grid, name: string): (o: Outcome<Grid>)
    ensures o.Thrown? ==> o.state == g
    ensures o.Normal? ==> exists i, j :: FirstFrom(g, name, 0, i, j)
                                         && o.state == g.(cells := Store(g.cells, i, j, None))
    ensures CoversLoops(g) ==> (o.Normal? <==> Present(g, name))
    ensures CoversLoops(g) && o.Thrown? ==> o.error == NotFound
  {
    RemoveFirstFrom(g, name, 0)
  }

  /** When the name is held at most once, the removal as written and the
      corrected removal leave the same table; they differ in that the code as
      written then raises `NotFound` even though it removed the item. */
  lemma RemoveAgreesWhenHeldOnce(g: Grid, name: string)
    requires CoversLoops(g) && AtMostOnce(g, name)
    ensures RemoveItemByName(g, name).state == RemoveFirst(g, name).state
    ensures RemoveItemByName(g, name).error == NotFound
    ensures RemoveFirst(g, name).Normal? <==> Present(g, name)
  {
    var written := RemoveItemByName(g, name);
    var intended := RemoveFirst(g, name);
    RemoveClearsFirstInEachRow(g, name);
    if intended.Normal? {
      var r, c :| FirstFrom(g, name, 0, r, c) && intended.state == g.(cells := Store(g.cells, r, c, None));
      forall i, j | InStorage(g.cells, i, j)
        ensures written.state.cells[i][j] == intended.state.cells[i][j]
      {
        if i < g.rowLength && j < g.columnLength && FirstInRow(g.cells, i, j, name) {
          assert Holds(g, name, i, j);
        }
        if i == r && j == c {
          assert forall k :: 0 <= k < j ==> !Holds(g, name, i, k);
          assert FirstInRow(g.cells, i, j, name);
        }
      }
      CellsExtensional(written.state.cells, intended.state.cells);
    } else {
      forall i, j | InStorage(g.cells, i, j)
        ensures written.state.cells[i][j] == g.cells[i][j]
      {
        assert !Holds(g, name, i, j);
      }
      CellsExtensional(written.state.cells, g.cells);
    }
  }

  /** A 2 x 2 table holding "Coke" at the start of both rows, as loading
      `["Coke", "Chips", "Coke", "Fanta"]` leaves it. */
  function TwoCokes(): Grid {
    Grid(2, 2, [[Some("Coke"), Some("Chips")], [Some("Coke"), Some("Fanta")]], None)
  }

  /** On that table the removal as written clears both cells (its `break`
      leaves only the inner loop) and then raises `NotFound`. */
  lemma RemoveCounterexample()
    ensures RemoveItemByName(TwoCokes(), "Coke")
              == Thrown(NotFound, TwoCokes().(cells := [[None, Some("Chips")], [None, Some("Fanta")]]))
  {
    var g := TwoCokes();
    assert CoversLoops(g);
    RemoveClearsFirstInEachRow(g, "Coke");
    var written := RemoveItemByName(g, "Coke");
    assert FirstInRow(g.cells, 0, 0, "Coke") && FirstInRow(g.cells, 1, 0, "Coke");
    CellsExtensional(written.state.cells, [[None, Some("Chips")], [None, Some("Fanta")]]);
  }

  /** On the same table the corrected removal clears only the first cell and
      returns normally. */
  lemma RemoveFirstOnTwoCokes()
    ensures RemoveFirst(TwoCokes(), "Coke")
              == Normal(TwoCokes().(cells := [[None, Some("Chips")], [Some("Coke"), Some("Fanta")]]))
  {
    var g := TwoCokes();
    var intended := RemoveFirst(g, "Coke");
    assert Holds(g, "Coke", 0, 0);
    var r, c :| FirstFrom(g, "Coke", 0, r, c) && intended.state == g.(cells := Store(g.cells, r, c, None));
    assert r == 0 && c == 0;
    CellsExtensional(intended.state.cells, [[None, Some("Chips")], [Some("Coke"), Some("Fanta")]]);
  }

  /** Loading four items into a 2 x 2 table fills it row by row. */
  lemma LoadTwoByTwo(g: Grid, items: seq<string>)
    requires g.columnLength == 2 && g.rowLength == 2 && Allocated(g.cells, 2, 2)
    requires |items| == 4
    ensures LoadDisplayableItems(g, items)
              == Normal(g.(cells := [[Some(items[0]), Some(items[1])], [Some(items[2]), Some(items[3])]]))
  {
    var want := [[Some(items[0]), Some(items[1])], [Some(items[2]), Some(items[3])]];
    var loaded := LoadDisplayableItems(g, items).state;
    SquareCoversLoops(g);
    LoadFillsRowMajor(g, items);
    forall i, j | InStorage(loaded.cells, i, j)
      ensures loaded.cells[i][j] == want[i][j]
    {
      assert InStorage(g.cells, i, j) && Due(g, 4, i, j);
      assert ItemIndex(g, i, j) == 2 * i + j;
    }
    CellsExtensional(loaded.cells, want);
  }

  /** Loading the four items into a fresh 2 x 2 table gives that table. */
  lemma TwoCokesIsLoaded()
    ensures LoadDisplayableItems(Create(2, 2).value, ["Coke", "Chips", "Coke", "Fanta"]) == Normal(TwoCokes())
  {
    LoadTwoByTwo(Create(2, 2).value, ["Coke", "Chips", "Coke", "Fanta"]);
  }
}
