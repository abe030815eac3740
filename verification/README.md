# AlphanumericGrid: the vending machine's slot table, modelled in Dafny

The vending machine addresses its slots through `AlphanumericGrid`. This is a
fixed two-dimensional table of item names with four jobs:

- **Load** fills the table in row-major order, the column varying fastest.
- **Select** takes a selection key such as `b3`. The letter names the row
  (`a` is row 0). The digits give the 1-based column. The key must match
  `^[a-z][1-9]+$`. Select records the slot's occupant, which may be empty, as
  the selected item.
- **Remove** scans for an item by name and clears the slot.
- **Construct** allocates the storage.

The model follows the Java code, quirks included:

- The object is an immutable `Grid` value: the two loop bounds, the storage
  and the selected item. `getSelectedItem` is the field read `selectedItem`.
- A Java `null` is `None`.
- Each operation returns an `Outcome`: `Normal(state)`, or
  `Thrown(error, state)`. The thrown form carries the state because writes made
  before a Java exception stay in place.
- Storage is kept exactly as allocated. The constructor
  `(columnLength, rowLength)` allocates `new String[columnLength][rowLength]`.
  Every access, however, indexes `[row][col]`. So every array read and write is
  a checked access that can raise `ArrayIndexOutOfBounds`, and no operation
  needs a precondition. On a square table, load and removal never fault.
  `CoversLoops` names the storages on which load and removal cannot fault.
  Selection can still fault on a square table, for a key whose row or column
  equals the side: the `>` guards let it through and the read raises.
- Load and removal are recursive functions that follow the nested loops. Their
  contracts give the result in closed form.

Modules:

- `Outcomes`: the nullable cell, the error kinds, `Result` and `Outcome`.
- `Decimal`: the value `Integer.parseInt` reads from a digit string, and the
  canonical decimal rendering.
- `SelectionKey`: the key pattern, read two ways (a character-class predicate
  and a small automaton), plus key decoding and encoding.
- `AlphanumericGrid`: the class itself.
- `GridProperties`: fill formula, reload, round trip, lookup bounds, removal
  effect.
- `GridCorrections`: corrected versions of the three defects under "Findings".

The only test of the grid disagrees with the code, and the model follows the
code. `src/test/java/vendingmachine/core/AlphanumericGridTest.java:12-20` loads
`"Classic Coke", "Diary Chocolate", "Lays Original"` into a 10 x 10 table and
expects key `a2` to select `"Classic Coke"`. In the code, `"Classic Coke"` goes
to row 0, column 0, which is named `a1`. Key `a2` decodes to column 1, which
holds `"Diary Chocolate"`. `GridProperties.GridTestExpectationDisagrees`
proves both facts.

Two behaviours of the code are kept as written:

- The constructor accepts zero dimensions. Only a negative one raises.
- Out-of-range keys are reported by the checked read when the `>` guard lets
  them through.

## Model

| member | source | states |
|---|---|---|
| `Decimal.ValueOfString` | src/main/java/vendingmachine/core/AlphanumericGrid.java:69 | reading back the decimal rendering of `n` gives `n` |
| `Decimal.StringOfValue` | src/main/java/vendingmachine/core/AlphanumericGrid.java:69 | rendering the value of a digit string with no leading zero gives back the string, so the rendering is canonical |
| `Decimal.LeadingDigitPositive` | src/main/java/vendingmachine/core/AlphanumericGrid.java:69 | a digit suffix with no leading zero has a positive value, so the decoded column `value - 1` is never negative |
| `SelectionKey.PatternMatchesIffValid` | src/main/java/vendingmachine/core/AlphanumericGrid.java:76-80 | an automaton for `^[a-z][1-9]+$` that must consume the whole key accepts exactly the keys of the form one letter `a`-`z`, then one or more digits `1`-`9` |
| `SelectionKey.DecodeKey` | src/main/java/vendingmachine/core/AlphanumericGrid.java:68-80 | decoding succeeds iff the key is valid, and an invalid key fails with the format error before anything is decoded; the row is below 26, and encoding the decoded position gives back the key |
| `SelectionKey.EncodedKeyValidIff` | src/main/java/vendingmachine/core/AlphanumericGrid.java:76-80 | the key naming a position is valid iff its 1-based column number contains no zero digit |
| `SelectionKey.DecodeEncode` | src/main/java/vendingmachine/core/AlphanumericGrid.java:68-74 | decoding the key of a position whose row has a letter and whose column number has no zero gives back the position |
| `AlphanumericGrid.Create` | src/main/java/vendingmachine/core/AlphanumericGrid.java:15-19 | construction raises iff a dimension is negative; otherwise the storage is `columnLength` outer arrays of `rowLength` empty cells, and nothing is selected |
| `AlphanumericGrid.Store` | src/main/java/vendingmachine/core/AlphanumericGrid.java:38-40 | writing a cell changes that cell only and keeps the storage shape |
| `AlphanumericGrid.LoadRow` | src/main/java/vendingmachine/core/AlphanumericGrid.java:22-33 | the inner load loop advances the item counter by one per column; starting from a counter equal to `r * columnLength + c`, it writes the item for each due column of its row from `c` on; it raises exactly when a due column lies beyond the row's storage |
| `AlphanumericGrid.LoadRows` | src/main/java/vendingmachine/core/AlphanumericGrid.java:22-34 | entered with the item counter at `r * columnLength`, the outer load loop fills every due cell in the rows it reaches and stops at the first faulting row; it returns normally iff no row from `r` on faults |
| `AlphanumericGrid.LoadDisplayableItems` | src/main/java/vendingmachine/core/AlphanumericGrid.java:21-36 | cell (r, c) receives item `r * columnLength + c` when that item exists and the loop reaches row r; every other cell keeps its old value; loading raises only `ArrayIndexOutOfBounds` and never changes the selected item |
| `AlphanumericGrid.EnterSelectionKey` | src/main/java/vendingmachine/core/AlphanumericGrid.java:42-66 | only the selected item can change, and only on success; the errors come in the order format, column guard (`col > columnLength`), row guard (`row > rowLength`), array read, and no other error; a valid key succeeds exactly when it passes both guards and its cell exists, and then the selected item is exactly that cell, possibly empty |
| `AlphanumericGrid.RemoveRow` | src/main/java/vendingmachine/core/AlphanumericGrid.java:89-96 | the inner removal loop clears the first cell of its row holding the name and leaves that row; it raises iff no stored cell matches and the loop runs past the row's storage |
| `AlphanumericGrid.RemoveRows` | src/main/java/vendingmachine/core/AlphanumericGrid.java:88-97 | the outer removal loop clears the first match of every row it reaches; it gets through iff no row faults |
| `AlphanumericGrid.RemoveItemByName` | src/main/java/vendingmachine/core/AlphanumericGrid.java:86-101 | removal always raises: `NotFound` iff the scan got through every row, otherwise `ArrayIndexOutOfBounds`; in every row reached, the first cell holding the name is cleared and every other cell is unchanged |
| `GridProperties.LoadSucceedsIff` | src/main/java/vendingmachine/core/AlphanumericGrid.java:21-40 | loading returns normally iff every cell the loops would write lies inside the storage |
| `GridProperties.LoadFillsRowMajor` | src/main/java/vendingmachine/core/AlphanumericGrid.java:21-36 | when the storage covers the loops, loading never raises; cell (r, c) holds item `r * columnLength + c` if it exists and keeps its value otherwise; surplus items are dropped |
| `GridProperties.LoadIdempotent` | src/main/java/vendingmachine/core/AlphanumericGrid.java:21-36 | loading the same items twice gives the same outcome as loading them once, on any storage |
| `GridProperties.ReloadKeepsUntouched` | src/main/java/vendingmachine/core/AlphanumericGrid.java:24-31 | when the storage covers the loops (for example a square table, or one allocated by `GridCorrections.CreateCorrected`), after two loads a cell holds the second list's item if it has one, else the first list's, else its original value |
| `GridProperties.SelectInSquareGrid` | src/main/java/vendingmachine/core/AlphanumericGrid.java:48-65 | on a square table a valid key selects iff row and column are both below the side; every failure is the format error or an index-out-of-bounds error |
| `GridProperties.SelectReadsTransposedStorage` | src/main/java/vendingmachine/core/AlphanumericGrid.java:15-65 | on storage as allocated, a valid key selects iff row < columnLength, column < rowLength, and both pass the `>` guards |
| `GridProperties.LoadThenSelect` | src/main/java/vendingmachine/core/AlphanumericGrid.java:24-74 | in a square table, the key naming row r and column c selects item `r * side + c` after a load, whenever that item exists, r has a letter and `c + 1` has no zero digit |
| `GridProperties.GridTestExpectationDisagrees` | src/test/java/vendingmachine/core/AlphanumericGridTest.java:12-20 | with the test's data, key `a2` selects "Diary Chocolate" and `a1` selects "Classic Coke" |
| `GridProperties.RemoveClearsFirstInEachRow` | src/main/java/vendingmachine/core/AlphanumericGrid.java:86-101 | when the storage covers the loops, removal always ends in `NotFound` and clears exactly the first cell holding the name in each row |
| `GridProperties.RemoveThenSelectFindsEmpty` | src/main/java/vendingmachine/core/AlphanumericGrid.java:86-101 | after removing an item held once in a square table, selecting its former key succeeds and selects the empty slot |
| `GridCorrections.CreateCorrected` | src/main/java/vendingmachine/core/AlphanumericGrid.java:15-19 | corrected allocation, `rowLength` arrays of `columnLength` cells, covers the loops for every pair of dimensions |
| `GridCorrections.CorrectedAllocationLoadsAnyShape` | src/main/java/vendingmachine/core/AlphanumericGrid.java:15-36 | with the corrected allocation, loading any items into any dimensions returns normally and fills the row-major cells |
| `GridCorrections.TransposedLoadFaultsIff` | src/main/java/vendingmachine/core/AlphanumericGrid.java:15-39 | with the allocation as written, loading raises iff 0 < cols < rows and more than cols * cols items, or 0 < rows < cols and more than rows items |
| `GridCorrections.TransposedLoadCounterexample` | src/main/java/vendingmachine/core/AlphanumericGrid.java:15-39 | loading five items into a table of 2 columns and 3 rows raises with the allocation as written and succeeds with the corrected one |
| `GridCorrections.EnterSelectionKeyCorrected` | src/main/java/vendingmachine/core/AlphanumericGrid.java:42-62 | with `>=` guards the column error fires iff col >= columnLength, the row error iff the column is in range and row >= rowLength, and on covering storage a valid key selects iff both are in range |
| `GridCorrections.GuardAdmitsIndexEqualToLength` | src/main/java/vendingmachine/core/AlphanumericGrid.java:48-65 | in a square table a key whose column equals the side passes the `>` guard and faults at the read; the corrected guard raises the column error |
| `GridCorrections.GuardCounterexample` | src/main/java/vendingmachine/core/AlphanumericGrid.java:48-65 | on a 10 x 10 table key `a11` faults at the array read as written and is refused by the corrected column guard |
| `GridCorrections.FindInRow` | src/main/java/vendingmachine/core/AlphanumericGrid.java:89-96 | the column found is the first in the row, from `c` on, holding the name; not-found means no later column holds it; a fault means the row's storage is shorter than the loop |
| `GridCorrections.RemoveFirstFrom` | src/main/java/vendingmachine/core/AlphanumericGrid.java:88-99 | the corrected scan clears exactly the first match, in row-major order, from row r on; when it raises, the table is unchanged |
| `GridCorrections.RemoveFirst` | src/main/java/vendingmachine/core/AlphanumericGrid.java:86-101 | when the storage covers the loops (for example a square table, or one allocated by `GridCorrections.CreateCorrected`), corrected removal returns normally iff the name is present and then clears exactly its first occurrence; otherwise it raises `NotFound` with nothing changed |
| `GridCorrections.RemoveAgreesWhenHeldOnce` | src/main/java/vendingmachine/core/AlphanumericGrid.java:86-101 | when the storage covers the loops (for example a square table, or one allocated by `GridCorrections.CreateCorrected`) and the name is held at most once, both removals leave the same table, but the code as written still raises `NotFound` |
| `GridCorrections.RemoveCounterexample` | src/main/java/vendingmachine/core/AlphanumericGrid.java:92-99 | on the 2 x 2 table with "Coke" starting both rows, the code as written clears both and raises `NotFound` |
| `GridCorrections.RemoveFirstOnTwoCokes` | src/main/java/vendingmachine/core/AlphanumericGrid.java:86-101 | on the same table the corrected removal clears only the first "Coke" and returns normally |
| `GridCorrections.LoadTwoByTwo` | src/main/java/vendingmachine/core/AlphanumericGrid.java:21-36 | loading four items into a 2 x 2 table as allocated fills row 0 with the first two and row 1 with the last two, and raises nothing |
| `GridCorrections.TwoCokesIsLoaded` | src/main/java/vendingmachine/core/AlphanumericGrid.java:21-36 | loading `Coke, Chips, Coke, Fanta` into a fresh 2 x 2 table produces that table |

## Findings

| source | as written | input that shows it | evidently intended | confidence | as-written member | corrected member |
|---|---|---|---|---|---|---|
| src/main/java/vendingmachine/core/AlphanumericGrid.java:86-101 | the `break` leaves only the inner loop, and "Item could not be found!" is thrown after every scan | 2 x 2 table `[[Coke, Chips], [Coke, Fanta]]`, remove `Coke`: both Coke cells are cleared, then `NotFound` is raised | clear the first match in row-major order and return; raise `NotFound`, changing nothing, only when the name is absent | high; not executed | `GridCorrections.RemoveCounterexample` (about `AlphanumericGrid.RemoveItemByName`) | `GridCorrections.RemoveFirst` |
| src/main/java/vendingmachine/core/AlphanumericGrid.java:56-62 | the guards reject only `index > length` | 10 x 10 table, key `a11`: column 10 passes the guard, and the array read raises instead | reject `index >= length` in the guard itself | high; not executed | `GridCorrections.GuardCounterexample` (about `AlphanumericGrid.EnterSelectionKey`) | `GridCorrections.EnterSelectionKeyCorrected` |
| src/main/java/vendingmachine/core/AlphanumericGrid.java:15-18 | storage allocated `new String[columnLength][rowLength]` but indexed `[row][col]` | 2 columns, 3 rows, load five items: the fifth is due at row 2, and the storage has only two outer arrays | allocate `new String[rowLength][columnLength]` | high; not executed | `GridCorrections.TransposedLoadCounterexample` (about `AlphanumericGrid.Create`) | `GridCorrections.CreateCorrected` |

## Left out

- `src/main/java/vendingmachine/core/interaction/Change.java` is not part of this model. It only forwards to `MoneyHolder`, which is not part of this model either, and it sums floating-point values.
- Payment, change-making, combo pricing and the machine itself, as exercised by `src/test/java/vendingmachine/VendingMachineTest.java`, are not part of this model. Their classes are not among the modelled sources.
- `Integer.parseInt` overflow: the column digits are read as an unbounded natural. A suffix above 2147483647 would make Java raise `NumberFormatException`; the model decodes it instead. The `int` item counter of the load loop is unbounded in the same way.
- The regular-expression engine is not modelled. The key pattern is a character-class predicate, checked against a hand-written automaton.
- Exception messages and the Java exception classes are reduced to the `GridError` kinds. `IsIndexOutOfBounds` records which kinds a caller catching `IndexOutOfBoundsException` would see.
- `null` elements in the item list and a `null` name for removal are not modelled. Items and names are plain strings. In the source, a `null` name never matches anything.
- A `null` selection key is not modelled. Keys are plain strings. In the source, `Pattern.matches` raises `NullPointerException` on it (`src/main/java/vendingmachine/core/AlphanumericGrid.java:77`).
- A `null` item list is not modelled. Item lists are plain sequences. In the source, the call to `size()` raises `NullPointerException` (`src/main/java/vendingmachine/core/AlphanumericGrid.java:27`).
- Mutation in place is modelled as returning the new object state. Aliasing of the storage arrays is not modelled.
