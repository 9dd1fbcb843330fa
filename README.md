# Spreadsheet dependency graph: a Dafny model

This project models the core of a small C++ spreadsheet engine. It covers
the sheet (`sheet.cpp`, `sheet.h`) and the cell (`cell.h`, `cell.cpp`).

The sheet is a table keyed by position. Each entry (`Vertex`) holds one cell
slot and the ordered list of its reverse edges. A reverse edge names a
position whose formula reads this one. The sheet does four jobs:

- it validates positions;
- before committing anything, it rejects a new cell that would close a
  circular reference, using a three-colour depth-first search over forward
  edges;
- on success it rewires reverse edges, creating an Empty placeholder for
  every referenced position that has no cell;
- it invalidates cached formula values transitively along reverse edges,
  and it keeps the printable size.

A cell is Empty, Text or Formula. Input is classified on a leading `=`. A
leading `'` is stripped only from a text's value. A formula keeps a lazily
filled cache that `ResetValue` empties.

Layout, one module per concern:

- `common.dfy`: positions, sizes, errors.
- `formula.dfy`: the formula boundary. A formula is known by its canonical
  expression and the positions it reads. Parsing and evaluation are function
  parameters.
- `cell.dfy`: the content datatype with its pure functions, and the `Cell`
  class whose content and cache are updated in place.
- `sheet_state.dfy`: the state of the sheet. A `Vertex` holds edges and a
  `Cell?`. `Snapshot` turns the table into a value (`Table`), and the
  ownership facts live here too.
- `dependency_graph.dfy`: forward edges, reachability, and the graph
  invariant:
  - `NoNullCells`: every entry holds a cell;
  - `Closed`: every read position has an entry;
  - `Transposed`: reverse edges are the transpose of forward edges, counted
    with multiplicity;
  - `Acyclic`.
- `sheet_spec.dfy`: what each mutation does to the table, as functions:
  - `ResetReachable`: the cache reset;
  - `DropDependent` and `AddDependent`: the reverse-edge rewiring;
  - `Committed`: a successful `SetCell`;
  - `Cleared`: `ClearCell`;
  - `Covered` and `IsBoundingBox`: the printable size.
- `cycle_search.dfy`: the invariants of the colour search, one lemma per
  step of the code.
- `sheet_invariants.dfy`: a commit that passed the cycle check preserves
  the graph invariant. `ClearCell` keeps `NoNullCells` and `Acyclic`. On a
  table satisfying the invariant, it keeps `Closed` exactly when the cleared
  cell was not read, and keeps `Transposed` exactly when it read nothing.
- `sheet.dfy`: the `Sheet` class. It has fields `table` and `size`, and
  methods whose contracts tie the new table value to the functions above.
- `sheet_findings.dfy`: concrete operation sequences from an empty sheet
  that reach the states in which the code misbehaves.

The code keys the table by `pos.ToString()`. The model keys it by `Position`
directly, which is the same as long as `ToString` is injective.

The cycle check's shortcut (sheet.cpp:155-158) is modelled as written. With
no entry at `pos`, it reports a cycle only when the new cell names `pos`
itself. This is sound when every read position has an entry
(`DependencyGraph.ShortcutSound`). `ClearCell` can break that, and after
`SetCell(A1, "=B1"); ClearCell(B1)` the shortcut accepts `B1 = "=A1"` and the
committed graph has a cycle (`SheetFindings.ShortcutMissesCycleAfterClear`).
The model keeps this behaviour rather than repairing it.

Invalidation relies on the same invariant. Under it, a commit at `pos`
drops the cache of every cell that reads `pos`, directly or through other
cells (`SheetInvariants.CommitInvalidatesReaders`). A fresh position has no
readers then, which is why that branch (sheet.cpp:20-21) resets nothing.
After a clear the reader of the cleared position is no longer listed
anywhere. After `SetCell(A1, "=B1"); ClearCell(B1)` and a `GetValue` of A1,
`SetCell(B1, "5")` leaves A1 holding the value it computed before B1 was
set (`SheetFindings.StaleCacheAfterClear`). The model keeps this behaviour
too, since repairing it would mean changing what `ClearCell` does.

The cache reset is sometimes described as terminating because the forward
graph is acyclic. The recursion actually walks reverse edges, which
`ClearCell` leaves stale, so the model follows the code here (see
"## Findings").

## Model

| member | source | states |
|---|---|---|
| `Cells.DisplayText` | cell.h:66-72 | the value of a text is the text with exactly one leading `'` removed when it starts with one, and the text itself otherwise |
| `Cells.TextOf` | cell.h:49-105 | Empty renders as "", a text renders verbatim (leading `'` included), and a formula renders as "=" followed by its canonical expression |
| `Cells.ReferencedCells` | cell.h:52-108 | only a formula references positions: exactly the formula's cells; Empty and text reference none |
| `Cells.Reset` | cell.h:109-111 | dropping the cache keeps the kind, the text and the references; a formula's cache becomes empty, and the other kinds are unchanged |
| `Cells.GetValueOf` | cell.h:46-102 | Empty shows "" and a text shows its displayed text, both unchanged. A formula shows its cache when present; otherwise it shows the result of evaluating that formula, number or error, and that result is stored. The value stored is never a string |
| `Formulas.CacheOf` | cell.h:93-99 | an evaluation result is stored as a number or as an evaluation error, never as text |
| `Cells.Classify` | cell.cpp:19-26 | input fails exactly when it starts with "=", has more after it, and the formula does not parse. Otherwise such input is a formula with an empty cache, and any other non-empty input (including "=" alone) is a text stored verbatim |
| `Cells.CacheIsStable` | cell.h:91-102 | once GetValue has filled the cache, a second GetValue returns the same value and leaves the content as it is, whatever the evaluator would say |
| `Cells.ResetForcesReevaluation` | cell.h:109-111 | after ResetValue, the next GetValue of a formula evaluates it again |
| `Cells.ResetIsIdempotent` | cell.h:109-111 | ResetValue twice is ResetValue once |
| `Cells.SetThenGetText` | cell.cpp:19-26 | GetText after a successful Set starts with the same character as the input, and is either the input or "=" followed by the parsed expression |
| `Cells.Cell.constructor` | cell.cpp:11-15 | a new cell is Empty |
| `Cells.Cell.Set` | cell.cpp:19-26 | a parse failure reports FormulaSyntax and leaves the content unchanged; otherwise the content becomes the classification of the text |
| `Cells.Cell.Clear` | cell.cpp:28-30 | the content becomes Empty |
| `Cells.Cell.ResetValue` | cell.h:22-24 | the content becomes its reset: a formula loses its cache |
| `Cells.Cell.GetValue` | cell.cpp:32-39 | returns the value and leaves the content GetValueOf describes; an evaluation error comes back as a value, not as a failure |
| `Cells.Cell.GetText` | cell.cpp:40-42 | the text of the current content |
| `Cells.Cell.GetReferencedCells` | cell.cpp:44-46 | the references of the current content |
| `Cells.Cell.IsReferenced` | cell.cpp:48-50 | true exactly when the content is a formula that references at least one position |
| `Sheets.Sheet.constructor` | sheet.h:48-49 | a new sheet has no entries, size 0 x 0, and satisfies the graph invariant |
| `Sheets.Sheet.GetCell` | sheet.cpp:43-65 | an invalid position fails with InvalidPosition; a position without an entry, or with an entry without a cell, reads as null, and otherwise the result is the entry's cell |
| `Sheets.Sheet.GetPrintableSize` | sheet.cpp:91-93 | the size covers every position that holds a text or a formula |
| `Sheets.Sheet.ResetCache` | sheet.cpp:144-152 | the table value becomes ResetReachable: the caches at pos and at every position reachable from it along reverse edges through entries are dropped, and nothing else changes; an absent pos changes nothing |
| `Sheets.Sheet.CollectInvalidated` | sheet.cpp:149-151 | the worklist walk from pos collects exactly a set closed under reverse edges whose members are all reachable from pos |
| `Sheets.Sheet.WalkStep` | sheet.cpp:149-151 | one step of the worklist walk keeps its invariant (everything collected is reachable from pos and every edge of a finished position is collected) and strictly shrinks what is left to do |
| `Sheets.Sheet.Discover` | sheet.cpp:149-151 | scanning the reverse edges of one position adds each of them that has an entry to the collected set, puts exactly the newly collected ones on the worklist, and collects only positions reachable from pos |
| `Sheets.Sheet.ResetEach` | sheet.cpp:148 | drops the cache at every position of the given set, and only there |
| `Sheets.Sheet.ResetOne` | sheet.cpp:148 | drops the cache of one entry's cell, and an entry without a cell is left as it is |
| `SheetSpec.ResetReachable` | sheet.cpp:144-152 | the reset keeps keys, reverse edges, forward edges, texts and kinds, and drops the cache exactly at the positions reachable from pos |
| `SheetInvariants.ResetKeepsShape` | sheet.h:38 | the cache reset keeps every entry holding its cell, every read position's entry, the transposed reverse edges, and the cell at pos |
| `SheetInvariants.ReaderInvalidated` | sheet.cpp:144-152 | when every read position has an entry and reverse edges mirror forward ones, every cell that reads pos, directly or through other cells, is reached from pos along reverse edges, so the reset drops its cache |
| `SheetInvariants.CommitInvalidatesReaders` | sheet.cpp:20-33 | under the graph invariant, after a commit at pos no cell that reads pos, directly or through other cells, keeps a cache; a fresh position has no readers, which is why that branch resets nothing |
| `SheetInvariants.RewiredKeepsCell` | sheet.cpp:25-40 | the rewiring keeps the cell of every other entry that has one |
| `SheetSpec.ResetClosedSet` | sheet.cpp:149-151 | resetting any closed set of reachable positions that holds pos is the reset of everything reachable |
| `SheetSpec.WalkAdvance` | sheet.cpp:149-151 | each step of the walk keeps its invariant and makes progress |
| `Sheets.Sheet.CheckCycleDependencies` | sheet.cpp:179-198 | the search below u keeps every earlier colour and stores no White. It changes nothing in the sheet, and every position it newly colours turns Black, unless u stays Grey. Under an acyclic graph u stays Grey exactly when u reaches the root. It terminates because each call colours one more entry |
| `Sheets.Sheet.CheckIfHasCycleDependencies` | sheet.cpp:154-177 | with no entry at pos, it reports a cycle exactly when the new cell names pos. When pos has an entry, "no cycle" means no reference reaches pos. Under an acyclic graph, it reports a cycle exactly when one of the new references reaches pos. It changes nothing |
| `DependencyGraph.ShortcutSound` | sheet.cpp:155-158 | when every read position has an entry and pos has none, some reference reaches pos exactly when pos is among the references |
| `DependencyGraph.CycleFoundSound` | sheet.cpp:154-177 | when every read position has an entry, the reported outcome of the check is "some reference reaches pos" |
| `DependencyGraph.AcyclicAfterRewire` | sheet.cpp:14-16 | replacing the forward edges of pos by edges none of which leads back to pos keeps the graph acyclic |
| `DependencyGraph.CycleAfterRewire` | sheet.cpp:14-16 | a cycle after rewiring pos is an old cycle, or leaves pos by a new edge and returns along old edges |
| `DependencyGraph.ReachesThroughRefs` | sheet.cpp:186-194 | a position that reaches a different one does so through one of its forward edges, which is why the search only follows those |
| `DependencyGraph.NoRefsReachOnlySelf` | sheet.cpp:182-185 | a position without forward edges, such as one without an entry, reaches only itself |
| `CycleSearch.SearchNoEntry` | sheet.cpp:182-185 | a position without an entry turns Black and the search's promise holds |
| `CycleSearch.SearchDescend` | sheet.cpp:187-189 | a White forward edge may be searched recursively, and the recursion colours one more entry |
| `CycleSearch.SearchReturnsBlack` | sheet.cpp:187-194 | a forward edge that comes back Black lets the search go on to the next edge |
| `CycleSearch.SearchSkipsBlack` | sheet.cpp:187-194 | a forward edge that is already Black is passed over |
| `CycleSearch.SearchReturnsGrey` | sheet.cpp:190-193 | a forward edge that comes back Grey stops the search with u Grey, and under an acyclic graph u reaches the root |
| `CycleSearch.SearchMeetsGrey` | sheet.cpp:190-193 | a forward edge that is already Grey stops the search with u Grey, and under an acyclic graph u reaches the root |
| `CycleSearch.SearchDone` | sheet.cpp:195-197 | when every forward edge came back Black, u turns Black and does not reach the root |
| `CycleSearch.SearchStart` | sheet.cpp:180 | u turning Grey starts the scan of its forward edges |
| `CycleSearch.GreySuccessor` | sheet.cpp:190-193 | a Grey successor of u is the root or lies above u, so u reaches the root or the graph has a cycle |
| `CycleSearch.GreyAboveDescend` | sheet.cpp:187-189 | going down an edge keeps every Grey position above the new position |
| `CycleSearch.TopStart` | sheet.cpp:160-162 | the search starts with only pos Grey |
| `CycleSearch.TopDescend` | sheet.cpp:165-168 | a White reference may be searched with pos as the root |
| `CycleSearch.TopSkipsBlack` | sheet.cpp:165-173 | a Black reference is passed over |
| `CycleSearch.TopReturnsBlack` | sheet.cpp:165-173 | a reference that comes back Black lets the scan go on |
| `CycleSearch.TopMeetsGrey` | sheet.cpp:169-172 | a reference that is already Grey is pos itself: a cycle |
| `CycleSearch.TopReturnsGrey` | sheet.cpp:169-172 | a reference that comes back Grey reaches pos under an acyclic graph |
| `CycleSearch.TopDone` | sheet.cpp:163-176 | when every reference came back Black, none of them reaches pos |
| `Sheets.Sheet.SetCell` | sheet.cpp:7-41 | an invalid position fails with InvalidPosition, a refused formula with FormulaSyntax, and a rejected cycle with CircularDependency, each leaving table and size exactly as they were. On success the size grows to hold pos, the table becomes Committed, and the graph invariant is kept |
| `Sheets.Sheet.Grow` | sheet.cpp:18-19 | each dimension becomes the larger of its old value and pos + 1, and the size still covers |
| `Sheets.Sheet.Commit` | sheet.cpp:20-40 | the table becomes Committed around the new cell and the size still covers |
| `Sheets.Rewire` | sheet.cpp:20-40 | on the vertex map: drop pos from the old dependencies when pos holds a cell, place the new cell, and add pos to the new dependencies, as Rewired says |
| `Sheets.DropDependents` | sheet.cpp:25-31 | one occurrence of pos is removed from the reverse edges of each old dependency in order, absent entries are created without a cell, and the cells are untouched |
| `Sheets.AddDependents` | sheet.cpp:35-40 | pos is appended to the reverse edges of each new dependency in order, and a placeholder without a cell gets a new Empty one |
| `SheetSpec.RemoveFirst` | sheet.cpp:27-31 | the result holds one occurrence of x fewer than s, and everything else as often as s does; it is s itself when x does not occur (that the occurrence taken out is the first is RemoveFirstSplices) |
| `SheetSpec.RemoveFirstSplices` | sheet.cpp:27-31 | removing the first x splices s around the first index of x |
| `SheetSpec.DropDependent` | sheet.cpp:25-31 | the reference definition of the drop loop: for each old dependency in order, the entry (created empty and without a cell when missing) loses its first occurrence of pos; its properties are the DropDependent lemmas below |
| `SheetSpec.DropDependentKeys` | sheet.cpp:27 | the lookups create the entries of the old dependencies that were missing |
| `SheetSpec.DropDependentCell` | sheet.cpp:25-31 | dropping reverse edges keeps every cell; a created entry has none |
| `SheetSpec.DropDependentCount` | sheet.cpp:25-31 | at each position, pos loses as many occurrences as the position occurs among the old references, as long as any are left, and the count of every other position is unchanged |
| `SheetSpec.AddDependent` | sheet.cpp:35-40 | the reference definition of the add loop: for each new dependency in order, pos is appended to its reverse edges and an entry without a cell gets an Empty one; its properties are the AddDependent lemmas below |
| `Sheets.AddDependentAtIndex` | sheet.cpp:36-39 | one turn of the add loop on the vertex map: after handling reference k, the rest of the loop yields the same table as the whole loop, ownership and valid cells are kept, and a placeholder gets a new Empty cell |
| `SheetSpec.AddDependentKeys` | sheet.cpp:35-40 | the new dependencies all get entries |
| `SheetSpec.AddDependentAt` | sheet.cpp:35-40 | at each position, pos is appended once per occurrence among the new references, a referenced entry without a cell gets an Empty one, and unreferenced entries are untouched |
| `SheetSpec.DropKeepsRefs` | sheet.cpp:25-31 | rewiring reverse edges changes no forward edge |
| `SheetSpec.AddKeepsRefs` | sheet.cpp:35-40 | adding reverse edges and placeholders changes no forward edge |
| `SheetSpec.Committed` | sheet.cpp:20-40 | the reference definition of a successful commit: at a fresh position or one without a cell, place the cell and add the new dependencies; over a cell, reset the downstream caches, drop pos from the old dependencies, swap the cell in, and add the new dependencies |
| `SheetSpec.Cleared` | sheet.cpp:71-75 | the reference definition of a clear: nothing changes without an entry or a cell; otherwise the downstream caches are reset and the entry of pos is erased whole |
| `SheetSpec.CommittedIsRewired` | sheet.cpp:20-40 | a commit is the cache reset of a present cell followed by the rewiring |
| `SheetSpec.CommittedRefs` | sheet.cpp:20-40 | after a commit only pos has new forward edges, those of the new cell |
| `SheetSpec.CommittedHolds` | sheet.cpp:20-33 | after a commit pos holds the new cell |
| `SheetSpec.CommittedDependencies` | sheet.cpp:35-40 | after a commit, every position the new cell reads has an entry with a cell, and its reverse edges end with pos once per reference |
| `SheetSpec.CommittedNonEmpty` | sheet.cpp:35-40 | apart from pos, a commit shows a text or a formula only where the table did |
| `SheetSpec.CommittedCovered` | sheet.cpp:18-40 | a commit at a position inside the size keeps every text and formula inside it |
| `SheetSpec.CoveredGrows` | sheet.cpp:18-19 | a larger size still covers |
| `SheetSpec.BoundingBoxUnique` | sheet.cpp:76-87 | the bounding box of a set of positions is determined by the set |
| `SheetSpec.BoundingBoxCovers` | sheet.cpp:76-87 | the bounding box of all entries covers every text and formula |
| `SheetSpec.ClearedCovered` | sheet.cpp:74-75 | clearing keeps a covering size covering |
| `Sheets.BoundingBox` | sheet.cpp:77-86 | one pass over the keys, widening as needed, yields their bounding box |
| `Sheets.Max` | sheet.cpp:18-19 | the larger of two integers |
| `Sheets.Sheet.ClearCell` | sheet.cpp:67-89 | an invalid position fails and changes nothing. A position without an entry or without a cell is left alone. Otherwise the table becomes Cleared, GetCell(pos) reads null, and when pos was on the last row or column the size becomes the bounding box of the remaining entries, placeholders included; otherwise the size is kept |
| `Sheets.Sheet.ClearEntry` | sheet.cpp:74-88 | drops the downstream caches, erases the entry of pos with its reverse edges, and rebuilds the size when pos was on its last row or column |
| `Sheets.Sheet.Erase` | sheet.cpp:75 | the entry of pos is removed, reverse edges and all, and every other entry is kept |
| `Sheets.Sheet.Resize` | sheet.cpp:76-87 | when pos was on the last row or column the size becomes the bounding box of the keys, and otherwise it is kept |
| `SheetInvariants.EmptyTableInvariant` | sheet.h:48-49 | the empty table satisfies the graph invariant |
| `SheetInvariants.CommittedKeys` | sheet.cpp:20-40 | a commit adds pos and the new dependencies and removes nothing, given that every read position had an entry |
| `SheetInvariants.CommittedCell` | sheet.cpp:35-40 | after a commit every entry holds a cell when every entry did before and every read position had an entry; without the second premise the commit can create an entry without a cell (SheetFindings.CellessEntryAfterClear) |
| `SheetInvariants.CommittedCellPresent` | sheet.cpp:23-40 | the same, for a commit over an existing entry: every entry keeps a cell when every entry had one and every read position had an entry |
| `SheetInvariants.RewiredCell` | sheet.cpp:25-40 | the rewiring at an existing entry leaves a cell in every entry when every entry had one and every read position had an entry |
| `SheetInvariants.RewiredRefs` | sheet.cpp:25-40 | the rewiring changes only the forward edges of pos |
| `SheetInvariants.RewiredCount` | sheet.cpp:25-40 | the rewiring over an existing cell keeps reverse edges the transpose of forward edges, when they were the transpose and every read position had an entry |
| `SheetInvariants.CommittedCountFresh` | sheet.cpp:20-22 | a commit at a position without an entry keeps reverse edges the transpose of forward edges, when they were the transpose and every read position had an entry |
| `SheetInvariants.CommittedCountPresent` | sheet.cpp:23-40 | a commit over an existing cell keeps reverse edges the transpose of forward edges, when they were the transpose and every read position had an entry |
| `SheetInvariants.CommitPreservesInvariant` | sheet.cpp:14-40 | a commit that passed the cycle check preserves the graph invariant |
| `SheetInvariants.ClearedRefs` | sheet.cpp:75 | clearing removes the forward edges of pos and no others |
| `SheetInvariants.ClearedKeys` | sheet.cpp:75 | clearing a held cell erases its whole entry and keeps every other key |
| `SheetInvariants.ClearPreservesNoNullCells` | sheet.cpp:74-75 | clearing keeps every remaining entry holding a cell |
| `SheetInvariants.ClearPreservesAcyclic` | sheet.cpp:74-75 | clearing cannot create a cycle |
| `SheetInvariants.ClearUnreadStaysClosed` | sheet.cpp:75 | on a table satisfying the graph invariant, clearing a cell nobody reads leaves every read position with an entry |
| `SheetInvariants.ClearReadDangles` | sheet.cpp:75 | on a table satisfying the graph invariant, clearing a cell that is read leaves its reader reading a position without an entry |
| `SheetInvariants.ClearKeepsClosedIff` | sheet.cpp:75 | on a table satisfying the graph invariant, clearing keeps Closed exactly when the cleared cell had no reverse edges |
| `SheetInvariants.ClearUnreadingStaysTransposed` | sheet.cpp:75 | on a table satisfying the graph invariant, clearing a cell that reads nothing keeps reverse edges the transpose |
| `SheetInvariants.ClearReadingLeavesStaleEdge` | sheet.cpp:75 | on a table satisfying the graph invariant, clearing a formula that reads something leaves pos in the reverse edges of what it read, so reverse edges are no longer the transpose |
| `SheetInvariants.ClearKeepsTransposedIff` | sheet.cpp:75 | on a table satisfying the graph invariant, clearing keeps Transposed exactly when the cleared cell read nothing |
| `SheetFindings.AfterA1ReadsB1Shape` | sheet.cpp:7-41 | SetCell(A1, "=B1") on an empty sheet gives A1 and B1 entries, with A1 in the reverse edges of B1, and the invariant holds |
| `SheetFindings.ClearBreaksInvariantExample` | sheet.cpp:75 | from there, clearing B1 breaks Closed and clearing A1 breaks Transposed |
| `SheetFindings.ShortcutMissesCycleAfterClear` | sheet.cpp:155-158 | after SetCell(A1, "=B1") and ClearCell(B1), the shortcut lets B1 = "=A1" through although A1 reaches B1, and the committed graph has a cycle |
| `SheetFindings.ResetCacheAsWritten` | sheet.cpp:144-152 | the recursion of the code, with a fuel bound: keys are kept, and an absent position returns at once |
| `SheetFindings.AsWrittenDiverges` | sheet.cpp:149-151 | on two entries listing each other as reverse edges, the recursion runs out of any fuel |
| `SheetFindings.ResetCacheDivergesAfterClear` | sheet.cpp:144-152 | SetCell(A1, "=B1"); ClearCell(A1); SetCell(B1, "=A1") passes every check and keeps the graph acyclic, yet the next ResetCache from B1 never returns |
| `SheetFindings.StaleCacheAfterClear` | sheet.cpp:20-22 | after SetCell(A1, "=B1"); ClearCell(B1) and a GetValue that fills A1's cache, SetCell(B1, "5") is accepted and takes the fresh-position branch; B1's entry lists no reader, and A1 still reads B1 and keeps its cache |
| `SheetFindings.CellessEntryAfterClear` | sheet.cpp:179-186 | SetCell(A1, "=B1"); ClearCell(B1); SetCell(A1, "x") passes every check and leaves an entry for B1 without a cell, which the next SetCell(A1, "=B1") makes the colour search dereference |

## Left out

- Printing (`PrintValues`, `PrintTexts`) is stream output and is not part of this model.
- `formula.cpp` and the expression tree behind it are not part of this model. A formula is a value carrying its expression and its referenced positions. Parsing (`Parser`) and evaluation (`Evaluator`) are function parameters, and parsing may fail. The adjacent-duplicate removal on the referenced cells is not modelled, so references may repeat, and rewiring handles repeats one occurrence at a time.
- Numbers and evaluation errors are opaque types, because evaluation uses floating point.
- The position codec (`IsValid`, `ToString`, `FromString`) lives in `common.h`, which is not part of this model. Validity is a predicate with 16384 x 16384 bounds; no proof depends on the numbers. Keys are positions, which amounts to assuming an injective `ToString`.
- Note on `unique_ptr`: ownership, the `Cell*` downcasts, the cell's reference back to its sheet and the `CreateSheet` factory are not modelled. Ownership becomes the predicate `Owned`: no two entries share a cell object. Exceptions become `Outcome` and `Result` values.
- Note on empty text: `SetCell` and `Cell.Set` require non-empty text, because the code reads `text.front()`, which is undefined for an empty string.
- The colour maps of the code are nested maps filled by default-inserting lookups. The model reads a missing colour as White and stores only Grey and Black, which gives the same colours on every read.
- Note on entries without a cell: the code dereferences the missing cell of such an entry in the colour search (sheet.cpp:186) and in `ResetCache` (sheet.cpp:148). The model treats such an entry as reading nothing and having nothing to reset (see "## Findings").
- `Sheets.Sheet.ResetCache`: it collects the reachable positions first and then resets them, where the code resets while it recurses. The caches dropped are the same, and nothing reads a cache in between.
- `Sheets.Sheet.Commit`: the reverse-edge rewiring is done on a copy of the vertex map that is assigned to `table` at the end, not entry by entry in place. No other code runs in between, so the order of the individual updates is not observable.
- `Sheets.Sheet.ClearCell`: the second `erase` of the code (sheet.cpp:88) is not a statement of the model. It runs after the first erase has removed the entry, so it finds nothing to remove, and the model asserts at that point that pos has no entry.

## Findings

| source | as written | input that shows it | evidently intended | confidence | as-written member | corrected member |
|---|---|---|---|---|---|---|
| sheet.cpp:144-152 | `ResetCache` recurses into every reverse edge with no record of what it visited. `ClearCell` leaves stale reverse edges, so two entries can list each other, and the recursion then never returns | `SetCell(A1, "=B1"); ClearCell(A1); SetCell(B1, "=A1")`, all accepted, then any `SetCell(B1, ...)` that passes its checks, `SetCell(A1, ...)` over the cell there, or `ClearCell(B1)` | drop each reachable cache once, terminating on any table | not executed | `SheetFindings.ResetCacheDivergesAfterClear` | `Sheets.Sheet.ResetCache` |
| sheet.cpp:186 | the colour search reads `formula->GetReferencedCells()` of every entry it enters. The lookups of the rewiring (sheet.cpp:26) can create entries without a cell | `SetCell(A1, "=B1"); ClearCell(B1); SetCell(A1, "x")`, all accepted, then `SetCell(A1, "=B1")` | an entry without a cell reads nothing, like an absent one | not executed | `SheetFindings.CellessEntryAfterClear` | `Sheets.Sheet.CheckCycleDependencies` |
