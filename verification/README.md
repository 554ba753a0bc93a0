# Verified model of the query service's data structures

The service answers Overpass queries over OpenStreetMap data kept in sorted, cell-partitioned
tables. It is fast because of rewrites: a space-filling index instead of a scan, stored states
instead of a replay of history, delta tiers over a base, an external sort, expressions compiled
to SQL. Each module here models one of those structures and proves that it gives what the simple
thing it replaces would give.

## Modules

* `Hilbert`, `Keys`, `Placement`, `Descent`, `Lookup`, `LeafSelection` - the Hilbert sort key,
  quadkey codes and the leaf search, where a bounding box is stored (the Python corner rule and
  the Rust descent), which cells a query reads, and how leaves are chosen from a histogram.
  `Lookup.NothingMissed` and `Lookup.DescentMissesExactly` join the separately written rules: when a
  stored box that meets the query is in a cell the query reads.
* `History`, `MinorVersions`, `Ingest` - time travel: state intervals and move tombstones, the
  state-at-t read by cell and by id, stored minor versions of ways against recomputation, and the
  extent filter against the sequential rule it stands for.
* `Overlay`, `Recurse` - current rows from a base and delta tiers, hydration by box hint, and the
  `>>` and `<<` fixed point.
* `Spill`, `SpillLayout`, `ExternalSort`, `RunMerge`, `NodeStores`, `NodeWayIndex` - record codecs and spill
  files, the chunked external sort with its heap merge, three node-location stores over byte
  arrays, and the bucketed node-to-way index.
* `Expressions`, `Tokenizer`, `Lexemes`, `Parser`, `TokenParser`, `Printer`, `Precedence`,
  `CallForms` - the expression language from text to tree and back. `Parser` holds the grammar as
  functions on token lists; `TokenParser` is the parser object that advances a position, proved
  against it. `Lexemes`, `Precedence` and `CallForms` say what the language is without the grammar:
  its characters, how its operators bind, what can be called.
* `Doubles`, `Sql`, `ElementSql`, `ElementMeaning`, `SetEvaluation` - doubles with NaN and
  infinities, a small SQL with three-valued logic, the compiler into it, the direct meaning
  of an expression, and the second evaluator.
* `DiffPatch` - the action list between two snapshot runs, read as a patch.
* `CivilDate` - seconds since the epoch as an RFC 3339 date-time.
* `Powers`, `Options` - shared arithmetic of powers of two, and the option type.

Code that changes state step by step is a method or class with loops, proved against functions;
relational code (SQL over whole tables) is sets, sequences and predicates over rows. Coordinates
are e7 integers and the grid is exact integer division.

## Where the code does not do what one would expect

Each but the last is a lemma here, where it applies with the exact condition under which the
expected behaviour holds.

* The leaf cover test (`cells.py:199-217`) also accepts a point before the first leaf, because the
  search is clipped to position 0 (`Keys.UncoveredPointPasses`); the comment at `cells.py:402-407`
  says an uncovered corner never takes an unrounded depth. `Keys.CoverTestIsExact` gives the exact
  condition, and `Placement.BeforeTheFirstLeaf` shows that no lookup can miss anything by it.
* The raw builder's descent contains boxes with closed edges, the lookup cells are half-open. A box
  that ends on the north or east edge of its cell can meet a query in a neighbouring leaf and not be
  found (`Lookup.BoundaryBoxIsMissed`).
  `Lookup.DescentMissesExactly` gives the exact condition; off cell boundaries nothing is missed
  (`Lookup.NothingMissedByDescent`), and the corner rule never misses. When the two builders place a
  box in the same cell is `Descent.PlacementsAgreeExactly`; off cell boundaries, with the south-west
  corner in a leaf, they always do (`Descent.DescentIsPlacement`).
* Stored minor versions equal recomputation exactly when no visible single-version node arrives
  strictly inside the window without an event of its own (`MinorVersions.StoredIsRecomputedExactly`,
  and `UnseenArrivalIsStale` for a way where it does).
* The shadow set removes base rows only, so an element that moved between two delta tiers is still
  returned from the older tier in its old cell (`Overlay.OlderTierRowIsReturned`), although
  docs/m2-contracts.md section 4 lets the newest tier win. `Overlay.AgreementExactly` says when the
  two reads agree.
* The extent filter follows relation members one level deep while its docstring speaks of any
  known member; `Ingest.OneLevelSufficesExactly` says, on the versions read, when that is the same, and
  `Ingest.SecondLevelIsDropped` gives three nested relations where it is not.
* An optional field holding the minimum integer is spilled as absent (`Spill.WaySurvivesExactly`,
  `Spill.MinIsLost`).
* The dense node file computes `id * 8` in 64 bits: a probe 2^61 above a stored id is answered with
  that id's location, and 2^61 - 1 reads past the end (`NodeStores.FarProbesGoWrong`);
  `NodeStores.ProbeAgreesExactly` says for which probes the answer is right. A node at (0, 0) is
  missing there and present in the other two stores (`NodeStores.OriginIsLost`);
  `NodeStores.StoresAgreeExactly` says when all three agree.
* The node-to-way index is sorted exactly when no smaller id falls in a later bucket; ids of 2^34
  and more start over at bucket 0 (`NodeWayIndex.IndexIsSortedExactly`, `LargerIdsWrap`).
* The tokenizer's branch for numbers such as `.5` is never taken, because a dot is tried as
  punctuation first (`Tokenizer.NumbersStartWithDigits`).
* The database orders NaN as equal to itself and greater than every number, Python does not order
  it, so the two expression evaluators differ on comparisons of NaN
  (`SetEvaluation.NanComparisonsDiffer`; `SetEvaluation.EvaluatorsAgreeExactly` says when they do
  not). The set evaluator also fails on an infinite result, which
  the compiled SQL prints (`SetEvaluation.OverflowsDiffer`), and on nothing else
  (`SetEvaluation.EvaluateIsMeaning`).
* Undoing a plain diff needs a deleted key not to be repeated with different elements in the first
  run (`DiffPatch.PlainDiffUndoesExactly`, `DiffPatch.RepeatedDeleteIsNotUndone`).
* `_cells_for_present` takes the length of the text "root" as a depth; the extra keys this makes
  name no present cell, and the root is the empty key here.

## Model

| member | source | states |
|---|---|---|
| Hilbert.HilbertXy2d | src/osmpq/layout/hilbert.py:15-35 | the bit loop computes the curve position that an independent quadrant-by-quadrant description gives |
| Hilbert.TurnColumns | src/osmpq/layout/hilbert.py:71-87 | one masked pass over whole columns is one pass of the scalar loop on every row |
| Hilbert.HilbertKeys | src/osmpq/engine/hilbert.py:115-131 | the array form gives, on every row, the same position as the scalar one |
| Hilbert.PointOfIndex | rust/osmpq-raw/src/cells.rs:94-112 | reading a point back from its position gives the point |
| Hilbert.IndexOfPoint | rust/osmpq-raw/src/cells.rs:94-112 | every position in [0, 4^k) is the position of the point read back from it, so the curve is a bijection |
| Hilbert.Endpoints | src/osmpq/layout/hilbert.py:15-35 | the curve starts at the lower left corner of the grid and ends at the lower right one, at every order |
| Hilbert.ConsecutiveAreAdjacent | src/osmpq/layout/hilbert.py:15-35 | consecutive positions are edge-adjacent grid points |
| Hilbert.HalvingDropsOneDigit | src/osmpq/layout/hilbert.py:15-35 | halving both coordinates drops exactly one base-4 digit of the position |
| Hilbert.HalvingDropsDigits | src/osmpq/layout/hilbert.py:15-35 | shifting both coordinates by m bits drops exactly m base-4 digits of the position |
| Hilbert.CellIsOneRun | src/osmpq/layout/hilbert.py:1-35 | a point lies in a depth-j cell exactly when its position lies in one contiguous run of 4^m positions, whose start is fixed by the cell |
| Hilbert.LoopStep | src/osmpq/engine/hilbert.py:33-53 | one pass adds the quadrant of the current bit and leaves the same problem one order smaller |
| Keys.PointToQk | src/osmpq/layout/cells.py:104-139 | the MSB-first loop over the bits of x and of the inverted y computes the base-4 value of the key of the point |
| Keys.ValueInjective | src/osmpq/layout/cells.py:141-148 | keys of one depth with equal values are equal |
| Keys.SharedPrefix | src/osmpq/layout/cells.py:95-139 | two points share d digits exactly when they lie in the same depth-d cell of the grid |
| Keys.PrefixIsRange | src/osmpq/layout/cells.py:150-158 | a point is in a cell exactly when its code is in the code range of the cell |
| Keys.LookupFindsTheLeaf | src/osmpq/layout/cells.py:188-194 | searching the lower bounds gives the one leaf that holds the point, when a leaf does |
| Keys.CoverTestIsExact | src/osmpq/layout/cells.py:199-217 | the cover test together with "not before the first leaf" holds exactly when some leaf holds the point |
| Keys.UncoveredPointPasses | src/osmpq/layout/cells.py:199-217 | at every resolution the cover test alone accepts a point before the first leaf, which no leaf holds |
| Placement.CornersBoundTheBox | src/osmpq/layout/cells.py:336-397 | if the two corners share d digits, every point of the box has those digits |
| Placement.PlacedCellHolds | src/osmpq/layout/cells.py:336-436 | the cell of a box holds every point of the box |
| Placement.PlacedCellAboveLeaf | src/osmpq/layout/cells.py:398-436 | a cell whose box reaches into a leaf is that leaf or an ancestor of it at an allowed depth |
| Placement.FirstDigit | src/osmpq/layout/cells.py:104-139 | the first digit of a point is its quadrant, cut at the equator and the zero meridian |
| Placement.BeforeTheFirstLeaf | src/osmpq/layout/cells.py:398-423 | the unrounded depth that the cover test lets through before the first leaf never gives a cell above a leaf |
| Placement.ContainingCellV2 | src/osmpq/layout/cells.py:336-436 | the placement loop, with digits read off the codes, computes the placement rule; a maximum depth beyond the grid is an error |
| Descent.Descend | rust/osmpq-raw/src/cells.rs:236-274 | the descent loop that enters the only child containing the box computes the recursive rule |
| Descent.PlacementsAgreeExactly | rust/osmpq-raw/src/cells.rs:236-290 | for every box, wherever its corners lie, the descent and the corner rule give the same cell exactly when the depth the descent stops at and the depth the corners share, cut at the nearest leaf, lie above and below the same allowed depths and both or neither reach that leaf |
| Descent.OneChildExactly | rust/osmpq-raw/src/cells.rs:250-266 | exactly one child contains the box when the child of the south-west corner does and the box does not lie, without width or height, on the line that halves the cell |
| Descent.GapPlacementExactly | rust/osmpq-raw/src/cells.rs:236-290 | for a box off cell boundaries with its south-west corner in no leaf, the two rules agree exactly when no allowed depth lies below the nearest leaf down to the depth the corners share and the nearest leaf gives no depth that is not allowed |
| Descent.UpperEdgeDisagrees | rust/osmpq-raw/src/cells.rs:236-290 | a box whose north-east corner is not a point of the descent cell is placed differently by the corner rule |
| Descent.DescentCell | rust/osmpq-raw/src/cells.rs:236-290 | for every box the descent gives a leaf or an allowed ancestor, never strictly below a leaf, that contains the box with closed edges |
| Descent.PlacedCellIsSmallest | src/osmpq/layout/cells.py:336-436 | with the south-west corner in a leaf, the corner rule gives the smallest cell holding both corners among the leaf and its ancestors at allowed depths |
| Lookup.CellBBox | src/osmpq/engine/catalog.py:377-395 | the bisection loop over the digits of a key computes the edges of its grid cell |
| Lookup.QueryMeetsTheCell | src/osmpq/engine/catalog.py:398-401 | a query box holding a point of a cell passes the box intersection test with that cell |
| Lookup.AddLeaf | src/osmpq/engine/catalog.py:482-513 | for a met leaf the loop adds exactly the leaf and its present ancestors at allowed depths |
| Lookup.CellsForBBox | src/osmpq/engine/catalog.py:449-513 | the lookup lists exactly the present cells that are a met leaf or one of its allowed ancestors, and every present cell without a box |
| Lookup.SelectedExactly | src/osmpq/engine/catalog.py:482-513 | a cell is read exactly when it is a prefix of a leaf meeting the query - in v2 way and relation tables of an allowed length - or has rows in the delta only and meets the query |
| Lookup.MeetsMeansCommonPoint | src/osmpq/engine/catalog.py:398-401 | the intersection test holds exactly when query and cell share a point, edges included |
| Lookup.TightCellsAreRead | src/osmpq/engine/catalog.py:506-508 | in node and v1 tables every present leaf holding a point of the query, and every present ancestor of it, is read |
| Lookup.NodesAreNeverMissed | src/osmpq/engine/catalog.py:482-513 | a node is stored in the leaf the search finds for it, and that leaf is read whenever the query holds the node |
| Lookup.DeltaCellsAreRead | src/osmpq/engine/catalog.py:509-513 | a cell with rows in the delta only is read whenever it holds a point of the query |
| Lookup.NothingMissed | src/osmpq/engine/catalog.py:482-513 | a box stored by the corner rule that meets the query at a point lying in a leaf is in a listed cell |
| Lookup.DescentMissesExactly | rust/osmpq-raw/src/cells.rs:144-148 | for every box, a cell given by the descent is never missed exactly when each point of the box on the upper edges of the cell that lies in a leaf is touched by a leaf under the cell |
| Lookup.BoundaryBoxIsMissed | rust/osmpq-raw/src/cells.rs:144-148 | with the raw builder's allowed depths, at every resolution of at least 4: a box ending on the east edge of its cell that a query meeting it in a leaf does not find |
| Lookup.AccumulateBox | rust/osmpq-raw/src/ways.rs:112-170 | the min/max loop gives the tight box of the resolved references, none when nothing resolves |
| Lookup.FoundIsEdgeNodesReached | rust/osmpq-raw/src/ways.rs:158-170 | the cell of a stored way is found from each of its nodes that lies in a leaf exactly when each such node on the upper edges of the cell is touched by a leaf under the cell |
| Lookup.ParentWayIsRead | src/osmpq/engine/sources.py:905-993 | the cell of a way found from its nodes that refers to a source node is among the selected cells and its box overlaps the box of the sources |
| Lookup.SemiJoinIsExhaustiveExactly | src/osmpq/engine/sources.py:889-993 | the semi-join, unless its fraction guard gives up, finds exactly the ways with a source node among their references, for all source nodes, exactly when every way meets that condition on its edge nodes; with no cell selected there is no such way |
| Lookup.SemiJoinOfPlacedWays | src/osmpq/engine/sources.py:889-993 | it is exhaustive without further condition for ways stored by the corner rule, and for any ways whose boxes are off the cell boundaries |
| Lookup.SemiJoinReadsSelected | src/osmpq/engine/sources.py:889-993 | what the semi-join answers lies in cells that were read, and it answers only below the guard |
| Lookup.GuardIsStrict | src/osmpq/engine/sources.py:940-948 | the guard gives up when the cells are more than the fraction of the leaves, not at it |
| History.BaseRowsAreFinalized | src/osmpq/history/build.py:71-120 | what the writer makes of the first states of an element is exactly one row for each state and one tombstone for each move |
| History.StateAtIsLast | src/osmpq/history/schema.py:36-43 | the state at t is the last one starting at or before t |
| History.ByIdReadIsStateAt | src/osmpq/engine/attic.py:149-178 | the by-id snapshot read gives exactly the visible state at t |
| History.StaleRowIsSuperseded | src/osmpq/history/build.py:94-118 | a visible row that is no longer the state at t never ranks first, whichever cells are read |
| History.CellReadIsStateAt | src/osmpq/engine/attic.py:117-146 | the cell-scoped snapshot read gives exactly the visible states at t whose cell is read |
| History.CellReadAgreesWithByIdRead | src/osmpq/engine/attic.py:117-178 | for every history, cut, time and cell set the cell-scoped read is the by-id read restricted to those cells |
| History.ReadsCarryTheState | src/osmpq/engine/attic.py:117-178 | a snapshot returns, of each element, exactly the row with every column of the state that started last, when it is visible; by cell, when its cell is read |
| History.FinalizedExactly | src/osmpq/history/build.py:71-120 | the rows written are, column by column, each state ending at the start of the next, and for each move a deletion in the cell left |
| History.CutDoesNotMatter | src/osmpq/engine/attic.py:117-146 | where the history is cut between base and tiers changes no returned state |
| History.FirstIsUnique | src/osmpq/history/schema.py:23-27 | the state order leaves no ties between rows of one element |
| History.TombstonesAreNeeded | src/osmpq/history/build.py:94-118 | without move tombstones a moved element is still returned in its old cell |
| History.TieRuleIsNeeded | src/osmpq/history/schema.py:23-27 | a state and the tombstone of its move agree on every key of the order except visibility |
| History.NodeCellsAreWellFormed | src/osmpq/history/build.py:184-205 | filling the cells of invisible node states from the state before gives histories the theorems accept |
| History.WayCellsAreWellFormed | src/osmpq/history/build.py:404-424 | filling missing way cells gives histories the theorems accept |
| History.WayCellIsTheLast | src/osmpq/history/build.py:404-424 | the filled cell of a way is the last one placed so far, root before any |
| MinorVersions.StartsAreDistinct | src/osmpq/history/build.py:287-346 | two states of a way never start at the same instant |
| MinorVersions.RowNumbersFollowTime | src/osmpq/history/build.py:325-346 | minor numbers grow with time |
| MinorVersions.RowNumbersCountFromOne | src/osmpq/history/build.py:325-346 | minor numbers count from 1 without gaps |
| MinorVersions.EventsExactly | src/osmpq/history/build.py:287-330 | the events of a version are the starts, strictly inside its window, of states of its nodes that have at least two |
| MinorVersions.PositionOfTheLastState | src/osmpq/history/build.py:325-346 | a node is where its last state put it, and nowhere while that state is a deletion |
| MinorVersions.NoPositionBefore | src/osmpq/history/build.py:325-346 | a node is nowhere before its first state |
| MinorVersions.ChosenCarries | src/osmpq/history/build.py:287-346 | the state in force carries its version, the number of events up to then as minor number, and the positions of the nodes at its start |
| MinorVersions.ChosenIsOfTheVersion | src/osmpq/history/build.py:287-346 | at every instant in the window of a version the state with the latest start belongs to that version |
| MinorVersions.StoredIsRecomputedExactly | src/osmpq/history/build.py:287-346 | stored points equal recomputed ones over the whole window of a visible version exactly when no visible single-version node arrives inside it unseen by an event |
| MinorVersions.UnseenArrivalIsStale | src/osmpq/history/build.py:287-346 | a way whose one node first appears inside its window is stored without the point |
| MinorVersions.StoredBoxBoundsPositions | src/osmpq/history/build.py:325-353 | the stored box is the tight box of the known positions at every instant of the window |
| Ingest.DedupKeepsOneRow | src/osmpq/history/ingest.py:243-261 | each (id, version) read keeps exactly its last-seen row |
| Ingest.FilterIsSequential | src/osmpq/history/ingest.py:299-383 | the filter by least first-known time keeps exactly what a scan in time order with a growing known set keeps, for nodes, ways and relations one level deep |
| Ingest.ThirdPassDecides | src/osmpq/history/ingest.py:333-378 | two relation passes keep what any number of passes keeps exactly when a third pass keeps nothing more |
| Ingest.OneLevelSufficesExactly | src/osmpq/history/ingest.py:333-378 | one level of nesting keeps what unlimited nesting would keep exactly when no visible relation version has a member known only through a member of its own, before the relation is itself known directly or one level deep |
| Ingest.SecondLevelIsDropped | src/osmpq/history/ingest.py:333-378 | of three nested relations the outermost is dropped |
| Overlay.CellReadIsCurrent | src/osmpq/engine/sources.py:166-321 | a row of the cell-scoped read is the current row, in a read cell, when nothing stale is visible |
| Overlay.AgreementExactly | src/osmpq/engine/sources.py:166-415 | for one element the cell-scoped read agrees with the by-id read on every cell set exactly when each superseded live tier row has a higher row in its cell, a superseded base row has a tier row or a tombstone in its cell, and a base row that is not superseded has no tombstone that is looked at |
| Overlay.CellReadExactly | src/osmpq/engine/sources.py:166-321 | a read by cell returns exactly the live row of the highest tier with a row of the element in the cells, deleted rows included, or the base row where no tier has one and no tombstone lies in the cells |
| Overlay.ByIdReadExactly | src/osmpq/engine/sources.py:322-415 | a read by id returns exactly the live row of the highest tier that knows the element, or the base row where none does |
| Overlay.DeletedIsHidden | src/osmpq/engine/sources.py:202-228 | an element deleted in the highest tier that knows it is not returned by a read over the cell it was deleted in, whatever older rows and tombstones there are |
| Overlay.OlderTierRowIsReturned | src/osmpq/engine/sources.py:202-228 | an element moved between two tiers is still returned from the older tier in its old cell |
| Overlay.HydrationIgnoresTheHintExactly | src/osmpq/engine/sources.py:1213-1307 | hydration of an id through a box hint with its by-id remainder is the by-id lookup for every hint and every kept set exactly when nothing stale of the id is exposed |
| Overlay.FoundExactly | src/osmpq/engine/sources.py:1213-1307 | the hint finds what a read by cell finds, base rows only in the files kept |
| Recurse.WithinIsReachableWithin | src/osmpq/engine/recurse.py:397-521 | the elements of n rounds are those at the end of a walk of at most n hops through existing elements |
| Recurse.FixedPointIsReachability | src/osmpq/engine/recurse.py:397-521 | when a round adds nothing the result is everything reachable, cycles and dangling references included |
| Recurse.HopFollowsReferences | src/osmpq/engine/recurse.py:397-521 | a hop goes from an element to everything in its reference list, or to everything that lists it |
| Recurse.RecurseTransitive | src/osmpq/engine/recurse.py:397-521 | the loop ends and returns everything reachable within the hop cap minus the input, plus the input relations for >>; without hitting the cap that is everything reachable |
| LeafSelection.PrefixSums | rust/osmpq-raw/src/cells.rs:296-304 | the running totals of the histogram |
| LeafSelection.RangeCount | rust/osmpq-raw/src/cells.rs:305-316 | the difference of two totals counts the nodes of a cell |
| LeafSelection.SelectLeaves | rust/osmpq-raw/src/cells.rs:296-331 | the recursion over counts and totals computes the leaves of the splitting rule, at least one of them |
| LeafSelection.SomeLeafIsSelected | rust/osmpq-raw/src/cells.rs:326-330 | the recursion never comes back empty, so the fallback to the root is never taken |
| LeafSelection.SelectionIsALeafIndex | rust/osmpq-raw/src/cells.rs:163-185 | the leaves have disjoint code ranges in ascending order, as the search expects |
| LeafSelection.SelectionCountsEverything | rust/osmpq-raw/src/cells.rs:296-331 | the leaf counts sum to the total |
| LeafSelection.LeavesRespectThreshold | rust/osmpq-raw/src/cells.rs:305-331 | a leaf holds at most the threshold unless it is at the maximum depth, and is not empty |
| LeafSelection.SplitsAreNeeded | rust/osmpq-raw/src/cells.rs:316-331 | every cell above a leaf counts more than the threshold |
| LeafSelection.HistogramPass | rust/osmpq-raw/src/nodes.rs:37-66 | the pass counts each code of the nodes inside the optional box, saturating at the 32-bit maximum, and finds their number and greatest id |
| LeafSelection.TallyCountsNodes | rust/osmpq-raw/src/nodes.rs:37-66 | what is counted for a code is the number of nodes inside the closed box that have it |
| LeafSelection.EveryNodeLandsInItsLeaf | rust/osmpq-raw/src/nodes.rs:139-141 | the search sends every counted node to the one leaf whose range holds its code |
| Spill.LeRoundTrip | rust/osmpq-raw/src/spill.rs:63-81 | little-endian bytes read back as the number |
| Spill.NodeRoundTrip | rust/osmpq-raw/src/spill.rs:157-190 | a node record reads back, with Some(MIN) fields as None, consuming exactly its bytes |
| Spill.WayRoundTrip | rust/osmpq-raw/src/spill.rs:245-305 | the same for a way record with references, tags, metadata and geometry |
| Spill.WaySurvivesExactly | rust/osmpq-raw/src/spill.rs:35-61 | a way record comes back unchanged exactly when no optional field is Some(MIN) |
| Spill.MinIsLost | rust/osmpq-raw/src/spill.rs:35-61 | a way with the west edge of its box at the minimum comes back without that edge |
| Spill.RecordsOfFrames | rust/osmpq-raw/src/spill.rs:323-365 | a file of framed payloads reads back as the payloads in order |
| Spill.ReadRecords | rust/osmpq-raw/src/spill.rs:348-365 | the read loop computes the records of a file; a payload cut short is an error, under four trailing bytes are its end |
| Spill.SpillSet.Append | rust/osmpq-raw/src/spill.rs:323-334 | an append adds one payload to its own cell and changes no other |
| Spill.SpillSet.ReadBack | rust/osmpq-raw/src/spill.rs:323-365 | the file of a cell reads back as what was appended to it, in order |
| Spill.DecodeNodeRecord | rust/osmpq-raw/src/spill.rs:169-189 | one cursor over the payload decodes the node record |
| Spill.DecodeWayRecord | rust/osmpq-raw/src/spill.rs:268-305 | one cursor over the payload decodes the way record, with its reference and tag loops |
| Spill.EncodeForgetsMin | rust/osmpq-raw/src/spill.rs:35-61 | a way and the way that comes back have the same bytes |
| SpillLayout.NodeLayout | rust/osmpq-raw/src/spill.rs:158-167 | a node record is id, latitude, longitude, curve position and number of tags in 8, 4, 4, 8 and 4 bytes, least significant first, then tags and metadata |
| SpillLayout.WayLayout | rust/osmpq-raw/src/spill.rs:246-253 | a way record is id, number of references, the references, number of tags, then tags, metadata and geometry |
| SpillLayout.MetaLayout | rust/osmpq-raw/src/spill.rs:192-207 | metadata is version, changeset, time, user id, a byte for whether there is a user, and the user name |
| SpillLayout.GeoLayout | rust/osmpq-raw/src/spill.rs:254-266 | geometry is the box, west first, the shape, two flags, the centroid and the curve position |
| SpillLayout.ShapeLayout | rust/osmpq-raw/src/spill.rs:93-101 | an optional shape is 0, or its length plus one and its bytes |
| Spill.Cursor.TakeRefs | rust/osmpq-raw/src/spill.rs:268-283 | the reference loop takes the references the decoder describes and leaves the rest |
| Spill.Cursor.TakePairs | rust/osmpq-raw/src/spill.rs:134-144 | the tag loop takes the tags the decoder describes and leaves the rest |
| ExternalSort.SortSorts | rust/osmpq-raw/src/ways.rs:269-274 | the library sort on (hilbert, id) is a sorted permutation |
| ExternalSort.SortedOrderUnique | rust/osmpq-raw/src/ways.rs:269-274 | rows with distinct keys have one sorted order |
| ExternalSort.WriteSortedRun | rust/osmpq-raw/src/ways.rs:315-327 | a run file holds the sorted chunk |
| ExternalSort.SpillToSortedRuns | rust/osmpq-raw/src/ways.rs:281-310 | whatever the chunk size, the runs are the sorted pieces of a cut of the whole file, each flushed by the row that brings its encoded size to the chunk size |
| RunMerge.PopIsLeast | rust/osmpq-raw/src/ways.rs:344-371 | the top heap entry is a least remaining row of all runs |
| RunMerge.PopKeepsMerge | rust/osmpq-raw/src/ways.rs:403-429 | popping and refilling keeps exactly one heap entry for each run with rows left |
| RunMerge.WayRunMerge.constructor | rust/osmpq-raw/src/ways.rs:379-401 | the merge starts with all rows of all runs remaining |
| RunMerge.WayRunMerge.Next | rust/osmpq-raw/src/ways.rs:403-429 | each call removes and returns a least remaining row, None exactly when none remains |
| RunMerge.SortThroughRuns | rust/osmpq-raw/src/ways.rs:281-429 | chunking, sorting and merging gives a sorted permutation of the file, identical to the in-memory sort when keys are distinct |
| RunMerge.DecodeAndSortInMemory | rust/osmpq-raw/src/ways.rs:269-274 | reading the whole file and sorting it gives that in-memory sort |
| RunMerge.CleanWay | rust/osmpq-raw/src/ways.rs:281-340 | what comes back of a spilled way survives being spilled to a run |
| RunMerge.SortWays | rust/osmpq-raw/src/ways.rs:281-429 | the sort through runs for spill files of ways, with any fields: the ways that come back, by curve position and then by id |
| RunMerge.SortWaysInMemory | rust/osmpq-raw/src/ways.rs:269-274 | the in-memory path for the same files gives their sort, by curve position and then by id |
| NodeStores.DenseFile.Put | rust/osmpq-raw/src/store.rs:98-105 | the two writes change the one slot of the id and no other; an id out of range changes nothing |
| NodeStores.DenseFile.Get | rust/osmpq-raw/src/store.rs:173-188 | the answer in terms of the puts so far: the last in-range put, missing at (0, 0), and the wrap-around of the offset |
| NodeStores.SortedFile.Put | rust/osmpq-raw/src/store.rs:106-121 | the record is written after the earlier ones and leaves them alone; past the capacity nothing is written |
| NodeStores.SortedFile.Get | rust/osmpq-raw/src/store.rs:189-211 | the hand-written binary search ends and answers as the map of the records kept |
| NodeStores.LastPutWins | rust/osmpq-raw/src/store.rs:173-188 | the map the stores are compared with has the location last put for an id |
| NodeStores.StoresAgreeExactly | rust/osmpq-raw/src/store.rs:95-214 | after ascending puts the three stores answer every probe below 2^61 - 1 alike exactly when ids are in range, none is at (0, 0) and the capacity suffices |
| NodeStores.ProbeAgreesExactly | rust/osmpq-raw/src/store.rs:173-188 | for a representable build and any probe, the dense file answers as the map exactly below 2^61 - 1 and, beyond, where the wrapped id is neither 2^61 - 1 nor stored |
| NodeStores.OriginIsLost | rust/osmpq-raw/src/store.rs:173-188 | a node put at (0, 0) is missing in the dense file |
| NodeStores.FarProbesGoWrong | rust/osmpq-raw/src/store.rs:173-188 | with node 5 stored, the probe 2^61 + 5 gives its location and 2^61 - 1 panics |
| NodeWayIndex.FillBuckets | rust/osmpq-raw/src/index.rs:57-88 | each bucket file holds, in order, the pairs of the node ids that belong to it |
| NodeWayIndex.BucketIsBits | rust/osmpq-raw/src/index.rs:18-20 | the bucket is bits 26 to 33 of the id, in two's complement |
| NodeWayIndex.PairsExactly | rust/osmpq-raw/src/index.rs:57-88 | the pairs are those of each way and each of its references that is not null |
| NodeWayIndex.OrderIsNodeThenWay | rust/osmpq-raw/src/index.rs:93-114 | pairs are in order exactly by node and then by way |
| NodeWayIndex.SortBucket | rust/osmpq-raw/src/index.rs:93-114 | a bucket file reads back as its pairs and is sorted by (node, way) |
| NodeWayIndex.IndexIsSortedExactly | rust/osmpq-raw/src/index.rs:90-117 | the concatenated buckets are the sort of all pairs exactly when no smaller node id falls in a later bucket |
| NodeWayIndex.NonNegativeIdsFollow | rust/osmpq-raw/src/index.rs:18-20 | node ids in [0, 2^34) meet that condition |
| NodeWayIndex.LargerIdsWrap | rust/osmpq-raw/src/index.rs:18-20 | an id of 2^34 breaks it |
| NodeWayIndex.WriteBatches | rust/osmpq-raw/src/index.rs:128-145 | the batches are the index cut in order, full but the last, each with its exact node id range |
| NodeWayIndex.BuildNodeWayIndex | rust/osmpq-raw/src/index.rs:29-145 | the whole build: the batches hold the sort of all pairs exactly under that condition |
| TokenParser.ExpressionParser.ParseTernary | src/osmpq/ql/evaluator.py:358-366 | the ternary level does what the grammar function does and advances to its rest |
| TokenParser.ExpressionParser.ParseBinary | src/osmpq/ql/evaluator.py:368-408 | the six left-associative loops compute the grammar at their levels |
| TokenParser.ExpressionParser.ParseUnary | src/osmpq/ql/evaluator.py:410-417 | chains of prefix operators |
| TokenParser.ExpressionParser.ParseOperand | src/osmpq/ql/evaluator.py:419-480 | literals, parentheses, tags, counts, aggregates and calls with their arities |
| TokenParser.ExpressionParser.ParseWhole | src/osmpq/ql/evaluator.py:482-486 | a program is one expression and then the end |
| TokenParser.ParseExpression | src/osmpq/ql/evaluator.py:489-493 | from text to tree: tokenize, then parse, ending on every text |
| Precedence.ParsesByPrecedence | src/osmpq/ql/evaluator.py:355-417 | every expression without parentheses is parsed by precedence: the last operator of the weakest level is the root, of the levels ||, &&, == !=, < <= > >=, + -, * /; prefix operators bind before any, ?: after all and to the right |
| Precedence.TwoOperators | src/osmpq/ql/evaluator.py:368-417 | of two operators the tighter one is the inner one, and of one level the first |
| CallForms.CallsParseExactly | src/osmpq/ql/evaluator.py:459-478 | a name called with any arguments is accepted exactly when it is one of the eighteen functions or five aggregates, with as many arguments as that takes |
| CallForms.CountsParseExactly | src/osmpq/ql/evaluator.py:431-458 | counts take one of the five types, of the current set or a named one |
| CallForms.TagsParse | src/osmpq/ql/evaluator.py:445-452 | t with a text in square brackets is a tag |
| Printer.ParseUndoesPrint | src/osmpq/ql/evaluator.py:355-480 | at every grammar level, parsing the tokens of a printed tree gives the tree and stops where it ended |
| Printer.ParenthesesAreNeeded | src/osmpq/ql/evaluator.py:355-480 | wherever the printer writes parentheses, parsing without them at that level fails or stops before the end of the tree |
| Parser.AcceptedIsWellFormed | src/osmpq/ql/evaluator.py:355-486 | whatever the parser accepts is a tree that the compiler and the evaluators take |
| Printer.AcceptedReprints | src/osmpq/ql/evaluator.py:355-486 | any accepted program prints to tokens that give the same tree |
| Printer.ParseProgramUndoesPrint | src/osmpq/ql/evaluator.py:315-486 | the same for whole programs and every well-formed tree |
| Tokenizer.Tokenize | src/osmpq/ql/evaluator.py:125-215 | the tokenizer loop computes the tokens that the character rules give, or fails where they fail |
| Tokenizer.ReadStringAt | src/osmpq/ql/evaluator.py:105-122 | the string loop with its escapes |
| Lexemes.LiteralsRead | src/osmpq/ql/evaluator.py:94-122 | a literal in either quote has the characters spelled, with the three control escapes, and ends at the next unescaped quote; without one it is an error |
| Lexemes.IntegersRead | src/osmpq/ql/evaluator.py:191-202 | digits are a number up to what is neither a digit nor a dot before a digit |
| Lexemes.FractionsRead | src/osmpq/ql/evaluator.py:191-202 | digits, a dot and digits are one number |
| Lexemes.NamesRead | src/osmpq/ql/evaluator.py:203-210 | a name is a letter or underscore and then letters, digits and underscores |
| Lexemes.SpacesAreSkipped | src/osmpq/ql/evaluator.py:131-133 | exactly blank, tab, return and newline are skipped |
| Lexemes.TwoCharacters | src/osmpq/ql/evaluator.py:139-162 | the six operators of two characters are read as one token |
| Lexemes.OperatorCharacters | src/osmpq/ql/evaluator.py:163-190 | the operators of one character, where they do not start a longer one |
| Lexemes.PunctuationCharacters | src/osmpq/ql/evaluator.py:82-92 | brackets, comma, dot, colon and question mark are tokens of their own |
| Lexemes.OthersFail | src/osmpq/ql/evaluator.py:211-211 | any other character is an error |
| Tokenizer.NumbersStartWithDigits | src/osmpq/ql/evaluator.py:187-202 | of the two starts the number branch provides for, a digit and a dot before a digit, only the digit ever makes a number |
| Tokenizer.TokensUndoRender | src/osmpq/ql/evaluator.py:125-215 | writing tokens out with escapes and spaces and tokenizing the text gives the tokens back |
| Tokenizer.ParseTextUndoesRender | src/osmpq/ql/evaluator.py:489-493 | every writable tree has a text that tokenizer and parser turn back into it |
| ElementSql.CompilesExactly | src/osmpq/engine/evalsql.py:115-142 | an expression compiles exactly when it is element-scoped: no set count or aggregate, a literal is_tag key, no infinite literal |
| ElementSql.ErrorsAre | src/osmpq/engine/evalsql.py:49-142 | with finite literals, what does not compile is not supported; with nothing else wrong, an infinite literal is an overflow |
| ElementMeaning.FormatMeans | src/osmpq/engine/evalsql.py:81-91 | number formatting: nan for NULL, no decimal point for integers below 10^15 |
| ElementMeaning.StoredAttributes | src/osmpq/engine/evalsql.py:170-185 | id, type, version, timestamp, changeset, uid and user are their columns as text, empty where NULL |
| ElementMeaning.CountsOfElements | src/osmpq/engine/evalsql.py:186-203 | the counts of tags, members and distinct members, for ways, relations and others |
| ElementMeaning.ShapeOfElements | src/osmpq/engine/evalsql.py:210-222 | closedness and length of ways, latitude and longitude of nodes in degrees, nan for others |
| ElementMeaning.IntegersAreShownPlain | src/osmpq/engine/evalsql.py:81-91 | integers below 10^15 in size have no decimal point, larger ones are left to the platform |
| Doubles.FiniteOperations | src/osmpq/engine/evalsql.py:145-167 | the operators on finite numbers are sum, difference, product, quotient and the six comparisons |
| Doubles.InfiniteOperations | src/osmpq/engine/evalsql.py:378-396 | the operators on infinities give what IEEE 754 gives |
| Doubles.TextOrderIsLexicographic | src/osmpq/engine/evalsql.py:145-167 | text is compared by the first character that differs |
| Doubles.DecimalSpells | src/osmpq/engine/evalsql.py:81-91 | the text of an integer spells it in decimal without leading zeros |
| ElementMeaning.BinaryMeans | src/osmpq/engine/evalsql.py:145-167 | each operator under three-valued logic: numeric when both sides parse, else lexical; division by zero is nan |
| ElementMeaning.CountDistinctMeans | src/osmpq/engine/evalsql.py:197-205 | counting distinct type:ref texts counts distinct (type, ref) pairs |
| ElementMeaning.CompiledMeansMeaning | src/osmpq/engine/evalsql.py:115-234 | whatever is NULL in the row, the SQL evaluates to a non-NULL text equal to the direct meaning of the expression |
| ElementMeaning.FilterKeepsTruthyRows | src/osmpq/engine/evalsql.py:108-112 | the row filter is true exactly for values other than "" and "0", never NULL |
| SetEvaluation.EvaluateIsMeaning | src/osmpq/engine/evalsql.py:291-404 | on literals and operators the set evaluator gives the direct meaning with IEEE 754 comparisons, and fails exactly when an operation it reaches has an infinite result |
| SetEvaluation.OverflowsDiffer | src/osmpq/engine/evalsql.py:237-243 | a product too large for a double fails in the set evaluator and is printed by the SQL |
| SetEvaluation.OperandsDifferExactly | src/osmpq/engine/evalsql.py:378-396 | one operation on equal operands differs between the two evaluators exactly on the listed NaN cases |
| SetEvaluation.EvaluatorsAgreeWithoutNan | src/osmpq/engine/evalsql.py:291-404 | when no value reached is NaN, both evaluators give the same string exactly when no operation reached has an infinite result |
| SetEvaluation.EvaluatorsAgreeExactly | src/osmpq/engine/evalsql.py:291-404 | on literals and operators, both evaluators give the same string at every part of the expression that is reached exactly when no comparison reached orders a NaN and no operation reached has an infinite result |
| SetEvaluation.MeaningsAgreeExactly | src/osmpq/engine/evalsql.py:378-396 | the meanings under the two NaN orders agree at every part reached exactly when no comparison reached has operands on which they differ |
| SetEvaluation.NanComparisonsDiffer | src/osmpq/engine/evalsql.py:378-396 | -"x" == -"x" is true in SQL and false in the set evaluator |
| SetEvaluation.UniqueIsTheCommonValue | src/osmpq/engine/evalsql.py:330-335 | u(e) gives a value exactly when every element of the set has it |
| SetEvaluation.ExtremeOfSet | src/osmpq/engine/evalsql.py:336-341 | min(e) and max(e) print the number of an element beyond which no element lies, or nothing when no value is a number |
| SetEvaluation.SetOfValues | src/osmpq/engine/evalsql.py:345-349 | set(e) joins the distinct values of the elements in ascending order |
| SetEvaluation.JoinGrows | src/osmpq/engine/evalsql.py:345-349 | the values are separated by a comma and a space |
| SetEvaluation.CountsOfSets | src/osmpq/engine/evalsql.py:314-325 | count(type) is the number of elements of the type in the current or the named set |
| SetEvaluation.SumOfSet | src/osmpq/engine/evalsql.py:342-344 | sum(e) is the sum of the elements' numbers where nothing is rounded, 0 for none |
| SetEvaluation.RaisedOnSets | src/osmpq/engine/evalsql.py:304-330 | tags and element functions outside an aggregate, and sets that do not exist, are errors |
| DiffPatch.BuildDiffActions | src/osmpq/engine/attic.py:666-770 | the loops over both runs build the action list, with stubs from the raw states in an augmented diff |
| DiffPatch.PatchGivesSecondRun | src/osmpq/engine/attic.py:727-769 | applying the actions to the first run gives the second, repeated keys included |
| DiffPatch.EachKeyOnce | src/osmpq/engine/attic.py:727-769 | no key occurs in two actions |
| DiffPatch.ListedExactly | src/osmpq/engine/attic.py:710-716 | a key is listed exactly when its element appeared, disappeared or changed in version or rendering |
| DiffPatch.ActionsFollowTheRuns | src/osmpq/engine/attic.py:727-769 | creates and modifies come first in the order of the second run, deletes after them in the order of the first |
| DiffPatch.PlainDiffUndoesExactly | src/osmpq/engine/attic.py:727-769 | the old sides of a plain diff take the second run back to the first exactly when no deleted key was repeated with different elements |
| DiffPatch.RepeatedDeleteIsNotUndone | src/osmpq/engine/attic.py:727-769 | a first run that lists one node with two renderings, and a second without it: undoing gives the first rendering, the map held the second |
| DiffPatch.PatchAndUndo | src/osmpq/engine/attic.py:727-769 | without repeated keys, patch and undo are inverse |
| DiffPatch.AugmentedListing | src/osmpq/engine/attic.py:718-769 | an augmented diff creates only what did not exist before and marks deletes of what still exists |
| CivilDate.FieldsOf | rust/osmpq-raw/src/main.rs:315-346 | the two-directional year loop and the month loop give the date-time that names the instant, before and after 1970 |
| CivilDate.DateIsUnique | rust/osmpq-raw/src/main.rs:315-346 | an instant has one date-time |
| CivilDate.SecondsFollow | rust/osmpq-raw/src/main.rs:315-346 | instants count the seconds of the proleptic Gregorian calendar from the start of 1970 |
| CivilDate.TextRoundTrips | rust/osmpq-raw/src/main.rs:347-356 | for years 0 to 9999 the text has digits and separators where RFC 3339 section 5.6 has them and reads back as the same fields |
| CivilDate.NegativePaddedReads | rust/osmpq-raw/src/main.rs:347-356 | before year 0 the sign comes first and counts as a column |
| CivilDate.Format | rust/osmpq-raw/src/main.rs:312-356 | the formatter writes the date-time of the instant |

## Left out

- Parquet, Arrow, memory-mapped files, S3, HTTP and the database engine: a table is a set or
  sequence of rows and a file a sequence of bytes.
- Floating point coordinates: degrees are e7 integers and the grid is exact division, so rounding
  at cell boundaries is not modelled.
- Polygon repair, `around`, area assembly and spheroidal length: foreign calls; a way's length is a
  nullable column.
- Double arithmetic in expressions: reals with infinities and NaN, and rounding, number parsing
  and number text as parameters shared by both evaluators, of which only the text nan of NaN is
  assumed; signed zero prints like zero.
- SQL text: quoting, aliases and operator precedence of the generated string are not modelled, the
  compiler builds the expression tree. SQL's static types are not modelled either; a value of the
  wrong kind reads as NULL.
- Tokenizer.Tokenize: letters and digits are the ASCII ones instead of Python's Unicode tests; a number
  token carries its text.
- The six methods of the binary grammar levels are one method with the level as a parameter.
- Spill.NodeRoundTrip: the encoders are functions on byte sequences, not appends to a buffer. Strings
  are their UTF-8 bytes, so replacing invalid bytes on reading is not modelled.
- Library sorts, heaps, binary searches and `searchsorted` are modelled by what they promise; the
  hand-written binary search is a loop.
- ExternalSort.SpillToSortedRuns: buffering, run file names and their removal are not modelled.
- Lookup.CellsForBBox: the returned list is a set; sorting it is not modelled.
- Lookup.ParentWayIsRead: row-group pruning, delta rows and snapshot reads are not modelled.
- Lookup.SemiJoinIsExhaustiveExactly: the same.
- Placement.ContainingCellV2: the array form is modelled for one row.
- Descent.GapPlacementExactly: boxes off cell boundaries; Descent.PlacementsAgreeExactly has all boxes.
- Recurse.RecurseTransitive: adjacency is a given graph; the SQL of one hop, role and tag filters
  and the difference between no rows and no table when hydrating are not modelled.
- Overlay.AgreementExactly: the updater that must write shadows and tombstones is not part of this
  model; what it must supply is the stated condition.
- History.CellReadAgreesWithByIdRead: strictly increasing starts and cells carried over invisible
  states are assumed of the builder's input; reading cells of tiers is taken with the cell set given.
- NodeStores.SortedFile.Finish: truncating and reopening the file is not modelled, only the length
  that lookups use. Creating a file of 2^63 bytes or more is excluded.
- DiffPatch.BuildDiffActions: the batched raw-state lookups are one restricted map per endpoint.
- SetEvaluation.SumOfSet: stated where nothing is rounded and no number is NaN or infinite, since the order
  in which the database adds is not specified.
- Lexemes.NamesRead: ASCII letters and digits, like Tokenizer.Tokenize.
- Lookup.MeetsMeansCommonPoint: for queries whose edges are in order.
- SetEvaluation.EvaluatorsAgreeExactly: agreement at every part reached, not of the final text alone;
  two differing comparisons can cancel out in a larger expression.
- NodeWayIndex.BuildNodeWayIndex: buckets are sorted one after another instead of in parallel;
  reading way parts and writing index parts is left out.
- Relation minor versions and nested relation boxes: they use current boxes by design.
- `history_cells_for_bbox`, compaction, garbage collection, the main query parser, rendering, the
  server, the scheduler and the command line.
