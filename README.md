# Workflow visualisation layout, modelled in Dafny

This project models the layout engine of a flowchart component for
workflows. Workflows are drawn on a CSS grid. The engine works in three
stages.

1. It turns an ordered list of workflow steps into a step graph. The
   graph has a synthetic "authorize" start node and a node record per
   step, with successor lists, neighbouring steps and fork steps.
2. It allocates an empty grid of placeholder tiles. Column `2 * order`
   holds the steps of that order, and the odd columns hold connectors.
   A fork column is a diamond column, and one extra row is added when a
   fork exists.
3. It populates the grid. A best-first traversal, driven by a min-heap
   keyed on order, places each step in its column and records each
   step's parents. Sibling branches are explored in the order of their
   closest common descendant. The connector passes then draw:
   - horizontal lines and arrows between each parent and child;
   - vertical lines and up-arrows above every `rightUp` turn;
   - a dashed "add branch" tile under each fork.

Matrix entries are strings of the form
`tileType|tileContainer|tileId|col,row[|parentCol,parentRow]`. The model
keeps them as strings and proves the encoders and decoders round-trip.

The grid is an `array<seq<string>>` of columns. As in the source, a
write replaces a whole column with an edited copy. Each connector pass,
and each single node placement (`Populate.PlaceStep`), is specified by a
function on cells and dictionaries, and the method that mutates the
grid is proved to leave exactly that function's result. The functions
carry the properties: round trips, first-least choices, permutations,
and which cells a pass leaves alone.

The traversal is a loop over heap turns, so it is not one function. Its
methods (`Populate.PlacePopped`, `Populate.Turn`, `Populate.Traverse`)
are proved to keep invariants instead:
- every placed step is in the column of its order;
- every cell that differs from the starting grid holds the node tile of
  a placed step of that column, and every placed step's cell holds a
  node tile;
- every parent coordinate recorded under a parent other than the first
  step is that parent's placed cell;
- against a log of every heap insertion, each step other than the first
  is inserted at most once, with priority `order + i / n` for the `i`-th
  of `n` next nodes. The first step is inserted at most twice: once at
  the start and once more only if some step names it as a next node.

At the end, every next node of a placed step is placed with that step
among its recorded parents. Hence every step reachable from the start
node is placed (`Populate.ReachablePlaced`). `Populate.PopulateMatrix`
is proved to return the connector passes applied to the traversal's
matrix, with the connectors running between the placed cells
(`Populate.PairsJoinPlacedSteps`).

The modules are:
- `Strings`: split, join and decimal rendering;
- `Codec`: coordinates and matrix entries;
- `ColumnScans`: the column scans;
- `Placement`: tile replacement and node placement;
- `Allocation`: the initial grid;
- `StepGraph`: the step graph builder;
- `BranchSort`: branch paths and closest-common-descendant sorting;
- `Routing`: connector planning;
- `Passes`: the connector passes over a whole matrix;
- `Heap`: the priority queue interface;
- `Populate`: the traversal and `populateMatrix`;
- `Queries`: `invertKeyVal` and `findNextNode`.

## Model

| member | source | states |
|---|---|---|
| Strings.Split | src/lib/utils/workflowVisUtils.ts:38-41 | `split` yields at least one piece, no piece holds the separator, and joining the pieces with it restores the input |
| Strings.SplitJoin | src/lib/utils/workflowVisUtils.ts:38-41 | splitting a join of separator-free pieces gives exactly those pieces back |
| Strings.IntToDecimal | src/lib/utils/workflowVisUtils.ts:29 | an integer's rendering is non-empty, all digits when non-negative, and starts with '-' (so is not all digits) when negative |
| Strings.ParseNat | src/lib/utils/workflowVisUtils.ts:39 | unary `+` yields a natural exactly on digit strings |
| Strings.ParseNatOfDecimal | src/lib/utils/workflowVisUtils.ts:29-41 | reading back a rendered natural gives that natural |
| Strings.IntToDecimalInjective | src/lib/utils/workflowVisUtils.ts:29 | two integers with the same rendering are equal |
| Codec.EncodeMatrixCoord | src/lib/utils/workflowVisUtils.ts:29 | the definition: `col,row` in decimal, negative numbers with a '-'; its properties are `Codec.CoordRoundTrip`, `Codec.CoordEncodingInjective` and `Codec.NoBarInCoord` |
| Codec.DecodeMatrixCoord | src/lib/utils/workflowVisUtils.ts:38-41 | the definition: split at ',' and read the first two pieces as numbers, `None` where either piece is missing or is not a number; its inverse property is `Codec.CoordRoundTrip` |
| Codec.CoordRoundTrip | src/lib/utils/workflowVisUtils.ts:29-41 | decoding the encoding of a non-negative coordinate gives it back |
| Codec.CoordEncodingInjective | src/lib/utils/workflowVisUtils.ts:29 | distinct coordinates, negative ones included, have distinct encodings |
| Codec.NoBarInCoord | src/lib/utils/workflowVisUtils.ts:29 | an encoded coordinate never contains the entry delimiter |
| Codec.EncodeMatrixEntry | src/lib/utils/workflowVisUtils.ts:52-66 | the definition: the four fields joined by the entry delimiter, then the delimiter and the parent coordinate only when one is given and non-empty; its inverse property is `Codec.EntryRoundTrip` |
| Codec.DecodeMatrixEntry | src/lib/utils/workflowVisUtils.ts:77-93 | the definition: split at the entry delimiter, a missing one of the first four pieces read as the empty string, the fifth as absent; its properties are `Codec.EntryRoundTrip` and `Codec.DecodedFieldsWellFormed` |
| Codec.IsPlaceholder | src/lib/utils/workflowVisUtils.ts:101-104 | the definition: the decoded type is the connector type and the decoded id is the empty name; its properties are `Codec.IsPlaceholderOfEncoded` and `Codec.PlaceholderIsConnector` |
| Codec.EntryRoundTrip | src/lib/utils/workflowVisUtils.ts:52-93 | decoding an encoded entry with delimiter-free fields gives the fields back; an empty parent coordinate comes back absent |
| Codec.IsPlaceholderOfEncoded | src/lib/utils/workflowVisUtils.ts:101-104 | an encoded entry is a placeholder iff it is a connector with the empty id, and a node tile iff it is not a connector |
| Codec.PlaceholderIsConnector | src/lib/utils/workflowVisUtils.ts:101-104 | a placeholder is never a node tile |
| Codec.TokensWellFormed | src/lib/utils/workflowVisUtils.ts:20 | no token contains the delimiter, and only the placeholder name has the empty token |
| Codec.PlaceholderDecodes | src/lib/utils/workflowVisUtils.ts:165-175 | a placeholder tile decodes to its container and own cell and is a placeholder |
| Codec.DecodedFieldsWellFormed | src/lib/utils/workflowVisUtils.ts:77-93 | every decoded field is free of the delimiter, whatever the input string |
| ColumnScans.FirstPlaceholderIndex | src/lib/utils/workflowVisUtils.ts:111-113 | -1 iff no cell is a placeholder, otherwise the first placeholder's row |
| ColumnScans.FirstUnoccupiedInCol | src/lib/utils/workflowVisUtils.ts:111-113 | the `findIndex` scan returns the first placeholder row or -1 |
| ColumnScans.LastNodeIndex | src/lib/utils/workflowVisUtils.ts:120-128 | the row of the last non-connector tile, with no node tile below it, or -1 |
| ColumnScans.LastNodeInCol | src/lib/utils/workflowVisUtils.ts:120-128 | the backward loop returns the last node row or -1 |
| ColumnScans.LastOccupiedIndex | src/lib/utils/workflowVisUtils.ts:135-142 | the row of the last non-placeholder, with only placeholders below it, or -1 |
| ColumnScans.LastOccupiedInCol | src/lib/utils/workflowVisUtils.ts:135-142 | the backward loop returns the last occupied row or -1 |
| ColumnScans.LastNodeNotBelowLastOccupied | src/lib/utils/workflowVisUtils.ts:120-142 | the last node row is never below the last occupied row |
| ColumnScans.LastNodeIndexUnique | src/lib/utils/workflowVisUtils.ts:120-128 | any row with the last-node property is the one the scan returns |
| ColumnScans.LastOccupiedIndexUnique | src/lib/utils/workflowVisUtils.ts:135-142 | any row with the last-occupied property is the one the scan returns |
| Placement.ColumnWith | src/lib/utils/workflowVisUtils.ts:146-155 | the cloned column holds the new tile at the row and is unchanged elsewhere; a write at index length appends one cell |
| Placement.ReplaceTile | src/lib/utils/workflowVisUtils.ts:146-155 | only the target column is replaced, by its copy with the one tile written |
| Placement.NodeRow | src/lib/utils/workflowVisUtils.ts:366-373 | the definition: the first placeholder row, or the parent's row when a parent is given and its row is greater; `Placement.AddNodeToMatrix` is proved to write there |
| Placement.NodeTileFields | src/lib/utils/workflowVisUtils.ts:383-390 | the definition: FORK in a diamond column and NODE otherwise, with the container and own coordinate read from the column's first cell; its properties are `Placement.NodeTileDecodes` and the two lemmas below |
| Placement.NodeTileIsNodeTile | src/lib/utils/workflowVisUtils.ts:383-390 | the tile written for a node is a node tile, not a connector, whatever the id |
| Placement.NodeTileOverNodeTile | src/lib/utils/workflowVisUtils.ts:383-390 | once row 0 holds a node tile, later nodes of that column read the same container and own coordinate from it as from the original first cell, when the first id holds no entry delimiter |
| Placement.NodeTileDecodes | src/lib/utils/workflowVisUtils.ts:383-390 | the node tile is a fork iff its column is a diamond column, keeps the container and row-0 own coordinate, and has the step id and no parent |
| Placement.NodeOwnCoordIsFirstRow | src/lib/utils/workflowVisUtils.ts:383-390 | a node placed below row 0 carries row 0's coordinate as its own, not its actual cell |
| Placement.AddNodeToMatrix | src/lib/utils/workflowVisUtils.ts:345-398 | the row is the larger of the parent's row and the first placeholder row when a parent is given, else the first placeholder row; only that column changes |
| Allocation.InitCol | src/lib/utils/workflowVisUtils.ts:165-175 | `numRows` placeholders of the container, each naming its own cell |
| Allocation.InitMatrix | src/lib/utils/workflowVisUtils.ts:185-189 | one column per container, each `numRows` placeholders naming their own cells |
| Allocation.ColumnContainer | src/lib/utils/workflowVisUtils.ts:323-326 | the definition: odd columns are standard, and even columns are diamonds when they are fork columns and boxes otherwise; `Allocation.CreateWorkflowVisData` is proved to use it for every column |
| Allocation.MaxKey | src/lib/utils/workflowVisUtils.ts:316 | a key of the occurrence dictionary no smaller than any other key |
| Allocation.MaxValue | src/lib/utils/workflowVisUtils.ts:320-321 | a value of the occurrence dictionary no smaller than any other value |
| Allocation.GridSize | src/lib/utils/workflowVisUtils.ts:316-321 | the greatest key is the greatest step order, and the greatest value is the greatest number of steps sharing an order |
| Allocation.CreateWorkflowVisData | src/lib/utils/workflowVisUtils.ts:305-335 | fails exactly when no step has a non-negative order; otherwise it returns the step graph, `2 * maxOrder + 1` columns each as tall as the most steps of one order plus the fork row, and all placeholders of each column's container |
| StepGraph.GetPrevSteps | src/lib/utils/workflowVisUtils.ts:193-198 | the definition: the filter keeping the non-fork steps of smaller order, in order; its count property is `StepGraph.PrevStepsCount` |
| StepGraph.GetNextSteps | src/lib/utils/workflowVisUtils.ts:200-203 | the definition: the filter keeping the steps of greater order, in order; its count property is `StepGraph.NextStepsCount` |
| StepGraph.OrderOccurrences | src/lib/utils/workflowVisUtils.ts:239-242 | the definition: the builder loop's occurrence dictionary after each step, one more for that step's order; characterised by `StepGraph.OccurrencesCount` |
| StepGraph.ForkStepCols | src/lib/utils/workflowVisUtils.ts:244-247 | the definition: the builder loop's fork columns, twice the order of each fork step in step order; characterised by `StepGraph.ForkStepColsMembers` |
| StepGraph.AuthorizeNextNodes | src/lib/utils/workflowVisUtils.ts:251-253 | the definition: the last step of order 1 as the only, primary, next node, or none; characterised by the two `Authorize` lemmas |
| StepGraph.StepNodes | src/lib/utils/workflowVisUtils.ts:258-269 | the definition: the builder loop's node dictionary, each step's record written under its id; characterised by `StepGraph.StepNodesKeys` and `StepGraph.StepNodesLastWins` |
| StepGraph.PrevStepsCount | src/lib/utils/workflowVisUtils.ts:193-198 | each step occurs among the previous steps as often as in the input if it is a non-fork of smaller order, else never |
| StepGraph.NextStepsCount | src/lib/utils/workflowVisUtils.ts:200-203 | each step occurs among the next steps as often as in the input if its order is greater, else never |
| StepGraph.OccurrencesCount | src/lib/utils/workflowVisUtils.ts:239-242 | an order is a key iff some step has it, and its count is the number of steps of that order |
| StepGraph.ForkStepColsMembers | src/lib/utils/workflowVisUtils.ts:244-247 | the fork columns are exactly twice the orders of fork steps, non-empty iff a fork exists |
| StepGraph.AuthorizeEmptyWithoutOrderOne | src/lib/utils/workflowVisUtils.ts:251-253 | with no step of order 1 the start node has no next node |
| StepGraph.AuthorizeIsLastOrderOne | src/lib/utils/workflowVisUtils.ts:251-253 | otherwise its only next node is the last step of order 1, as primary |
| StepGraph.StepNodesKeys | src/lib/utils/workflowVisUtils.ts:258-269 | the node dictionary's keys are exactly the step ids |
| StepGraph.StepNodesLastWins | src/lib/utils/workflowVisUtils.ts:258-269 | a step id maps to the record of the last step carrying that id |
| StepGraph.CreateWorkflowStepNodes | src/lib/utils/workflowVisUtils.ts:206-293 | the loop's dictionaries and lists equal the per-step folds, with the start node added last under `<workflowUid>-auth` |
| BranchSort.GetPath | src/lib/utils/workflowVisUtils.ts:709-723 | the path extends the given prefix along first children and ends at a sink |
| BranchSort.GetPathOfNode | src/lib/utils/workflowVisUtils.ts:709-723 | a branch's path starts at the branch's head |
| BranchSort.IndexOf | src/lib/utils/workflowVisUtils.ts:742 | -1 iff absent, otherwise the first position of the element |
| BranchSort.BestCandidate | src/lib/utils/workflowVisUtils.ts:740-755 | the chosen index is -1 or a node whose path meets the target at a positive index |
| BranchSort.BestCandidateIsFirstLeast | src/lib/utils/workflowVisUtils.ts:740-755 | the filter and stable sort pick the first node whose path meets the primary path at the least positive index, or none iff none meets it there |
| BranchSort.FindFrom | src/lib/utils/workflowVisUtils.ts:739-756 | the loop stops at the first primary-path index some candidate meets, or runs out iff none is met |
| BranchSort.FindNodeWithClosestCommonDescendant | src/lib/utils/workflowVisUtils.ts:734-761 | the node with the closest common descendant on the earliest meeting index, first on ties; the first node when nothing meets |
| BranchSort.ClosestCommonDescendantSort | src/lib/utils/workflowVisUtils.ts:777-799 | the result extends the sorted prefix by a permutation of the distinct nodes left to sort |
| BranchSort.PrimaryNodeId | src/lib/utils/workflowVisUtils.ts:814-815 | the first primary next node, else the first next node |
| BranchSort.BranchPaths | src/lib/utils/workflowVisUtils.ts:819-828 | one path per branch, keyed by its head |
| BranchSort.GetSortedNextNodes | src/lib/utils/workflowVisUtils.ts:808-836 | fewer than two next nodes keep their order; otherwise the primary comes first and the rest are the distinct ids |
| BranchSort.SortedNextNodesPermutation | src/lib/utils/workflowVisUtils.ts:808-836 | the sorted next nodes are duplicate-free, have the same ids, and are a permutation of them when those are distinct |
| Routing.LineHorizes | src/lib/utils/workflowVisUtils.ts:472-493 | one horizontal line per column of the span, each parented by the previous one, and the last line's cell (the parent when empty) |
| Routing.RunLine | src/lib/utils/workflowVisUtils.ts:479-487 | the definition: the `k`-th horizontal line of a run, parented by the cell to its left or, for the first, by the given parent; `Routing.LineHorizes` is proved to consist of these |
| Routing.CreateLineHorizes | src/lib/utils/workflowVisUtils.ts:472-493 | the loop builds the run `LineHorizes` describes |
| Routing.CreateHorizConnectorsBetweenNodes | src/lib/utils/workflowVisUtils.ts:505-586 | the connectors for a same-row, a downward and an upward pair: a down-right turn, the horizontal run, and a final arrow-right, right-up or right-up arrow |
| Routing.HorizConnectorsChain | src/lib/utils/workflowVisUtils.ts:505-586 | each connector's parent is the previous connector, or the parent node after a down-right turn |
| Routing.HorizConnectorsInRange | src/lib/utils/workflowVisUtils.ts:505-586 | every connector lies on the routing row between the two nodes' columns |
| Routing.OffsetsTile | src/lib/utils/workflowVisUtils.ts:444-460 | the per-child blocks of pairs tile the result, in key order |
| Routing.CreateCoordPairs | src/lib/utils/workflowVisUtils.ts:444-460 | one pair per recorded parent coordinate |
| Routing.CoordPairsBlocks | src/lib/utils/workflowVisUtils.ts:444-460 | the pair at each child's offset plus j is (its j-th parent, the child) |
| Routing.CoordPairAt | src/lib/utils/workflowVisUtils.ts:444-460 | pair `j` of node `k` sits at the node's offset plus `j`, and runs from the node's `j`-th parent coordinate to the node, decoded |
| Routing.ConnectorTile | src/lib/utils/workflowVisUtils.ts:413-426 | the definition: the cell's type and container with the connector's name, its own cell, and its parent kept only when that is a node's cell; characterised by `Routing.ConnectorTileDecodes` |
| Routing.ConnectorTileDecodes | src/lib/utils/workflowVisUtils.ts:413-426 | the connector tile keeps the cell's type and container, names the connector and its own cell, and keeps the parent only if it is a node's cell |
| Routing.AddConnectorToMatrix | src/lib/utils/workflowVisUtils.ts:408-435 | only the connector's cell changes, to that tile |
| Routing.GetRightUpCoords | src/lib/utils/workflowVisUtils.ts:594-598 | exactly the cells of the right-up connectors |
| Routing.RightUpCoordsAppend | src/lib/utils/workflowVisUtils.ts:594-598 | appending a connector appends its cell exactly when it is a right-up one, so the cells come in connector order, which is the order the vertical walks run in |
| Routing.WalkStop | src/lib/utils/workflowVisUtils.ts:608-642 | walking up from a row stops at the first non-placeholder above it, or at row 0 |
| Routing.VertColumn | src/lib/utils/workflowVisUtils.ts:608-642 | the cells strictly between the stop and the start row become vertical tiles; the rest, row 0 included, are unchanged; only placeholders change |
| Routing.VertTile | src/lib/utils/workflowVisUtils.ts:620-630 | the definition: the cell with its id replaced by a vertical line when the cell above is a placeholder or a connector, and by an up-arrow otherwise; characterised by `Routing.VertTileDecodes` |
| Routing.VertTileDecodes | src/lib/utils/workflowVisUtils.ts:620-636 | an up-arrow goes under a non-connector, a vertical line otherwise; fields are kept |
| Routing.WalkUp | src/lib/utils/workflowVisUtils.ts:608-642 | the upward loop computes `VertColumn` |
| Routing.AddVertConnectorsToMatrix | src/lib/utils/workflowVisUtils.ts:608-642 | the start column becomes its `VertColumn`; other columns are unchanged |
| Routing.DownRightDashesToPlace | src/lib/utils/workflowVisUtils.ts:666-688 | one dash per fork column, in that column, at a row within or just past the column from which every cell down is a placeholder |
| Routing.DashFor | src/lib/utils/workflowVisUtils.ts:668-686 | the definition: a diamond connector dash one row below the column's last occupied cell, parented by the column's last node; characterised by `Routing.DashTileDecodes` |
| Routing.DashTileDecodes | src/lib/utils/workflowVisUtils.ts:672-683 | the dash is a diamond connector whose parent is the column's last node, above it |
| Passes.WithConnector | src/lib/utils/workflowVisUtils.ts:958-961 | one connector write keeps the matrix's shape |
| Passes.WithConnectors | src/lib/utils/workflowVisUtils.ts:958-961 | the connector pass is defined iff every connector's cell is in the matrix, and keeps its shape |
| Passes.ConnectorsLeaveOthers | src/lib/utils/workflowVisUtils.ts:958-961 | a cell no connector names is unchanged |
| Passes.LastConnectorWins | src/lib/utils/workflowVisUtils.ts:958-961 | a cell holds the last connector written to it |
| Passes.PlaceConnectors | src/lib/utils/workflowVisUtils.ts:958-961 | the forEach fails iff a cell is outside, and otherwise leaves the pass's matrix |
| Passes.WithVertConnectors | src/lib/utils/workflowVisUtils.ts:971-974 | the vertical pass keeps the matrix's shape |
| Passes.VertConnectorsFillPlaceholders | src/lib/utils/workflowVisUtils.ts:971-974 | the vertical pass only overwrites placeholders below row 0 |
| Passes.PlaceVertConnectors | src/lib/utils/workflowVisUtils.ts:971-974 | the forEach leaves the pass's matrix |
| Passes.WithDashes | src/lib/utils/workflowVisUtils.ts:981-986 | the dash pass only grows columns |
| Passes.DashesPlaced | src/lib/utils/workflowVisUtils.ts:981-986 | each fork column holds its dash; other columns are unchanged |
| Passes.ForkDashesOnePerColumn | src/lib/utils/workflowVisUtils.ts:666-688 | the planned dashes fit the matrix, one per column |
| Passes.ReplaceDashes | src/lib/utils/workflowVisUtils.ts:981-986 | the loop over the dashes leaves the dash pass's matrix |
| Passes.PlaceDashes | src/lib/utils/workflowVisUtils.ts:981-986 | fails iff a fork column is outside the matrix, which is then unchanged; otherwise it leaves the dash pass's matrix |
| Heap.MinHeap.constructor | src/lib/utils/workflowVisUtils.ts:862 | a new heap holds no entry, and its insertion log is empty |
| Heap.MinHeap.Insert | src/lib/utils/workflowVisUtils.ts:939-942 | the entry is appended to the waiting ones, which stay, and to the insertion log |
| Heap.MinHeap.IsEmpty | src/lib/utils/workflowVisUtils.ts:881 | true iff no entry waits |
| Heap.MinHeap.DeleteMin | src/lib/utils/workflowVisUtils.ts:882 | removes one entry of least priority, and one occurrence of its id; the insertion log is unchanged |
| Heap.LeastIndex | src/lib/utils/workflowVisUtils.ts:882 | the position of an entry of least priority, the first such from the front |
| Populate.FirstLeastRowIndex | src/lib/utils/workflowVisUtils.ts:890-896 | the stable sort's head is the first parent of least row |
| Populate.EncodedParentCoord | src/lib/utils/workflowVisUtils.ts:891-896 | a known child gets a decodable parent coordinate; an unknown one gets `nodeIdToCoord[""]` |
| Populate.ParentCoordIsFirstLeast | src/lib/utils/workflowVisUtils.ts:891-896 | the parent coordinate is that of the first parent of least row |
| Populate.Record | src/lib/utils/workflowVisUtils.ts:919-923 | after recording, the child lists the parent among its parents |
| Populate.RecordPreserves | src/lib/utils/workflowVisUtils.ts:919-923 | a `concat` onto both parent lists keeps the parent maps well formed, extends them, and adds the child's key |
| Populate.RecordAllFacts | src/lib/utils/workflowVisUtils.ts:918-923 | after all the next nodes, the records are well formed, extend the old ones, and list the step as a parent of each next node |
| Populate.RecordAllKeys | src/lib/utils/workflowVisUtils.ts:918-923 | after all the next nodes, the recorded children are the old ones plus the next nodes |
| Populate.QueuedIds | src/lib/utils/workflowVisUtils.ts:924-942 | the queued entries name each next node not explored before exactly once, and no other id |
| Populate.QueuedEntries | src/lib/utils/workflowVisUtils.ts:933-941 | each queued entry belongs to the first occurrence of a next node not explored before, and has its order plus its position over the number of next nodes as priority |
| Populate.QueuedMultiset | src/lib/utils/workflowVisUtils.ts:924-942 | the ids queued are, as a multiset, the next nodes not explored before, each once; so the queue gains as many entries as ids are newly explored |
| Populate.QueueFacts | src/lib/utils/workflowVisUtils.ts:924-942 | the newly explored next nodes are steps and wait in the queue; when none is new, nothing is queued |
| Populate.VisitFacts | src/lib/utils/workflowVisUtils.ts:911-944 | visiting the next nodes keeps the records well formed and extending, lists the step as a parent of each next node, and queues every newly explored one |
| Populate.RecordAllKeepsCurrent | src/lib/utils/workflowVisUtils.ts:918-923 | recording a placed step at its own coordinate keeps every recorded parent coordinate, except the first step's, equal to that parent's placed cell |
| Populate.PopKeepsQueueInv | src/lib/utils/workflowVisUtils.ts:881-906 | popping and placing a step keeps the queue invariant against the insertion log, and keeps the recorded parent coordinates current |
| Populate.VisitKeepsQueueInv | src/lib/utils/workflowVisUtils.ts:924-942 | queueing and exploring the next nodes keeps the queue invariant against the insertion log, and recording the step keeps the parent coordinates current |
| Populate.QueueInvAdd | src/lib/utils/workflowVisUtils.ts:924-942 | queueing and logging one entry per id not yet explored, and exploring those ids, keeps the queue invariant: each id but the first step waits at most once and not at all once placed, and the log holds the first step once and each explored id once |
| Populate.VisitNextNodes | src/lib/utils/workflowVisUtils.ts:913-944 | unless a next node not yet explored is not a step, every next node ends up explored; the records are `Record` applied to each sorted next node in turn; the queue and the insertion log gain exactly `Queued`, one entry per next node not explored before |
| Populate.PlaceStep | src/lib/utils/workflowVisUtils.ts:882-906 | the popped step is placed in column `2 * order` at the row `addNodeToMatrix` picks for its first least parent, or the turn fails |
| Populate.DrawStep | src/lib/utils/workflowVisUtils.ts:383-397 | writing a step's node tile into its column over the column's first cell, and recording its coordinate, keeps the grid drawn: changed cells are node tiles of placed steps of that column, and every placed step's cell holds a node tile |
| Populate.PlacePopped | src/lib/utils/workflowVisUtils.ts:882-906 | placing the popped step adds or replaces only its coordinate, keeps the coordinate and parent-map invariants, and keeps the grid drawn against the starting grid |
| Populate.PopPlaceKeepsInv | src/lib/utils/workflowVisUtils.ts:881-906 | popping and placing a step keeps the traversal invariant, now with that step awaiting its visit |
| Populate.VisitKeepsInv | src/lib/utils/workflowVisUtils.ts:911-944 | visiting the popped step's next nodes restores the traversal invariant |
| Populate.PopStep | src/lib/utils/workflowVisUtils.ts:881-906 | popping and placing a step takes the whole bookkeeping (traversal invariant, queue invariant, current parent coordinates) to its mid-turn form |
| Populate.VisitStep | src/lib/utils/workflowVisUtils.ts:911-944 | visiting the placed step's next nodes restores the whole bookkeeping, and either explores a new step or queues nothing |
| Populate.Turn | src/lib/utils/workflowVisUtils.ts:881-945 | one heap turn keeps the whole bookkeeping and the drawn grid, only appends to the insertion log, and explores a new step or shrinks the queue |
| Populate.Traverse | src/lib/utils/workflowVisUtils.ts:862-945 | when the queue runs empty, the first step is placed; every placed step is a step in the column of its order; the parent records are well formed, name only placed steps, and every placed step is a parent of each of its next nodes; a recorded parent coordinate is the parent's cell unless the parent is the first step; the grid changed only by node tiles of placed steps of each column, and every placed step's cell holds a node tile; the insertions start with the first step at priority 0, name exactly the placed steps, each step but the first at most once and the first at most twice |
| Populate.TraversalStarts | src/lib/utils/workflowVisUtils.ts:862-869 | with only the first step queued, nothing placed and nothing recorded, the bookkeeping holds and the grid is trivially drawn |
| Populate.TraversalEnds | src/lib/utils/workflowVisUtils.ts:881 | with the queue empty, the first step is placed, the traversal is complete, and the insertions name exactly the placed steps with the stated counts |
| Populate.InsertionCounts | src/lib/utils/workflowVisUtils.ts:863-942 | when the insertions are the first step once plus each explored step once, and the placed steps are the explored ones plus the first, the insertions name exactly the placed steps, each but the first at most once |
| Populate.TraversalClosed | src/lib/utils/workflowVisUtils.ts:911-923 | a next node of a placed step is placed with that step as a parent, and every recorded parent is a placed predecessor |
| Populate.ReachablePlaced | src/lib/utils/workflowVisUtils.ts:881-945 | every step at the end of a walk from a placed step is placed |
| Populate.TraversedPairInputs | src/lib/utils/workflowVisUtils.ts:949 | after the traversal every key's coordinates decode, as `createCoordPairs` needs |
| Populate.PairsJoinPlacedSteps | src/lib/utils/workflowVisUtils.ts:949 | pair `j` of the `k`-th recorded child runs from the placed cell of its `j`-th recorded parent, when that is not the first step, to the placed cell of the child |
| Populate.Chain | src/lib/utils/workflowVisUtils.ts:950-952 | the definition: the connectors of each coordinate pair, pair after pair, as `chain` concatenates them |
| Populate.ConnectorsFor | src/lib/utils/workflowVisUtils.ts:949-952 | the definition: `Populate.Chain` over `createCoordPairs` of the traversal's records; what lies in it is stated by `Populate.PairsJoinPlacedSteps` and the routing lemmas |
| Populate.RightUpStartsIn | src/lib/utils/workflowVisUtils.ts:971-974 | every right-up cell lies in the matrix the connectors were written to |
| Populate.ConnectorPasses | src/lib/utils/workflowVisUtils.ts:949-986 | the three passes are defined iff every connector and fork column is in the matrix, and only grow it |
| Populate.PopulateMatrix | src/lib/utils/workflowVisUtils.ts:848-989 | a fresh copy of the grid; otherwise the first step is placed, the traversal's facts hold (parent coordinates current, grid changed only by node tiles of placed steps), and the matrix is the three passes applied to the traversal's matrix |
| Queries.InvertKeyVal | src/lib/utils/workflowVisUtils.ts:650-656 | every value becomes a key, and maps back to a key that carries it |
| Queries.InvertLastWins | src/lib/utils/workflowVisUtils.ts:650-656 | of keys sharing a value, the last in key order wins |
| Queries.InvertInjective | src/lib/utils/workflowVisUtils.ts:650-656 | on an injective dictionary the inversion undoes it |
| Queries.NearestAtOrAbove | src/lib/utils/workflowVisUtils.ts:1012-1014 | filter and descending sort pick the first candidate of greatest row at or above the bound, or none iff there is none |
| Queries.CandidateCoords | src/lib/utils/workflowVisUtils.ts:1010-1012 | defined iff every candidate has a coordinate, and then its decoded coordinates in order |
| Queries.FindNextNode | src/lib/utils/workflowVisUtils.ts:999-1018 | a result is always a step of the dictionary |
| Queries.FindNextNodeOnCells | src/lib/utils/workflowVisUtils.ts:999-1018 | on an injective dictionary of cells, the next node is the candidate at the position the nearest-row choice picks |
| Queries.PickIsNearest | src/lib/utils/workflowVisUtils.ts:1013-1017 | the candidate at the picked position is the nearest one at or above the bound, or none iff every candidate is below it |
| Queries.FindNextNodeIsNearest | src/lib/utils/workflowVisUtils.ts:999-1018 | on an injective dictionary of cells, the next node is found iff a candidate is at or above the plus button, and it is the nearest such one, first on ties |

## Left out

- `MinHeap.ts` is not part of this model. `Heap.MinHeap` keeps its entries in a sequence, and removes the first entry of least priority (`Heap.LeastIndex`). That tie-break is a modelling choice. `DeleteMin` promises only some least-priority entry, so all traversal proofs hold for any tie-break.
- The tile type, tile container and connector name enumerations are not part of this model. Their tokens are chosen strings, and the proofs need only that they are distinct and contain no `|` or `,`.
- The `Utils` helpers (`getNodeType`, `getNextNodes`, `getIsDisabled`, `getDisplayWarning`) are not part of this model. Their results are fields of each input step.
- Numbers: JavaScript's unary `+` is modelled on digit strings only, giving `None` for anything it would read as NaN. Signs, whitespace, exponents and fractions are not modelled. Step orders are integers, and heap priorities are reals, not floating point.
- `Object.keys` order: keys are kept in insertion order. JavaScript's reordering of integer-like keys is not modelled.
- A TypeError or a write outside a column is a `failed` outcome. Examples are a popped id with no node, a row of -1, a column outside the grid, and a candidate without a coordinate. Nothing is written after such a failure.
- `clone` is modelled by value: sequences are values, so a column copy is the column.
- Connectors hold `Coord` values where the source holds encoded strings. They are encoded when a tile is written, and `Codec.CoordEncodingInjective` makes the two views agree.
- Populate.Traverse: requires `BranchesOk`: every branch of a fork reaches a sink along first children, through ids that all have a node. Without that, the source's `getPath` either recurses until JavaScript raises a RangeError, or reads a missing node and raises a TypeError. Neither outcome is modelled.
- Populate.Traverse: a changed cell is stated to be the exact node tile of a placed step only when no step id contains the entry delimiter (`IdsBarFree`). Otherwise it is stated only to be a node tile, because an id holding the delimiter changes how the tile decodes.
- Populate.Traverse: a placed step's cell is stated to hold a node tile, not its own node tile. The source can write a later step over an occupied cell, when that step's parent row is further down than the column's first empty row.
- Populate.Traverse: parent coordinates recorded under the first step are not stated to be its current cell. The first step can be placed a second time, if some step names it as a next node, and then the coordinates recorded at its first visit are stale.
- BranchSort.FindNodeWithClosestCommonDescendant: requires a non-empty `nodesToSort`. Its only caller never passes an empty one.
- BranchSort.BestCandidate: its own contract states only bounds. The first-least property is `BranchSort.BestCandidateIsFirstLeast`.
- Populate.EncodedParentCoord: its own contract states membership and decoding. The first-least property is `Populate.ParentCoordIsFirstLeast`.
- Populate.PlacePopped: wraps `Populate.PlaceStep`, and passes on the new coordinate, the invariants and the drawn grid. The exact cell written is stated by `PlaceStep`.
- Queries.FindNextNode: a stored coordinate whose column part is not a number but whose row part is, is dropped from the candidates. The source keeps it, and returns undefined if it is picked, because it looks up `NaN,row`. The model can then pick another candidate. Both throwing and returning undefined are `None`.
- Allocation.CreateWorkflowVisData: does not model JavaScript's cap on the length of an array argument list.
- Rendering, React components, configuration and tests are outside the layout engine and are not modelled.
