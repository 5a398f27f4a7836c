/**
 * The matrix allocator: the grid's size from the step graph, and every
 * cell filled with a placeholder of its column's container.
 */
module Allocation {
  import opened Codec
  import opened StepGraph

  /** Odd columns hold connectors; even columns are diamonds where a fork is, boxes elsewhere. */
  function ColumnContainer(i: int, forkStepCols: seq<int>): TileContainer {
    if i % 2 == 1 then STANDARD else if i in forkStepCols then DIAMOND else BOX
  }

  /** `initCol`: a column of placeholders, each knowing its own cell. */
  function InitCol(numRows: nat, colNum: int, tileContainer: TileContainer): (col: seq<string>)
    ensures |col| == numRows
    ensures forall rowNum :: 0 <= rowNum < numRows ==>
      IsPlaceholder(col[rowNum]) && DecodeMatrixEntry(col[rowNum]) == PlaceholderFields(tileContainer, Coord(colNum, rowNum))
  {
    var col := seq(numRows, rowNum => EncodeMatrixEntry(PlaceholderFields(tileContainer, Coord(colNum, rowNum))));
    assert forall rowNum :: 0 <= rowNum < numRows ==>
      IsPlaceholder(col[rowNum]) && DecodeMatrixEntry(col[rowNum]) == PlaceholderFields(tileContainer, Coord(colNum, rowNum))
    by {
      forall rowNum | 0 <= rowNum < numRows
        ensures IsPlaceholder(col[rowNum])
        ensures DecodeMatrixEntry(col[rowNum]) == PlaceholderFields(tileContainer, Coord(colNum, rowNum))
      {
        PlaceholderDecodes(tileContainer, Coord(colNum, rowNum));
      }
    }
    col
  }

  /** `initMatrix`: one placeholder column per container, column i at index i. */
  function InitMatrix(numRows: nat, tileContainers: seq<TileContainer>): (matrix: seq<seq<string>>)
    ensures |matrix| == |tileContainers|
    ensures forall i :: 0 <= i < |matrix| ==> |matrix[i]| == numRows
    ensures forall i, rowNum :: 0 <= i < |matrix| && 0 <= rowNum < numRows ==>
      IsPlaceholder(matrix[i][rowNum]) && DecodeMatrixEntry(matrix[i][rowNum]) == PlaceholderFields(tileContainers[i], Coord(i, rowNum))
  {
    seq(|tileContainers|, i requires 0 <= i < |tileContainers| => InitCol(numRows, i, tileContainers[i]))
  }

  /** A non-empty set has a member, as the `:|` choices below need. */
  lemma NonEmptyHasMember(s: set<int>)
    ensures s == {} || exists x :: x in s
  {
    if forall x :: x !in s {
      assert s == {};
    }
  }

  /** The greatest key of a non-empty map: `Math.max` over `Object.keys`. */
  method MaxKey(m: map<int, nat>) returns (k: int)
    requires |m| > 0
    ensures k in m && forall j :: j in m ==> j <= k
  {
    var keys := m.Keys;
    NonEmptyHasMember(keys);
    k :| k in keys;
    keys := keys - {k};
    while keys != {}
      invariant keys <= m.Keys && k in m
      invariant forall j :: j in m && j !in keys ==> j <= k
      decreases keys
    {
      NonEmptyHasMember(keys);
      var j :| j in keys;
      if j > k {
        k := j;
      }
      keys := keys - {j};
    }
  }

  /** The greatest value of a non-empty map: `Math.max` over `Object.values`. */
  method MaxValue(m: map<int, nat>) returns (v: nat)
    requires |m| > 0
    ensures (exists k :: k in m && m[k] == v) && forall k :: k in m ==> m[k] <= v
  {
    var keys := m.Keys;
    NonEmptyHasMember(keys);
    var k0 :| k0 in keys;
    v := m[k0];
    keys := keys - {k0};
    while keys != {}
      invariant keys <= m.Keys
      invariant exists k :: k in m && m[k] == v
      invariant forall k :: k in m && k !in keys ==> m[k] <= v
      decreases keys
    {
      NonEmptyHasMember(keys);
      var j :| j in keys;
      if m[j] > v {
        v := m[j];
      }
      keys := keys - {j};
    }
  }

  /** 1 when some step is a fork (the extra row for the add-branch dash), else 0. */
  function ForkRow(steps: seq<WorkflowStep>): nat {
    if exists i :: 0 <= i < |steps| && steps[i].nodeType == FORK_NODE_TYPE then 1 else 0
  }

  /**
   * The grid's size: twice the greatest order plus one columns, and as
   * many rows as the most steps sharing an order, plus the fork row.
   */
  lemma GridSize(steps: seq<WorkflowStep>, maxOrder: int, maxOccurrence: nat)
    requires |steps| > 0
    requires maxOrder in OrderOccurrences(steps) && forall j :: j in OrderOccurrences(steps) ==> j <= maxOrder
    requires exists k :: k in OrderOccurrences(steps) && OrderOccurrences(steps)[k] == maxOccurrence
    requires forall k :: k in OrderOccurrences(steps) ==> OrderOccurrences(steps)[k] <= maxOccurrence
    ensures forall i :: 0 <= i < |steps| ==> steps[i].workflowStepOrder <= maxOrder
    ensures exists i :: 0 <= i < |steps| && steps[i].workflowStepOrder == maxOrder
    ensures forall i :: 0 <= i < |steps| ==> |IndicesOfOrder(steps, steps[i].workflowStepOrder)| <= maxOccurrence
    ensures exists i :: 0 <= i < |steps| && |IndicesOfOrder(steps, steps[i].workflowStepOrder)| == maxOccurrence
  {
    forall i | 0 <= i < |steps|
      ensures steps[i].workflowStepOrder <= maxOrder
      ensures |IndicesOfOrder(steps, steps[i].workflowStepOrder)| <= maxOccurrence
    {
      OccurrencesCount(steps, steps[i].workflowStepOrder);
    }
    OccurrencesCount(steps, maxOrder);
    var kOcc :| kOcc in OrderOccurrences(steps) && OrderOccurrences(steps)[kOcc] == maxOccurrence;
    OccurrencesCount(steps, kOcc);
    var iOcc :| 0 <= iOcc < |steps| && steps[iOcc].workflowStepOrder == kOcc;
  }

  /**
   * `createWorkflowVisData`: builds the step graph and the placeholder
   * grid: `2 * maxOrder + 1` columns, each `maxOccurrence + ForkRow` tall.
   * Fails where the source throws: with no steps the greatest order is
   * minus infinity, and with a negative greatest order the column count
   * is negative; `Array` rejects both.
   */
  method CreateWorkflowVisData(workflowSteps: seq<WorkflowStep>, workflowUid: string)
    returns (workflowVisData: WorkflowVisData, initialMatrix: seq<seq<string>>, forkStepCols: seq<int>, failed: bool)
    ensures failed <==> forall i :: 0 <= i < |workflowSteps| ==> workflowSteps[i].workflowStepOrder < 0
    ensures !failed ==> forkStepCols == ForkStepCols(workflowSteps)
    ensures !failed ==> workflowVisData.firstStep == FirstStepId(workflowUid)
    ensures !failed ==> workflowVisData.workflowStepNodes == StepNodes(workflowSteps, workflowSteps, workflowUid)[
      FirstStepId(workflowUid) := StartNode(workflowSteps, workflowUid, AuthorizeNextNodes(workflowSteps))]
    // column count: one past twice the greatest order
    ensures !failed ==> forall i :: 0 <= i < |workflowSteps| ==> 2 * workflowSteps[i].workflowStepOrder < |initialMatrix|
    ensures !failed ==> exists i :: 0 <= i < |workflowSteps| && |initialMatrix| == 2 * workflowSteps[i].workflowStepOrder + 1
    // row count: the greatest number of steps sharing an order, plus the fork row
    ensures !failed ==> |initialMatrix| > 0
    ensures !failed ==> forall c :: 0 <= c < |initialMatrix| ==> |initialMatrix[c]| == |initialMatrix[0]|
    ensures !failed ==> forall i :: 0 <= i < |workflowSteps| ==>
      |IndicesOfOrder(workflowSteps, workflowSteps[i].workflowStepOrder)| + ForkRow(workflowSteps) <= |initialMatrix[0]|
    ensures !failed ==> exists i :: (0 <= i < |workflowSteps|
      && |IndicesOfOrder(workflowSteps, workflowSteps[i].workflowStepOrder)| + ForkRow(workflowSteps) == |initialMatrix[0]|)
    // every cell is a placeholder of its column's container, knowing its own cell, with no parent
    ensures !failed ==> forall c, r :: 0 <= c < |initialMatrix| && 0 <= r < |initialMatrix[c]| ==>
      IsPlaceholder(initialMatrix[c][r])
      && DecodeMatrixEntry(initialMatrix[c][r]) == PlaceholderFields(ColumnContainer(c, forkStepCols), Coord(c, r))
  {
    var workflowStepNodes, workflowStepOrderOccur, firstStepId;
    workflowStepNodes, workflowStepOrderOccur, firstStepId, forkStepCols := CreateWorkflowStepNodes(workflowSteps, workflowUid);
    workflowVisData := WorkflowVisData(firstStepId, workflowStepNodes);
    initialMatrix := [];

    if |workflowSteps| == 0 {
      return workflowVisData, initialMatrix, forkStepCols, true;
    }
    OccurrencesCount(workflowSteps, workflowSteps[0].workflowStepOrder);
    var maxOrder := MaxKey(workflowStepOrderOccur);
    var numCols := maxOrder * 2 + 1;
    var maxOccurrence := MaxValue(workflowStepOrderOccur);
    GridSize(workflowSteps, maxOrder, maxOccurrence);
    if numCols < 0 {
      return workflowVisData, initialMatrix, forkStepCols, true;
    }
    failed := false;
    ForkStepColsMembers(workflowSteps, 0);
    var numRows := maxOccurrence + (if |forkStepCols| > 0 then 1 else 0);

    var tileContainers := seq(numCols, i => ColumnContainer(i, forkStepCols));
    initialMatrix := InitMatrix(numRows, tileContainers);
  }
}
