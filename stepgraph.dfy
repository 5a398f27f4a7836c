/**
 * The step graph builder: from the ordered list of workflow steps to a
 * map from step id to node record, the number of steps per order, the
 * fork columns and the successor list of the synthetic start node.
 *
 * The helpers the source calls on each step (`getNodeType`,
 * `getNextNodes`, `getIsDisabled`, `getDisplayWarning`) are outside this
 * model; their results are fields of the input step.
 */
module StepGraph {
  import opened Wrappers

  /** Node type strings of the workflow configuration. */
  const FORK_NODE_TYPE: string := "fork"
  const START_NODE_TYPE: string := "start"

  datatype NextNode = NextNode(id: string, primary: bool)

  datatype WorkflowStep = WorkflowStep(
    workflowStepUid: string,
    workflowStepName: string,
    workflowStepOrder: int,
    workflowStepType: string,
    nodeType: string,
    nextNodes: seq<NextNode>,
    isDisabled: bool,
    displayWarning: Option<string>)

  datatype WorkflowStepNode = WorkflowStepNode(
    id: string,
    workflowUid: string,
    name: string,
    nodeType: string,
    workflowStepOrder: int,
    nextNodes: seq<NextNode>,
    nextSteps: seq<WorkflowStep>,
    prevSteps: seq<WorkflowStep>,
    isDisabled: bool,
    displayWarning: Option<string>)

  type WorkflowStepNodes = map<string, WorkflowStepNode>

  /** The graph handed to the traversal: the start node's id and every node by id. */
  datatype WorkflowVisData = WorkflowVisData(firstStep: string, workflowStepNodes: WorkflowStepNodes)

  /** `getPrevSteps`: the non-fork steps of strictly smaller order, in input order. */
  function GetPrevSteps(steps: seq<WorkflowStep>, order: int): seq<WorkflowStep> {
    if |steps| == 0 then []
    else
      var s := steps[|steps| - 1];
      GetPrevSteps(steps[..|steps| - 1], order)
        + (if s.workflowStepType != FORK_NODE_TYPE && s.workflowStepOrder < order then [s] else [])
  }

  /** `getNextSteps`: the steps of strictly greater order, in input order. */
  function GetNextSteps(steps: seq<WorkflowStep>, order: int): seq<WorkflowStep> {
    if |steps| == 0 then []
    else
      var s := steps[|steps| - 1];
      GetNextSteps(steps[..|steps| - 1], order) + (if s.workflowStepOrder > order then [s] else [])
  }

  /** Each step occurs among the previous steps as often as in the input if it is a non-fork step of smaller order, else never. */
  lemma {:induction false} PrevStepsCount(steps: seq<WorkflowStep>, order: int, s: WorkflowStep)
    ensures multiset(GetPrevSteps(steps, order))[s]
            == if s.workflowStepType != FORK_NODE_TYPE && s.workflowStepOrder < order then multiset(steps)[s] else 0
  {
    if |steps| > 0 {
      var n := |steps| - 1;
      assert steps == steps[..n] + [steps[n]];
      PrevStepsCount(steps[..n], order, s);
    }
  }

  /** Each step occurs among the next steps as often as in the input if its order is greater, else never. */
  lemma {:induction false} NextStepsCount(steps: seq<WorkflowStep>, order: int, s: WorkflowStep)
    ensures multiset(GetNextSteps(steps, order))[s] == if s.workflowStepOrder > order then multiset(steps)[s] else 0
  {
    if |steps| > 0 {
      var n := |steps| - 1;
      assert steps == steps[..n] + [steps[n]];
      NextStepsCount(steps[..n], order, s);
    }
  }

  function FirstStepId(workflowUid: string): string { workflowUid + "-auth" }

  /** The node record built for one step; its neighbours are taken from the whole list. */
  function NodeOf(step: WorkflowStep, all: seq<WorkflowStep>, workflowUid: string): WorkflowStepNode {
    WorkflowStepNode(
      step.workflowStepUid, workflowUid, step.workflowStepName, step.nodeType, step.workflowStepOrder,
      step.nextNodes, GetNextSteps(all, step.workflowStepOrder), GetPrevSteps(all, step.workflowStepOrder),
      step.isDisabled, step.displayWarning)
  }

  /** The synthetic start node, of order 0. */
  function StartNode(all: seq<WorkflowStep>, workflowUid: string, authorizeNextNodes: seq<NextNode>): WorkflowStepNode {
    var id := FirstStepId(workflowUid);
    WorkflowStepNode(id, id, "", START_NODE_TYPE, 0, authorizeNextNodes, GetNextSteps(all, 0), [], false, None)
  }

  // The state of the builder's loop after it has seen `steps`, one function per variable.

  function OrderOccurrences(steps: seq<WorkflowStep>): map<int, nat> {
    if |steps| == 0 then map[]
    else
      var m := OrderOccurrences(steps[..|steps| - 1]);
      var o := steps[|steps| - 1].workflowStepOrder;
      m[o := (if o in m then m[o] else 0) + 1]
  }

  function ForkStepCols(steps: seq<WorkflowStep>): seq<int> {
    if |steps| == 0 then []
    else
      var s := steps[|steps| - 1];
      ForkStepCols(steps[..|steps| - 1]) + (if s.nodeType == FORK_NODE_TYPE then [s.workflowStepOrder * 2] else [])
  }

  function AuthorizeNextNodes(steps: seq<WorkflowStep>): seq<NextNode> {
    if |steps| == 0 then []
    else
      var s := steps[|steps| - 1];
      if s.workflowStepOrder == 1 then [NextNode(s.workflowStepUid, true)]
      else AuthorizeNextNodes(steps[..|steps| - 1])
  }

  function StepNodes(steps: seq<WorkflowStep>, all: seq<WorkflowStep>, workflowUid: string): WorkflowStepNodes {
    if |steps| == 0 then map[]
    else
      var s := steps[|steps| - 1];
      StepNodes(steps[..|steps| - 1], all, workflowUid)[s.workflowStepUid := NodeOf(s, all, workflowUid)]
  }

  /** The indices of the steps of a given order. */
  function IndicesOfOrder(steps: seq<WorkflowStep>, o: int): set<nat> {
    set i: nat | i < |steps| && steps[i].workflowStepOrder == o
  }

  /**
   * The occurrence table has a key for exactly the orders that occur, and
   * its entry for an order is the number of steps of that order.
   */
  lemma {:induction false} OccurrencesCount(steps: seq<WorkflowStep>, o: int)
    ensures o in OrderOccurrences(steps) <==> exists i :: 0 <= i < |steps| && steps[i].workflowStepOrder == o
    ensures o in OrderOccurrences(steps) ==> OrderOccurrences(steps)[o] == |IndicesOfOrder(steps, o)|
    ensures o !in OrderOccurrences(steps) ==> |IndicesOfOrder(steps, o)| == 0
  {
    if |steps| > 0 {
      var n := |steps| - 1;
      var p := steps[..n];
      assert forall i :: 0 <= i < n ==> p[i] == steps[i];
      OccurrencesCount(p, o);
      var m := OrderOccurrences(p);
      if steps[n].workflowStepOrder == o {
        assert n !in IndicesOfOrder(p, o);
        assert IndicesOfOrder(steps, o) == IndicesOfOrder(p, o) + {n};
        assert OrderOccurrences(steps)[o] == (if o in m then m[o] else 0) + 1;
      } else {
        assert IndicesOfOrder(steps, o) == IndicesOfOrder(p, o);
        assert o in OrderOccurrences(steps) <==> o in m;
        assert o in m ==> OrderOccurrences(steps)[o] == m[o];
      }
    } else {
      assert IndicesOfOrder(steps, o) == {};
    }
  }

  /** The fork columns are twice the orders of the fork steps, in input order. */
  lemma {:induction false} ForkStepColsMembers(steps: seq<WorkflowStep>, c: int)
    ensures c in ForkStepCols(steps) <==>
      exists i :: 0 <= i < |steps| && steps[i].nodeType == FORK_NODE_TYPE && c == steps[i].workflowStepOrder * 2
    ensures |ForkStepCols(steps)| > 0 <==> exists i :: 0 <= i < |steps| && steps[i].nodeType == FORK_NODE_TYPE
  {
    if |steps| > 0 {
      var n := |steps| - 1;
      ForkStepColsMembers(steps[..n], c);
      assert forall i :: 0 <= i < n ==> steps[..n][i] == steps[i];
    }
  }

  /** The start node has no successor when no step has order 1. */
  lemma {:induction false} AuthorizeEmptyWithoutOrderOne(steps: seq<WorkflowStep>)
    requires forall i :: 0 <= i < |steps| ==> steps[i].workflowStepOrder != 1
    ensures AuthorizeNextNodes(steps) == []
  {
    if |steps| > 0 {
      var n := |steps| - 1;
      var init := steps[..n];
      assert forall i :: 0 <= i < n ==> init[i] == steps[i];
      AuthorizeEmptyWithoutOrderOne(init);
    }
  }

  /** The start node's successor is the last step of order 1, marked primary. */
  lemma {:induction false} AuthorizeIsLastOrderOne(steps: seq<WorkflowStep>, i: nat)
    requires i < |steps| && steps[i].workflowStepOrder == 1
    requires forall j :: i < j < |steps| ==> steps[j].workflowStepOrder != 1
    ensures AuthorizeNextNodes(steps) == [NextNode(steps[i].workflowStepUid, true)]
  {
    var n := |steps| - 1;
    if i < n {
      var init := steps[..n];
      assert forall j :: i < j < n ==> init[j] == steps[j];
      AuthorizeIsLastOrderOne(init, i);
    }
  }

  /** Every step id is a key of the node map, and no other id is. */
  lemma {:induction false} StepNodesKeys(steps: seq<WorkflowStep>, all: seq<WorkflowStep>, workflowUid: string, id: string)
    ensures id in StepNodes(steps, all, workflowUid) <==> exists i :: 0 <= i < |steps| && steps[i].workflowStepUid == id
  {
    if |steps| > 0 {
      var n := |steps| - 1;
      StepNodesKeys(steps[..n], all, workflowUid, id);
      assert forall i :: 0 <= i < n ==> steps[..n][i] == steps[i];
    }
  }

  /** The node stored under an id is built from the last step carrying that id. */
  lemma {:induction false} StepNodesLastWins(steps: seq<WorkflowStep>, all: seq<WorkflowStep>, workflowUid: string, i: nat)
    requires i < |steps|
    requires forall j :: i < j < |steps| ==> steps[j].workflowStepUid != steps[i].workflowStepUid
    ensures steps[i].workflowStepUid in StepNodes(steps, all, workflowUid)
    ensures StepNodes(steps, all, workflowUid)[steps[i].workflowStepUid] == NodeOf(steps[i], all, workflowUid)
  {
    var n := |steps| - 1;
    if i < n {
      assert forall j :: i < j < n ==> steps[..n][j] == steps[j];
      StepNodesLastWins(steps[..n], all, workflowUid, i);
    }
  }

  /**
   * `createWorkflowStepNodes`: one pass over the steps, tallying orders,
   * recording fork columns and the start node's successor, and building
   * the node records; then the start node is added under `<uid>-auth`.
   */
  method CreateWorkflowStepNodes(workflowSteps: seq<WorkflowStep>, workflowUid: string)
    returns (workflowStepNodes: WorkflowStepNodes, workflowStepOrderOccur: map<int, nat>,
             firstStepId: string, forkStepCols: seq<int>)
    ensures firstStepId == FirstStepId(workflowUid)
    ensures workflowStepOrderOccur == OrderOccurrences(workflowSteps)
    ensures forkStepCols == ForkStepCols(workflowSteps)
    ensures workflowStepNodes == StepNodes(workflowSteps, workflowSteps, workflowUid)[
      firstStepId := StartNode(workflowSteps, workflowUid, AuthorizeNextNodes(workflowSteps))]
  {
    firstStepId := FirstStepId(workflowUid);
    workflowStepNodes := map[];
    var authorizeNextNodes: seq<NextNode> := [];
    forkStepCols := [];
    workflowStepOrderOccur := map[];
    for i := 0 to |workflowSteps|
      invariant workflowStepOrderOccur == OrderOccurrences(workflowSteps[..i])
      invariant forkStepCols == ForkStepCols(workflowSteps[..i])
      invariant authorizeNextNodes == AuthorizeNextNodes(workflowSteps[..i])
      invariant workflowStepNodes == StepNodes(workflowSteps[..i], workflowSteps, workflowUid)
    {
      var workflowStep := workflowSteps[i];
      assert workflowSteps[..i + 1][..i] == workflowSteps[..i];
      var order := workflowStep.workflowStepOrder;
      workflowStepOrderOccur := workflowStepOrderOccur[
        order := (if order in workflowStepOrderOccur then workflowStepOrderOccur[order] else 0) + 1];
      if workflowStep.nodeType == FORK_NODE_TYPE {
        forkStepCols := forkStepCols + [order * 2];
      }
      if order == 1 {
        authorizeNextNodes := [NextNode(workflowStep.workflowStepUid, true)];
      }
      workflowStepNodes := workflowStepNodes[workflowStep.workflowStepUid := NodeOf(workflowStep, workflowSteps, workflowUid)];
    }
    assert workflowSteps[..|workflowSteps|] == workflowSteps;
    workflowStepNodes := workflowStepNodes[firstStepId := StartNode(workflowSteps, workflowUid, authorizeNextNodes)];
  }
}
