/**
 * `populateMatrix`: a best-first traversal of the step graph placing each
 * step into the column of its order, followed by the connector passes.
 */
module Populate {
  import opened Wrappers
  import opened Codec
  import opened StepGraph
  import opened Placement
  import opened BranchSort
  import opened Routing
  import opened Passes
  import opened Heap

  /** The row of a placed step. */
  function RowOf(nodeIdToCoord: map<string, string>, id: string): int
    requires id in nodeIdToCoord && Decodes(nodeIdToCoord[id])
  {
    DecodeMatrixCoord(nodeIdToCoord[id]).value.rowNum
  }

  predicate AllPlaced(ids: seq<string>, nodeIdToCoord: map<string, string>) {
    forall k :: 0 <= k < |ids| ==> ids[k] in nodeIdToCoord && Decodes(nodeIdToCoord[ids[k]])
  }

  /**
   * `sort(parentIdSortBy(nodeIdToCoord), parentIds)[0]`: the position of
   * the head of the stable ascending sort by row, that is the first
   * parent of least row.
   */
  function FirstLeastRowIndex(parentIds: seq<string>, nodeIdToCoord: map<string, string>): (r: nat)
    requires |parentIds| > 0 && AllPlaced(parentIds, nodeIdToCoord)
    ensures r < |parentIds|
    ensures forall k :: 0 <= k < |parentIds| ==> RowOf(nodeIdToCoord, parentIds[r]) <= RowOf(nodeIdToCoord, parentIds[k])
    ensures forall k :: 0 <= k < r ==> RowOf(nodeIdToCoord, parentIds[r]) < RowOf(nodeIdToCoord, parentIds[k])
  {
    var n := |parentIds|;
    if n == 1 then 0
    else
      var init := parentIds[..n - 1];
      assert forall i :: 0 <= i < n - 1 ==> init[i] == parentIds[i];
      var k := FirstLeastRowIndex(init, nodeIdToCoord);
      if RowOf(nodeIdToCoord, parentIds[n - 1]) < RowOf(nodeIdToCoord, parentIds[k]) then n - 1 else k
  }

  /**
   * The encoded parent coordinate a popped step is placed under: the
   * coordinate of its first parent of least row; without parents, the
   * coordinate recorded for the id "" (none unless such a step was placed).
   */
  function EncodedParentCoord(id: string, nodeIdToCoord: map<string, string>, nodeIdToParentNodeIds: map<string, seq<string>>): (r: Option<string>)
    requires id in nodeIdToParentNodeIds ==>
      |nodeIdToParentNodeIds[id]| > 0 && AllPlaced(nodeIdToParentNodeIds[id], nodeIdToCoord)
    ensures r.Some? ==> r.value in nodeIdToCoord.Values
    ensures id !in nodeIdToParentNodeIds ==> (r.Some? <==> "" in nodeIdToCoord)
    ensures id in nodeIdToParentNodeIds ==> r.Some? && Decodes(r.value)
  {
    var parentId := if id in nodeIdToParentNodeIds
                    then nodeIdToParentNodeIds[id][FirstLeastRowIndex(nodeIdToParentNodeIds[id], nodeIdToCoord)]
                    else "";
    if parentId in nodeIdToCoord then Some(nodeIdToCoord[parentId]) else None
  }

  /**
   * A step with recorded parents is placed under the coordinate of one of
   * them: one of least row, and the first such in the order the parents
   * were recorded.
   */
  lemma ParentCoordIsFirstLeast(id: string, nodeIdToCoord: map<string, string>, nodeIdToParentNodeIds: map<string, seq<string>>)
    requires id in nodeIdToParentNodeIds
    requires |nodeIdToParentNodeIds[id]| > 0 && AllPlaced(nodeIdToParentNodeIds[id], nodeIdToCoord)
    ensures var parents := nodeIdToParentNodeIds[id];
      exists k :: 0 <= k < |parents|
        && EncodedParentCoord(id, nodeIdToCoord, nodeIdToParentNodeIds) == Some(nodeIdToCoord[parents[k]])
        && (forall j :: 0 <= j < |parents| ==> RowOf(nodeIdToCoord, parents[k]) <= RowOf(nodeIdToCoord, parents[j]))
        && (forall j :: 0 <= j < k ==> RowOf(nodeIdToCoord, parents[k]) < RowOf(nodeIdToCoord, parents[j]))
  {
    var k := FirstLeastRowIndex(nodeIdToParentNodeIds[id], nodeIdToCoord);
    assert EncodedParentCoord(id, nodeIdToCoord, nodeIdToParentNodeIds) == Some(nodeIdToCoord[nodeIdToParentNodeIds[id][k]]);
  }

  /** `c` is one of the next nodes of step `p`. */
  predicate IsNextNode(nodes: WorkflowStepNodes, p: string, c: string) {
    p in nodes && c in Ids(nodes[p].nextNodes)
  }

  /** Every placed step is a step, in the column of its order, at a decodable coordinate. */
  ghost predicate CoordsOk(nodes: WorkflowStepNodes, nodeIdToCoord: map<string, string>) {
    forall id :: id in nodeIdToCoord ==>
      && id in nodes
      && Decodes(nodeIdToCoord[id])
      && DecodeMatrixCoord(nodeIdToCoord[id]).value.colNum == 2 * nodes[id].workflowStepOrder
  }

  /**
   * The two parent maps the traversal builds: `nodeIdToParentCoords`
   * with its keys in insertion order (the order `Object.keys` gives them
   * back in), and `nodeIdToParentNodeIds`.
   */
  datatype ParentRecords = ParentRecords(
    nodeIdToParentCoords: map<string, seq<string>>,
    parentCoordKeys: seq<string>,
    nodeIdToParentNodeIds: map<string, seq<string>>)

  /**
   * The key order lists each key once, both maps have the same keys and
   * lists of the same, non-zero length, every coordinate decodes, and
   * every recorded parent is placed and has the key as a next node.
   */
  ghost predicate ParentMapsOk(nodes: WorkflowStepNodes, nodeIdToCoord: map<string, string>, recs: ParentRecords) {
    var pcs, pnids := recs.nodeIdToParentCoords, recs.nodeIdToParentNodeIds;
    && Elements(recs.parentCoordKeys) == pcs.Keys && NoDuplicates(recs.parentCoordKeys)
    && pnids.Keys == pcs.Keys
    && (forall c :: c in pcs ==> |pcs[c]| == |pnids[c]| && |pnids[c]| > 0)
    && (forall c, j :: c in pcs && 0 <= j < |pcs[c]| ==> Decodes(pcs[c][j]))
    && (forall c, j :: c in pnids && 0 <= j < |pnids[c]| ==> pnids[c][j] in nodeIdToCoord && IsNextNode(nodes, pnids[c][j], c))
  }

  /** One turn of the inner loop's bookkeeping: `concat` onto both lists of `child`. */
  function Record(recs: ParentRecords, child: string, parentId: string, parentCoord: string): (r: ParentRecords)
    ensures child in r.nodeIdToParentNodeIds && parentId in r.nodeIdToParentNodeIds[child]
  {
    var pcs, pnids := recs.nodeIdToParentCoords, recs.nodeIdToParentNodeIds;
    var coords := if child in pcs then pcs[child] else [];
    var parents := if child in pnids then pnids[child] else [];
    var keys := if child in pcs then recs.parentCoordKeys else recs.parentCoordKeys + [child];
    assert (parents + [parentId])[|parents|] == parentId;
    ParentRecords(pcs[child := coords + [parentCoord]], keys, pnids[child := parents + [parentId]])
  }

  /** Recording keeps the key order listing each key once, and adds `child` to the keys. */
  lemma RecordKeepsKeys(recs: ParentRecords, child: string, parentId: string, parentCoord: string)
    requires Elements(recs.parentCoordKeys) == recs.nodeIdToParentCoords.Keys && NoDuplicates(recs.parentCoordKeys)
    requires recs.nodeIdToParentNodeIds.Keys == recs.nodeIdToParentCoords.Keys
    ensures var r := Record(recs, child, parentId, parentCoord);
      && Elements(r.parentCoordKeys) == r.nodeIdToParentCoords.Keys && NoDuplicates(r.parentCoordKeys)
      && r.nodeIdToParentNodeIds.Keys == r.nodeIdToParentCoords.Keys
      && r.nodeIdToParentCoords.Keys == recs.nodeIdToParentCoords.Keys + {child}
  {
    if child !in recs.nodeIdToParentCoords {
      AppendNewKey(recs.parentCoordKeys, child);
    }
  }

  /** Both lists of a key keep the same, non-zero length when each gets one more element. */
  lemma RecordKeepsLengths(pcs: map<string, seq<string>>, pnids: map<string, seq<string>>, child: string,
                           parentCoord: string, parentId: string)
    requires pnids.Keys == pcs.Keys
    requires forall c :: c in pcs ==> |pcs[c]| == |pnids[c]| && |pnids[c]| > 0
    ensures var pcs' := pcs[child := (if child in pcs then pcs[child] else []) + [parentCoord]];
      var pnids' := pnids[child := (if child in pnids then pnids[child] else []) + [parentId]];
      forall c :: c in pcs' ==> |pcs'[c]| == |pnids'[c]| && |pnids'[c]| > 0
  {
  }

  /** Appending a parent to one key's list extends the records. */
  lemma RecordExtends(pnids: map<string, seq<string>>, child: string, parentId: string)
    ensures Extends(pnids, pnids[child := (if child in pnids then pnids[child] else []) + [parentId]])
  {
  }

  /** Every coordinate still decodes after appending one that decodes. */
  lemma RecordKeepsCoords(pcs: map<string, seq<string>>, child: string, parentCoord: string)
    requires forall c, j :: c in pcs && 0 <= j < |pcs[c]| ==> Decodes(pcs[c][j])
    requires Decodes(parentCoord)
    ensures var pcs' := pcs[child := (if child in pcs then pcs[child] else []) + [parentCoord]];
      forall c, j :: c in pcs' && 0 <= j < |pcs'[c]| ==> Decodes(pcs'[c][j])
  {
    var coords := if child in pcs then pcs[child] else [];
    var pcs' := pcs[child := coords + [parentCoord]];
    forall c, j | c in pcs' && 0 <= j < |pcs'[c]| ensures Decodes(pcs'[c][j]) {
      if c == child && j < |coords| {
        assert pcs'[c][j] == pcs[c][j];
      }
    }
  }

  /** Every recorded parent is still placed and a parent of its key after appending one that is. */
  lemma RecordKeepsParents(nodes: WorkflowStepNodes, nodeIdToCoord: map<string, string>, pnids: map<string, seq<string>>,
                           child: string, parentId: string)
    requires forall c, j :: c in pnids && 0 <= j < |pnids[c]| ==> pnids[c][j] in nodeIdToCoord && IsNextNode(nodes, pnids[c][j], c)
    requires parentId in nodeIdToCoord && IsNextNode(nodes, parentId, child)
    ensures var pnids' := pnids[child := (if child in pnids then pnids[child] else []) + [parentId]];
      forall c, j :: c in pnids' && 0 <= j < |pnids'[c]| ==> pnids'[c][j] in nodeIdToCoord && IsNextNode(nodes, pnids'[c][j], c)
  {
    var parents := if child in pnids then pnids[child] else [];
    var pnids' := pnids[child := parents + [parentId]];
    forall c, j | c in pnids' && 0 <= j < |pnids'[c]|
      ensures pnids'[c][j] in nodeIdToCoord && IsNextNode(nodes, pnids'[c][j], c)
    {
      if c == child && j < |parents| {
        assert pnids'[c][j] == pnids[c][j];
      }
    }
  }

  /** Recording a placed parent of one of its next nodes keeps the records well formed and extends them. */
  lemma RecordPreserves(nodes: WorkflowStepNodes, nodeIdToCoord: map<string, string>, recs: ParentRecords, child: string, parentId: string)
    requires ParentMapsOk(nodes, nodeIdToCoord, recs)
    requires parentId in nodeIdToCoord && Decodes(nodeIdToCoord[parentId]) && IsNextNode(nodes, parentId, child)
    ensures var r := Record(recs, child, parentId, nodeIdToCoord[parentId]);
      && ParentMapsOk(nodes, nodeIdToCoord, r)
      && Extends(recs.nodeIdToParentNodeIds, r.nodeIdToParentNodeIds)
      && r.nodeIdToParentCoords.Keys == recs.nodeIdToParentCoords.Keys + {child}
  {
    var r := Record(recs, child, parentId, nodeIdToCoord[parentId]);
    var pcs, pnids := recs.nodeIdToParentCoords, recs.nodeIdToParentNodeIds;
    var pcs', pnids' := r.nodeIdToParentCoords, r.nodeIdToParentNodeIds;
    var coords := if child in pcs then pcs[child] else [];
    var parents := if child in pnids then pnids[child] else [];
    assert pcs' == pcs[child := coords + [nodeIdToCoord[parentId]]];
    assert pnids' == pnids[child := parents + [parentId]];
    RecordKeepsKeys(recs, child, parentId, nodeIdToCoord[parentId]);
    RecordKeepsLengths(pcs, pnids, child, nodeIdToCoord[parentId], parentId);
    RecordKeepsCoords(pcs, child, nodeIdToCoord[parentId]);
    RecordKeepsParents(nodes, nodeIdToCoord, pnids, child, parentId);
    RecordExtends(pnids, child, parentId);
  }

  /** Every next node of `p` has `p` among its recorded parents. */
  ghost predicate ChildrenRecorded(nodes: WorkflowStepNodes, p: string, nodeIdToParentNodeIds: map<string, seq<string>>) {
    p in nodes && forall c :: c in Ids(nodes[p].nextNodes) ==> c in nodeIdToParentNodeIds && p in nodeIdToParentNodeIds[c]
  }

  /** Every recorded parent is still recorded, at the same position. */
  ghost predicate Extends(before: map<string, seq<string>>, after: map<string, seq<string>>) {
    forall c :: c in before ==> c in after && before[c] <= after[c]
  }

  lemma ExtendsTransitive(m0: map<string, seq<string>>, m1: map<string, seq<string>>, m2: map<string, seq<string>>)
    requires Extends(m0, m1) && Extends(m1, m2)
    ensures Extends(m0, m2)
  {
    forall c | c in m0 ensures c in m2 && m0[c] <= m2[c] {
      assert m0[c] <= m1[c] && m1[c] <= m2[c];
    }
  }

  /** What `getSortedNextNodes` may rely on: every fork's branches reach a sink. */
  ghost predicate BranchesOk(nodes: WorkflowStepNodes) {
    forall id :: id in nodes && |nodes[id].nextNodes| >= 2 ==> BranchesReachSinks(nodes[id].nextNodes, nodes)
  }

  /** A key not yet in the order list is appended once. */
  lemma AppendNewKey(keys: seq<string>, x: string)
    requires NoDuplicates(keys) && x !in Elements(keys)
    ensures NoDuplicates(keys + [x]) && Elements(keys + [x]) == Elements(keys) + {x}
  {
    var r := keys + [x];
    assert forall k :: 0 <= k < |keys| ==> r[k] == keys[k];
    assert r[|keys|] == x;
    assert Elements(r) == Elements(keys) + {x} by {
      forall y ensures y in Elements(r) <==> y in Elements(keys) + {x} {
        if y in Elements(r) {
          var k :| 0 <= k < |r| && r[k] == y;
          if k < |keys| { assert y in Elements(keys); }
        }
        if y in Elements(keys) {
          var k :| 0 <= k < |keys| && keys[k] == y;
          assert r[k] == y;
        }
      }
    }
  }

  /** The sorted next nodes are the next nodes, as a set. */
  lemma SortedNextNodesElements(nextNodes: seq<NextNode>, nodes: WorkflowStepNodes)
    requires |nextNodes| >= 2 ==> BranchesReachSinks(nextNodes, nodes)
    ensures forall c :: c in Ids(nextNodes) <==> c in GetSortedNextNodes(nextNodes, nodes)
  {
    var r := GetSortedNextNodes(nextNodes, nodes);
    if |nextNodes| >= 2 {
      SortedNextNodesPermutation(nextNodes, nodes);
      forall c ensures c in Ids(nextNodes) <==> c in r {
        assert c in r <==> c in Elements(r);
        assert c in Ids(nextNodes) <==> c in Elements(Ids(nextNodes));
      }
    }
  }

  /** Records that extend keep `id` as a parent of the first `i` ids, and with the `i`-th recorded, of the first `i + 1`. */
  lemma ExtendsKeepsParent(before: map<string, seq<string>>, after: map<string, seq<string>>, ids: seq<string>, i: nat, id: string)
    requires Extends(before, after) && i < |ids|
    requires forall k :: 0 <= k < i ==> ids[k] in before && id in before[ids[k]]
    requires ids[i] in after && id in after[ids[i]]
    ensures forall k :: 0 <= k < i + 1 ==> ids[k] in after && id in after[ids[k]]
  {
    forall k | 0 <= k < i ensures ids[k] in after && id in after[ids[k]] {
      PrefixMember(before[ids[k]], after[ids[k]], id);
    }
  }

  /** After the first `i` sorted next nodes: the records are well formed, extend the old ones and have `id` as a parent of each. */
  ghost predicate VisitedSoFar(nodes: WorkflowStepNodes, nodeIdToCoord: map<string, string>, id: string, sortedNextNodes: seq<string>,
                               i: nat, recs0: ParentRecords, recs: ParentRecords)
  {
    && i <= |sortedNextNodes|
    && ParentMapsOk(nodes, nodeIdToCoord, recs)
    && Extends(recs0.nodeIdToParentNodeIds, recs.nodeIdToParentNodeIds)
    && forall k :: 0 <= k < i ==> sortedNextNodes[k] in recs.nodeIdToParentNodeIds && id in recs.nodeIdToParentNodeIds[sortedNextNodes[k]]
  }

  /** Recording `id` as a parent of the `i`-th sorted next node takes `VisitedSoFar` from `i` to `i + 1`. */
  lemma RecordStep(nodes: WorkflowStepNodes, nodeIdToCoord: map<string, string>, id: string, sortedNextNodes: seq<string>,
                   i: nat, recs0: ParentRecords, recs: ParentRecords)
    requires VisitedSoFar(nodes, nodeIdToCoord, id, sortedNextNodes, i, recs0, recs) && i < |sortedNextNodes|
    requires id in nodeIdToCoord && Decodes(nodeIdToCoord[id]) && IsNextNode(nodes, id, sortedNextNodes[i])
    ensures var r := Record(recs, sortedNextNodes[i], id, nodeIdToCoord[id]);
      && VisitedSoFar(nodes, nodeIdToCoord, id, sortedNextNodes, i + 1, recs0, r)
      && r.nodeIdToParentCoords.Keys == recs.nodeIdToParentCoords.Keys + {sortedNextNodes[i]}
  {
    var r := Record(recs, sortedNextNodes[i], id, nodeIdToCoord[id]);
    RecordPreserves(nodes, nodeIdToCoord, recs, sortedNextNodes[i], id);
    ExtendsTransitive(recs0.nodeIdToParentNodeIds, recs.nodeIdToParentNodeIds, r.nodeIdToParentNodeIds);
    ExtendsKeepsParent(recs.nodeIdToParentNodeIds, r.nodeIdToParentNodeIds, sortedNextNodes, i, id);
  }

  /** The records after the first `i` sorted next nodes: `Record` applied to each in turn. */
  function RecordAll(recs: ParentRecords, sortedNextNodes: seq<string>, parentId: string, parentCoord: string, i: nat): ParentRecords
    requires i <= |sortedNextNodes|
  {
    if i == 0 then recs
    else Record(RecordAll(recs, sortedNextNodes, parentId, parentCoord, i - 1), sortedNextNodes[i - 1], parentId, parentCoord)
  }

  /** The priority of the `i`-th of `n` sorted next nodes: its order plus `i / n`. */
  function Priority(nodes: WorkflowStepNodes, c: string, i: nat, n: nat): real
    requires c in nodes && i < n
  {
    nodes[c].workflowStepOrder as real + (i as real) / (n as real)
  }

  /** The ids, among the first `i` next nodes, that were neither explored before nor met earlier in the list, are steps. */
  predicate UnexploredAreSteps(nodes: WorkflowStepNodes, sortedNextNodes: seq<string>, explored: set<string>, i: nat) {
    forall k :: 0 <= k < i && k < |sortedNextNodes| && sortedNextNodes[k] !in explored ==> sortedNextNodes[k] in nodes
  }

  /**
   * The entries the inner loop queues for the first `i` sorted next
   * nodes: one for each next node neither explored before the loop nor
   * met earlier in the list, with the priority of its position.
   */
  function Queued(nodes: WorkflowStepNodes, sortedNextNodes: seq<string>, explored: set<string>, i: nat): seq<HeapEntry>
    requires i <= |sortedNextNodes| && UnexploredAreSteps(nodes, sortedNextNodes, explored, i)
  {
    if i == 0 then []
    else
      var c := sortedNextNodes[i - 1];
      Queued(nodes, sortedNextNodes, explored, i - 1)
        + (if c in explored || c in sortedNextNodes[..i - 1] then [] else [HeapEntry(c, Priority(nodes, c, i - 1, |sortedNextNodes|))])
  }

  lemma ElementsAppend(a: seq<string>, b: seq<string>)
    ensures Elements(a + b) == Elements(a) + Elements(b)
  {
    forall x | x in Elements(a + b) ensures x in Elements(a) + Elements(b) {
      var k :| 0 <= k < |a + b| && (a + b)[k] == x;
      if k >= |a| {
        assert b[k - |a|] == x;
      }
    }
    forall x | x in Elements(a) + Elements(b) ensures x in Elements(a + b) {
      if x in Elements(a) {
        var k :| 0 <= k < |a| && a[k] == x;
        assert (a + b)[k] == x;
      } else {
        var k :| 0 <= k < |b| && b[k] == x;
        assert (a + b)[|a| + k] == x;
      }
    }
  }

  /**
   * The queued entries name each next node that was not explored before
   * exactly once, and nothing else.
   */
  lemma {:induction false} QueuedIds(nodes: WorkflowStepNodes, sortedNextNodes: seq<string>, explored: set<string>, i: nat)
    requires i <= |sortedNextNodes| && UnexploredAreSteps(nodes, sortedNextNodes, explored, i)
    ensures NoDuplicates(Vals(Queued(nodes, sortedNextNodes, explored, i)))
    ensures Elements(Vals(Queued(nodes, sortedNextNodes, explored, i))) == Elements(sortedNextNodes[..i]) - explored
  {
    if i > 0 {
      var s := sortedNextNodes;
      var c := s[i - 1];
      var q0 := Queued(nodes, s, explored, i - 1);
      var tail := if c in explored || c in s[..i - 1] then [] else [HeapEntry(c, Priority(nodes, c, i - 1, |s|))];
      QueuedIds(nodes, s, explored, i - 1);
      ValsAppend(q0, tail);
      ElementsAppend(Vals(q0), Vals(tail));
      assert s[..i] == s[..i - 1] + [c];
      ElementsAppend(s[..i - 1], [c]);
      assert Elements([c]) == {c} by {
        assert [c][0] == c;
      }
      if tail != [] {
        assert c !in Elements(s[..i - 1]);
        assert Vals(tail) == [c] && Elements(Vals(tail)) == {c};
        assert c !in Elements(Vals(q0));
      } else if c !in explored {
        var k :| 0 <= k < i - 1 && s[..i - 1][k] == c;
        assert c in Elements(s[..i - 1]);
      }
    }
  }

  /**
   * Every parent coordinate recorded under a parent other than the first
   * step is that parent's placed coordinate.
   */
  ghost predicate ParentCoordsCurrent(firstStep: string, nodeIdToCoord: map<string, string>, recs: ParentRecords) {
    var pcs, pnids := recs.nodeIdToParentCoords, recs.nodeIdToParentNodeIds;
    && pnids.Keys == pcs.Keys
    && (forall c :: c in pcs ==> |pcs[c]| == |pnids[c]|)
    && forall c, j :: c in pnids && 0 <= j < |pnids[c]| && pnids[c][j] != firstStep ==>
         pnids[c][j] in nodeIdToCoord && pcs[c][j] == nodeIdToCoord[pnids[c][j]]
  }

  /** Recording the placed step `id` with its own coordinate keeps the recorded coordinates current. */
  lemma RecordKeepsCurrent(firstStep: string, nodeIdToCoord: map<string, string>, recs: ParentRecords, child: string, id: string)
    requires ParentCoordsCurrent(firstStep, nodeIdToCoord, recs) && id in nodeIdToCoord
    ensures ParentCoordsCurrent(firstStep, nodeIdToCoord, Record(recs, child, id, nodeIdToCoord[id]))
  {
    var r := Record(recs, child, id, nodeIdToCoord[id]);
    var pcs, pnids := recs.nodeIdToParentCoords, recs.nodeIdToParentNodeIds;
    forall c, j | c in r.nodeIdToParentNodeIds && 0 <= j < |r.nodeIdToParentNodeIds[c]| && r.nodeIdToParentNodeIds[c][j] != firstStep
      ensures r.nodeIdToParentNodeIds[c][j] in nodeIdToCoord && r.nodeIdToParentCoords[c][j] == nodeIdToCoord[r.nodeIdToParentNodeIds[c][j]]
    {
      if c == child && c in pnids && j < |pnids[c]| {
        assert r.nodeIdToParentNodeIds[c][j] == pnids[c][j] && r.nodeIdToParentCoords[c][j] == pcs[c][j];
      }
    }
  }

  lemma {:induction false} RecordAllKeepsCurrent(firstStep: string, nodeIdToCoord: map<string, string>, recs: ParentRecords,
                                                 sortedNextNodes: seq<string>, id: string, i: nat)
    requires ParentCoordsCurrent(firstStep, nodeIdToCoord, recs) && id in nodeIdToCoord && i <= |sortedNextNodes|
    ensures ParentCoordsCurrent(firstStep, nodeIdToCoord, RecordAll(recs, sortedNextNodes, id, nodeIdToCoord[id], i))
  {
    if i > 0 {
      RecordAllKeepsCurrent(firstStep, nodeIdToCoord, recs, sortedNextNodes, id, i - 1);
      RecordKeepsCurrent(firstStep, nodeIdToCoord, RecordAll(recs, sortedNextNodes, id, nodeIdToCoord[id], i - 1), sortedNextNodes[i - 1], id);
    }
  }

  /**
   * The queue between turns, against `log`, every entry ever inserted:
   * every waiting id is explored or the first step; an id other than the
   * first step waits at most once, and not at all once placed; every
   * placed id is explored or the first step; and the insertions are the
   * first step once and each explored step once.
   */
  ghost predicate QueueInv(firstStep: string, entries: seq<HeapEntry>, log: seq<HeapEntry>, explored: set<string>,
                           nodeIdToCoord: map<string, string>)
  {
    && (forall x :: multiset(Vals(entries))[x] > 0 ==> x in explored || x == firstStep)
    && (forall x :: x != firstStep ==> multiset(Vals(entries))[x] <= 1)
    && (forall x :: x in nodeIdToCoord && x != firstStep ==> multiset(Vals(entries))[x] == 0)
    && nodeIdToCoord.Keys <= explored + {firstStep}
    && multiset(Vals(log)) == multiset{firstStep} + multiset(explored)
  }

  /**
   * Popping `min` and placing it keeps the queue invariant, and keeps the
   * recorded coordinates current: a step other than the first that is
   * already a recorded parent is placed, so it no longer waits and is
   * not the one popped.
   */
  lemma PopKeepsQueueInv(firstStep: string, entries0: seq<HeapEntry>, entries1: seq<HeapEntry>, min: HeapEntry, log: seq<HeapEntry>,
                         explored: set<string>, nodeIdToCoord: map<string, string>, coord: string, recs: ParentRecords)
    requires QueueInv(firstStep, entries0, log, explored, nodeIdToCoord) && ParentCoordsCurrent(firstStep, nodeIdToCoord, recs)
    requires min in entries0 && multiset(Vals(entries1)) == multiset(Vals(entries0)) - multiset{min.val}
    ensures QueueInv(firstStep, entries1, log, explored, nodeIdToCoord[min.val := coord])
    ensures ParentCoordsCurrent(firstStep, nodeIdToCoord[min.val := coord], recs)
  {
    var k :| 0 <= k < |entries0| && entries0[k] == min;
    assert Vals(entries0)[k] == min.val;
    assert multiset(Vals(entries0))[min.val] > 0;
    var pnids := recs.nodeIdToParentNodeIds;
    forall c, j | c in pnids && 0 <= j < |pnids[c]| && pnids[c][j] != firstStep
      ensures pnids[c][j] != min.val
    {
      assert pnids[c][j] in nodeIdToCoord;
    }
  }

  /** Multisets of disjoint sets add up to the multiset of their union. */
  lemma DisjointUnionMultiset(a: set<string>, b: set<string>)
    requires a * b == {}
    ensures multiset(a) + multiset(b) == multiset(a + b)
  {
    forall x ensures (multiset(a) + multiset(b))[x] == multiset(a + b)[x] {
      assert x in a && x in b ==> x in a * b;
    }
  }

  /**
   * Visiting the next nodes of the placed step `id` (queueing `Queued`,
   * exploring every next node, recording `id` as their parent) keeps the
   * queue invariant and the recorded coordinates current.
   */
  lemma VisitKeepsQueueInv(nodes: WorkflowStepNodes, firstStep: string, entries1: seq<HeapEntry>, log: seq<HeapEntry>,
                           explored: set<string>, nodeIdToCoord: map<string, string>, recs: ParentRecords,
                           id: string, sortedNextNodes: seq<string>)
    requires QueueInv(firstStep, entries1, log, explored, nodeIdToCoord) && ParentCoordsCurrent(firstStep, nodeIdToCoord, recs)
    requires id in nodeIdToCoord && UnexploredAreSteps(nodes, sortedNextNodes, explored, |sortedNextNodes|)
    ensures var q := Queued(nodes, sortedNextNodes, explored, |sortedNextNodes|);
      && QueueInv(firstStep, entries1 + q, log + q, explored + Elements(sortedNextNodes), nodeIdToCoord)
      && ParentCoordsCurrent(firstStep, nodeIdToCoord, RecordAll(recs, sortedNextNodes, id, nodeIdToCoord[id], |sortedNextNodes|))
  {
    var s := sortedNextNodes;
    var q := Queued(nodes, s, explored, |s|);
    var newIds := Elements(s) - explored;
    QueuedMultiset(nodes, s, explored);
    ValsAppend(entries1, q);
    ValsAppend(log, q);
    assert explored + newIds == explored + Elements(s);
    QueueInvAdd(firstStep, entries1, log, explored, nodeIdToCoord, newIds, entries1 + q, log + q);
    RecordAllKeepsCurrent(firstStep, nodeIdToCoord, recs, s, id, |s|);
  }

  /**
   * The queued ids, as a multiset: each next node not explored before,
   * once; so the queue gains exactly as many entries as ids are newly
   * explored.
   */
  lemma QueuedMultiset(nodes: WorkflowStepNodes, sortedNextNodes: seq<string>, explored: set<string>)
    requires UnexploredAreSteps(nodes, sortedNextNodes, explored, |sortedNextNodes|)
    ensures multiset(Vals(Queued(nodes, sortedNextNodes, explored, |sortedNextNodes|))) == multiset(Elements(sortedNextNodes) - explored)
    ensures |Queued(nodes, sortedNextNodes, explored, |sortedNextNodes|)| == |(explored + Elements(sortedNextNodes)) - explored|
  {
    var q := Queued(nodes, sortedNextNodes, explored, |sortedNextNodes|);
    assert sortedNextNodes[..|sortedNextNodes|] == sortedNextNodes;
    QueuedIds(nodes, sortedNextNodes, explored, |sortedNextNodes|);
    NoDuplicatesMultiset(Vals(q));
    assert (explored + Elements(sortedNextNodes)) - explored == Elements(sortedNextNodes) - explored;
    SetMultisetSize(Elements(sortedNextNodes) - explored);
    assert |multiset(Vals(q))| == |Vals(q)|;
  }

  /** A set and its multiset have the same size. */
  lemma {:induction false} SetMultisetSize(xs: set<string>)
    ensures |multiset(xs)| == |xs|
    decreases |xs|
  {
    if xs != {} {
      var x :| x in xs;
      SetMultisetSize(xs - {x});
      assert multiset(xs) == multiset(xs - {x}) + multiset{x};
    }
  }

  /** Entry `e` is queued for the `k`-th next node: its first occurrence, not explored before, at the priority of position `k`. */
  predicate QueuedAt(nodes: WorkflowStepNodes, sortedNextNodes: seq<string>, explored: set<string>, e: HeapEntry, k: nat) {
    && k < |sortedNextNodes| && sortedNextNodes[k] == e.val && e.val in nodes
    && e.val !in explored && e.val !in sortedNextNodes[..k]
    && e.priority == Priority(nodes, e.val, k, |sortedNextNodes|)
  }

  /** Entry `e` is queued for one of the first `i` next nodes. */
  ghost predicate QueuedBefore(nodes: WorkflowStepNodes, sortedNextNodes: seq<string>, explored: set<string>, e: HeapEntry, i: nat) {
    exists k: nat :: k < i && QueuedAt(nodes, sortedNextNodes, explored, e, k)
  }

  /** Every queued entry is queued for some next node, with the priority `order + k / n` of its first position `k`. */
  lemma {:induction false} QueuedEntries(nodes: WorkflowStepNodes, sortedNextNodes: seq<string>, explored: set<string>, i: nat)
    requires i <= |sortedNextNodes| && UnexploredAreSteps(nodes, sortedNextNodes, explored, i)
    ensures forall j :: 0 <= j < |Queued(nodes, sortedNextNodes, explored, i)| ==>
      QueuedBefore(nodes, sortedNextNodes, explored, Queued(nodes, sortedNextNodes, explored, i)[j], i)
  {
    if i > 0 {
      var s := sortedNextNodes;
      var c := s[i - 1];
      var q0 := Queued(nodes, s, explored, i - 1);
      var q := Queued(nodes, s, explored, i);
      QueuedEntries(nodes, s, explored, i - 1);
      forall j | 0 <= j < |q| ensures QueuedBefore(nodes, s, explored, q[j], i) {
        if j < |q0| {
          assert q[j] == q0[j];
          assert QueuedBefore(nodes, s, explored, q0[j], i - 1);
          var k: nat :| k < i - 1 && QueuedAt(nodes, s, explored, q0[j], k);
        } else {
          assert QueuedAt(nodes, s, explored, q[j], i - 1);
        }
      }
    } else {
      assert Queued(nodes, sortedNextNodes, explored, i) == [];
    }
  }

  /**
   * Queueing and logging one entry for each id of a set of ids not yet
   * explored, and exploring them, keeps the queue invariant.
   */
  lemma QueueInvAdd(firstStep: string, entries: seq<HeapEntry>, log: seq<HeapEntry>, explored: set<string>,
                    nodeIdToCoord: map<string, string>, newIds: set<string>, entries': seq<HeapEntry>, log': seq<HeapEntry>)
    requires QueueInv(firstStep, entries, log, explored, nodeIdToCoord) && newIds * explored == {}
    requires multiset(Vals(entries')) == multiset(Vals(entries)) + multiset(newIds)
    requires multiset(Vals(log')) == multiset(Vals(log)) + multiset(newIds)
    ensures QueueInv(firstStep, entries', log', explored + newIds, nodeIdToCoord)
  {
    DisjointUnionMultiset(explored, newIds);
    forall x | x != firstStep ensures multiset(Vals(entries'))[x] <= 1 {
      if x in newIds {
        assert x !in explored by {
          assert x in explored ==> x in newIds * explored;
        }
      }
    }
    forall x | x in nodeIdToCoord && x != firstStep ensures multiset(Vals(entries'))[x] == 0 {
      assert x in explored;
      assert x !in newIds by {
        assert x in newIds ==> x in newIds * explored;
      }
    }
  }


  // ---------------------------------------------------------------
  // What the traversal draws
  // ---------------------------------------------------------------

  /** The tile of the step `id` placed in a column whose first cell is `firstCell`. */
  function NodeTile(firstCell: string, id: string): string {
    EncodeMatrixEntry(NodeTileFields(firstCell, id))
  }

  /** No step id holds the entry delimiter '|', so a node tile reads back as its fields. */
  predicate IdsBarFree(nodes: WorkflowStepNodes) {
    forall id :: id in nodes ==> NoBar(id)
  }

  /** Cell `r` of column `c` of `m` is new or differs from the original grid's. */
  predicate Changed(original: seq<seq<string>>, m: seq<seq<string>>, c: nat, r: nat)
    requires c < |original| && c < |m| && r < |m[c]|
  {
    r >= |original[c]| || m[c][r] != original[c][r]
  }

  /**
   * Cell `r` of column `c` holds a node tile drawn by the traversal: the
   * column was not empty to begin with, and (when ids hold no '|') the
   * cell is the tile of a placed step of that column, over the column's
   * original first cell.
   */
  ghost predicate DrawnBy(nodes: WorkflowStepNodes, nodeIdToCoord: map<string, string>, original: seq<seq<string>>,
                          m: seq<seq<string>>, c: nat, r: nat)
    requires c < |original| && c < |m| && r < |m[c]|
  {
    && 0 < |original[c]|
    && IsNodeTile(m[c][r])
    && (IdsBarFree(nodes) ==>
          exists id :: id in nodeIdToCoord && id in nodes && c == 2 * nodes[id].workflowStepOrder
            && m[c][r] == NodeTile(original[c][0], id))
  }

  /** The placed coordinate is a cell of `m` holding a node tile. */
  ghost predicate OnNodeTile(m: seq<seq<string>>, encodedCoord: string) {
    && Decodes(encodedCoord)
    && var p := DecodeMatrixCoord(encodedCoord).value;
       0 <= p.colNum < |m| && 0 <= p.rowNum < |m[p.colNum]| && IsNodeTile(m[p.colNum][p.rowNum])
  }

  /**
   * The grid against the one the traversal started from: it has only
   * grown, every cell that changed holds a node tile the traversal drew,
   * and every placed step's coordinate is a cell holding a node tile.
   */
  ghost predicate NodesDrawn(nodes: WorkflowStepNodes, nodeIdToCoord: map<string, string>, original: seq<seq<string>>, m: seq<seq<string>>) {
    && Grows(original, m)
    && (forall c, r :: 0 <= c < |m| && 0 <= r < |m[c]| && Changed(original, m, c, r) ==> DrawnBy(nodes, nodeIdToCoord, original, m, c, r))
    && forall id :: id in nodeIdToCoord ==> OnNodeTile(m, nodeIdToCoord[id])
  }

  /**
   * Writing the tile of `id` into row `r` of its column `c` (read over
   * the column's current first cell) and recording its coordinate keeps
   * the grid drawn.
   */
  lemma DrawStep(nodes: WorkflowStepNodes, nodeIdToCoord: map<string, string>, original: seq<seq<string>>, m: seq<seq<string>>,
                 id: string, c: nat, r: nat)
    requires NodesDrawn(nodes, nodeIdToCoord, original, m)
    requires id in nodes && c == 2 * nodes[id].workflowStepOrder && c < |m| && 0 < |m[c]| && r <= |m[c]|
    ensures NodesDrawn(nodes, nodeIdToCoord[id := EncodeMatrixCoord(Coord(c, r))], original,
                       m[c := ColumnWith(m[c], r, NodeTile(m[c][0], id))])
  {
    var tile := NodeTile(m[c][0], id);
    var m' := m[c := ColumnWith(m[c], r, tile)];
    var placed' := nodeIdToCoord[id := EncodeMatrixCoord(Coord(c, r))];
    NodeTileIsNodeTile(m[c][0], id);
    if |original[c]| == 0 {
      assert Changed(original, m, c, 0);
    }
    assert tile == NodeTile(original[c][0], id) || !IdsBarFree(nodes) by {
      if IdsBarFree(nodes) && m[c][0] != original[c][0] {
        assert Changed(original, m, c, 0);
        var id0 :| id0 in nodeIdToCoord && id0 in nodes && c == 2 * nodes[id0].workflowStepOrder
                   && m[c][0] == NodeTile(original[c][0], id0);
        NodeTileOverNodeTile(original[c][0], id0, id);
      }
    }
    forall c', r' | 0 <= c' < |m'| && 0 <= r' < |m'[c']| && Changed(original, m', c', r')
      ensures DrawnBy(nodes, placed', original, m', c', r')
    {
      if c' == c && r' == r {
        assert m'[c'][r'] == tile;
      } else {
        assert r' < |m[c']| && m'[c'][r'] == m[c'][r'];
        assert Changed(original, m, c', r');
        if IdsBarFree(nodes) {
          var id0 :| id0 in nodeIdToCoord && id0 in nodes && c' == 2 * nodes[id0].workflowStepOrder
                     && m[c'][r'] == NodeTile(original[c'][0], id0);
          assert id0 in placed';
        }
      }
    }
    CoordRoundTrip(Coord(c, r));
    forall x | x in placed' ensures OnNodeTile(m', placed'[x]) {
      if x != id {
        var p := DecodeMatrixCoord(nodeIdToCoord[x]).value;
        assert OnNodeTile(m, nodeIdToCoord[x]);
        if p.colNum == c && p.rowNum == r {
          assert m'[c][r] == tile;
        } else {
          assert m'[p.colNum][p.rowNum] == m[p.colNum][p.rowNum];
        }
      }
    }
  }

  /**
   * The inner loop of the traversal: for each sorted next node, record
   * the popped step as a parent (its coordinate and its id), and queue the
   * next node when it is not yet explored, with its order plus its
   * position over the number of next nodes as priority. Fails where the
   * source reads the order of a next node that is not a step. The records
   * are `RecordAll`, the queued entries (and the insertion log's new
   * entries) `Queued`, and every next node ends up explored.
   */
  method VisitNextNodes(id: string, sortedNextNodes: seq<string>, nodes: WorkflowStepNodes, toExplore: MinHeap,
                        explored: set<string>, nodeIdToCoord: map<string, string>, recs: ParentRecords)
    returns (explored': set<string>, recs': ParentRecords, failed: bool)
    requires id in nodeIdToCoord
    modifies toExplore
    ensures !failed ==>
      && UnexploredAreSteps(nodes, sortedNextNodes, explored, |sortedNextNodes|)
      && explored' == explored + Elements(sortedNextNodes)
      && recs' == RecordAll(recs, sortedNextNodes, id, nodeIdToCoord[id], |sortedNextNodes|)
      && toExplore.entries == old(toExplore.entries) + Queued(nodes, sortedNextNodes, explored, |sortedNextNodes|)
      && toExplore.log == old(toExplore.log) + Queued(nodes, sortedNextNodes, explored, |sortedNextNodes|)
  {
    explored', recs' := explored, recs;
    var n := |sortedNextNodes|;
    ghost var coord := nodeIdToCoord[id];
    for i := 0 to n
      invariant VisitedUpTo(nodes, sortedNextNodes, explored, recs, id, coord, i, explored', recs',
                            old(toExplore.entries), toExplore.entries, old(toExplore.log), toExplore.log)
    {
      var nextStepId := sortedNextNodes[i];
      ghost var entries, log := toExplore.entries, toExplore.log;
      if nextStepId !in explored' {
        if nextStepId !in nodes {
          return explored', recs' , true;
        }
        VisitOneStep(nodes, sortedNextNodes, explored, recs, id, coord, i, explored', recs',
                     old(toExplore.entries), entries, old(toExplore.log), log);
        recs' := Record(recs', nextStepId, id, nodeIdToCoord[id]);
        var childOrder := (i as real) / (n as real);
        var priority := nodes[nextStepId].workflowStepOrder as real + childOrder;
        toExplore.Insert(HeapEntry(nextStepId, priority));
        explored' := explored' + {nextStepId};
      } else {
        VisitOneStep(nodes, sortedNextNodes, explored, recs, id, coord, i, explored', recs',
                     old(toExplore.entries), entries, old(toExplore.log), log);
        recs' := Record(recs', nextStepId, id, nodeIdToCoord[id]);
      }
    }
    VisitedAll(nodes, sortedNextNodes, explored, recs, id, coord, explored', recs',
               old(toExplore.entries), toExplore.entries, old(toExplore.log), toExplore.log);
    failed := false;
  }

  /**
   * The inner loop after the first `i` next nodes: all of them explored,
   * the popped step recorded as their parent, and `Queued` appended to
   * the queue and to the insertion log.
   */
  ghost predicate VisitedUpTo(nodes: WorkflowStepNodes, sortedNextNodes: seq<string>, explored: set<string>, recs: ParentRecords,
                              id: string, coord: string, i: nat, explored': set<string>, recs': ParentRecords,
                              entries0: seq<HeapEntry>, entries: seq<HeapEntry>, log0: seq<HeapEntry>, log: seq<HeapEntry>)
  {
    && i <= |sortedNextNodes|
    && explored' == explored + Elements(sortedNextNodes[..i])
    && recs' == RecordAll(recs, sortedNextNodes, id, coord, i)
    && UnexploredAreSteps(nodes, sortedNextNodes, explored, i)
    && entries == entries0 + Queued(nodes, sortedNextNodes, explored, i)
    && log == log0 + Queued(nodes, sortedNextNodes, explored, i)
  }

  /** One turn of the inner loop takes `VisitedUpTo` from `i` to `i + 1`. */
  lemma VisitOneStep(nodes: WorkflowStepNodes, sortedNextNodes: seq<string>, explored: set<string>, recs: ParentRecords,
                     id: string, coord: string, i: nat, explored': set<string>, recs': ParentRecords,
                     entries0: seq<HeapEntry>, entries: seq<HeapEntry>, log0: seq<HeapEntry>, log: seq<HeapEntry>)
    requires VisitedUpTo(nodes, sortedNextNodes, explored, recs, id, coord, i, explored', recs', entries0, entries, log0, log)
    requires i < |sortedNextNodes| && (sortedNextNodes[i] !in explored' ==> sortedNextNodes[i] in nodes)
    ensures var c := sortedNextNodes[i];
      var r := Record(recs', c, id, coord);
      if c in explored' then VisitedUpTo(nodes, sortedNextNodes, explored, recs, id, coord, i + 1, explored', r, entries0, entries, log0, log)
      else
        var e := HeapEntry(c, nodes[c].workflowStepOrder as real + (i as real) / (|sortedNextNodes| as real));
        VisitedUpTo(nodes, sortedNextNodes, explored, recs, id, coord, i + 1, explored' + {c}, r, entries0, entries + [e], log0, log + [e])
  {
    QueuedStep(nodes, sortedNextNodes, explored, explored', i);
  }

  /** After the last next node, `VisitedUpTo` is the inner loop's promise. */
  lemma VisitedAll(nodes: WorkflowStepNodes, sortedNextNodes: seq<string>, explored: set<string>, recs: ParentRecords,
                   id: string, coord: string, explored': set<string>, recs': ParentRecords,
                   entries0: seq<HeapEntry>, entries: seq<HeapEntry>, log0: seq<HeapEntry>, log: seq<HeapEntry>)
    requires VisitedUpTo(nodes, sortedNextNodes, explored, recs, id, coord, |sortedNextNodes|, explored', recs', entries0, entries, log0, log)
    ensures UnexploredAreSteps(nodes, sortedNextNodes, explored, |sortedNextNodes|)
    ensures explored' == explored + Elements(sortedNextNodes)
    ensures recs' == RecordAll(recs, sortedNextNodes, id, coord, |sortedNextNodes|)
    ensures entries == entries0 + Queued(nodes, sortedNextNodes, explored, |sortedNextNodes|)
    ensures log == log0 + Queued(nodes, sortedNextNodes, explored, |sortedNextNodes|)
  {
    assert sortedNextNodes[..|sortedNextNodes|] == sortedNextNodes;
  }

  /**
   * One turn of the inner loop, on the queued entries: the `i`-th next
   * node is queued, with the priority of its position, exactly when it is
   * not explored so far; either way it is explored afterwards.
   */
  lemma QueuedStep(nodes: WorkflowStepNodes, sortedNextNodes: seq<string>, explored: set<string>, explored': set<string>, i: nat)
    requires i < |sortedNextNodes| && explored' == explored + Elements(sortedNextNodes[..i])
    requires UnexploredAreSteps(nodes, sortedNextNodes, explored, i)
    requires sortedNextNodes[i] !in explored' ==> sortedNextNodes[i] in nodes
    ensures UnexploredAreSteps(nodes, sortedNextNodes, explored, i + 1)
    ensures explored' + {sortedNextNodes[i]} == explored + Elements(sortedNextNodes[..i + 1])
    ensures var c := sortedNextNodes[i];
      Queued(nodes, sortedNextNodes, explored, i + 1) == Queued(nodes, sortedNextNodes, explored, i)
        + (if c in explored' then [] else [HeapEntry(c, Priority(nodes, c, i, |sortedNextNodes|))])
  {
    var c := sortedNextNodes[i];
    ElementsPrefixStep(sortedNextNodes, i);
    if c in explored' && c !in explored {
      var k :| 0 <= k < i && sortedNextNodes[..i][k] == c;
      assert sortedNextNodes[k] == c;
    }
  }

  /** The records after the first `i` next nodes satisfy `VisitedSoFar`. */
  lemma RecordAllFacts(nodes: WorkflowStepNodes, nodeIdToCoord: map<string, string>, recs: ParentRecords,
                       id: string, sortedNextNodes: seq<string>, i: nat)
    requires i <= |sortedNextNodes| && id in nodeIdToCoord && Decodes(nodeIdToCoord[id])
    requires ParentMapsOk(nodes, nodeIdToCoord, recs)
    requires forall c :: c in sortedNextNodes ==> IsNextNode(nodes, id, c)
    ensures VisitedSoFar(nodes, nodeIdToCoord, id, sortedNextNodes, i, recs, RecordAll(recs, sortedNextNodes, id, nodeIdToCoord[id], i))
  {
    assert Extends(recs.nodeIdToParentNodeIds, recs.nodeIdToParentNodeIds);
    var k := 0;
    while k < i
      invariant k <= i
      invariant VisitedSoFar(nodes, nodeIdToCoord, id, sortedNextNodes, k, recs, RecordAll(recs, sortedNextNodes, id, nodeIdToCoord[id], k))
    {
      ghost var r0 := RecordAll(recs, sortedNextNodes, id, nodeIdToCoord[id], k);
      RecordOneMore(nodes, nodeIdToCoord, recs, id, sortedNextNodes, k, r0);
      assert RecordAll(recs, sortedNextNodes, id, nodeIdToCoord[id], k + 1) == Record(r0, sortedNextNodes[k], id, nodeIdToCoord[id]);
      k := k + 1;
    }
  }

  /** The inductive step of `RecordAllFacts`: one more `Record` keeps `VisitedSoFar`. */
  lemma RecordOneMore(nodes: WorkflowStepNodes, nodeIdToCoord: map<string, string>, recs: ParentRecords,
                      id: string, sortedNextNodes: seq<string>, i: nat, r0: ParentRecords)
    requires i < |sortedNextNodes| && id in nodeIdToCoord && Decodes(nodeIdToCoord[id])
    requires forall c :: c in sortedNextNodes ==> IsNextNode(nodes, id, c)
    requires VisitedSoFar(nodes, nodeIdToCoord, id, sortedNextNodes, i, recs, r0)
    ensures VisitedSoFar(nodes, nodeIdToCoord, id, sortedNextNodes, i + 1, recs, Record(r0, sortedNextNodes[i], id, nodeIdToCoord[id]))
  {
    assert sortedNextNodes[i] in sortedNextNodes;
    RecordStep(nodes, nodeIdToCoord, id, sortedNextNodes, i, recs, r0);
  }

  /** The records after the first `i` next nodes have those next nodes added to their keys. */
  lemma {:induction false} RecordAllKeys(recs: ParentRecords, sortedNextNodes: seq<string>, id: string, coord: string, i: nat)
    requires i <= |sortedNextNodes|
    ensures RecordAll(recs, sortedNextNodes, id, coord, i).nodeIdToParentCoords.Keys
      == recs.nodeIdToParentCoords.Keys + Elements(sortedNextNodes[..i])
  {
    if i == 0 {
      assert Elements(sortedNextNodes[..0]) == {};
    } else {
      RecordAllKeys(recs, sortedNextNodes, id, coord, i - 1);
      ElementsPrefixStep(sortedNextNodes, i - 1);
    }
  }

  /**
   * What the inner loop's result gives the traversal: the records stay
   * well formed and extend the old ones with `id` a parent of every next
   * node, every next node is a step, and every newly explored step waits
   * in the queue.
   */
  lemma VisitFacts(nodes: WorkflowStepNodes, nodeIdToCoord: map<string, string>, id: string, sortedNextNodes: seq<string>,
                   explored: set<string>, recs: ParentRecords, entries1: seq<HeapEntry>)
    requires id in nodeIdToCoord && CoordsOk(nodes, nodeIdToCoord)
    requires forall c :: c in sortedNextNodes ==> IsNextNode(nodes, id, c)
    requires ParentMapsOk(nodes, nodeIdToCoord, recs) && recs.nodeIdToParentCoords.Keys <= explored <= nodes.Keys
    requires UnexploredAreSteps(nodes, sortedNextNodes, explored, |sortedNextNodes|)
    ensures var recs' := RecordAll(recs, sortedNextNodes, id, nodeIdToCoord[id], |sortedNextNodes|);
      var explored' := explored + Elements(sortedNextNodes);
      var q := Queued(nodes, sortedNextNodes, explored, |sortedNextNodes|);
      && ParentMapsOk(nodes, nodeIdToCoord, recs')
      && recs'.nodeIdToParentCoords.Keys <= explored' <= nodes.Keys
      && Extends(recs.nodeIdToParentNodeIds, recs'.nodeIdToParentNodeIds)
      && (forall c :: c in sortedNextNodes ==> c in recs'.nodeIdToParentNodeIds && id in recs'.nodeIdToParentNodeIds[c])
      && (forall c :: c in explored' - explored ==> Pending(entries1 + q, c))
      && (explored' == explored ==> q == [])
  {
    var s := sortedNextNodes;
    assert s[..|s|] == s;
    RecordAllFacts(nodes, nodeIdToCoord, recs, id, s, |s|);
    RecordAllKeys(recs, s, id, nodeIdToCoord[id], |s|);
    QueueFacts(nodes, s, explored, entries1);
  }

  /** The newly explored next nodes are steps and wait in the queue; when none is new, nothing is queued. */
  lemma QueueFacts(nodes: WorkflowStepNodes, sortedNextNodes: seq<string>, explored: set<string>, entries1: seq<HeapEntry>)
    requires explored <= nodes.Keys && UnexploredAreSteps(nodes, sortedNextNodes, explored, |sortedNextNodes|)
    ensures var explored' := explored + Elements(sortedNextNodes);
      var q := Queued(nodes, sortedNextNodes, explored, |sortedNextNodes|);
      && explored' <= nodes.Keys
      && (forall c :: c in explored' - explored ==> Pending(entries1 + q, c))
      && (explored' == explored ==> q == [])
  {
    var s := sortedNextNodes;
    var q := Queued(nodes, s, explored, |s|);
    assert s[..|s|] == s;
    QueuedIds(nodes, s, explored, |s|);
    forall c | c in Elements(s) - explored ensures c in nodes && Pending(entries1 + q, c) {
      var k :| 0 <= k < |s| && s[k] == c;
      assert c in Elements(Vals(q));
      var j :| 0 <= j < |Vals(q)| && Vals(q)[j] == c;
      assert (entries1 + q)[|entries1| + j] == q[j];
    }
    if Elements(s) <= explored {
      NoDuplicatesMultiset(Vals(q));
      assert multiset(Vals(q)) == multiset{};
    }
  }


  /** One more element of the list: the set grows by it, and it was in the set before exactly when it occurs earlier. */
  lemma ElementsPrefixStep(s: seq<string>, i: nat)
    requires i < |s|
    ensures Elements(s[..i + 1]) == Elements(s[..i]) + {s[i]}
    ensures s[i] in Elements(s[..i]) <==> s[i] in s[..i]
  {
    assert s[..i + 1] == s[..i] + [s[i]];
    ElementsAppend(s[..i], [s[i]]);
    assert Elements([s[i]]) == {s[i]} by {
      assert [s[i]][0] == s[i];
    }
    if s[i] in s[..i] {
      var k :| 0 <= k < i && s[..i][k] == s[i];
    }
  }

  /** `p` is placed with all its next nodes recorded, for every placed `p`. */
  ghost predicate AllChildrenRecorded(nodes: WorkflowStepNodes, nodeIdToCoord: map<string, string>, nodeIdToParentNodeIds: map<string, seq<string>>) {
    forall p :: p in nodeIdToCoord ==> ChildrenRecorded(nodes, p, nodeIdToParentNodeIds)
  }

  /** Removing one more id from the unexplored steps leaves fewer of them. */
  lemma FewerUnexplored(all: set<string>, e0: set<string>, e1: set<string>)
    requires e0 <= e1 <= all && e0 != e1
    ensures |all - e1| < |all - e0|
  {
    var c :| c in e1 && c !in e0;
    assert all - e0 == (all - e1) + (e1 - e0);
    assert (all - e1) * (e1 - e0) == {};
    assert c in e1 - e0;
  }

  /**
   * One step of the traversal: the step `id` just placed at `coord`
   * keeps the placed coordinates well formed.
   */
  lemma PlacedCoordOk(nodes: WorkflowStepNodes, nodeIdToCoord: map<string, string>, id: string, coord: Coord)
    requires CoordsOk(nodes, nodeIdToCoord)
    requires id in nodes && IsCell(coord) && coord.colNum == 2 * nodes[id].workflowStepOrder
    ensures CoordsOk(nodes, nodeIdToCoord[id := EncodeMatrixCoord(coord)])
  {
    CoordRoundTrip(coord);
  }

  /**
   * Places the popped step `id`: in column `2 * workflowStepOrder`, under
   * its first parent of least row. Fails where the source throws (the
   * column is outside the matrix or empty) or writes outside the column's
   * cells (no placeholder and no parent, or a parent row past the end).
   */
  method PlaceStep(matrix: Matrix, nodes: WorkflowStepNodes, id: string, nodeIdToCoord: map<string, string>, recs: ParentRecords)
    returns (coord: Coord, encodedParentCoord: Option<string>, nodeIdToCoord': map<string, string>, failed: bool)
    requires id in nodes && CoordsOk(nodes, nodeIdToCoord) && ParentMapsOk(nodes, nodeIdToCoord, recs)
    modifies matrix
    ensures Grows(old(matrix[..]), matrix[..])
    ensures !failed ==>
      && coord.colNum == 2 * nodes[id].workflowStepOrder && 0 <= coord.colNum < matrix.Length
      && 0 < |old(matrix[coord.colNum])| && 0 <= coord.rowNum <= |old(matrix[coord.colNum])|
      && encodedParentCoord == EncodedParentCoord(id, nodeIdToCoord, recs.nodeIdToParentNodeIds)
      && coord.rowNum == NodeRow(old(matrix[coord.colNum]), encodedParentCoord)
      && matrix[..] == old(matrix[..])[coord.colNum := ColumnWith(old(matrix[coord.colNum]), coord.rowNum,
                                         EncodeMatrixEntry(NodeTileFields(old(matrix[coord.colNum][0]), id)))]
      && nodeIdToCoord' == nodeIdToCoord[id := EncodeMatrixCoord(coord)]
      && CoordsOk(nodes, nodeIdToCoord')
      && ParentMapsOk(nodes, nodeIdToCoord', recs)
  {
    nodeIdToCoord' := nodeIdToCoord;
    encodedParentCoord := EncodedParentCoord(id, nodeIdToCoord, recs.nodeIdToParentNodeIds);
    var colNum := nodes[id].workflowStepOrder * 2;
    if !(0 <= colNum < matrix.Length) || |matrix[colNum]| == 0 {
      return Coord(colNum, 0), encodedParentCoord, nodeIdToCoord', true;
    }
    var rowNum := NodeRow(matrix[colNum], encodedParentCoord);
    if !(0 <= rowNum <= |matrix[colNum]|) {
      return Coord(colNum, rowNum), encodedParentCoord, nodeIdToCoord', true;
    }
    ghost var before := matrix[..];
    coord := AddNodeToMatrix(matrix, colNum, id, encodedParentCoord);
    assert coord.rowNum == rowNum;
    assert matrix[..] == before[colNum := matrix[colNum]];
    PlacedCoordOk(nodes, nodeIdToCoord, id, coord);
    nodeIdToCoord' := nodeIdToCoord[id := EncodeMatrixCoord(coord)];
    failed := false;
  }

  /** What holds between two turns of the traversal. */
  ghost predicate TraversalInv(nodes: WorkflowStepNodes, firstStep: string, entries: seq<HeapEntry>, explored: set<string>,
                               nodeIdToCoord: map<string, string>, recs: ParentRecords)
  {
    && recs.nodeIdToParentCoords.Keys <= explored <= nodes.Keys
    && (forall x :: x in explored ==> x in nodeIdToCoord || Pending(entries, x))
    && (firstStep in nodeIdToCoord || Pending(entries, firstStep))
    && CoordsOk(nodes, nodeIdToCoord)
    && ParentMapsOk(nodes, nodeIdToCoord, recs)
    && AllChildrenRecorded(nodes, nodeIdToCoord, recs.nodeIdToParentNodeIds)
  }

  /** What holds halfway through a turn: `id` is placed, but its next nodes are not yet visited. */
  ghost predicate MidTurnInv(nodes: WorkflowStepNodes, firstStep: string, entries: seq<HeapEntry>, explored: set<string>,
                             nodeIdToCoord: map<string, string>, recs: ParentRecords, id: string)
  {
    && id in nodeIdToCoord && id in nodes
    && recs.nodeIdToParentCoords.Keys <= explored <= nodes.Keys
    && (forall x :: x in explored ==> x in nodeIdToCoord || Pending(entries, x))
    && (firstStep in nodeIdToCoord || Pending(entries, firstStep))
    && CoordsOk(nodes, nodeIdToCoord)
    && ParentMapsOk(nodes, nodeIdToCoord, recs)
    && (forall p :: p in nodeIdToCoord && p != id ==> ChildrenRecorded(nodes, p, recs.nodeIdToParentNodeIds))
  }

  /** Popping `min` and placing it takes the traversal invariant to the halfway one. */
  lemma PopPlaceKeepsInv(nodes: WorkflowStepNodes, firstStep: string, entries0: seq<HeapEntry>, entries1: seq<HeapEntry>,
                         min: HeapEntry, explored: set<string>, placedBefore: map<string, string>, placed: map<string, string>,
                         recs: ParentRecords)
    requires TraversalInv(nodes, firstStep, entries0, explored, placedBefore, recs)
    requires multiset(entries1) == multiset(entries0) - multiset{min}
    requires min.val in nodes && placed.Keys == placedBefore.Keys + {min.val}
    requires CoordsOk(nodes, placed) && ParentMapsOk(nodes, placed, recs)
    ensures MidTurnInv(nodes, firstStep, entries1, explored, placed, recs, min.val)
  {
    forall x | x in explored ensures x in placed || Pending(entries1, x) {
      if x !in placedBefore && x != min.val {
        StillPending(entries0, entries1, min, x);
      }
    }
    if firstStep !in placedBefore && firstStep != min.val {
      StillPending(entries0, entries1, min, firstStep);
    }
    forall p | p in placed && p != min.val ensures ChildrenRecorded(nodes, p, recs.nodeIdToParentNodeIds) {
      assert p in placedBefore;
    }
  }

  /** Visiting the next nodes of the step just placed restores the traversal invariant. */
  lemma VisitKeepsInv(nodes: WorkflowStepNodes, firstStep: string, entries1: seq<HeapEntry>, entries2: seq<HeapEntry>,
                      explored: set<string>, explored': set<string>, placed: map<string, string>,
                      recs: ParentRecords, recs': ParentRecords, id: string, sortedNextNodes: seq<string>)
    requires MidTurnInv(nodes, firstStep, entries1, explored, placed, recs, id)
    requires |entries1| <= |entries2| && entries2[..|entries1|] == entries1
    requires ParentMapsOk(nodes, placed, recs')
    requires recs'.nodeIdToParentCoords.Keys <= explored' && explored <= explored' <= nodes.Keys
    requires Extends(recs.nodeIdToParentNodeIds, recs'.nodeIdToParentNodeIds)
    requires forall c :: c in Ids(nodes[id].nextNodes) <==> c in sortedNextNodes
    requires forall c :: c in sortedNextNodes ==> c in recs'.nodeIdToParentNodeIds && id in recs'.nodeIdToParentNodeIds[c]
    requires forall c :: c in explored' - explored ==> Pending(entries2, c)
    ensures TraversalInv(nodes, firstStep, entries2, explored', placed, recs')
  {
    var before, after := recs.nodeIdToParentNodeIds, recs'.nodeIdToParentNodeIds;
    forall p | p in placed ensures ChildrenRecorded(nodes, p, after) {
      if p != id {
        assert ChildrenRecorded(nodes, p, before);
        forall c | c in Ids(nodes[p].nextNodes) ensures c in after && p in after[c] {
          PrefixMember(before[c], after[c], p);
        }
      }
    }
    forall x | x in explored' ensures x in placed || Pending(entries2, x) {
      if x in explored && x !in placed {
        PrefixPending(entries1, entries2, x);
      }
    }
    if firstStep !in placed {
      PrefixPending(entries1, entries2, firstStep);
    }
  }

  /** Nothing is pending in an empty queue. */
  lemma NothingPending(entries: seq<HeapEntry>, id: string)
    requires entries == []
    ensures !Pending(entries, id)
  {
  }

  /**
   * `PlaceStep` as the traversal loop relies on it: only the coordinate
   * of `id` is added or replaced, the placed coordinates and parent
   * records stay well formed, and the grid stays drawn against the
   * `original` the traversal started from.
   */
  method PlacePopped(matrix: Matrix, nodes: WorkflowStepNodes, id: string, nodeIdToCoord: map<string, string>, recs: ParentRecords,
                     ghost original: seq<seq<string>>)
    returns (nodeIdToCoord': map<string, string>, failed: bool)
    requires id in nodes && CoordsOk(nodes, nodeIdToCoord) && ParentMapsOk(nodes, nodeIdToCoord, recs)
    requires NodesDrawn(nodes, nodeIdToCoord, original, matrix[..])
    modifies matrix
    ensures Grows(old(matrix[..]), matrix[..])
    ensures !failed ==>
      && id in nodeIdToCoord' && nodeIdToCoord' == nodeIdToCoord[id := nodeIdToCoord'[id]]
      && CoordsOk(nodes, nodeIdToCoord') && ParentMapsOk(nodes, nodeIdToCoord', recs)
      && NodesDrawn(nodes, nodeIdToCoord', original, matrix[..])
  {
    ghost var before := matrix[..];
    var coord, encodedParentCoord;
    coord, encodedParentCoord, nodeIdToCoord', failed := PlaceStep(matrix, nodes, id, nodeIdToCoord, recs);
    if !failed {
      assert coord == Coord(coord.colNum, coord.rowNum);
      DrawStep(nodes, nodeIdToCoord, original, before, id, coord.colNum, coord.rowNum);
    }
  }

  /** The bookkeeping between two turns: the traversal and queue invariants, and current parent coordinates. */
  ghost predicate Books(nodes: WorkflowStepNodes, firstStep: string, entries: seq<HeapEntry>, log: seq<HeapEntry>,
                        explored: set<string>, nodeIdToCoord: map<string, string>, recs: ParentRecords)
  {
    && TraversalInv(nodes, firstStep, entries, explored, nodeIdToCoord, recs)
    && QueueInv(firstStep, entries, log, explored, nodeIdToCoord)
    && ParentCoordsCurrent(firstStep, nodeIdToCoord, recs)
  }

  /** The bookkeeping halfway through a turn, once `id` is popped and placed. */
  ghost predicate MidBooks(nodes: WorkflowStepNodes, firstStep: string, entries: seq<HeapEntry>, log: seq<HeapEntry>,
                           explored: set<string>, nodeIdToCoord: map<string, string>, recs: ParentRecords, id: string)
  {
    && MidTurnInv(nodes, firstStep, entries, explored, nodeIdToCoord, recs, id)
    && QueueInv(firstStep, entries, log, explored, nodeIdToCoord)
    && ParentCoordsCurrent(firstStep, nodeIdToCoord, recs)
  }

  /** Popping `min` and placing it takes the bookkeeping to its halfway form. */
  lemma PopStep(nodes: WorkflowStepNodes, firstStep: string, entries0: seq<HeapEntry>, entries1: seq<HeapEntry>, min: HeapEntry,
                log: seq<HeapEntry>, explored: set<string>, placedBefore: map<string, string>, placed: map<string, string>,
                recs: ParentRecords)
    requires Books(nodes, firstStep, entries0, log, explored, placedBefore, recs)
    requires min in entries0 && multiset(entries1) == multiset(entries0) - multiset{min}
    requires multiset(Vals(entries1)) == multiset(Vals(entries0)) - multiset{min.val}
    requires min.val in nodes && min.val in placed && placed == placedBefore[min.val := placed[min.val]]
    requires CoordsOk(nodes, placed) && ParentMapsOk(nodes, placed, recs)
    ensures MidBooks(nodes, firstStep, entries1, log, explored, placed, recs, min.val)
  {
    PopPlaceKeepsInv(nodes, firstStep, entries0, entries1, min, explored, placedBefore, placed, recs);
    PopKeepsQueueInv(firstStep, entries0, entries1, min, log, explored, placedBefore, placed[min.val], recs);
  }

  /**
   * Visiting the next nodes of the placed step `id` restores the
   * bookkeeping, and either explores a new step or queues nothing.
   */
  lemma VisitStep(nodes: WorkflowStepNodes, firstStep: string, entries1: seq<HeapEntry>, log: seq<HeapEntry>,
                  explored: set<string>, placed: map<string, string>, recs: ParentRecords, id: string, sortedNextNodes: seq<string>)
    requires MidBooks(nodes, firstStep, entries1, log, explored, placed, recs, id)
    requires forall c :: c in Ids(nodes[id].nextNodes) <==> c in sortedNextNodes
    requires UnexploredAreSteps(nodes, sortedNextNodes, explored, |sortedNextNodes|)
    ensures var q := Queued(nodes, sortedNextNodes, explored, |sortedNextNodes|);
      var explored' := explored + Elements(sortedNextNodes);
      && Books(nodes, firstStep, entries1 + q, log + q, explored', placed, RecordAll(recs, sortedNextNodes, id, placed[id], |sortedNextNodes|))
      && (|nodes.Keys - explored'| < |nodes.Keys - explored| || (explored' == explored && q == []))
  {
    var s := sortedNextNodes;
    var q := Queued(nodes, s, explored, |s|);
    var recs' := RecordAll(recs, s, id, placed[id], |s|);
    var explored' := explored + Elements(s);
    VisitFacts(nodes, placed, id, s, explored, recs, entries1);
    VisitKeepsInv(nodes, firstStep, entries1, entries1 + q, explored, explored', placed, recs, recs', id, s);
    VisitKeepsQueueInv(nodes, firstStep, entries1, log, explored, placed, recs, id, s);
    if explored' != explored {
      FewerUnexplored(nodes.Keys, explored, explored');
    }
  }

  /**
   * One turn of the traversal loop: pop and place a step, then record it
   * as a parent of its sorted next nodes and queue the unexplored ones.
   * Each turn explores a new step or shrinks the queue; it keeps the
   * bookkeeping and the grid drawn, and only appends to the insertion log.
   */
  method Turn(matrix: Matrix, nodes: WorkflowStepNodes, firstStep: string, toExplore: MinHeap,
              explored: set<string>, nodeIdToCoord: map<string, string>, recs: ParentRecords, ghost original: seq<seq<string>>)
    returns (explored': set<string>, nodeIdToCoord': map<string, string>, recs': ParentRecords, failed: bool)
    requires BranchesOk(nodes) && toExplore.entries != []
    requires Books(nodes, firstStep, toExplore.entries, toExplore.log, explored, nodeIdToCoord, recs)
    requires NodesDrawn(nodes, nodeIdToCoord, original, matrix[..])
    modifies matrix, toExplore
    ensures Grows(old(matrix[..]), matrix[..])
    ensures !failed ==>
      && |old(toExplore.log)| <= |toExplore.log| && toExplore.log[..|old(toExplore.log)|] == old(toExplore.log)
      && Books(nodes, firstStep, toExplore.entries, toExplore.log, explored', nodeIdToCoord', recs')
      && NodesDrawn(nodes, nodeIdToCoord', original, matrix[..])
      && (|nodes.Keys - explored'| < |nodes.Keys - explored|
          || (explored' == explored && |toExplore.entries| < |old(toExplore.entries)|))
  {
    explored', nodeIdToCoord', recs' := explored, nodeIdToCoord, recs;
    ghost var entries0 := toExplore.entries;
    var min := toExplore.DeleteMin();
    ghost var entries1 := toExplore.entries;
    ghost var log1 := toExplore.log;
    var id := min.val;
    if id !in nodes {
      return explored', nodeIdToCoord', recs', true;
    }
    nodeIdToCoord', failed := PlacePopped(matrix, nodes, id, nodeIdToCoord, recs, original);
    if failed {
      return;
    }
    PopStep(nodes, firstStep, entries0, entries1, min, log1, explored, nodeIdToCoord, nodeIdToCoord', recs);
    var sortedNextNodes := GetSortedNextNodes(nodes[id].nextNodes, nodes);
    SortedNextNodesElements(nodes[id].nextNodes, nodes);
    explored', recs', failed := VisitNextNodes(id, sortedNextNodes, nodes, toExplore, explored, nodeIdToCoord', recs);
    if failed {
      return;
    }
    VisitStep(nodes, firstStep, entries1, log1, explored, nodeIdToCoord', recs, id, sortedNextNodes);
  }

  /**
   * What a completed traversal leaves: every placed step is a step in the
   * column of its order, the parent records are well formed and only
   * name placed steps, and every placed step is recorded as a parent of
   * each of its next nodes.
   */
  ghost predicate Traversed(nodes: WorkflowStepNodes, nodeIdToCoord: map<string, string>, recs: ParentRecords) {
    && CoordsOk(nodes, nodeIdToCoord)
    && ParentMapsOk(nodes, nodeIdToCoord, recs)
    && recs.nodeIdToParentCoords.Keys <= nodeIdToCoord.Keys
    && AllChildrenRecorded(nodes, nodeIdToCoord, recs.nodeIdToParentNodeIds)
  }

  /**
   * Step 1 of `populateMatrix`: the traversal from the first step, turn
   * by turn until the queue is empty. Afterwards the first step is
   * placed, every placed step is a step in the column of its order, and
   * every placed step has each of its next nodes placed with itself
   * recorded as their parent, at its placed coordinate unless it is the
   * first step. The grid has only grown, by node tiles. `insertions` is
   * every entry the queue received: the first step with priority 0 first,
   * each placed step at least once, no other id, every id but the first
   * step at most once and the first step at most twice.
   */
  method Traverse(matrix: Matrix, nodes: WorkflowStepNodes, firstStep: string)
    returns (nodeIdToCoord: map<string, string>, recs: ParentRecords, failed: bool, ghost insertions: seq<HeapEntry>)
    requires BranchesOk(nodes)
    modifies matrix
    ensures Grows(old(matrix[..]), matrix[..])
    ensures !failed ==>
      && firstStep in nodeIdToCoord && Traversed(nodes, nodeIdToCoord, recs)
      && ParentCoordsCurrent(firstStep, nodeIdToCoord, recs)
      && NodesDrawn(nodes, nodeIdToCoord, old(matrix[..]), matrix[..])
      && |insertions| > 0 && insertions[0] == HeapEntry(firstStep, 0.0)
      && (forall x :: x in nodeIdToCoord <==> x in Vals(insertions))
      && (forall x :: x != firstStep ==> multiset(Vals(insertions))[x] <= 1)
      && multiset(Vals(insertions))[firstStep] <= 2
  {
    var toExplore := new MinHeap();
    toExplore.Insert(HeapEntry(firstStep, 0.0));
    var explored: set<string> := {};
    nodeIdToCoord := map[];
    recs := ParentRecords(map[], [], map[]);
    ghost var original := matrix[..];
    TraversalStarts(nodes, firstStep, toExplore.entries, toExplore.log, original);
    while !toExplore.IsEmpty()
      invariant fresh(toExplore)
      invariant Books(nodes, firstStep, toExplore.entries, toExplore.log, explored, nodeIdToCoord, recs)
      invariant NodesDrawn(nodes, nodeIdToCoord, original, matrix[..])
      invariant |toExplore.log| > 0 && toExplore.log[0] == HeapEntry(firstStep, 0.0)
      decreases |nodes.Keys - explored|, |toExplore.entries|
    {
      var failedTurn;
      explored, nodeIdToCoord, recs, failedTurn := Turn(matrix, nodes, firstStep, toExplore, explored, nodeIdToCoord, recs, original);
      if failedTurn {
        return nodeIdToCoord, recs, true, toExplore.log;
      }
    }
    insertions := toExplore.log;
    TraversalEnds(nodes, firstStep, toExplore.entries, insertions, explored, nodeIdToCoord, recs);
    return nodeIdToCoord, recs, false, insertions;
  }

  /** The bookkeeping holds once the first step is queued, and nothing is drawn yet. */
  lemma TraversalStarts(nodes: WorkflowStepNodes, firstStep: string, entries: seq<HeapEntry>, log: seq<HeapEntry>, original: seq<seq<string>>)
    requires entries == [HeapEntry(firstStep, 0.0)] && log == entries
    ensures Books(nodes, firstStep, entries, log, {}, map[], ParentRecords(map[], [], map[]))
    ensures NodesDrawn(nodes, map[], original, original)
  {
    assert entries[0].val == firstStep;
    assert Vals(log) == [firstStep];
  }

  /**
   * With the queue empty, every explored step is placed: the traversal
   * is complete, and the insertions name exactly the placed steps.
   */
  lemma TraversalEnds(nodes: WorkflowStepNodes, firstStep: string, entries: seq<HeapEntry>, log: seq<HeapEntry>,
                      explored: set<string>, nodeIdToCoord: map<string, string>, recs: ParentRecords)
    requires Books(nodes, firstStep, entries, log, explored, nodeIdToCoord, recs) && entries == []
    ensures firstStep in nodeIdToCoord && Traversed(nodes, nodeIdToCoord, recs)
    ensures forall x :: x in nodeIdToCoord <==> x in Vals(log)
    ensures forall x :: x != firstStep ==> multiset(Vals(log))[x] <= 1
    ensures multiset(Vals(log))[firstStep] <= 2
  {
    forall x | x in explored ensures x in nodeIdToCoord {
      NothingPending(entries, x);
    }
    NothingPending(entries, firstStep);
    InsertionCounts(firstStep, explored, nodeIdToCoord, log);
  }

  /**
   * Once every explored step is placed, the insertions (the first step
   * once and each explored step once) name exactly the placed steps, each
   * once, the first step at most twice.
   */
  lemma InsertionCounts(firstStep: string, explored: set<string>, nodeIdToCoord: map<string, string>, insertions: seq<HeapEntry>)
    requires multiset(Vals(insertions)) == multiset{firstStep} + multiset(explored)
    requires nodeIdToCoord.Keys == explored + {firstStep}
    ensures forall x :: x in nodeIdToCoord <==> x in Vals(insertions)
    ensures forall x :: x != firstStep ==> multiset(Vals(insertions))[x] <= 1
    ensures multiset(Vals(insertions))[firstStep] <= 2
  {
    forall x ensures x in nodeIdToCoord <==> x in Vals(insertions) {
      assert x in Vals(insertions) <==> x in multiset(Vals(insertions));
    }
  }

  lemma PrefixMember(s: seq<string>, t: seq<string>, x: string)
    requires s <= t && x in s
    ensures x in t
  {
    var k :| 0 <= k < |s| && s[k] == x;
    assert t[k] == x;
  }

  lemma PrefixPending(s: seq<HeapEntry>, t: seq<HeapEntry>, id: string)
    requires |s| <= |t| && t[..|s|] == s && Pending(s, id)
    ensures Pending(t, id)
  {
    var e :| e in s && e.val == id;
    var k :| 0 <= k < |s| && s[k] == e;
    assert t[k] == e;
  }

  // ---------------------------------------------------------------
  // Properties of a completed traversal
  // ---------------------------------------------------------------

  /**
   * Every placed step has each of its next nodes placed too, with itself
   * among their recorded parents; and every recorded parent is a placed
   * step that has the child as a next node.
   */
  lemma TraversalClosed(nodes: WorkflowStepNodes, nodeIdToCoord: map<string, string>, recs: ParentRecords, p: string, c: string)
    requires Traversed(nodes, nodeIdToCoord, recs)
    ensures p in nodeIdToCoord && IsNextNode(nodes, p, c) ==>
      c in nodeIdToCoord && c in recs.nodeIdToParentNodeIds && p in recs.nodeIdToParentNodeIds[c]
    ensures c in recs.nodeIdToParentNodeIds && p in recs.nodeIdToParentNodeIds[c] ==>
      p in nodeIdToCoord && IsNextNode(nodes, p, c)
  {
    if p in nodeIdToCoord && IsNextNode(nodes, p, c) {
      assert ChildrenRecorded(nodes, p, recs.nodeIdToParentNodeIds);
    }
    if c in recs.nodeIdToParentNodeIds && p in recs.nodeIdToParentNodeIds[c] {
      var j :| 0 <= j < |recs.nodeIdToParentNodeIds[c]| && recs.nodeIdToParentNodeIds[c][j] == p;
    }
  }

  /** A path through the step graph: each step followed by one of its next nodes. */
  predicate IsWalk(nodes: WorkflowStepNodes, walk: seq<string>) {
    |walk| > 0 && forall i :: 0 <= i < |walk| - 1 ==> IsNextNode(nodes, walk[i], walk[i + 1])
  }

  /** Every step reachable from a placed step is placed: from the first step, the whole reachable graph. */
  lemma {:induction false} ReachablePlaced(nodes: WorkflowStepNodes, nodeIdToCoord: map<string, string>, recs: ParentRecords,
                                           walk: seq<string>)
    requires Traversed(nodes, nodeIdToCoord, recs)
    requires IsWalk(nodes, walk) && walk[0] in nodeIdToCoord
    ensures walk[|walk| - 1] in nodeIdToCoord
  {
    var n := |walk|;
    if n > 1 {
      var init := walk[..n - 1];
      assert forall i :: 0 <= i < n - 1 ==> init[i] == walk[i];
      ReachablePlaced(nodes, nodeIdToCoord, recs, init);
      TraversalClosed(nodes, nodeIdToCoord, recs, walk[n - 2], walk[n - 1]);
    }
  }

  // ---------------------------------------------------------------
  // Step 2: the connector passes
  // ---------------------------------------------------------------

  /** `chain(createHorizConnectorsBetweenNodes, coordPairs)`: the connectors of each pair, pair after pair. */
  function Chain(coordPairs: seq<CoordPair>): seq<ConnectorToPlace> {
    if |coordPairs| == 0 then []
    else CreateHorizConnectorsBetweenNodes(coordPairs[0]) + Chain(coordPairs[1..])
  }

  /**
   * After the traversal, pair `j` of the `k`-th key runs from the placed
   * cell of the key's `j`-th recorded parent (unless that parent is the
   * first step) to the placed cell of the key.
   */
  lemma PairsJoinPlacedSteps(nodes: WorkflowStepNodes, firstStep: string, nodeIdToCoord: map<string, string>, recs: ParentRecords,
                             k: nat, j: nat)
    requires Traversed(nodes, nodeIdToCoord, recs) && ParentCoordsCurrent(firstStep, nodeIdToCoord, recs)
    requires k < |recs.parentCoordKeys|
    requires var key := recs.parentCoordKeys[k];
      key in recs.nodeIdToParentNodeIds && j < |recs.nodeIdToParentNodeIds[key]| && recs.nodeIdToParentNodeIds[key][j] != firstStep
    ensures PairInputs(nodeIdToCoord, recs.nodeIdToParentCoords, recs.parentCoordKeys)
    ensures var keys, pcs := recs.parentCoordKeys, recs.nodeIdToParentCoords;
      var key := keys[k];
      var parent := recs.nodeIdToParentNodeIds[key][j];
      var pairs := CreateCoordPairs(nodeIdToCoord, pcs, keys);
      var i := Offset(keys, pcs, k) + j;
      && parent in nodeIdToCoord && key in nodeIdToCoord
      && i < |pairs|
      && pairs[i] == CoordPair(DecodeMatrixCoord(nodeIdToCoord[parent]).value, DecodeMatrixCoord(nodeIdToCoord[key]).value)
  {
    var keys, pcs, pnids := recs.parentCoordKeys, recs.nodeIdToParentCoords, recs.nodeIdToParentNodeIds;
    var key := keys[k];
    TraversedPairInputs(nodes, nodeIdToCoord, recs);
    assert key in pcs && j < |pcs[key]|;
    assert pcs[key][j] == nodeIdToCoord[pnids[key][j]];
    CoordPairAt(nodeIdToCoord, pcs, keys, k, j);
  }

  lemma TraversedPairInputs(nodes: WorkflowStepNodes, nodeIdToCoord: map<string, string>, recs: ParentRecords)
    requires Traversed(nodes, nodeIdToCoord, recs)
    ensures PairInputs(nodeIdToCoord, recs.nodeIdToParentCoords, recs.parentCoordKeys)
  {
    var keys := recs.parentCoordKeys;
    forall k | 0 <= k < |keys| ensures keys[k] in recs.nodeIdToParentCoords {
      assert keys[k] in Elements(keys);
    }
  }

  /** The connectors step 2.1 places: those of every (parent, child) pair, children in key order. */
  function ConnectorsFor(nodes: WorkflowStepNodes, nodeIdToCoord: map<string, string>, recs: ParentRecords): seq<ConnectorToPlace>
    requires Traversed(nodes, nodeIdToCoord, recs)
  {
    TraversedPairInputs(nodes, nodeIdToCoord, recs);
    Chain(CreateCoordPairs(nodeIdToCoord, recs.nodeIdToParentCoords, recs.parentCoordKeys))
  }

  /** After the connectors are placed, every RIGHT_UP cell they name lies in the matrix. */
  lemma RightUpStartsIn(m: seq<seq<string>>, connectors: seq<ConnectorToPlace>, nodeCoords: set<string>)
    requires WithConnectors(m, connectors, nodeCoords).Some?
    ensures VertStartsIn(WithConnectors(m, connectors, nodeCoords).value, GetRightUpCoords(connectors))
  {
    var m1 := WithConnectors(m, connectors, nodeCoords).value;
    var coords := GetRightUpCoords(connectors);
    forall i | 0 <= i < |coords|
      ensures 0 <= coords[i].colNum < |m1| && coords[i].rowNum <= |m1[coords[i].colNum]|
    {
      assert IsRightUpCell(connectors, coords[i]);
      var k :| IsRightUpAt(connectors, k, coords[i]);
      assert InMatrix(m, connectors[k].ownCoord);
    }
  }

  /**
   * Step 2 applied to the matrix `m` the traversal left: the connectors,
   * then the vertical connectors above the RIGHT_UP ones, then the fork
   * dashes. `None` exactly where a pass throws: a connector outside the
   * matrix, or a fork column outside it.
   */
  ghost function ConnectorPasses(m: seq<seq<string>>, connectors: seq<ConnectorToPlace>, nodeCoords: set<string>,
                                 forkStepCols: seq<int>): (r: Option<seq<seq<string>>>)
    ensures r.Some? <==>
      && WithConnectors(m, connectors, nodeCoords).Some?
      && forall k :: 0 <= k < |forkStepCols| ==> 0 <= forkStepCols[k] < |m|
    ensures r.Some? ==> Grows(m, r.value)
  {
    match WithConnectors(m, connectors, nodeCoords)
    case None => None
    case Some(m1) =>
      RightUpStartsIn(m, connectors, nodeCoords);
      var m2 := WithVertConnectors(m1, GetRightUpCoords(connectors));
      if exists k :: 0 <= k < |forkStepCols| && !(0 <= forkStepCols[k] < |m2|) then None
      else
        ForkDashesOnePerColumn(m2, forkStepCols);
        Some(WithDashes(m2, DownRightDashesToPlace(m2, forkStepCols)))
  }

  /**
   * `populateMatrix`: a copy of the initial matrix, the traversal placing
   * every step reachable from the first, then the connector passes. The
   * result is `ConnectorPasses` of the matrix the traversal left. Fails
   * where the source throws or writes outside a column.
   */
  method PopulateMatrix(workflowVisData: WorkflowVisData, initialMatrix: seq<seq<string>>, forkStepCols: seq<int>)
    returns (matrix: Matrix, nodeIdToCoord: map<string, string>, nodeIdToParentNodeIds: map<string, seq<string>>,
             failed: bool, ghost traversed: seq<seq<string>>, recs: ParentRecords)
    requires BranchesOk(workflowVisData.workflowStepNodes)
    ensures fresh(matrix) && matrix.Length == |initialMatrix|
    ensures !failed ==>
      && workflowVisData.firstStep in nodeIdToCoord
      && Traversed(workflowVisData.workflowStepNodes, nodeIdToCoord, recs)
      && nodeIdToParentNodeIds == recs.nodeIdToParentNodeIds
      && ParentCoordsCurrent(workflowVisData.firstStep, nodeIdToCoord, recs)
      && NodesDrawn(workflowVisData.workflowStepNodes, nodeIdToCoord, initialMatrix, traversed)
      && ConnectorPasses(traversed, ConnectorsFor(workflowVisData.workflowStepNodes, nodeIdToCoord, recs),
                         nodeIdToCoord.Values, forkStepCols) == Some(matrix[..])
  {
    matrix := new seq<string>[|initialMatrix|](i requires 0 <= i < |initialMatrix| => initialMatrix[i]);
    assert matrix[..] == initialMatrix;
    var nodes := workflowVisData.workflowStepNodes;

    // Step 1: the traversal
    var traversalFailed;
    ghost var insertions;
    nodeIdToCoord, recs, traversalFailed, insertions := Traverse(matrix, nodes, workflowVisData.firstStep);
    nodeIdToParentNodeIds := recs.nodeIdToParentNodeIds;
    traversed := matrix[..];
    if traversalFailed {
      return matrix, nodeIdToCoord, nodeIdToParentNodeIds, true, traversed, recs;
    }

    // Step 2.1: connectors between nodes
    TraversedPairInputs(nodes, nodeIdToCoord, recs);
    var coordPairs := CreateCoordPairs(nodeIdToCoord, recs.nodeIdToParentCoords, recs.parentCoordKeys);
    var connectorsToPlace := Chain(coordPairs);
    var nodeCoords := nodeIdToCoord.Values;
    failed := PlaceConnectors(matrix, connectorsToPlace, nodeCoords);
    if failed {
      return;
    }

    // Step 2.2: vertical connectors above the RIGHT_UP connectors
    RightUpStartsIn(traversed, connectorsToPlace, nodeCoords);
    PlaceVertConnectors(matrix, GetRightUpCoords(connectorsToPlace));

    // Step 2.3: the fork dashes
    failed := PlaceDashes(matrix, forkStepCols);
  }
}
