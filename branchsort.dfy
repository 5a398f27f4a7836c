/**
 * Branch ordering at a fork: every branch is followed along first
 * children down to the sink, and the branches are ordered so that each
 * next one rejoins the previous one's path as early as possible.
 */
module BranchSort {
  import opened Wrappers
  import opened StepGraph

  /** The ids of a node's successors, in the node's order. */
  function ChildIds(n: WorkflowStepNode): (ids: seq<string>)
    ensures |ids| == |n.nextNodes|
    ensures forall k :: 0 <= k < |ids| ==> ids[k] == n.nextNodes[k].id
  {
    seq(|n.nextNodes|, k requires 0 <= k < |n.nextNodes| => n.nextNodes[k].id)
  }

  /** The same for a bare list of successors. */
  function Ids(nextNodes: seq<NextNode>): (ids: seq<string>)
    ensures |ids| == |nextNodes|
    ensures forall k :: 0 <= k < |ids| ==> ids[k] == nextNodes[k].id
  {
    seq(|nextNodes|, k requires 0 <= k < |nextNodes| => nextNodes[k].id)
  }

  predicate IsSink(nodes: WorkflowStepNodes, id: string)
    requires id in nodes
  {
    |nodes[id].nextNodes| == 0
  }

  /** Following first children from `id` stays inside the map and meets a sink within `fuel` steps. */
  predicate ReachesSinkWithin(nodes: WorkflowStepNodes, id: string, fuel: nat)
    decreases fuel
  {
    && id in nodes
    && (IsSink(nodes, id)
        || (fuel > 0 && ReachesSinkWithin(nodes, nodes[id].nextNodes[0].id, fuel - 1)))
  }

  /**
   * The first-child chain from `id` is finite. A chain that meets no sink
   * within as many steps as there are nodes repeats a node, so the number
   * of nodes is the natural bound.
   */
  predicate ReachesSink(nodes: WorkflowStepNodes, id: string) {
    ReachesSinkWithin(nodes, id, |nodes|)
  }

  /** More steps never hurt. */
  lemma {:induction false} ReachesSinkMonotone(nodes: WorkflowStepNodes, id: string, f: nat, g: nat)
    requires f <= g && ReachesSinkWithin(nodes, id, f)
    ensures ReachesSinkWithin(nodes, id, g)
    decreases f
  {
    if !IsSink(nodes, id) {
      ReachesSinkMonotone(nodes, nodes[id].nextNodes[0].id, f - 1, g - 1);
    }
  }

  /** Number of first-child steps from `id` to its sink. */
  function ChainLength(nodes: WorkflowStepNodes, id: string, fuel: nat): (n: nat)
    requires ReachesSinkWithin(nodes, id, fuel)
    ensures n <= fuel
    decreases fuel
  {
    if IsSink(nodes, id) then 0 else 1 + ChainLength(nodes, nodes[id].nextNodes[0].id, fuel - 1)
  }

  /** The chain length does not depend on how much room the bound leaves. */
  lemma {:induction false} ChainLengthFuel(nodes: WorkflowStepNodes, id: string, f: nat, g: nat)
    requires ReachesSinkWithin(nodes, id, f) && ReachesSinkWithin(nodes, id, g)
    ensures ChainLength(nodes, id, f) == ChainLength(nodes, id, g)
    decreases f
  {
    if !IsSink(nodes, id) {
      ChainLengthFuel(nodes, nodes[id].nextNodes[0].id, f - 1, g - 1);
    }
  }

  /** The first child of a node that is not a sink. */
  function FirstChild(nodes: WorkflowStepNodes, id: string): string
    requires id in nodes && !IsSink(nodes, id)
  {
    nodes[id].nextNodes[0].id
  }

  /**
   * `getPath`: `path` extended by the first-child chain from `node`.
   * Every appended id is the first child of the id before it (of `node`
   * for the first one), and the chain ends at a sink.
   */
  function GetPath(nodes: WorkflowStepNodes, node: string, path: seq<string>): (r: seq<string>)
    requires ReachesSink(nodes, node)
    ensures |r| >= |path| && r[..|path|] == path
    ensures |r| > |path| ==> !IsSink(nodes, node) && r[|path|] == FirstChild(nodes, node)
    ensures forall k :: |path| <= k < |r| - 1 ==>
      r[k] in nodes && !IsSink(nodes, r[k]) && r[k + 1] == FirstChild(nodes, r[k])
    ensures |r| == |path| ==> IsSink(nodes, node)
    ensures |r| > |path| ==> r[|r| - 1] in nodes && IsSink(nodes, r[|r| - 1])
    decreases ChainLength(nodes, node, |nodes|)
  {
    var children := ChildIds(nodes[node]);
    if |children| == 0 then path
    else
      var child := children[0];
      ReachesSinkMonotone(nodes, child, |nodes| - 1, |nodes|);
      ChainLengthFuel(nodes, child, |nodes| - 1, |nodes|);
      var r := GetPath(nodes, child, path + [child]);
      assert r[..|path|] == (path + [child])[..|path|] by {
        assert r[..|path|] == r[..|path| + 1][..|path|];
      }
      assert r[|path|] == r[..|path| + 1][|path|];
      r
  }

  /** The paths of fork branches begin with their own node. */
  lemma GetPathOfNode(nodes: WorkflowStepNodes, node: string)
    requires ReachesSink(nodes, node)
    ensures |GetPath(nodes, node, [node])| >= 1 && GetPath(nodes, node, [node])[0] == node
  {
    var r := GetPath(nodes, node, [node]);
    assert r[..1] == [node];
  }

  /** `Array.prototype.indexOf`: the least index holding `x`, or -1. */
  function IndexOf(s: seq<string>, x: string): (r: int)
    ensures -1 <= r < |s|
    ensures r == -1 <==> x !in s
    ensures r >= 0 ==> s[r] == x && forall j :: 0 <= j < r ==> s[j] != x
  {
    if |s| == 0 then -1
    else if s[0] == x then 0
    else
      var k := IndexOf(s[1..], x);
      assert forall j :: 1 <= j < |s| ==> s[j] == s[1..][j - 1];
      if k < 0 then -1 else k + 1
  }

  type Paths = map<string, seq<string>>

  /** Where the path of `n` meets `target`: its index there, or -1. */
  function Meet(paths: Paths, n: string, target: string): int
    requires n in paths
  {
    IndexOf(paths[n], target)
  }

  /**
   * The candidate that the stable sort by meeting index puts first: among
   * the nodes whose path holds `target` past its own head (index > 0),
   * the first with the least index. Returns its position, or -1.
   */
  function BestCandidate(nodesToSort: seq<string>, paths: Paths, target: string): (r: int)
    requires forall k :: 0 <= k < |nodesToSort| ==> nodesToSort[k] in paths
    ensures -1 <= r < |nodesToSort|
    ensures r >= 0 ==> Meet(paths, nodesToSort[r], target) > 0
  {
    if |nodesToSort| == 0 then -1
    else
      var tail := nodesToSort[1..];
      assert forall k :: 1 <= k < |nodesToSort| ==> nodesToSort[k] == tail[k - 1];
      var rest := BestCandidate(tail, paths, target);
      var m := Meet(paths, nodesToSort[0], target);
      if m > 0 && (rest == -1 || m <= Meet(paths, tail[rest], target)) then 0
      else if rest == -1 then -1
      else rest + 1
  }

  /**
   * The candidate is missing exactly when no node meets `target` past its
   * head; otherwise it meets it at the least index, and every node listed
   * before it meets it later or not at all.
   */
  lemma {:induction false} BestCandidateIsFirstLeast(nodesToSort: seq<string>, paths: Paths, target: string)
    requires forall k :: 0 <= k < |nodesToSort| ==> nodesToSort[k] in paths
    ensures var r := BestCandidate(nodesToSort, paths, target);
      && (r == -1 <==> forall k :: 0 <= k < |nodesToSort| ==> Meet(paths, nodesToSort[k], target) <= 0)
      && (r >= 0 ==>
           && (forall k :: 0 <= k < |nodesToSort| && Meet(paths, nodesToSort[k], target) > 0 ==>
                 Meet(paths, nodesToSort[r], target) <= Meet(paths, nodesToSort[k], target))
           && (forall k :: 0 <= k < r ==>
                 Meet(paths, nodesToSort[k], target) <= 0
                 || Meet(paths, nodesToSort[k], target) > Meet(paths, nodesToSort[r], target)))
  {
    if |nodesToSort| > 0 {
      var tail := nodesToSort[1..];
      assert forall k :: 1 <= k < |nodesToSort| ==> nodesToSort[k] == tail[k - 1];
      BestCandidateIsFirstLeast(tail, paths, target);
    }
  }

  /** No branch still to sort meets the primary path at any position in `[from, to)`. */
  predicate NoMeetBetween(cp: seq<string>, nodesToSort: seq<string>, paths: Paths, from: nat, to: int)
    requires forall k :: 0 <= k < |nodesToSort| ==> nodesToSort[k] in paths
    requires to <= |cp|
  {
    forall j, k :: from <= j < to && 0 <= k < |nodesToSort| ==> Meet(paths, nodesToSort[k], cp[j]) <= 0
  }

  /**
   * The loop of `findNodeWithClosestCommonDescendant` from position `i`
   * on: the first position of the primary path that some branch's path
   * holds past that branch's head.
   */
  function FindFrom(cp: seq<string>, nodesToSort: seq<string>, paths: Paths, i: nat): (r: Option<nat>)
    requires forall k :: 0 <= k < |nodesToSort| ==> nodesToSort[k] in paths
    ensures r.None? <==> i >= |cp| || NoMeetBetween(cp, nodesToSort, paths, i, |cp|)
    ensures r.Some? ==>
      && i <= r.value < |cp|
      && BestCandidate(nodesToSort, paths, cp[r.value]) >= 0
      && NoMeetBetween(cp, nodesToSort, paths, i, r.value)
    decreases |cp| - i
  {
    if i >= |cp| then None
    else
      BestCandidateIsFirstLeast(nodesToSort, paths, cp[i]);
      if BestCandidate(nodesToSort, paths, cp[i]) >= 0 then Some(i)
      else FindFrom(cp, nodesToSort, paths, i + 1)
  }

  /**
   * `findNodeWithClosestCommonDescendant`: the branch whose path rejoins
   * the primary path `cp` soonest. It scans `cp` from position 1; at the
   * first position some branch's path holds (past that branch's head), it
   * returns the branch reaching it in the fewest steps, the earliest
   * listed on a tie. With no such position it falls back to the first
   * branch. Either way the result is one of `nodesToSort`.
   */
  function FindNodeWithClosestCommonDescendant(cp: seq<string>, nodesToSort: seq<string>, paths: Paths): (r: string)
    requires |nodesToSort| > 0
    requires forall k :: 0 <= k < |nodesToSort| ==> nodesToSort[k] in paths
    ensures r in nodesToSort
    ensures NoMeetBetween(cp, nodesToSort, paths, 1, |cp|) ==> r == nodesToSort[0]
    ensures !NoMeetBetween(cp, nodesToSort, paths, 1, |cp|) ==>
      exists j, b :: (&& 1 <= j < |cp| && 0 <= b < |nodesToSort|
        && NoMeetBetween(cp, nodesToSort, paths, 1, j)
        && r == nodesToSort[b]
        && Meet(paths, r, cp[j]) > 0
        && (forall k :: 0 <= k < |nodesToSort| && Meet(paths, nodesToSort[k], cp[j]) > 0 ==>
              Meet(paths, r, cp[j]) <= Meet(paths, nodesToSort[k], cp[j]))
        && (forall k :: 0 <= k < b ==>
              Meet(paths, nodesToSort[k], cp[j]) <= 0 || Meet(paths, nodesToSort[k], cp[j]) > Meet(paths, r, cp[j])))
  {
    match FindFrom(cp, nodesToSort, paths, 1)
    case Some(j) =>
      var b := BestCandidate(nodesToSort, paths, cp[j]);
      BestCandidateIsFirstLeast(nodesToSort, paths, cp[j]);
      assert 1 <= j < |cp| && 0 <= b < |nodesToSort| && NoMeetBetween(cp, nodesToSort, paths, 1, j);
      nodesToSort[b]
    case None => nodesToSort[0]
  }

  predicate NoDuplicates(s: seq<string>) {
    forall i, j :: 0 <= i < j < |s| ==> s[i] != s[j]
  }

  function Elements(s: seq<string>): set<string> {
    set k | 0 <= k < |s| :: s[k]
  }

  /** `nodes.filter((node) => node !== x)`: every occurrence of `x` dropped, nothing else. */
  function Without(s: seq<string>, x: string): (r: seq<string>)
    ensures multiset(r) == multiset(s)[x := 0]
    ensures |r| <= |s| && (x in s ==> |r| < |s|)
  {
    if |s| == 0 then []
    else
      var rest := Without(s[1..], x);
      assert s == [s[0]] + s[1..];
      assert multiset(s) == multiset{s[0]} + multiset(s[1..]);
      if s[0] == x then rest else [s[0]] + rest
  }

  /** A sequence whose multiset is that of a set lists each member once and nothing else. */
  lemma {:induction false} MultisetOfSet(t: seq<string>, e: set<string>)
    requires multiset(t) == multiset(e)
    ensures NoDuplicates(t) && Elements(t) == e
  {
    forall i, j | 0 <= i < j < |t| ensures t[i] != t[j] {
      var u := t[..i] + t[i + 1..];
      assert t == t[..i] + [t[i]] + t[i + 1..];
      assert u[j - 1] == t[j];
      assert multiset(t)[t[i]] == multiset(u)[t[i]] + 1;
    }
    forall y | y in Elements(t) ensures y in e {
      assert y in multiset(t);
    }
    forall y | y in e ensures y in Elements(t) {
      assert y in multiset(e);
      assert y in multiset(t);
    }
  }

  /** A duplicate-free sequence has the multiset of its set of elements. */
  lemma {:induction false} NoDuplicatesMultiset(s: seq<string>)
    requires NoDuplicates(s)
    ensures multiset(s) == multiset(Elements(s))
  {
    if |s| > 0 {
      var t := s[1..];
      assert s == [s[0]] + t;
      NoDuplicatesMultiset(t);
      assert s[0] !in Elements(t);
      assert Elements(s) == {s[0]} + Elements(t);
      assert multiset(Elements(s)) == multiset{s[0]} + multiset(Elements(t));
    }
  }

  /**
   * `closestCommonDescendantSort`: appends the branches of `nodesToSort`
   * to `sortedNodes`, each chosen branch's path becoming the primary path
   * for the next choice. The appended part lists every branch exactly
   * once and nothing else; it terminates because each step removes the
   * chosen branch from what is left to sort.
   */
  function ClosestCommonDescendantSort(cp: seq<string>, sortedNodes: seq<string>, nodesToSort: seq<string>, paths: Paths): (r: seq<string>)
    requires forall k :: 0 <= k < |nodesToSort| ==> nodesToSort[k] in paths
    ensures |r| >= |sortedNodes| && r[..|sortedNodes|] == sortedNodes
    ensures multiset(r[|sortedNodes|..]) == multiset(Elements(nodesToSort))
    decreases |nodesToSort|
  {
    if |nodesToSort| == 0 then sortedNodes
    else
      var nodeToAdd := FindNodeWithClosestCommonDescendant(cp, nodesToSort, paths);
      var rest := Without(nodesToSort, nodeToAdd);
      assert forall k :: 0 <= k < |rest| ==> rest[k] in multiset(rest);
      var r := ClosestCommonDescendantSort(paths[nodeToAdd], sortedNodes + [nodeToAdd], rest, paths);
      AppendedPart(r, sortedNodes, nodeToAdd);
      WithoutElements(nodesToSort, nodeToAdd);
      r
  }

  /** What `Without` leaves, as a set. */
  lemma WithoutElements(s: seq<string>, x: string)
    requires x in s
    ensures var e := Elements(Without(s, x));
      e == Elements(s) - {x} && multiset(Elements(s)) == multiset{x} + multiset(e)
  {
    var r := Without(s, x);
    forall y ensures y in Elements(r) <==> y in Elements(s) - {x} {
      assert y in Elements(r) <==> y in multiset(r);
      assert y in Elements(s) <==> y in multiset(s);
    }
    assert Elements(s) == {x} + Elements(r);
  }

  lemma AppendedPart(r: seq<string>, sortedNodes: seq<string>, x: string)
    requires |r| >= |sortedNodes| + 1 && r[..|sortedNodes| + 1] == sortedNodes + [x]
    ensures r[..|sortedNodes|] == sortedNodes
    ensures multiset(r[|sortedNodes|..]) == multiset{x} + multiset(r[|sortedNodes| + 1..])
  {
    assert r[..|sortedNodes|] == r[..|sortedNodes| + 1][..|sortedNodes|];
    assert r[|sortedNodes|..] == [x] + r[|sortedNodes| + 1..];
  }

  /** The first successor marked primary, or the first successor when none is. */
  function PrimaryNodeId(nextNodes: seq<NextNode>): (r: string)
    requires |nextNodes| > 0
    ensures (exists k :: 0 <= k < |nextNodes| && nextNodes[k].primary) ==>
      exists k :: 0 <= k < |nextNodes| && nextNodes[k].primary && r == nextNodes[k].id
        && forall j :: 0 <= j < k ==> !nextNodes[j].primary
    ensures (forall k :: 0 <= k < |nextNodes| ==> !nextNodes[k].primary) ==> r == nextNodes[0].id
    ensures r in Elements(Ids(nextNodes))
  {
    assert forall k :: 0 <= k < |nextNodes| ==> Ids(nextNodes)[k] in Elements(Ids(nextNodes));
    FirstPrimaryOr(nextNodes, nextNodes[0].id)
  }

  function FirstPrimaryOr(nextNodes: seq<NextNode>, fallback: string): (r: string)
    ensures (exists k :: 0 <= k < |nextNodes| && nextNodes[k].primary) ==>
      exists k :: 0 <= k < |nextNodes| && nextNodes[k].primary && r == nextNodes[k].id
        && forall j :: 0 <= j < k ==> !nextNodes[j].primary
    ensures (forall k :: 0 <= k < |nextNodes| ==> !nextNodes[k].primary) ==> r == fallback
  {
    if |nextNodes| == 0 then fallback
    else if nextNodes[0].primary then nextNodes[0].id
    else
      var r := FirstPrimaryOr(nextNodes[1..], fallback);
      assert forall k :: 1 <= k < |nextNodes| ==> nextNodes[k] == nextNodes[1..][k - 1];
      r
  }

  /** The branches of a fork all reach a sink, so their paths exist. */
  predicate BranchesReachSinks(nextNodes: seq<NextNode>, nodes: WorkflowStepNodes) {
    forall k :: 0 <= k < |nextNodes| ==> ReachesSink(nodes, nextNodes[k].id)
  }

  /** `paths` of `getSortedNextNodes`: each branch's path, starting with the branch itself. */
  function BranchPaths(ids: seq<string>, nodes: WorkflowStepNodes): (paths: Paths)
    requires forall k :: 0 <= k < |ids| ==> ReachesSink(nodes, ids[k])
    ensures paths.Keys == Elements(ids)
    ensures forall k :: 0 <= k < |ids| ==> ids[k] in paths && paths[ids[k]] == GetPath(nodes, ids[k], [ids[k]])
  {
    map n | n in Elements(ids) :: GetPath(nodes, n, [n])
  }

  /**
   * `getSortedNextNodes`: with fewer than two successors, their ids as
   * given. Otherwise the primary successor (or the first) comes first,
   * followed by every other successor exactly once, in
   * closest-common-descendant order.
   */
  function GetSortedNextNodes(nextNodes: seq<NextNode>, nodes: WorkflowStepNodes): (r: seq<string>)
    requires |nextNodes| >= 2 ==> BranchesReachSinks(nextNodes, nodes)
    ensures |nextNodes| < 2 ==> r == Ids(nextNodes)
    ensures |nextNodes| >= 2 ==>
      && |r| >= 1 && r[0] == PrimaryNodeId(nextNodes)
      && multiset(r) == multiset(Elements(Ids(nextNodes)))
  {
    var ids := Ids(nextNodes);
    if |nextNodes| < 2 then ids
    else
      var primaryNodeId := PrimaryNodeId(nextNodes);
      var paths := BranchPaths(ids, nodes);
      var others := Without(ids, primaryNodeId);
      WithoutElements(ids, primaryNodeId);
      assert forall k :: 0 <= k < |others| ==> others[k] in paths by {
        assert forall k :: 0 <= k < |others| ==> others[k] in Elements(others);
      }
      var r := ClosestCommonDescendantSort(paths[primaryNodeId], [primaryNodeId], others, paths);
      PrependedPart(r, primaryNodeId);
      r
  }

  lemma PrependedPart(r: seq<string>, x: string)
    requires |r| >= 1 && r[..1] == [x]
    ensures r[0] == x && multiset(r) == multiset{x} + multiset(r[1..])
  {
    assert r == [x] + r[1..];
  }

  /**
   * The sorted successors of a fork are a permutation of its successor
   * ids when those are distinct, and in any case list each id once.
   */
  lemma SortedNextNodesPermutation(nextNodes: seq<NextNode>, nodes: WorkflowStepNodes)
    requires |nextNodes| >= 2 && BranchesReachSinks(nextNodes, nodes)
    ensures NoDuplicates(GetSortedNextNodes(nextNodes, nodes))
    ensures Elements(GetSortedNextNodes(nextNodes, nodes)) == Elements(Ids(nextNodes))
    ensures NoDuplicates(Ids(nextNodes)) ==> multiset(GetSortedNextNodes(nextNodes, nodes)) == multiset(Ids(nextNodes))
  {
    var r := GetSortedNextNodes(nextNodes, nodes);
    MultisetOfSet(r, Elements(Ids(nextNodes)));
    if NoDuplicates(Ids(nextNodes)) {
      NoDuplicatesMultiset(Ids(nextNodes));
    }
  }
}
