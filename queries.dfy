/**
 * Lookups over a drawn matrix: inverting a coordinate-to-step dictionary,
 * and finding the step a plus button leads to.
 */
module Queries {
  import opened Wrappers
  import opened Codec

  /** Every key in the listed key order is a key of `m`. */
  predicate ListsKeysOf(keys: seq<string>, m: map<string, string>) {
    forall i :: 0 <= i < |keys| ==> keys[i] in m
  }

  /**
   * `invertKeyVal`: each value becomes a key mapped back to its key; the
   * keys are taken in `Object.keys` order, so where two keys share a value
   * the later one wins.
   */
  function InvertKeyVal(keyToVal: map<string, string>, keys: seq<string>): (valToKey: map<string, string>)
    requires ListsKeysOf(keys, keyToVal)
    ensures forall i :: 0 <= i < |keys| ==> keyToVal[keys[i]] in valToKey
    ensures forall v :: v in valToKey ==> valToKey[v] in keyToVal && keyToVal[valToKey[v]] == v
    ensures forall v :: v in valToKey ==> exists i :: 0 <= i < |keys| && keys[i] == valToKey[v]
  {
    if |keys| == 0 then map[]
    else
      var init, last := keys[..|keys| - 1], keys[|keys| - 1];
      assert forall i :: 0 <= i < |init| ==> init[i] == keys[i];
      InvertKeyVal(keyToVal, init)[keyToVal[last] := last]
  }

  /** A value maps back to the last key in key order that carries it. */
  lemma {:induction false} InvertLastWins(keyToVal: map<string, string>, keys: seq<string>, i: nat)
    requires ListsKeysOf(keys, keyToVal) && i < |keys|
    requires forall j :: i < j < |keys| ==> keyToVal[keys[j]] != keyToVal[keys[i]]
    ensures InvertKeyVal(keyToVal, keys)[keyToVal[keys[i]]] == keys[i]
  {
    var n := |keys|;
    if i < n - 1 {
      var init := keys[..n - 1];
      assert forall j :: 0 <= j < |init| ==> init[j] == keys[j];
      InvertLastWins(keyToVal, init, i);
    }
  }

  /**
   * For a dictionary that never maps two keys to one value, inverting
   * undoes it: every key comes back from its value.
   */
  lemma InvertInjective(keyToVal: map<string, string>, keys: seq<string>, k: string)
    requires ListsKeysOf(keys, keyToVal)
    requires forall a, b :: a in keyToVal && b in keyToVal && keyToVal[a] == keyToVal[b] ==> a == b
    requires exists i :: 0 <= i < |keys| && keys[i] == k
    ensures keyToVal[k] in InvertKeyVal(keyToVal, keys)
    ensures InvertKeyVal(keyToVal, keys)[keyToVal[k]] == k
  {
    var i :| 0 <= i < |keys| && keys[i] == k;
    var j := |keys| - 1;
    while j > i && keyToVal[keys[j]] != keyToVal[k]
      invariant i <= j < |keys|
      invariant forall m :: j < m < |keys| ==> keyToVal[keys[m]] != keyToVal[keys[i]]
    {
      j := j - 1;
    }
    InvertLastWins(keyToVal, keys, j);
  }

  /** A decoded candidate coordinate that lies at or above `bound`. */
  predicate AtOrAbove(c: Option<Coord>, bound: int) {
    c.Some? && c.value.rowNum <= bound
  }

  /**
   * The candidate `filter` keeps and the stable descending sort by row
   * puts first: among the coordinates at or above `bound`, the lowest on
   * the page (largest row), the first of them on a tie. A coordinate that
   * did not decode has a NaN row and is filtered out.
   */
  function NearestAtOrAbove(coords: seq<Option<Coord>>, bound: int): (r: Option<nat>)
    ensures r.None? <==> forall j :: 0 <= j < |coords| ==> !AtOrAbove(coords[j], bound)
    ensures r.Some? ==> r.value < |coords| && AtOrAbove(coords[r.value], bound)
    ensures r.Some? ==> forall j :: 0 <= j < |coords| && AtOrAbove(coords[j], bound) ==>
      coords[j].value.rowNum <= coords[r.value].value.rowNum
    ensures r.Some? ==> forall j :: 0 <= j < r.value && AtOrAbove(coords[j], bound) ==>
      coords[j].value.rowNum < coords[r.value].value.rowNum
  {
    if |coords| == 0 then None
    else
      var n := |coords|;
      var init := coords[..n - 1];
      assert forall j :: 0 <= j < n - 1 ==> init[j] == coords[j];
      var r := NearestAtOrAbove(init, bound);
      if !AtOrAbove(coords[n - 1], bound) then r
      else if r.None? || coords[r.value].value.rowNum < coords[n - 1].value.rowNum then Some(n - 1)
      else r
  }

  /**
   * The candidates' coordinates, looked up and decoded; `None` where a
   * candidate has no coordinate, so that decoding would throw.
   */
  function CandidateCoords(nodeIdToCoord: map<string, string>, ids: seq<string>): (r: Option<seq<Option<Coord>>>)
    ensures r.Some? <==> forall i :: 0 <= i < |ids| ==> ids[i] in nodeIdToCoord
    ensures r.Some? ==> |r.value| == |ids|
    ensures r.Some? ==> forall i :: 0 <= i < |ids| ==> r.value[i] == DecodeMatrixCoord(nodeIdToCoord[ids[i]])
  {
    if exists i :: 0 <= i < |ids| && ids[i] !in nodeIdToCoord then None
    else Some(seq(|ids|, i requires 0 <= i < |ids| => DecodeMatrixCoord(nodeIdToCoord[ids[i]])))
  }

  /**
   * `findNextNode`: looks up each candidate's coordinate through the
   * inverted dictionary, picks the nearest candidate at or above the plus
   * button's row, and returns the step at that coordinate. `None` where
   * the source throws (a candidate without a coordinate, no candidate at
   * or above) or returns undefined (no step at the picked coordinate).
   */
  function FindNextNode(plusBtnCoord: Coord, coordToNodeId: map<string, string>, coordKeys: seq<string>,
                        candidateNextNodeIds: seq<string>): (r: Option<string>)
    requires ListsKeysOf(coordKeys, coordToNodeId)
    ensures r.Some? ==> r.value in coordToNodeId.Values
  {
    match CandidateCoords(InvertKeyVal(coordToNodeId, coordKeys), candidateNextNodeIds)
    case None => None
    case Some(candidateCoords) =>
      match NearestAtOrAbove(candidateCoords, plusBtnCoord.rowNum)
      case None => None
      case Some(i) =>
        var encoded := EncodeMatrixCoord(candidateCoords[i].value);
        if encoded in coordToNodeId then Some(coordToNodeId[encoded]) else None
  }

  /** The coordinates as they come out of a successful decode. */
  function Decoded(cells: seq<Coord>): (r: seq<Option<Coord>>)
    ensures |r| == |cells| && forall i :: 0 <= i < |cells| ==> r[i] == Some(cells[i])
  {
    seq(|cells|, i requires 0 <= i < |cells| => Some(cells[i]))
  }

  /** On decoded cells, the pick is the first of the largest rows at or above `bound`. */
  lemma NearestOfCells(cells: seq<Coord>, bound: int)
    ensures NearestAtOrAbove(Decoded(cells), bound).None? <==> forall j :: 0 <= j < |cells| ==> cells[j].rowNum > bound
    ensures NearestAtOrAbove(Decoded(cells), bound).Some? ==>
      var i := NearestAtOrAbove(Decoded(cells), bound).value;
      && i < |cells| && cells[i].rowNum <= bound
      && (forall j :: 0 <= j < |cells| && cells[j].rowNum <= bound ==> cells[j].rowNum <= cells[i].rowNum)
      && (forall j :: 0 <= j < i && cells[j].rowNum <= bound ==> cells[j].rowNum < cells[i].rowNum)
  {
    var coords := Decoded(cells);
    assert forall j :: 0 <= j < |cells| ==> (AtOrAbove(coords[j], bound) <==> cells[j].rowNum <= bound);
  }

  /** A dictionary whose every key is listed, and which never maps two coordinates to one step. */
  predicate InjectiveListing(coordToNodeId: map<string, string>, coordKeys: seq<string>) {
    && ListsKeysOf(coordKeys, coordToNodeId)
    && (forall k :: k in coordToNodeId ==> exists i :: 0 <= i < |coordKeys| && coordKeys[i] == k)
    && (forall a, b :: a in coordToNodeId && b in coordToNodeId && coordToNodeId[a] == coordToNodeId[b] ==> a == b)
  }

  /** `cells[i]` is the coordinate (a cell) of candidate `i` in the dictionary. */
  predicate CellsOf(coordToNodeId: map<string, string>, candidateNextNodeIds: seq<string>, cells: seq<Coord>) {
    && |cells| == |candidateNextNodeIds|
    && forall i :: 0 <= i < |cells| ==>
      IsCell(cells[i]) && EncodeMatrixCoord(cells[i]) in coordToNodeId &&
      coordToNodeId[EncodeMatrixCoord(cells[i])] == candidateNextNodeIds[i]
  }

  /** With `cells[i]` the coordinate of candidate `i` in an injective dictionary, the lookups give the cells back. */
  lemma CandidatesAreCells(coordToNodeId: map<string, string>, coordKeys: seq<string>,
                           candidateNextNodeIds: seq<string>, cells: seq<Coord>)
    requires InjectiveListing(coordToNodeId, coordKeys) && CellsOf(coordToNodeId, candidateNextNodeIds, cells)
    ensures CandidateCoords(InvertKeyVal(coordToNodeId, coordKeys), candidateNextNodeIds) == Some(Decoded(cells))
  {
    var n := |candidateNextNodeIds|;
    var nodeIdToCoord := InvertKeyVal(coordToNodeId, coordKeys);
    forall i | 0 <= i < n
      ensures candidateNextNodeIds[i] in nodeIdToCoord
      ensures DecodeMatrixCoord(nodeIdToCoord[candidateNextNodeIds[i]]) == Some(cells[i])
    {
      InvertInjective(coordToNodeId, coordKeys, EncodeMatrixCoord(cells[i]));
      CoordRoundTrip(cells[i]);
    }
    var r := CandidateCoords(nodeIdToCoord, candidateNextNodeIds);
    assert r.value == Decoded(cells);
  }

  /** On such a dictionary, the step found is the candidate at the picked index. */
  lemma FindNextNodeOnCells(plusBtnCoord: Coord, coordToNodeId: map<string, string>, coordKeys: seq<string>,
                            candidateNextNodeIds: seq<string>, cells: seq<Coord>)
    requires InjectiveListing(coordToNodeId, coordKeys) && CellsOf(coordToNodeId, candidateNextNodeIds, cells)
    ensures FindNextNode(plusBtnCoord, coordToNodeId, coordKeys, candidateNextNodeIds) ==
      match NearestAtOrAbove(Decoded(cells), plusBtnCoord.rowNum)
      case None => None
      case Some(i) => Some(candidateNextNodeIds[i])
  {
    CandidatesAreCells(coordToNodeId, coordKeys, candidateNextNodeIds, cells);
    var r := NearestAtOrAbove(Decoded(cells), plusBtnCoord.rowNum);
    if r.Some? {
      var i := r.value;
      assert Decoded(cells)[i] == Some(cells[i]);
      CoordKeyed(coordToNodeId, cells, candidateNextNodeIds, i);
    }
  }

  lemma CoordKeyed(coordToNodeId: map<string, string>, cells: seq<Coord>, candidateNextNodeIds: seq<string>, i: nat)
    requires CellsOf(coordToNodeId, candidateNextNodeIds, cells) && i < |cells|
    ensures EncodeMatrixCoord(cells[i]) in coordToNodeId && coordToNodeId[EncodeMatrixCoord(cells[i])] == candidateNextNodeIds[i]
  {
  }

  /** The candidate at the picked index is the nearest one at or above `bound`, the first on a tie. */
  predicate IsNearestCandidate(found: Option<string>, candidateNextNodeIds: seq<string>, cells: seq<Coord>, bound: int)
    requires |cells| == |candidateNextNodeIds|
  {
    && (found.None? <==> forall j :: 0 <= j < |cells| ==> cells[j].rowNum > bound)
    && (found.Some? ==>
      exists i :: 0 <= i < |cells| && cells[i].rowNum <= bound && found.value == candidateNextNodeIds[i] &&
        (forall j :: 0 <= j < |cells| && cells[j].rowNum <= bound ==> cells[j].rowNum <= cells[i].rowNum) &&
        (forall j :: 0 <= j < i && cells[j].rowNum <= bound ==> cells[j].rowNum < cells[i].rowNum))
  }

  /** Picking by `NearestAtOrAbove` over decoded cells picks the nearest candidate. */
  lemma PickIsNearest(found: Option<string>, candidateNextNodeIds: seq<string>, cells: seq<Coord>, bound: int)
    requires |cells| == |candidateNextNodeIds|
    requires found == match NearestAtOrAbove(Decoded(cells), bound)
      case None => None
      case Some(i) => Some(candidateNextNodeIds[i])
    ensures IsNearestCandidate(found, candidateNextNodeIds, cells, bound)
  {
    NearestOfCells(cells, bound);
    var r := NearestAtOrAbove(Decoded(cells), bound);
    if r.Some? {
      var i := r.value;
      assert found.value == candidateNextNodeIds[i];
    }
  }

  /**
   * On a dictionary from distinct cell coordinates to distinct steps, with
   * `cells[i]` the coordinate of candidate `i`: the next node is found
   * exactly when some candidate is at or above the plus button, and it
   * is the nearest such candidate, the first one on a tie.
   */
  lemma FindNextNodeIsNearest(plusBtnCoord: Coord, coordToNodeId: map<string, string>, coordKeys: seq<string>,
                              candidateNextNodeIds: seq<string>, cells: seq<Coord>)
    requires InjectiveListing(coordToNodeId, coordKeys) && CellsOf(coordToNodeId, candidateNextNodeIds, cells)
    ensures IsNearestCandidate(FindNextNode(plusBtnCoord, coordToNodeId, coordKeys, candidateNextNodeIds),
                               candidateNextNodeIds, cells, plusBtnCoord.rowNum)
  {
    FindNextNodeOnCells(plusBtnCoord, coordToNodeId, coordKeys, candidateNextNodeIds, cells);
    PickIsNearest(FindNextNode(plusBtnCoord, coordToNodeId, coordKeys, candidateNextNodeIds),
                  candidateNextNodeIds, cells, plusBtnCoord.rowNum);
  }
}
