/**
 * Column scans: the first empty cell, the last node tile and the last
 * occupied cell of a column, each -1 when there is none.
 */
module ColumnScans {
  import opened Codec

  /** The least index holding a placeholder, or -1. */
  function FirstPlaceholderIndex(col: seq<string>): (r: int)
    ensures -1 <= r < |col|
    ensures r == -1 <==> forall i :: 0 <= i < |col| ==> !IsPlaceholder(col[i])
    ensures r >= 0 ==> IsPlaceholder(col[r]) && forall i :: 0 <= i < r ==> !IsPlaceholder(col[i])
  {
    if |col| == 0 then -1
    else if IsPlaceholder(col[0]) then 0
    else
      var k := FirstPlaceholderIndex(col[1..]);
      assert forall i :: 1 <= i < |col| ==> col[i] == col[1..][i - 1];
      if k < 0 then -1 else k + 1
  }

  /** The greatest index holding a tile that is not a CONNECTOR, or -1. */
  function LastNodeIndex(col: seq<string>): (r: int)
    ensures -1 <= r < |col|
    ensures r >= 0 ==> IsNodeTile(col[r])
    ensures forall i :: r < i < |col| ==> !IsNodeTile(col[i])
  {
    if |col| == 0 then -1
    else if IsNodeTile(col[|col| - 1]) then |col| - 1
    else LastNodeIndex(col[..|col| - 1])
  }

  /** The greatest index holding a tile that is not a placeholder, or -1. */
  function LastOccupiedIndex(col: seq<string>): (r: int)
    ensures -1 <= r < |col|
    ensures r >= 0 ==> !IsPlaceholder(col[r])
    ensures forall i :: r < i < |col| ==> IsPlaceholder(col[i])
  {
    if |col| == 0 then -1
    else if !IsPlaceholder(col[|col| - 1]) then |col| - 1
    else LastOccupiedIndex(col[..|col| - 1])
  }

  /** The last node tile is never below the last occupied cell. */
  lemma LastNodeNotBelowLastOccupied(col: seq<string>)
    ensures LastNodeIndex(col) <= LastOccupiedIndex(col)
  {
    var n := LastNodeIndex(col);
    if n >= 0 && n > LastOccupiedIndex(col) {
      PlaceholderIsConnector(col[n]);
    }
  }

  /** `firstUnoccupiedInCol`: `findIndex` over the column. */
  method FirstUnoccupiedInCol(col: seq<string>) returns (r: int)
    ensures r == FirstPlaceholderIndex(col)
  {
    var i := 0;
    while i < |col|
      invariant 0 <= i <= |col|
      invariant forall j :: 0 <= j < i ==> !IsPlaceholder(col[j])
    {
      if IsPlaceholder(col[i]) {
        return i;
      }
      i := i + 1;
    }
    return -1;
  }

  /** `lastNodeInCol`: a downward index loop. */
  method LastNodeInCol(col: seq<string>) returns (r: int)
    ensures r == LastNodeIndex(col)
  {
    var i := |col| - 1;
    while i >= 0
      invariant -1 <= i < |col|
      invariant forall j :: i < j < |col| ==> !IsNodeTile(col[j])
    {
      if IsNodeTile(col[i]) {
        LastNodeIndexUnique(col, i);
        return i;
      }
      i := i - 1;
    }
    LastNodeIndexUnique(col, -1);
    return -1;
  }

  /** `lastOccupiedInCol`: a downward index loop. */
  method LastOccupiedInCol(col: seq<string>) returns (r: int)
    ensures r == LastOccupiedIndex(col)
  {
    var i := |col| - 1;
    while i >= 0
      invariant -1 <= i < |col|
      invariant forall j :: i < j < |col| ==> IsPlaceholder(col[j])
    {
      if !IsPlaceholder(col[i]) {
        LastOccupiedIndexUnique(col, i);
        return i;
      }
      i := i - 1;
    }
    LastOccupiedIndexUnique(col, -1);
    return -1;
  }

  /** The two conditions of `LastNodeIndex` fix its value. */
  lemma LastNodeIndexUnique(col: seq<string>, k: int)
    requires -1 <= k < |col|
    requires k >= 0 ==> IsNodeTile(col[k])
    requires forall i :: k < i < |col| ==> !IsNodeTile(col[i])
    ensures LastNodeIndex(col) == k
  {
  }

  /** The two conditions of `LastOccupiedIndex` fix its value. */
  lemma LastOccupiedIndexUnique(col: seq<string>, k: int)
    requires -1 <= k < |col|
    requires k >= 0 ==> !IsPlaceholder(col[k])
    requires forall i :: k < i < |col| ==> IsPlaceholder(col[i])
    ensures LastOccupiedIndex(col) == k
  {
  }
}
