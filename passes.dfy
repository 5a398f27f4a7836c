/**
 * The three passes over the matrix that follow the traversal: the
 * connectors between nodes, the vertical connectors above RIGHT_UP
 * tiles, and the dashed branch tile of each fork column. Each pass is a
 * loop over instructions; its effect is specified by a fold over the
 * matrix value.
 */
module Passes {
  import opened Wrappers
  import opened Codec
  import opened ColumnScans
  import opened Placement
  import opened Routing

  /** Same number of columns, and every column the same length. */
  predicate SameShape(m: seq<seq<string>>, m': seq<seq<string>>) {
    |m| == |m'| && forall c :: 0 <= c < |m| ==> |m[c]| == |m'[c]|
  }

  /** Same number of columns, and no column shorter. */
  predicate Grows(m: seq<seq<string>>, m': seq<seq<string>>) {
    |m| == |m'| && forall c :: 0 <= c < |m| ==> |m[c]| <= |m'[c]|
  }

  // ---------------------------------------------------------------
  // Step 2.1: connectors between nodes
  // ---------------------------------------------------------------

  /** The matrix after one `addConnectorToMatrix`. */
  function WithConnector(m: seq<seq<string>>, c: ConnectorToPlace, nodeCoords: set<string>): (r: seq<seq<string>>)
    requires InMatrix(m, c.ownCoord)
    ensures SameShape(m, r)
  {
    var o := c.ownCoord;
    m[o.colNum := m[o.colNum][o.rowNum := ConnectorTile(m[o.colNum][o.rowNum], c, nodeCoords)]]
  }

  /**
   * The matrix after placing the connectors in order, or `None` when one
   * of them lies outside the matrix (the source throws there).
   */
  function WithConnectors(m: seq<seq<string>>, cs: seq<ConnectorToPlace>, nodeCoords: set<string>): (r: Option<seq<seq<string>>>)
    ensures r.Some? <==> forall k :: 0 <= k < |cs| ==> InMatrix(m, cs[k].ownCoord)
    ensures r.Some? ==> SameShape(m, r.value)
    decreases |cs|
  {
    if |cs| == 0 then Some(m)
    else if !InMatrix(m, cs[0].ownCoord) then None
    else
      var m' := WithConnector(m, cs[0], nodeCoords);
      assert forall k :: 1 <= k < |cs| ==> cs[k] == cs[1..][k - 1];
      assert forall k :: 0 <= k < |cs| - 1 ==> cs[1..][k] == cs[k + 1];
      WithConnectors(m', cs[1..], nodeCoords)
  }

  /** No connector of `cs` is placed on `cell`. */
  predicate Untouched(cs: seq<ConnectorToPlace>, cell: Coord) {
    forall k :: 0 <= k < |cs| ==> cs[k].ownCoord != cell
  }

  /** A cell no connector is placed on keeps its tile. */
  lemma {:induction false} ConnectorsLeaveOthers(m: seq<seq<string>>, cs: seq<ConnectorToPlace>, nodeCoords: set<string>, cell: Coord)
    requires WithConnectors(m, cs, nodeCoords).Some?
    requires InMatrix(m, cell) && Untouched(cs, cell)
    ensures WithConnectors(m, cs, nodeCoords).value[cell.colNum][cell.rowNum] == m[cell.colNum][cell.rowNum]
    decreases |cs|
  {
    if |cs| > 0 {
      var m' := WithConnector(m, cs[0], nodeCoords);
      assert Untouched(cs[1..], cell) by {
        assert forall k :: 0 <= k < |cs| - 1 ==> cs[1..][k] == cs[k + 1];
      }
      assert cs[0].ownCoord != cell;
      ConnectorsLeaveOthers(m', cs[1..], nodeCoords, cell);
    }
  }

  /**
   * The last connector placed on a cell decides its tile: its name, its
   * own coordinate, and a parent exactly when its parent is a node's cell.
   */
  lemma {:induction false} LastConnectorWins(m: seq<seq<string>>, cs: seq<ConnectorToPlace>, nodeCoords: set<string>, k: nat)
    requires WithConnectors(m, cs, nodeCoords).Some?
    requires k < |cs| && Untouched(cs[k + 1..], cs[k].ownCoord)
    ensures InMatrix(m, cs[k].ownCoord)
    ensures var o := cs[k].ownCoord;
      var d := DecodeMatrixEntry(WithConnectors(m, cs, nodeCoords).value[o.colNum][o.rowNum]);
      && d.tileId == cs[k].connectorName.Token()
      && d.encodedOwnCoord == EncodeMatrixCoord(o)
      && (d.encodedParentCoord.Some? <==> EncodeMatrixCoord(cs[k].parentCoord) in nodeCoords)
    decreases |cs|
  {
    var m' := WithConnector(m, cs[0], nodeCoords);
    if k == 0 {
      var o := cs[0].ownCoord;
      assert cs[1..] == cs[k + 1..];
      ConnectorsLeaveOthers(m', cs[1..], nodeCoords, o);
      ConnectorTileDecodes(m[o.colNum][o.rowNum], cs[0], nodeCoords);
    } else {
      assert cs[1..][k - 1] == cs[k] && cs[1..][k..] == cs[k + 1..];
      LastConnectorWins(m', cs[1..], nodeCoords, k - 1);
    }
  }

  /** Step 2.1: `connectorsToPlace.forEach(addConnectorToMatrix)`; fails at a connector outside the matrix. */
  method PlaceConnectors(matrix: Matrix, connectorsToPlace: seq<ConnectorToPlace>, nodeCoords: set<string>)
    returns (failed: bool)
    modifies matrix
    ensures failed <==> WithConnectors(old(matrix[..]), connectorsToPlace, nodeCoords).None?
    ensures !failed ==> WithConnectors(old(matrix[..]), connectorsToPlace, nodeCoords) == Some(matrix[..])
  {
    ghost var original := matrix[..];
    var i := 0;
    while i < |connectorsToPlace|
      invariant 0 <= i <= |connectorsToPlace|
      invariant matrix.Length == |original|
      invariant WithConnectors(matrix[..], connectorsToPlace[i..], nodeCoords) == WithConnectors(original, connectorsToPlace, nodeCoords)
      decreases |connectorsToPlace| - i
    {
      var c := connectorsToPlace[i];
      assert connectorsToPlace[i..][0] == c && connectorsToPlace[i..][1..] == connectorsToPlace[i + 1..];
      if !InMatrix(matrix[..], c.ownCoord) {
        return true;
      }
      ghost var before := matrix[..];
      var _ := AddConnectorToMatrix(matrix, c, nodeCoords);
      assert matrix[..] == WithConnector(before, c, nodeCoords);
      i := i + 1;
    }
    assert connectorsToPlace[i..] == [];
    return false;
  }

  // ---------------------------------------------------------------
  // Step 2.2: vertical connectors above RIGHT_UP tiles
  // ---------------------------------------------------------------

  /** Every start lies in a column of the matrix, at most one row below its end. */
  predicate VertStartsIn(m: seq<seq<string>>, coords: seq<Coord>) {
    forall k :: 0 <= k < |coords| ==> 0 <= coords[k].colNum < |m| && coords[k].rowNum <= |m[coords[k].colNum]|
  }

  /** The matrix after `addVertConnectorsToMatrix` from each start, in order. */
  function WithVertConnectors(m: seq<seq<string>>, coords: seq<Coord>): (r: seq<seq<string>>)
    requires VertStartsIn(m, coords)
    ensures SameShape(m, r)
    decreases |coords|
  {
    if |coords| == 0 then m
    else
      var s := coords[0];
      var m' := m[s.colNum := VertColumn(m[s.colNum], s.rowNum)];
      assert forall k :: 0 <= k < |coords| - 1 ==> coords[1..][k] == coords[k + 1];
      WithVertConnectors(m', coords[1..])
  }

  /** Vertical connectors are only ever drawn over placeholders, never in row 0. */
  lemma {:induction false} VertConnectorsFillPlaceholders(m: seq<seq<string>>, coords: seq<Coord>, c: int, i: int)
    requires VertStartsIn(m, coords)
    requires 0 <= c < |m| && 0 <= i < |m[c]|
    requires WithVertConnectors(m, coords)[c][i] != m[c][i]
    ensures IsPlaceholder(m[c][i]) && i >= 1
    decreases |coords|
  {
    var s := coords[0];
    var m' := m[s.colNum := VertColumn(m[s.colNum], s.rowNum)];
    assert forall k :: 0 <= k < |coords| - 1 ==> coords[1..][k] == coords[k + 1];
    if m'[c][i] == m[c][i] {
      VertConnectorsFillPlaceholders(m', coords[1..], c, i);
    }
  }

  /** Step 2.2: `getRightUpCoords(...).forEach(addVertConnectorsToMatrix)`. */
  method PlaceVertConnectors(matrix: Matrix, coords: seq<Coord>)
    requires VertStartsIn(matrix[..], coords)
    modifies matrix
    ensures matrix[..] == WithVertConnectors(old(matrix[..]), coords)
  {
    ghost var original := matrix[..];
    for i := 0 to |coords|
      invariant SameShape(original, matrix[..])
      invariant WithVertConnectors(matrix[..], coords[i..]) == WithVertConnectors(original, coords)
    {
      assert coords[i..][0] == coords[i] && coords[i..][1..] == coords[i + 1..];
      ghost var before := matrix[..];
      AddVertConnectorsToMatrix(matrix, coords[i]);
      assert matrix[..] == before[coords[i].colNum := VertColumn(before[coords[i].colNum], coords[i].rowNum)];
    }
    assert coords[|coords|..] == [];
  }

  // ---------------------------------------------------------------
  // Step 2.3: the dashed branch tile of each fork column
  // ---------------------------------------------------------------

  /** Every dash lies in a column of the matrix, at most one row below its end. */
  predicate DashesFit(m: seq<seq<string>>, dashes: seq<DashToPlace>) {
    forall k :: 0 <= k < |dashes| ==>
      0 <= dashes[k].coord.colNum < |m| && dashes[k].coord.rowNum <= |m[dashes[k].coord.colNum]|
  }

  /** The matrix after `replaceTile` for each dash, in order. */
  function WithDashes(m: seq<seq<string>>, dashes: seq<DashToPlace>): (r: seq<seq<string>>)
    requires DashesFit(m, dashes)
    ensures Grows(m, r)
    decreases |dashes|
  {
    if |dashes| == 0 then m
    else
      var d := dashes[0];
      var m' := m[d.coord.colNum := ColumnWith(m[d.coord.colNum], d.coord.rowNum, d.replaceBy)];
      assert forall k :: 0 <= k < |dashes| - 1 ==> dashes[1..][k] == dashes[k + 1];
      WithDashes(m', dashes[1..])
  }

  /** Dashes of the same column are the same dash. */
  predicate OneDashPerColumn(dashes: seq<DashToPlace>) {
    forall i, j :: 0 <= i < |dashes| && 0 <= j < |dashes| && dashes[i].coord.colNum == dashes[j].coord.colNum ==>
      dashes[i] == dashes[j]
  }

  /** Writing the same tile at the same row twice is writing it once. */
  lemma ColumnWithTwice(col: seq<string>, rowNum: int, replaceBy: string)
    requires rowNum <= |col|
    ensures ColumnWith(ColumnWith(col, rowNum, replaceBy), rowNum, replaceBy) == ColumnWith(col, rowNum, replaceBy)
  {
  }

  /** No dash lies in column `c`. */
  predicate NoDashIn(dashes: seq<DashToPlace>, c: int) {
    forall k :: 0 <= k < |dashes| ==> dashes[k].coord.colNum != c
  }

  /**
   * With one dash per column, the dashes leave every column without a
   * dash as it was, and write each dash's tile into its column.
   */
  lemma {:induction false} DashesPlaced(m: seq<seq<string>>, dashes: seq<DashToPlace>)
    requires DashesFit(m, dashes) && OneDashPerColumn(dashes)
    ensures var r := WithDashes(m, dashes);
      forall k :: 0 <= k < |dashes| ==>
        r[dashes[k].coord.colNum] == ColumnWith(m[dashes[k].coord.colNum], dashes[k].coord.rowNum, dashes[k].replaceBy)
    ensures var r := WithDashes(m, dashes);
      forall c :: 0 <= c < |m| && NoDashIn(dashes, c) ==> r[c] == m[c]
    decreases |dashes|
  {
    if |dashes| > 0 {
      var d := dashes[0];
      var c0 := d.coord.colNum;
      var m' := m[c0 := ColumnWith(m[c0], d.coord.rowNum, d.replaceBy)];
      var rest := dashes[1..];
      assert forall k :: 0 <= k < |rest| ==> rest[k] == dashes[k + 1];
      DashesPlaced(m', rest);
      var r := WithDashes(m, dashes);
      assert r == WithDashes(m', rest);
      ColumnWithTwice(m[c0], d.coord.rowNum, d.replaceBy);
      forall k | 0 <= k < |dashes|
        ensures r[dashes[k].coord.colNum] == ColumnWith(m[dashes[k].coord.colNum], dashes[k].coord.rowNum, dashes[k].replaceBy)
      {
        if dashes[k].coord.colNum == c0 {
          assert dashes[k] == d;
          if NoDashIn(rest, c0) {
            assert r[c0] == m'[c0];
          } else {
            var j :| 0 <= j < |rest| && rest[j].coord.colNum == c0;
            assert rest[j] == dashes[j + 1] == d;
          }
        } else {
          assert dashes[k] == rest[k - 1];
        }
      }
      forall c | 0 <= c < |m| && NoDashIn(dashes, c)
        ensures r[c] == m[c]
      {
        assert NoDashIn(rest, c) by {
          forall k | 0 <= k < |rest| ensures rest[k].coord.colNum != c {
            assert rest[k] == dashes[k + 1];
          }
        }
        assert d.coord.colNum != c;
      }
    }
  }

  /**
   * The dashes `downRightDashesToPlace` computes have one dash per
   * column, so (by `DashesPlaced`) each fork column ends up with its dash
   * tile one row below its last occupied cell and nothing else changes.
   */
  lemma ForkDashesOnePerColumn(m: seq<seq<string>>, forkStepCols: seq<int>)
    requires forall k :: 0 <= k < |forkStepCols| ==> 0 <= forkStepCols[k] < |m|
    ensures DashesFit(m, DownRightDashesToPlace(m, forkStepCols))
    ensures OneDashPerColumn(DownRightDashesToPlace(m, forkStepCols))
  {
  }

  /** `replaceTile` for each dash, in order. */
  method ReplaceDashes(matrix: Matrix, dashes: seq<DashToPlace>)
    requires DashesFit(matrix[..], dashes)
    modifies matrix
    ensures matrix[..] == WithDashes(old(matrix[..]), dashes)
  {
    ghost var original := matrix[..];
    for i := 0 to |dashes|
      invariant Grows(original, matrix[..])
      invariant WithDashes(matrix[..], dashes[i..]) == WithDashes(original, dashes)
    {
      assert dashes[i..][0] == dashes[i] && dashes[i..][1..] == dashes[i + 1..];
      ghost var before := matrix[..];
      var d := dashes[i];
      ReplaceTile(matrix, d.replaceBy, d.coord);
      assert matrix[..] == before[d.coord.colNum := ColumnWith(before[d.coord.colNum], d.coord.rowNum, d.replaceBy)];
    }
    assert dashes[|dashes|..] == [];
  }

  /** Step 2.3: `downRightDashesToPlace(...).forEach(replaceTile)`; fails on a fork column outside the matrix. */
  method PlaceDashes(matrix: Matrix, forkStepCols: seq<int>) returns (failed: bool)
    modifies matrix
    ensures failed <==> exists k :: 0 <= k < |forkStepCols| && !(0 <= forkStepCols[k] < matrix.Length)
    ensures failed ==> matrix[..] == old(matrix[..])
    ensures !failed ==> matrix[..] == WithDashes(old(matrix[..]), DownRightDashesToPlace(old(matrix[..]), forkStepCols))
  {
    for k := 0 to |forkStepCols|
      invariant forall j :: 0 <= j < k ==> 0 <= forkStepCols[j] < matrix.Length
    {
      if !(0 <= forkStepCols[k] < matrix.Length) {
        return true;
      }
    }
    var dashes := DownRightDashesToPlace(matrix[..], forkStepCols);
    ForkDashesOnePerColumn(matrix[..], forkStepCols);
    ReplaceDashes(matrix, dashes);
    return false;
  }
}
