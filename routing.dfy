/**
 * Connector routing: the horizontal runs between each parent and child
 * node, the vertical runs above right-up corners, and the dashed
 * add-branch tile under each fork.
 */
module Routing {
  import opened Wrappers
  import opened Codec
  import opened ColumnScans
  import opened Placement

  /**
   * An instruction to write connector `connectorName` at `ownCoord`, linked
   * back to `parentCoord`. The source carries both as encoded strings; they
   * are kept here as coordinates and encoded where the tile is written,
   * which changes nothing because the encoding is injective.
   */
  datatype ConnectorToPlace = ConnectorToPlace(ownCoord: Coord, parentCoord: Coord, connectorName: ConnectorName)

  datatype CoordPair = CoordPair(parentCoord: Coord, childCoord: Coord)

  /** The result of `createLineHorizes`. */
  datatype LineRun = LineRun(lines: seq<ConnectorToPlace>, lastLineCoord: Coord)

  /** The number of columns in `[startCol, endCol)`. */
  function Span(startCol: int, endCol: int): nat {
    if endCol > startCol then endCol - startCol else 0
  }

  /**
   * Line `k` of a run on `rowNum` starting at `startCol`: a LINE_HORIZ whose
   * parent is the cell to its left, or `parentCoord` for the first one.
   */
  function RunLine(startCol: int, rowNum: int, parentCoord: Coord, k: nat): ConnectorToPlace {
    ConnectorToPlace(
      Coord(startCol + k, rowNum),
      if k == 0 then parentCoord else Coord(startCol + k - 1, rowNum),
      LINE_HORIZ)
  }

  /**
   * The run `createLineHorizes` builds, one column at a time: a LINE_HORIZ
   * for every column in `[startCol, endCol)`, each pointing back at the one
   * before, and the coordinate of the last (or `parentCoord` when empty).
   */
  function LineHorizes(startCol: int, endCol: int, rowNum: int, parentCoord: Coord): (r: LineRun)
    ensures |r.lines| == Span(startCol, endCol)
    ensures forall k :: 0 <= k < |r.lines| ==> r.lines[k] == RunLine(startCol, rowNum, parentCoord, k)
    ensures r.lastLineCoord == if |r.lines| == 0 then parentCoord else Coord(endCol - 1, rowNum)
    decreases endCol - startCol
  {
    if startCol >= endCol then LineRun([], parentCoord)
    else
      var rest := LineHorizes(startCol + 1, endCol, rowNum, Coord(startCol, rowNum));
      var r := LineRun([RunLine(startCol, rowNum, parentCoord, 0)] + rest.lines, rest.lastLineCoord);
      assert forall k :: 1 <= k < |r.lines| ==> r.lines[k] == rest.lines[k - 1];
      r
  }

  /** `createLineHorizes`: the loop that appends one line per column. */
  method CreateLineHorizes(startCol: int, endCol: int, rowNum: int, parentCoord: Coord)
    returns (lines: seq<ConnectorToPlace>, lastLineCoord: Coord)
    ensures LineRun(lines, lastLineCoord) == LineHorizes(startCol, endCol, rowNum, parentCoord)
  {
    lines := [];
    var currParentCoord := parentCoord;
    var colNum := startCol;
    while colNum < endCol
      invariant startCol <= colNum
      invariant startCol <= endCol ==> colNum <= endCol
      invariant startCol > endCol ==> colNum == startCol
      invariant |lines| == colNum - startCol
      invariant forall k :: 0 <= k < |lines| ==> lines[k] == RunLine(startCol, rowNum, parentCoord, k)
      invariant currParentCoord == if |lines| == 0 then parentCoord else Coord(colNum - 1, rowNum)
      decreases endCol - colNum
    {
      var ownCoord := Coord(colNum, rowNum);
      lines := lines + [ConnectorToPlace(ownCoord, currParentCoord, LINE_HORIZ)];
      currParentCoord := Coord(colNum, rowNum);
      colNum := colNum + 1;
    }
    lastLineCoord := currParentCoord;
    var expected := LineHorizes(startCol, endCol, rowNum, parentCoord);
    assert lines == expected.lines;
  }

  /** The parent of the connector that ends a run of `n` lines ending before `endCol`. */
  function RunEndParent(n: nat, endCol: int, rowNum: int, parentNodeCoord: Coord): Coord {
    if n == 0 then parentNodeCoord else Coord(endCol - 1, rowNum)
  }

  /**
   * `createHorizConnectorsBetweenNodes`, by the rows of parent and child:
   *  - same row: lines from the column after the parent, then ARROW_RIGHT
   *    in the column before the child;
   *  - parent above child: DOWN_RIGHT in the parent's column on the child's
   *    row, linked to the cell left of it; then lines, the first linked to
   *    the parent node; then ARROW_RIGHT before the child;
   *  - parent below child: lines on the parent's row, then, under the
   *    child, RIGHT_UP when the rows are more than one apart and
   *    RIGHT_UP_ARROW when they are adjacent.
   */
  function CreateHorizConnectorsBetweenNodes(coordPair: CoordPair): (r: seq<ConnectorToPlace>)
    ensures
      var fromCol, fromRow := coordPair.parentCoord.colNum, coordPair.parentCoord.rowNum;
      var toCol, toRow := coordPair.childCoord.colNum, coordPair.childCoord.rowNum;
      var parentNodeCoord := coordPair.parentCoord;
      && (fromRow == toRow ==>
            var n := Span(fromCol + 1, toCol - 1);
            && |r| == n + 1
            && (forall k :: 0 <= k < n ==> r[k] == RunLine(fromCol + 1, fromRow, parentNodeCoord, k))
            && r[n] == ConnectorToPlace(Coord(toCol - 1, fromRow), RunEndParent(n, toCol - 1, fromRow, parentNodeCoord), ARROW_RIGHT))
      && (fromRow < toRow ==>
            var n := Span(fromCol + 1, toCol - 1);
            && |r| == n + 2
            && r[0] == ConnectorToPlace(Coord(fromCol, toRow), Coord(fromCol - 1, toRow), DOWN_RIGHT)
            && (forall k :: 1 <= k <= n ==> r[k] == RunLine(fromCol + 1, toRow, parentNodeCoord, k - 1))
            && r[n + 1] == ConnectorToPlace(Coord(toCol - 1, toRow), RunEndParent(n, toCol - 1, toRow, parentNodeCoord), ARROW_RIGHT))
      && (fromRow > toRow ==>
            var n := Span(fromCol + 1, toCol);
            && |r| == n + 1
            && (forall k :: 0 <= k < n ==> r[k] == RunLine(fromCol + 1, fromRow, parentNodeCoord, k))
            && r[n] == ConnectorToPlace(Coord(toCol, fromRow), RunEndParent(n, toCol, fromRow, parentNodeCoord),
                                        if fromRow - toRow > 1 then RIGHT_UP else RIGHT_UP_ARROW))
  {
    var fromCol, fromRow := coordPair.parentCoord.colNum, coordPair.parentCoord.rowNum;
    var toCol, toRow := coordPair.childCoord.colNum, coordPair.childCoord.rowNum;
    var parentNodeCoord := Coord(fromCol, fromRow);
    if fromRow == toRow then
      var endCol := toCol - 1;
      var run := LineHorizes(fromCol + 1, endCol, fromRow, parentNodeCoord);
      run.lines + [ConnectorToPlace(Coord(endCol, fromRow), run.lastLineCoord, ARROW_RIGHT)]
    else if fromRow < toRow then
      var endCol := toCol - 1;
      var firstEntry := ConnectorToPlace(Coord(fromCol, toRow), Coord(fromCol - 1, toRow), DOWN_RIGHT);
      var run := LineHorizes(fromCol + 1, endCol, toRow, parentNodeCoord);
      var r := [firstEntry] + run.lines + [ConnectorToPlace(Coord(endCol, toRow), run.lastLineCoord, ARROW_RIGHT)];
      assert forall k :: 1 <= k <= |run.lines| ==> r[k] == run.lines[k - 1];
      r
    else
      var run := LineHorizes(fromCol + 1, toCol, fromRow, parentNodeCoord);
      var lastConnectorName := if fromRow - toRow > 1 then RIGHT_UP else RIGHT_UP_ARROW;
      run.lines + [ConnectorToPlace(Coord(toCol, fromRow), run.lastLineCoord, lastConnectorName)]
  }

  /**
   * Along the connectors of a pair, each one after the first points back
   * at the cell of the one before it, except for the line right after a
   * DOWN_RIGHT, which points at the parent node itself.
   */
  lemma HorizConnectorsChain(coordPair: CoordPair)
    ensures var r := CreateHorizConnectorsBetweenNodes(coordPair);
      forall k :: 1 <= k < |r| ==>
        r[k].parentCoord == if r[k - 1].connectorName == DOWN_RIGHT then coordPair.parentCoord else r[k - 1].ownCoord
  {
  }

  /**
   * For a child at least two columns right of its parent, every connector
   * is written on the row the case names and in a column from the
   * parent's to the child's; only the parent-below case reaches the
   * child's own column.
   */
  lemma HorizConnectorsInRange(coordPair: CoordPair)
    requires coordPair.parentCoord.colNum + 2 <= coordPair.childCoord.colNum
    ensures var r := CreateHorizConnectorsBetweenNodes(coordPair);
      var p, c := coordPair.parentCoord, coordPair.childCoord;
      forall k :: 0 <= k < |r| ==>
        && r[k].ownCoord.rowNum == (if p.rowNum < c.rowNum then c.rowNum else p.rowNum)
        && p.colNum <= r[k].ownCoord.colNum <= c.colNum
        && (p.rowNum <= c.rowNum ==> r[k].ownCoord.colNum < c.colNum)
  {
  }

  /** The string decodes as a coordinate (JavaScript would otherwise read NaN). */
  predicate Decodes(s: string) { DecodeMatrixCoord(s).Some? }

  /** Every key has a coordinate and a list of parent coordinates, all of which decode. */
  predicate PairInputs(nodeIdToCoord: map<string, string>, nodeIdToParentCoords: map<string, seq<string>>, nodeIds: seq<string>) {
    forall k :: 0 <= k < |nodeIds| ==>
      && nodeIds[k] in nodeIdToCoord && nodeIds[k] in nodeIdToParentCoords
      && Decodes(nodeIdToCoord[nodeIds[k]])
      && forall j :: 0 <= j < |nodeIdToParentCoords[nodeIds[k]]| ==> Decodes(nodeIdToParentCoords[nodeIds[k]][j])
  }

  /** The number of parent coordinates recorded for the given nodes. */
  function TotalEntries(nodeIds: seq<string>, nodeIdToParentCoords: map<string, seq<string>>): nat
    requires forall k :: 0 <= k < |nodeIds| ==> nodeIds[k] in nodeIdToParentCoords
  {
    if |nodeIds| == 0 then 0
    else |nodeIdToParentCoords[nodeIds[0]]| + TotalEntries(nodeIds[1..], nodeIdToParentCoords)
  }

  /** The pair for parent coordinate `j` of node `nodeId`. */
  function EntryPair(nodeIdToCoord: map<string, string>, nodeIdToParentCoords: map<string, seq<string>>, nodeId: string, j: nat): CoordPair
    requires nodeId in nodeIdToCoord && Decodes(nodeIdToCoord[nodeId])
    requires nodeId in nodeIdToParentCoords && j < |nodeIdToParentCoords[nodeId]|
    requires Decodes(nodeIdToParentCoords[nodeId][j])
  {
    CoordPair(DecodeMatrixCoord(nodeIdToParentCoords[nodeId][j]).value, DecodeMatrixCoord(nodeIdToCoord[nodeId]).value)
  }

  /** Where the pairs of node `k` begin: the number of entries of the nodes before it. */
  function Offset(nodeIds: seq<string>, nodeIdToParentCoords: map<string, seq<string>>, k: nat): nat
    requires k <= |nodeIds|
    requires forall i :: 0 <= i < |nodeIds| ==> nodeIds[i] in nodeIdToParentCoords
  {
    TotalEntries(nodeIds[..k], nodeIdToParentCoords)
  }

  /** Dropping the first node shifts every later offset by its number of entries. */
  lemma OffsetShift(nodeIds: seq<string>, nodeIdToParentCoords: map<string, seq<string>>)
    requires |nodeIds| > 0
    requires forall i :: 0 <= i < |nodeIds| ==> nodeIds[i] in nodeIdToParentCoords
    ensures forall k :: 1 <= k <= |nodeIds| ==>
      Offset(nodeIds, nodeIdToParentCoords, k)
        == |nodeIdToParentCoords[nodeIds[0]]| + Offset(nodeIds[1..], nodeIdToParentCoords, k - 1)
  {
    forall k | 1 <= k <= |nodeIds|
      ensures Offset(nodeIds, nodeIdToParentCoords, k)
        == |nodeIdToParentCoords[nodeIds[0]]| + Offset(nodeIds[1..], nodeIdToParentCoords, k - 1)
    {
      assert nodeIds[..k][1..] == nodeIds[1..][..k - 1];
    }
  }

  /**
   * The blocks of the nodes tile the pair list: node `k`'s block ends
   * where node `k+1`'s begins, the first begins at 0 and the last ends at
   * the total, so every pair belongs to exactly one recorded entry.
   */
  lemma {:induction false} OffsetsTile(nodeIds: seq<string>, nodeIdToParentCoords: map<string, seq<string>>, k: nat)
    requires k < |nodeIds|
    requires forall i :: 0 <= i < |nodeIds| ==> nodeIds[i] in nodeIdToParentCoords
    ensures Offset(nodeIds, nodeIdToParentCoords, k + 1)
              == Offset(nodeIds, nodeIdToParentCoords, k) + |nodeIdToParentCoords[nodeIds[k]]|
    ensures Offset(nodeIds, nodeIdToParentCoords, 0) == 0
    ensures Offset(nodeIds, nodeIdToParentCoords, |nodeIds|) == TotalEntries(nodeIds, nodeIdToParentCoords)
  {
    assert nodeIds[..|nodeIds|] == nodeIds;
    if k > 0 {
      OffsetShift(nodeIds, nodeIdToParentCoords);
      OffsetsTile(nodeIds[1..], nodeIdToParentCoords, k - 1);
    } else {
      assert nodeIds[..1][1..] == [];
    }
  }

  /**
   * `createCoordPairs`: for every node in key order and every parent
   * coordinate recorded for it, the pair (parent, node), the pairs of one
   * node in the order its parents were recorded.
   */
  function CreateCoordPairs(nodeIdToCoord: map<string, string>, nodeIdToParentCoords: map<string, seq<string>>, nodeIds: seq<string>): (r: seq<CoordPair>)
    requires PairInputs(nodeIdToCoord, nodeIdToParentCoords, nodeIds)
    ensures |r| == TotalEntries(nodeIds, nodeIdToParentCoords)
  {
    if |nodeIds| == 0 then []
    else
      var nodeId := nodeIds[0];
      var parents := nodeIdToParentCoords[nodeId];
      var head := seq(|parents|, j requires 0 <= j < |parents| => EntryPair(nodeIdToCoord, nodeIdToParentCoords, nodeId, j));
      assert forall k :: 1 <= k < |nodeIds| ==> nodeIds[k] == nodeIds[1..][k - 1];
      head + CreateCoordPairs(nodeIdToCoord, nodeIdToParentCoords, nodeIds[1..])
  }

  /** Pair `j` of node `k` sits at position `offset + j` of `pairs`. */
  predicate PairAt(nodeIdToCoord: map<string, string>, nodeIdToParentCoords: map<string, seq<string>>, nodeIds: seq<string>,
                   pairs: seq<CoordPair>, k: nat, j: nat)
    requires PairInputs(nodeIdToCoord, nodeIdToParentCoords, nodeIds)
    requires k < |nodeIds| && j < |nodeIdToParentCoords[nodeIds[k]]|
  {
    var i := Offset(nodeIds, nodeIdToParentCoords, k) + j;
    i < |pairs| && pairs[i] == EntryPair(nodeIdToCoord, nodeIdToParentCoords, nodeIds[k], j)
  }

  /**
   * The pairs of node `k` form the block that starts at its offset: as
   * many pairs as recorded entries, each entry at its own position, so
   * (with `OffsetsTile`) every pair is the pair of exactly one entry.
   */
  lemma {:induction false} CoordPairsBlocks(nodeIdToCoord: map<string, string>, nodeIdToParentCoords: map<string, seq<string>>, nodeIds: seq<string>)
    requires PairInputs(nodeIdToCoord, nodeIdToParentCoords, nodeIds)
    ensures forall k, j :: 0 <= k < |nodeIds| && 0 <= j < |nodeIdToParentCoords[nodeIds[k]]| ==>
      PairAt(nodeIdToCoord, nodeIdToParentCoords, nodeIds, CreateCoordPairs(nodeIdToCoord, nodeIdToParentCoords, nodeIds), k, j)
  {
    if |nodeIds| > 0 {
      var r := CreateCoordPairs(nodeIdToCoord, nodeIdToParentCoords, nodeIds);
      var parents := nodeIdToParentCoords[nodeIds[0]];
      var tail := CreateCoordPairs(nodeIdToCoord, nodeIdToParentCoords, nodeIds[1..]);
      assert forall k :: 1 <= k < |nodeIds| ==> nodeIds[k] == nodeIds[1..][k - 1];
      CoordPairsBlocks(nodeIdToCoord, nodeIdToParentCoords, nodeIds[1..]);
      OffsetShift(nodeIds, nodeIdToParentCoords);
      forall k, j | 0 <= k < |nodeIds| && 0 <= j < |nodeIdToParentCoords[nodeIds[k]]|
        ensures PairAt(nodeIdToCoord, nodeIdToParentCoords, nodeIds, r, k, j)
      {
        if k == 0 {
          assert nodeIds[..0] == [];
          assert r[j] == EntryPair(nodeIdToCoord, nodeIdToParentCoords, nodeIds[0], j);
        } else {
          var o := Offset(nodeIds[1..], nodeIdToParentCoords, k - 1);
          assert nodeIds[k] == nodeIds[1..][k - 1];
          assert PairAt(nodeIdToCoord, nodeIdToParentCoords, nodeIds[1..], tail, k - 1, j);
          assert r[|parents| + o + j] == tail[o + j];
        }
      }
    }
  }

  /** Pair `j` of node `k` of `createCoordPairs` runs from that node's `j`-th parent entry to the node. */
  lemma CoordPairAt(nodeIdToCoord: map<string, string>, nodeIdToParentCoords: map<string, seq<string>>, nodeIds: seq<string>,
                    k: nat, j: nat)
    requires PairInputs(nodeIdToCoord, nodeIdToParentCoords, nodeIds)
    requires k < |nodeIds| && j < |nodeIdToParentCoords[nodeIds[k]]|
    ensures var pairs := CreateCoordPairs(nodeIdToCoord, nodeIdToParentCoords, nodeIds);
      var i := Offset(nodeIds, nodeIdToParentCoords, k) + j;
      && i < |pairs|
      && pairs[i] == CoordPair(DecodeMatrixCoord(nodeIdToParentCoords[nodeIds[k]][j]).value,
                               DecodeMatrixCoord(nodeIdToCoord[nodeIds[k]]).value)
  {
    CoordPairsBlocks(nodeIdToCoord, nodeIdToParentCoords, nodeIds);
    assert PairAt(nodeIdToCoord, nodeIdToParentCoords, nodeIds, CreateCoordPairs(nodeIdToCoord, nodeIdToParentCoords, nodeIds), k, j);
  }

  /** The parent a connector keeps: its given parent when that is a node's cell, otherwise none. */
  function KeptParent(parentCoord: Coord, nodeCoords: set<string>): Option<string> {
    var encoded := EncodeMatrixCoord(parentCoord);
    if encoded in nodeCoords then Some(encoded) else None
  }

  /** The connector tile `addConnectorToMatrix` writes over `cell`. */
  function ConnectorTile(cell: string, connectorToPlace: ConnectorToPlace, nodeCoords: set<string>): string {
    var e := DecodeMatrixEntry(cell);
    EncodeMatrixEntry(EntryFields(e.tileType, e.tileContainer, connectorToPlace.connectorName.Token(),
                                  EncodeMatrixCoord(connectorToPlace.ownCoord),
                                  KeptParent(connectorToPlace.parentCoord, nodeCoords)))
  }

  /**
   * Decoded, the connector tile keeps the cell's type and container, has
   * the connector's name and own coordinate, and has a parent exactly
   * when the given parent is a node's cell.
   */
  lemma ConnectorTileDecodes(cell: string, c: ConnectorToPlace, nodeCoords: set<string>)
    ensures var d := DecodeMatrixEntry(ConnectorTile(cell, c, nodeCoords));
      && d.tileType == DecodeMatrixEntry(cell).tileType
      && d.tileContainer == DecodeMatrixEntry(cell).tileContainer
      && d.tileId == c.connectorName.Token()
      && d.encodedOwnCoord == EncodeMatrixCoord(c.ownCoord)
      && (d.encodedParentCoord.Some? <==> EncodeMatrixCoord(c.parentCoord) in nodeCoords)
      && (d.encodedParentCoord.Some? ==> d.encodedParentCoord.value == EncodeMatrixCoord(c.parentCoord))
  {
    DecodedFieldsWellFormed(cell);
    TokensWellFormed(NODE, BOX, c.connectorName);
    NoBarInCoord(c.ownCoord);
    NoBarInCoord(c.parentCoord);
    var e := DecodeMatrixEntry(cell);
    EntryRoundTrip(EntryFields(e.tileType, e.tileContainer, c.connectorName.Token(),
                               EncodeMatrixCoord(c.ownCoord), KeptParent(c.parentCoord, nodeCoords)));
  }

  /** A cell inside the matrix (the source throws on any other). */
  predicate InMatrix(matrix: seq<seq<string>>, c: Coord) {
    0 <= c.colNum < |matrix| && 0 <= c.rowNum < |matrix[c.colNum]|
  }

  /** `addConnectorToMatrix`: writes the connector tile over its own cell and returns it. */
  method AddConnectorToMatrix(matrix: Matrix, connectorToPlace: ConnectorToPlace, nodeCoords: set<string>)
    returns (replaceBy: string)
    requires InMatrix(matrix[..], connectorToPlace.ownCoord)
    modifies matrix
    ensures var c := connectorToPlace.ownCoord;
      && replaceBy == ConnectorTile(old(matrix[c.colNum][c.rowNum]), connectorToPlace, nodeCoords)
      && matrix[c.colNum] == old(matrix[c.colNum])[c.rowNum := replaceBy]
      && forall i :: 0 <= i < matrix.Length && i != c.colNum ==> matrix[i] == old(matrix[i])
  {
    var coord := connectorToPlace.ownCoord;
    replaceBy := ConnectorTile(matrix[coord.colNum][coord.rowNum], connectorToPlace, nodeCoords);
    ReplaceTile(matrix, replaceBy, coord);
  }

  /** Connector `k` is a RIGHT_UP connector on cell `c`. */
  predicate IsRightUpAt(connectorsToPlace: seq<ConnectorToPlace>, k: int, c: Coord) {
    0 <= k < |connectorsToPlace| && connectorsToPlace[k].connectorName == RIGHT_UP && connectorsToPlace[k].ownCoord == c
  }

  /** `c` is the cell of some RIGHT_UP connector. */
  ghost predicate IsRightUpCell(connectorsToPlace: seq<ConnectorToPlace>, c: Coord) {
    exists k :: IsRightUpAt(connectorsToPlace, k, c)
  }

  /** `getRightUpCoords`: the cells of the RIGHT_UP connectors, in order, and no others. */
  function GetRightUpCoords(connectorsToPlace: seq<ConnectorToPlace>): (r: seq<Coord>)
    ensures forall i :: 0 <= i < |r| ==> IsRightUpCell(connectorsToPlace, r[i])
    ensures forall k :: 0 <= k < |connectorsToPlace| && connectorsToPlace[k].connectorName == RIGHT_UP ==>
      connectorsToPlace[k].ownCoord in r
  {
    if |connectorsToPlace| == 0 then []
    else
      var c := connectorsToPlace[0];
      var tail := connectorsToPlace[1..];
      assert forall k :: 1 <= k < |connectorsToPlace| ==> connectorsToPlace[k] == tail[k - 1];
      var rest := GetRightUpCoords(tail);
      var r := if c.connectorName == RIGHT_UP then [c.ownCoord] + rest else rest;
      assert forall i :: 0 <= i < |r| ==> IsRightUpCell(connectorsToPlace, r[i]) by {
        forall i | 0 <= i < |r|
          ensures IsRightUpCell(connectorsToPlace, r[i])
        {
          if c.connectorName == RIGHT_UP && i == 0 {
            assert IsRightUpAt(connectorsToPlace, 0, r[i]);
          } else {
            var i' := if c.connectorName == RIGHT_UP then i - 1 else i;
            assert r[i] == rest[i'] && IsRightUpCell(tail, rest[i']);
            var k' :| IsRightUpAt(tail, k', rest[i']);
            assert IsRightUpAt(connectorsToPlace, k' + 1, r[i]);
          }
        }
      }
      r
  }

  /**
   * The cells keep the connectors' order: one more connector at the end
   * adds its cell at the end when it is a RIGHT_UP connector, and nothing
   * otherwise.
   */
  lemma {:induction false} RightUpCoordsAppend(connectorsToPlace: seq<ConnectorToPlace>, c: ConnectorToPlace)
    ensures GetRightUpCoords(connectorsToPlace + [c]) ==
      GetRightUpCoords(connectorsToPlace) + (if c.connectorName == RIGHT_UP then [c.ownCoord] else [])
  {
    var all := connectorsToPlace + [c];
    if |connectorsToPlace| > 0 {
      assert all[1..] == connectorsToPlace[1..] + [c];
      RightUpCoordsAppend(connectorsToPlace[1..], c);
    }
  }

  /**
   * The row where the upward walk from `rowNum` stops: the first row at or
   * above it that is row 0 or holds something other than a placeholder.
   */
  function WalkStop(col: seq<string>, rowNum: int): (r: int)
    requires rowNum < |col|
    ensures r <= rowNum && (rowNum >= 0 ==> 0 <= r) && (rowNum < 1 ==> r == rowNum)
    ensures r >= 1 ==> !IsPlaceholder(col[r])
    ensures forall i :: r < i <= rowNum ==> IsPlaceholder(col[i])
    decreases rowNum
  {
    if rowNum < 1 || !IsPlaceholder(col[rowNum]) then rowNum else WalkStop(col, rowNum - 1)
  }

  /** The vertical tile replacing placeholder `i`: LINE_VERT below a connector, ARROW_UP below a node. */
  function VertTile(col: seq<string>, i: int): string
    requires 1 <= i < |col|
  {
    var curr := DecodeMatrixEntry(col[i]);
    var above := col[i - 1];
    var connectorName := if IsPlaceholder(above) || DecodeMatrixEntry(above).tileType == CONNECTOR.Token()
                         then LINE_VERT else ARROW_UP;
    EncodeMatrixEntry(EntryFields(curr.tileType, curr.tileContainer, connectorName.Token(),
                                  curr.encodedOwnCoord, curr.encodedParentCoord))
  }

  /**
   * The column after `addVertConnectorsToMatrix` from `rowNum`: the run of
   * placeholders directly above `rowNum`, never including row 0, turned
   * into vertical tiles; every other cell as it was.
   */
  function VertColumn(col: seq<string>, rowNum: int): (r: seq<string>)
    requires rowNum <= |col|
    ensures |r| == |col|
    ensures forall i :: 0 <= i < |col| ==>
      r[i] == if WalkStop(col, rowNum - 1) < i < rowNum then VertTile(col, i) else col[i]
    ensures |col| > 0 ==> r[0] == col[0]
    ensures forall i :: 0 <= i < |col| && r[i] != col[i] ==> 1 <= i < rowNum && IsPlaceholder(col[i])
  {
    var stop := WalkStop(col, rowNum - 1);
    var r := VertRun(col, stop, rowNum);
    assert forall i :: 0 <= i < |col| && r[i] != col[i] ==> stop < i < rowNum;
    r
  }

  /** The column with the cells strictly between `stop` and `rowNum` turned into vertical tiles. */
  function VertRun(col: seq<string>, stop: int, rowNum: int): (r: seq<string>)
    requires rowNum <= |col| && (0 <= stop || rowNum <= 0)
    ensures |r| == |col|
  {
    seq(|col|, i requires 0 <= i < |col| => if stop < i < rowNum then VertTile(col, i) else col[i])
  }

  /** One more step of the upward walk over a placeholder: the run grows by the cell at `stop`, and the walk ends where it would have. */
  lemma VertRunStep(col: seq<string>, stop: int, rowNum: int)
    requires rowNum <= |col| && 1 <= stop < rowNum && IsPlaceholder(col[stop])
    ensures VertRun(col, stop, rowNum)[stop := VertTile(col, stop)] == VertRun(col, stop - 1, rowNum)
    ensures WalkStop(col, stop) == WalkStop(col, stop - 1)
  {
  }

  /**
   * A vertical tile keeps the placeholder's type, container, own
   * coordinate and parent, and is LINE_VERT exactly when the cell above is
   * a connector.
   */
  lemma VertTileDecodes(col: seq<string>, i: int)
    requires 1 <= i < |col|
    ensures var d := DecodeMatrixEntry(VertTile(col, i));
      var curr := DecodeMatrixEntry(col[i]);
      && d.tileType == curr.tileType && d.tileContainer == curr.tileContainer
      && d.encodedOwnCoord == curr.encodedOwnCoord && d.encodedParentCoord == Normalized(curr).encodedParentCoord
      && (d.tileId == LINE_VERT.Token() <==> DecodeMatrixEntry(col[i - 1]).tileType == CONNECTOR.Token())
      && (d.tileId == LINE_VERT.Token() || d.tileId == ARROW_UP.Token())
  {
    DecodedFieldsWellFormed(col[i]);
    TokensWellFormed(NODE, BOX, LINE_VERT);
    TokensWellFormed(NODE, BOX, ARROW_UP);
    var curr := DecodeMatrixEntry(col[i]);
    var above := col[i - 1];
    var connectorName := if IsPlaceholder(above) || DecodeMatrixEntry(above).tileType == CONNECTOR.Token()
                         then LINE_VERT else ARROW_UP;
    EntryRoundTrip(EntryFields(curr.tileType, curr.tileContainer, connectorName.Token(),
                               curr.encodedOwnCoord, curr.encodedParentCoord));
  }

  /**
   * The walk of `addVertConnectorsToMatrix` over its copy of the column:
   * upward from the row above `rowNum`, turning placeholders into
   * vertical tiles until a non-placeholder or row 0.
   */
  method WalkUp(original: seq<string>, rowNum: int) returns (col: seq<string>)
    requires rowNum <= |original|
    ensures col == VertColumn(original, rowNum)
  {
    col := original;
    var currentRowIndex := rowNum - 1;
    while currentRowIndex >= 1
      invariant currentRowIndex < rowNum && (currentRowIndex >= 0 || currentRowIndex == rowNum - 1)
      invariant WalkStop(original, rowNum - 1) == WalkStop(original, currentRowIndex)
      invariant col == VertRun(original, currentRowIndex, rowNum)
      decreases currentRowIndex
    {
      var curr := col[currentRowIndex];
      var above := col[currentRowIndex - 1];
      assert curr == original[currentRowIndex] && above == original[currentRowIndex - 1];
      if !IsPlaceholder(curr) {
        break;
      }
      var e := DecodeMatrixEntry(curr);
      var connectorName := if IsPlaceholder(above) || DecodeMatrixEntry(above).tileType == CONNECTOR.Token()
                           then LINE_VERT else ARROW_UP;
      var replaceBy := EncodeMatrixEntry(EntryFields(e.tileType, e.tileContainer, connectorName.Token(),
                                                     e.encodedOwnCoord, e.encodedParentCoord));
      assert replaceBy == VertTile(original, currentRowIndex);
      VertRunStep(original, currentRowIndex, rowNum);
      assert col[currentRowIndex := replaceBy] == VertRun(original, currentRowIndex - 1, rowNum);
      col := col[currentRowIndex := replaceBy];
      currentRowIndex := currentRowIndex - 1;
    }
    assert WalkStop(original, rowNum - 1) == currentRowIndex;
  }

  /** `addVertConnectorsToMatrix`: the walk over a copy of the column, then the column written back. */
  method AddVertConnectorsToMatrix(matrix: Matrix, startCoord: Coord)
    requires 0 <= startCoord.colNum < matrix.Length
    requires startCoord.rowNum <= |matrix[startCoord.colNum]|
    modifies matrix
    ensures matrix[startCoord.colNum] == VertColumn(old(matrix[startCoord.colNum]), startCoord.rowNum)
    ensures forall c :: 0 <= c < matrix.Length && c != startCoord.colNum ==> matrix[c] == old(matrix[c])
  {
    var col := WalkUp(matrix[startCoord.colNum], startCoord.rowNum);
    matrix[startCoord.colNum] := col;
  }

  /** An instruction to write the dashed add-branch tile. */
  datatype DashToPlace = DashToPlace(replaceBy: string, coord: Coord)

  /** The dash tile of fork column `colNum`: one row below its last occupied cell, linked to its last node. */
  function DashFor(col: seq<string>, colNum: int): DashToPlace {
    var parentRowNum := LastNodeIndex(col);
    var rowNum := LastOccupiedIndex(col) + 1;
    var replaceBy := EncodeMatrixEntry(EntryFields(
      CONNECTOR.Token(), DIAMOND.Token(), DOWN_RIGHT_DASH.Token(),
      EncodeMatrixCoord(Coord(colNum, rowNum)), Some(EncodeMatrixCoord(Coord(colNum, parentRowNum)))));
    DashToPlace(replaceBy, Coord(colNum, rowNum))
  }

  /** `downRightDashesToPlace`: one dash per fork column, all computed on the same matrix. */
  function DownRightDashesToPlace(matrix: seq<seq<string>>, forkStepCols: seq<int>): (r: seq<DashToPlace>)
    requires forall k :: 0 <= k < |forkStepCols| ==> 0 <= forkStepCols[k] < |matrix|
    ensures |r| == |forkStepCols|
    ensures forall k :: 0 <= k < |r| ==>
      && r[k].coord.colNum == forkStepCols[k]
      && 0 <= r[k].coord.rowNum <= |matrix[forkStepCols[k]]|
      && (r[k].coord.rowNum < |matrix[forkStepCols[k]]| ==> IsPlaceholder(matrix[forkStepCols[k]][r[k].coord.rowNum]))
      && (forall i :: r[k].coord.rowNum <= i < |matrix[forkStepCols[k]]| ==> IsPlaceholder(matrix[forkStepCols[k]][i]))
      && r[k] == DashFor(matrix[forkStepCols[k]], forkStepCols[k])
  {
    seq(|forkStepCols|, k requires 0 <= k < |forkStepCols| => DashFor(matrix[forkStepCols[k]], forkStepCols[k]))
  }

  /**
   * Decoded, a dash tile is a diamond DOWN_RIGHT_DASH connector at its own
   * cell whose parent is the column's last node, never below the dash
   * (row -1 when the column holds no node).
   */
  lemma DashTileDecodes(col: seq<string>, colNum: int)
    ensures var dash := DashFor(col, colNum);
      var d := DecodeMatrixEntry(dash.replaceBy);
      && d.tileType == CONNECTOR.Token() && d.tileContainer == DIAMOND.Token()
      && d.tileId == DOWN_RIGHT_DASH.Token()
      && d.encodedOwnCoord == EncodeMatrixCoord(dash.coord)
      && d.encodedParentCoord == Some(EncodeMatrixCoord(Coord(colNum, LastNodeIndex(col))))
      && LastNodeIndex(col) < dash.coord.rowNum
  {
    var dash := DashFor(col, colNum);
    LastNodeNotBelowLastOccupied(col);
    NoBarInCoord(dash.coord);
    NoBarInCoord(Coord(colNum, LastNodeIndex(col)));
    TokensWellFormed(CONNECTOR, DIAMOND, DOWN_RIGHT_DASH);
    assert EncodeMatrixCoord(Coord(colNum, LastNodeIndex(col))) != "";
    EntryRoundTrip(EntryFields(CONNECTOR.Token(), DIAMOND.Token(), DOWN_RIGHT_DASH.Token(),
      EncodeMatrixCoord(dash.coord), Some(EncodeMatrixCoord(Coord(colNum, LastNodeIndex(col))))));
  }
}
