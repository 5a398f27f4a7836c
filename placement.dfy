/**
 * Writing tiles into the matrix. The matrix is an array of columns; a
 * write replaces one column by a copy with one cell changed, as the
 * source does for speed instead of rebuilding the matrix.
 */
module Placement {
  import opened Wrappers
  import opened Codec
  import opened ColumnScans
  import opened Strings

  type Matrix = array<seq<string>>

  /**
   * The column after a write at `rowNum`: the cell replaced, or, for a
   * write one past the end, the tile appended (a JavaScript array grows
   * when written at its length). A negative index names no element, so
   * the elements stay as they were.
   */
  function ColumnWith(col: seq<string>, rowNum: int, replaceBy: string): (r: seq<string>)
    requires rowNum <= |col|
    ensures |r| == if rowNum < |col| then |col| else |col| + 1
    ensures rowNum >= 0 ==> r[rowNum] == replaceBy
    ensures forall i :: 0 <= i < |col| && i != rowNum ==> r[i] == col[i]
  {
    if rowNum < 0 then col
    else if rowNum < |col| then col[rowNum := replaceBy]
    else col + [replaceBy]
  }

  /** `replaceTile`: only cell `(colNum, rowNum)` changes. */
  method ReplaceTile(matrix: Matrix, replaceBy: string, coord: Coord)
    requires 0 <= coord.colNum < matrix.Length
    requires coord.rowNum <= |matrix[coord.colNum]|
    modifies matrix
    ensures matrix[coord.colNum] == ColumnWith(old(matrix[coord.colNum]), coord.rowNum, replaceBy)
    ensures forall c :: 0 <= c < matrix.Length && c != coord.colNum ==> matrix[c] == old(matrix[c])
  {
    var newCol := matrix[coord.colNum];
    if coord.rowNum < 0 {
    } else if coord.rowNum < |newCol| {
      newCol := newCol[coord.rowNum := replaceBy];
    } else {
      newCol := newCol + [replaceBy];
    }
    matrix[coord.colNum] := newCol;
  }

  /**
   * The row a node is written at: the first empty row of its column, or
   * the parent's row when that is lower down.
   */
  function NodeRow(col: seq<string>, encodedParentCoord: Option<string>): int
    requires HasParent(encodedParentCoord) ==> DecodeMatrixCoord(encodedParentCoord.value).Some?
  {
    var firstUnoccupied := FirstPlaceholderIndex(col);
    if HasParent(encodedParentCoord) then
      var parentRowNum := DecodeMatrixCoord(encodedParentCoord.value).value.rowNum;
      if parentRowNum > firstUnoccupied then parentRowNum else firstUnoccupied
    else firstUnoccupied
  }

  /**
   * The node tile: FORK in a diamond column, NODE otherwise, with the
   * container and own coordinate read from the column's first cell.
   */
  function NodeTileFields(firstCell: string, newNodeId: string): EntryFields {
    var e := DecodeMatrixEntry(firstCell);
    var tileType := if e.tileContainer == DIAMOND.Token() then FORK else NODE;
    EntryFields(tileType.Token(), e.tileContainer, newNodeId, e.encodedOwnCoord, None)
  }

  /**
   * Decoded, the node tile is a FORK exactly in a diamond column, carries
   * the node's id, and has the first cell's container and own coordinate
   * and no parent.
   */
  lemma NodeTileDecodes(firstCell: string, newNodeId: string)
    requires NoBar(newNodeId)
    ensures var d := DecodeMatrixEntry(EncodeMatrixEntry(NodeTileFields(firstCell, newNodeId)));
      && (d.tileType == FORK.Token() <==> DecodeMatrixEntry(firstCell).tileContainer == DIAMOND.Token())
      && (d.tileType == FORK.Token() || d.tileType == NODE.Token())
      && d.tileContainer == DecodeMatrixEntry(firstCell).tileContainer
      && d.tileId == newNodeId
      && d.encodedOwnCoord == DecodeMatrixEntry(firstCell).encodedOwnCoord
      && d.encodedParentCoord == None
    ensures !IsPlaceholder(EncodeMatrixEntry(NodeTileFields(firstCell, newNodeId)))
  {
    DecodedFieldsWellFormed(firstCell);
    var e := NodeTileFields(firstCell, newNodeId);
    TokensWellFormed(FORK, BOX, EMPTY);
    TokensWellFormed(NODE, BOX, EMPTY);
    EntryRoundTrip(e);
  }

  /**
   * Whatever characters the id holds, a node tile reads back as a node
   * tile: its type comes first and holds no '|'.
   */
  lemma NodeTileIsNodeTile(firstCell: string, newNodeId: string)
    ensures IsNodeTile(EncodeMatrixEntry(NodeTileFields(firstCell, newNodeId)))
  {
    var e := NodeTileFields(firstCell, newNodeId);
    var d := ENTRY_DELIMITER;
    TokensWellFormed(FORK, BOX, EMPTY);
    TokensWellFormed(NODE, BOX, EMPTY);
    var rest := e.tileContainer + [d] + e.tileId + [d] + e.encodedOwnCoord;
    assert EncodeMatrixEntry(e) == e.tileType + ([d] + rest);
    SplitPrefix(e.tileType, [d] + rest, d);
    SplitLeadingSeparator(rest, d);
    assert e.tileType + "" == e.tileType;
  }

  /**
   * A node placed over a column whose first cell already holds a node
   * tile (of a '|'-free id) gets the tile it would have got over the
   * original first cell: the container and own coordinate read back
   * unchanged.
   */
  lemma NodeTileOverNodeTile(firstCell: string, firstId: string, newNodeId: string)
    requires NoBar(firstId)
    ensures NodeTileFields(EncodeMatrixEntry(NodeTileFields(firstCell, firstId)), newNodeId) == NodeTileFields(firstCell, newNodeId)
  {
    NodeTileDecodes(firstCell, firstId);
  }

  /**
   * The own coordinate comes from the column's first cell, not from the
   * row written: in a column of placeholders, a node placed below row 0
   * still names row 0 as its own cell.
   */
  lemma NodeOwnCoordIsFirstRow(colNum: int, container: TileContainer, firstCell: string, newNodeId: string, rowNum: int)
    requires colNum >= 0 && rowNum > 0
    requires firstCell == EncodeMatrixEntry(PlaceholderFields(container, Coord(colNum, 0)))
    requires NoBar(newNodeId)
    ensures DecodeMatrixEntry(EncodeMatrixEntry(NodeTileFields(firstCell, newNodeId))).encodedOwnCoord
            == EncodeMatrixCoord(Coord(colNum, 0))
            != EncodeMatrixCoord(Coord(colNum, rowNum))
  {
    PlaceholderDecodes(container, Coord(colNum, 0));
    NodeTileDecodes(firstCell, newNodeId);
    if EncodeMatrixCoord(Coord(colNum, 0)) == EncodeMatrixCoord(Coord(colNum, rowNum)) {
      CoordEncodingInjective(Coord(colNum, 0), Coord(colNum, rowNum));
    }
  }

  /** `addNodeToMatrix`: writes the node tile at `NodeRow` and returns where. */
  method AddNodeToMatrix(matrix: Matrix, colNum: int, newNodeId: string, encodedParentCoord: Option<string>)
    returns (coord: Coord)
    requires 0 <= colNum < matrix.Length
    requires |matrix[colNum]| > 0
    requires HasParent(encodedParentCoord) ==> DecodeMatrixCoord(encodedParentCoord.value).Some?
    requires 0 <= NodeRow(matrix[colNum], encodedParentCoord) <= |matrix[colNum]|
    modifies matrix
    ensures coord.colNum == colNum
    ensures HasParent(encodedParentCoord) ==>
      coord.rowNum == Max(DecodeMatrixCoord(encodedParentCoord.value).value.rowNum, FirstPlaceholderIndex(old(matrix[colNum])))
    ensures !HasParent(encodedParentCoord) ==> coord.rowNum == FirstPlaceholderIndex(old(matrix[colNum]))
    ensures matrix[colNum] == ColumnWith(old(matrix[colNum]), coord.rowNum,
                                         EncodeMatrixEntry(NodeTileFields(old(matrix[colNum][0]), newNodeId)))
    ensures forall c :: 0 <= c < matrix.Length && c != colNum ==> matrix[c] == old(matrix[c])
  {
    var col := matrix[colNum];
    var firstUnoccupiedRowNum := FirstUnoccupiedInCol(col);
    var rowNum: int;
    if HasParent(encodedParentCoord) {
      var parentRowNum := DecodeMatrixCoord(encodedParentCoord.value).value.rowNum;
      rowNum := Max(parentRowNum, firstUnoccupiedRowNum);
    } else {
      rowNum := firstUnoccupiedRowNum;
    }
    var replaceBy := EncodeMatrixEntry(NodeTileFields(col[0], newNodeId));
    ReplaceTile(matrix, replaceBy, Coord(colNum, rowNum));
    coord := Coord(colNum, rowNum);
  }

  function Max(a: int, b: int): int { if a > b then a else b }
}
