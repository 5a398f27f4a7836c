/**
 * Coordinate and tile-entry codecs of the layout engine.
 *
 * A coordinate is written `col,row`; a matrix entry is written
 * `type|container|id|ownCoord` followed by `|parentCoord` when a parent
 * coordinate is given.
 */
module Codec {
  import opened Wrappers
  import opened Strings

  const COORD_DELIMITER: char := ','
  const ENTRY_DELIMITER: char := '|'

  /** What a tile is: a step, the fork step, or a connector (including the empty placeholder). */
  datatype TileType = NODE | FORK | CONNECTOR {
    function Token(): string {
      match this
      case NODE => "node"
      case FORK => "fork"
      case CONNECTOR => "connector"
    }
  }

  /** The shape a column's tiles are drawn in; fixed per column at allocation. */
  datatype TileContainer = BOX | DIAMOND | STANDARD {
    function Token(): string {
      match this
      case BOX => "box"
      case DIAMOND => "diamond"
      case STANDARD => "standard"
    }
  }

  /** The id carried by connector tiles; EMPTY marks the placeholder. */
  datatype ConnectorName =
    | EMPTY | LINE_HORIZ | LINE_VERT | ARROW_RIGHT | ARROW_UP
    | DOWN_RIGHT | RIGHT_UP | RIGHT_UP_ARROW | DOWN_RIGHT_DASH
  {
    function Token(): string {
      match this
      case EMPTY => "empty"
      case LINE_HORIZ => "lineHoriz"
      case LINE_VERT => "lineVert"
      case ARROW_RIGHT => "arrowRight"
      case ARROW_UP => "arrowUp"
      case DOWN_RIGHT => "downRight"
      case RIGHT_UP => "rightUp"
      case RIGHT_UP_ARROW => "rightUpArrow"
      case DOWN_RIGHT_DASH => "downRightDash"
    }
  }

  datatype Coord = Coord(colNum: int, rowNum: int)

  predicate IsCell(c: Coord) { c.colNum >= 0 && c.rowNum >= 0 }

  function EncodeMatrixCoord(c: Coord): string {
    IntToDecimal(c.colNum) + [COORD_DELIMITER] + IntToDecimal(c.rowNum)
  }

  /**
   * Splits at ',' and reads the first two pieces as numbers; `None`
   * where the source would produce NaN or undefined.
   */
  function DecodeMatrixCoord(colRow: string): Option<Coord> {
    var parts := Split(colRow, COORD_DELIMITER);
    if |parts| < 2 then None
    else
      match (ParseNat(parts[0]), ParseNat(parts[1]))
      case (Some(col), Some(row)) => Some(Coord(col, row))
      case _ => None
  }

  /** Decoding an encoded non-negative coordinate gives it back. */
  lemma CoordRoundTrip(c: Coord)
    requires IsCell(c)
    ensures DecodeMatrixCoord(EncodeMatrixCoord(c)) == Some(c)
  {
    var a, b := IntToDecimal(c.colNum), IntToDecimal(c.rowNum);
    assert COORD_DELIMITER !in a && COORD_DELIMITER !in b by {
      assert AllDigits(a) && AllDigits(b);
    }
    assert Join([a, b], COORD_DELIMITER) == EncodeMatrixCoord(c);
    SplitJoin([a, b], COORD_DELIMITER);
    ParseNatOfDecimal(c.colNum);
    ParseNatOfDecimal(c.rowNum);
  }

  /** Two coordinates share an encoding only if they are equal. */
  lemma CoordEncodingInjective(c: Coord, e: Coord)
    requires EncodeMatrixCoord(c) == EncodeMatrixCoord(e)
    ensures c == e
  {
    var parts := [IntToDecimal(c.colNum), IntToDecimal(c.rowNum)];
    var parts' := [IntToDecimal(e.colNum), IntToDecimal(e.rowNum)];
    assert forall i :: 0 <= i < 2 ==> COORD_DELIMITER !in parts[i] && COORD_DELIMITER !in parts'[i] by {
      forall i | 0 <= i < 2 ensures COORD_DELIMITER !in parts[i] && COORD_DELIMITER !in parts'[i] {
        NoCommaInDecimal(if i == 0 then c.colNum else c.rowNum);
        NoCommaInDecimal(if i == 0 then e.colNum else e.rowNum);
      }
    }
    assert Join(parts, COORD_DELIMITER) == EncodeMatrixCoord(c);
    assert Join(parts', COORD_DELIMITER) == EncodeMatrixCoord(e);
    SplitJoin(parts, COORD_DELIMITER);
    SplitJoin(parts', COORD_DELIMITER);
    IntToDecimalInjective(c.colNum, e.colNum);
    IntToDecimalInjective(c.rowNum, e.rowNum);
  }

  lemma NoCommaInDecimal(i: int)
    ensures COORD_DELIMITER !in IntToDecimal(i) && ENTRY_DELIMITER !in IntToDecimal(i)
  {
    var s := IntToDecimal(i);
    if i >= 0 {
      assert AllDigits(s);
    } else {
      assert AllDigits(s[1..]);
    }
  }

  /** An encoded coordinate never contains the entry delimiter. */
  lemma NoBarInCoord(c: Coord)
    ensures ENTRY_DELIMITER !in EncodeMatrixCoord(c)
  {
    NoCommaInDecimal(c.colNum);
    NoCommaInDecimal(c.rowNum);
  }

  /**
   * The fields of a matrix entry. On encoding, a parent that is `None`
   * or the empty string is left out (the source tests it for
   * truthiness); on decoding, a missing field among the first four reads
   * as "" and a missing fifth field as `None`.
   */
  datatype EntryFields = EntryFields(
    tileType: string,
    tileContainer: string,
    tileId: string,
    encodedOwnCoord: string,
    encodedParentCoord: Option<string>)

  predicate HasParent(p: Option<string>) { p.Some? && p.value != "" }

  function EncodeMatrixEntry(e: EntryFields): string {
    var parentCoord := if HasParent(e.encodedParentCoord) then [ENTRY_DELIMITER] + e.encodedParentCoord.value else "";
    e.tileType + [ENTRY_DELIMITER] + e.tileContainer + [ENTRY_DELIMITER] + e.tileId
      + [ENTRY_DELIMITER] + e.encodedOwnCoord + parentCoord
  }

  function FieldOr(parts: seq<string>, i: nat): string {
    if i < |parts| then parts[i] else ""
  }

  function DecodeMatrixEntry(matrixEntry: string): EntryFields {
    var parts := Split(matrixEntry, ENTRY_DELIMITER);
    EntryFields(
      FieldOr(parts, 0), FieldOr(parts, 1), FieldOr(parts, 2), FieldOr(parts, 3),
      if |parts| > 4 then Some(parts[4]) else None)
  }

  /** The fields as they come back from a decode: an empty parent reads as absent. */
  function Normalized(e: EntryFields): EntryFields {
    e.(encodedParentCoord := if HasParent(e.encodedParentCoord) then e.encodedParentCoord else None)
  }

  predicate NoBar(s: string) { ENTRY_DELIMITER !in s }

  predicate FieldsWellFormed(e: EntryFields) {
    && NoBar(e.tileType) && NoBar(e.tileContainer) && NoBar(e.tileId) && NoBar(e.encodedOwnCoord)
    && (e.encodedParentCoord.Some? ==> NoBar(e.encodedParentCoord.value))
  }

  /**
   * Decoding an encoded entry whose fields hold no '|' gives back type,
   * container, id and own coordinate, and a parent exactly when a
   * non-empty parent was given.
   */
  lemma EntryRoundTrip(e: EntryFields)
    requires FieldsWellFormed(e)
    ensures DecodeMatrixEntry(EncodeMatrixEntry(e)) == Normalized(e)
  {
    var d := ENTRY_DELIMITER;
    var base := [e.tileType, e.tileContainer, e.tileId, e.encodedOwnCoord];
    var parts := if HasParent(e.encodedParentCoord) then base + [e.encodedParentCoord.value] else base;
    assert forall i :: 0 <= i < |parts| ==> d !in parts[i];
    JoinFields(parts, d);
    SplitJoin(parts, d);
  }

  lemma JoinFields(parts: seq<string>, d: char)
    requires 4 <= |parts| <= 5
    ensures Join(parts, d) == parts[0] + [d] + parts[1] + [d] + parts[2] + [d] + parts[3]
                              + (if |parts| == 5 then [d] + parts[4] else "")
  {
    var p1, p2, p3 := parts[1..], parts[2..], parts[3..];
    assert p1[1..] == p2 && p2[1..] == p3;
    var tail := if |parts| == 5 then [d] + parts[4] else "";
    assert Join(p3, d) == parts[3] + tail by {
      if |parts| == 5 {
        assert p3[1..] == [parts[4]];
      }
    }
    assert Join(p2, d) == parts[2] + [d] + (parts[3] + tail);
    assert Join(p1, d) == parts[1] + [d] + (parts[2] + [d] + (parts[3] + tail));
  }

  /** The fields of the tile left in every cell before anything is placed. */
  function PlaceholderFields(container: TileContainer, own: Coord): EntryFields {
    EntryFields(CONNECTOR.Token(), container.Token(), EMPTY.Token(), EncodeMatrixCoord(own), None)
  }

  /** The empty connector tile. */
  predicate IsPlaceholder(matrixEntry: string) {
    var e := DecodeMatrixEntry(matrixEntry);
    e.tileType == CONNECTOR.Token() && e.tileId == EMPTY.Token()
  }

  /** A tile whose type is not CONNECTOR: a step or the fork. */
  predicate IsNodeTile(matrixEntry: string) {
    DecodeMatrixEntry(matrixEntry).tileType != CONNECTOR.Token()
  }

  /** On a well-formed encoded entry, the placeholder test reads its type and id fields. */
  lemma IsPlaceholderOfEncoded(e: EntryFields)
    requires FieldsWellFormed(e)
    ensures IsPlaceholder(EncodeMatrixEntry(e)) <==> e.tileType == CONNECTOR.Token() && e.tileId == EMPTY.Token()
    ensures IsNodeTile(EncodeMatrixEntry(e)) <==> e.tileType != CONNECTOR.Token()
  {
    EntryRoundTrip(e);
  }

  /** A placeholder is never a node tile. */
  lemma PlaceholderIsConnector(s: string)
    requires IsPlaceholder(s)
    ensures !IsNodeTile(s)
  {
  }

  lemma TokensWellFormed(t: TileType, c: TileContainer, n: ConnectorName)
    ensures NoBar(t.Token()) && NoBar(c.Token()) && NoBar(n.Token())
    ensures n.Token() == EMPTY.Token() <==> n == EMPTY
  {
  }

  /** A placeholder tile of any container and cell decodes to its fields and is a placeholder. */
  lemma PlaceholderDecodes(container: TileContainer, own: Coord)
    ensures DecodeMatrixEntry(EncodeMatrixEntry(PlaceholderFields(container, own))) == PlaceholderFields(container, own)
    ensures IsPlaceholder(EncodeMatrixEntry(PlaceholderFields(container, own)))
  {
    NoBarInCoord(own);
    EntryRoundTrip(PlaceholderFields(container, own));
  }

  /** Every field a decode returns is free of the delimiter. */
  lemma DecodedFieldsWellFormed(matrixEntry: string)
    ensures FieldsWellFormed(DecodeMatrixEntry(matrixEntry))
  {
  }
}
