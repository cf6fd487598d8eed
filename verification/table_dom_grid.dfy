/**
 * Coordinate lookups over the table's rendered grid (`TableDOMTable`): a
 * reported row count and a sparse array of rows, each a sparse array of DOM
 * cells. The grid is an input and nothing is assumed about how it was built;
 * in particular, that a merged cell fills every slot it covers is not
 * assumed.
 */
module TableDomGrid {
  import opened Outcomes
  import opened TableNodes

  /** The identity of a DOM element. */
  type DomElem = nat

  /** A rendered table cell; only the element it wraps matters here. */
  datatype DomCell = DomCell(elem: DomElem)

  type DomRow = seq<Option<DomCell>>

  /** `rows` is the table's row count; `domRows[y]` is missing where a row is a hole. */
  datatype DomTable = DomTable(rows: nat, domRows: seq<Option<DomRow>>)

  /** What Lexical finds for a DOM element: nothing, a table cell node, or another node. */
  datatype NearestNode = NoNode | TableCellNode(key: NodeKey) | OtherNode(key: NodeKey)

  datatype Cords = Cords(x: nat, y: nat)

  const CellNotFoundAtCords := "Cell not found at cords."
  const NodeNotTableCell := "Node at cords not TableCellNode."
  const CellNotFoundInTable := "Cell not found in table."

  /** JavaScript's `domRows[y]`: absent for a negative or too large index, or a hole. */
  function RowAt(t: DomTable, y: int): Option<DomRow> {
    if 0 <= y < |t.domRows| then t.domRows[y] else None
  }

  /** JavaScript's `row[i]`, absent out of range. */
  function SlotAt(row: DomRow, i: int): Option<DomCell> {
    if 0 <= i < |row| then row[i] else None
  }

  /**
   * `getDOMCellFromCords`: the cell in row `y` at column `x`, where a column
   * past the end of the row is clamped to the row's last slot.
   */
  function DomCellFromCords(x: int, y: int, t: DomTable): (r: Option<DomCell>)
    ensures RowAt(t, y).None? ==> r.None?
    ensures r.Some? ==> RowAt(t, y).Some? && r in RowAt(t, y).value
    ensures RowAt(t, y).Some? && 0 <= x < |RowAt(t, y).value| ==> r == RowAt(t, y).value[x]
    ensures RowAt(t, y).Some? && 0 < |RowAt(t, y).value| <= x ==>
              r == RowAt(t, y).value[|RowAt(t, y).value| - 1]
    ensures x < 0 || (RowAt(t, y).Some? && |RowAt(t, y).value| == 0) ==> r.None?
  {
    match RowAt(t, y)
    case None => None
    case Some(row) =>
      var index := if x < |row| then x else |row| - 1;
      SlotAt(row, index)
  }

  /** `getDOMCellFromCordsOrThrow`: throws exactly where the lookup finds nothing. */
  function DomCellFromCordsOrThrow(x: int, y: int, t: DomTable): (r: Result<DomCell>)
    ensures r.Failure? <==> DomCellFromCords(x, y, t).None?
    ensures r.Failure? ==> r.error == CellNotFoundAtCords
    ensures r.Success? ==> DomCellFromCords(x, y, t) == Some(r.value)
  {
    match DomCellFromCords(x, y, t)
    case None => Failure(CellNotFoundAtCords)
    case Some(cell) => Success(cell)
  }

  /**
   * `getCellNodeFromCords`: the table cell node owning the DOM cell at (x, y),
   * as resolved by `nearest`; nothing when there is no cell there or the
   * element belongs to another kind of node.
   */
  function CellNodeFromCords(x: int, y: int, t: DomTable, nearest: DomElem -> NearestNode): (r: Option<NodeKey>)
    ensures DomCellFromCords(x, y, t).None? ==> r.None?
    ensures r.Some? <==>
              DomCellFromCords(x, y, t).Some? && nearest(DomCellFromCords(x, y, t).value.elem).TableCellNode?
    ensures r.Some? ==> nearest(DomCellFromCords(x, y, t).value.elem) == TableCellNode(r.value)
  {
    match DomCellFromCords(x, y, t)
    case None => None
    case Some(cell) =>
      match nearest(cell.elem)
      case TableCellNode(key) => Some(key)
      case _ => None
  }

  /** `getCellNodeFromCordsOrThrow`: throws exactly where `CellNodeFromCords` finds nothing. */
  function CellNodeFromCordsOrThrow(x: int, y: int, t: DomTable, nearest: DomElem -> NearestNode): (r: Result<NodeKey>)
    ensures r.Failure? <==> CellNodeFromCords(x, y, t, nearest).None?
    ensures r.Failure? ==> r.error == NodeNotTableCell
    ensures r.Success? ==> CellNodeFromCords(x, y, t, nearest) == Some(r.value)
  {
    match CellNodeFromCords(x, y, t, nearest)
    case None => Failure(NodeNotTableCell)
    case Some(key) => Success(key)
  }

  /**
   * Position (x, y) is one the scan of `CordsFromCellNode` visits (y below the
   * row count, row y present, x inside it) and its cell belongs to the table
   * cell `target` according to `cellOf`.
   */
  predicate MatchAt(t: DomTable, target: NodeKey, cellOf: DomElem -> Option<NodeKey>, x: int, y: int) {
    && 0 <= y < t.rows
    && RowAt(t, y).Some?
    && 0 <= x < |RowAt(t, y).value|
    && RowAt(t, y).value[x].Some?
    && cellOf(RowAt(t, y).value[x].value.elem) == Some(target)
  }

  /**
   * `getCordsFromCellNode`: scans rows 0 .. rows-1 and, within each present
   * row, its slots left to right, skipping holes, and returns the first
   * position whose cell belongs to `target`; throws when there is none.
   */
  method CordsFromCellNode(target: NodeKey, t: DomTable, cellOf: DomElem -> Option<NodeKey>) returns (r: Result<Cords>)
    ensures r.Success? ==> MatchAt(t, target, cellOf, r.value.x, r.value.y)
    ensures r.Success? ==> forall x, y :: MatchAt(t, target, cellOf, x, y) ==>
              y > r.value.y || (y == r.value.y && x >= r.value.x)
    ensures r.Failure? ==> r.error == CellNotFoundInTable
    ensures r.Failure? ==> forall x, y :: !MatchAt(t, target, cellOf, x, y)
  {
    var y := 0;
    while y < t.rows
      invariant 0 <= y <= t.rows
      invariant forall x, y' :: y' < y ==> !MatchAt(t, target, cellOf, x, y')
    {
      var row := RowAt(t, y);
      if row.Some? {
        var cells := row.value;
        var x := 0;
        while x < |cells|
          invariant 0 <= x <= |cells|
          invariant forall x' :: x' < x ==> !MatchAt(t, target, cellOf, x', y)
        {
          var cell := cells[x];
          if cell.Some? {
            if cellOf(cell.value.elem) == Some(target) {
              return Success(Cords(x, y));
            }
          }
          x := x + 1;
        }
      }
      y := y + 1;
    }
    return Failure(CellNotFoundInTable);
  }

  /**
   * Lookup and search agree on every position the search visits: (x, y) is
   * a match of the scan exactly when the coordinate lookup there finds a cell
   * belonging to `target`. Together with the contract of `CordsFromCellNode`,
   * the coordinates the search returns lead the lookup back to a cell of the
   * same table cell.
   */
  lemma LookupAgreesWithScan(x: int, y: int, t: DomTable, target: NodeKey, cellOf: DomElem -> Option<NodeKey>)
    requires 0 <= y < t.rows && RowAt(t, y).Some? && 0 <= x < |RowAt(t, y).value|
    ensures MatchAt(t, target, cellOf, x, y) <==>
              DomCellFromCords(x, y, t).Some? && cellOf(DomCellFromCords(x, y, t).value.elem) == Some(target)
  {
  }
}
