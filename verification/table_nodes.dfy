/**
 * The Lexical table node's children as plain values: a table is a sequence of
 * rows, a row a sequence of children, and a child either a table cell (with its
 * node key and column span) or some other node.
 */
module TableNodes {

  /** Lexical node keys are strings. */
  type NodeKey = string

  /** A child of a table row. */
  datatype RowChild = Cell(key: NodeKey, colSpan: nat) | NonCell

  type Row = seq<RowChild>

  /** The columns one row child occupies: its span if it is a cell, nothing otherwise. */
  function ChildSpan(c: RowChild): nat {
    match c
    case Cell(_, span) => span
    case NonCell => 0
  }

  /** Reference definition: the total column span of the cells of a row. */
  function SpanSum(row: Row): nat {
    if |row| == 0 then 0 else SpanSum(row[..|row| - 1]) + ChildSpan(row[|row| - 1])
  }

  /** The cells of a row, in order, with every other child dropped. */
  function CellsOf(row: Row): (cells: Row)
    ensures forall i :: 0 <= i < |cells| ==> cells[i].Cell?
    ensures |cells| <= |row|
  {
    if |row| == 0 then []
    else CellsOf(row[..|row| - 1]) + (if row[|row| - 1].Cell? then [row[|row| - 1]] else [])
  }

  /**
   * `getColumnCount`: 0 for a table without rows, otherwise the sum of the
   * column spans of the first row's cells, accumulated child by child.
   */
  method ColumnCount(rows: seq<Row>) returns (count: nat)
    ensures |rows| == 0 ==> count == 0
    ensures |rows| > 0 ==> count == SpanSum(rows[0])
  {
    if |rows| == 0 {
      return 0;
    }
    var firstRow := rows[0];
    count := 0;
    var i := 0;
    while i < |firstRow|
      invariant 0 <= i <= |firstRow|
      invariant count == SpanSum(firstRow[..i])
    {
      assert firstRow[..i + 1][..i] == firstRow[..i];
      if firstRow[i].Cell? {
        count := count + firstRow[i].colSpan;
      }
      i := i + 1;
    }
    assert firstRow[..i] == firstRow;
  }

  /** Spans add up over concatenated rows. */
  lemma {:induction false} SpanSumAppend(a: Row, b: Row)
    ensures SpanSum(a + b) == SpanSum(a) + SpanSum(b)
    decreases |b|
  {
    if |b| == 0 {
      assert a + b == a;
    } else {
      assert (a + b)[..|a + b| - 1] == a + b[..|b| - 1];
      SpanSumAppend(a, b[..|b| - 1]);
    }
  }

  /** Only cells contribute: the column count of a row equals that of its cells alone. */
  lemma {:induction false} SpanSumOnlyCells(row: Row)
    ensures SpanSum(CellsOf(row)) == SpanSum(row)
    decreases |row|
  {
    if |row| > 0 {
      var init := row[..|row| - 1];
      var last := row[|row| - 1];
      SpanSumOnlyCells(init);
      if last.Cell? {
        SpanSumAppend(CellsOf(init), [last]);
        assert [last][..0] == [];
      } else {
        assert CellsOf(row) == CellsOf(init) + [];
        assert CellsOf(init) + [] == CellsOf(init);
      }
    }
  }

  /** A non-cell child inserted anywhere in the first row leaves the column count unchanged. */
  lemma NonCellAddsNothing(a: Row, b: Row)
    ensures SpanSum(a + [NonCell] + b) == SpanSum(a + b)
  {
    SpanSumAppend(a + [NonCell], b);
    SpanSumAppend(a, [NonCell]);
    SpanSumAppend(a, b);
    assert [NonCell][..0] == [];
  }

  /** Each cell of the first row counts at least once when every span is positive. */
  lemma {:induction false} SpanSumAtLeastCells(row: Row)
    requires forall i :: 0 <= i < |row| && row[i].Cell? ==> row[i].colSpan >= 1
    ensures SpanSum(row) >= |CellsOf(row)|
    decreases |row|
  {
    if |row| > 0 {
      SpanSumAtLeastCells(row[..|row| - 1]);
    }
  }
}
