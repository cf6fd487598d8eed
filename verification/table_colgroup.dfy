/**
 * The `<col>` list `updateColgroup` builds for a table: one entry per column,
 * carrying a pixel width only where the node's `colWidths` has a truthy value.
 */
module TableColgroup {
  import opened Outcomes

  /** The width stored for column `i`, if `colWidths` is set, long enough, and non-zero there. */
  predicate HasWidth(colWidths: Option<seq<int>>, i: int) {
    colWidths.Some? && 0 <= i < |colWidths.value| && colWidths.value[i] != 0
  }

  /**
   * `updateColgroup`: `colCount` columns; column i carries width
   * `colWidths[i]` exactly when that value exists and is non-zero.
   */
  method ColgroupWidths(colCount: nat, colWidths: Option<seq<int>>) returns (cols: seq<Option<int>>)
    ensures |cols| == colCount
    ensures forall i :: 0 <= i < colCount ==> (cols[i].Some? <==> HasWidth(colWidths, i))
    ensures forall i :: 0 <= i < colCount && HasWidth(colWidths, i) ==> cols[i] == Some(colWidths.value[i])
  {
    cols := [];
    var i := 0;
    while i < colCount
      invariant 0 <= i <= colCount
      invariant |cols| == i
      invariant forall j :: 0 <= j < i ==> (cols[j].Some? <==> HasWidth(colWidths, j))
      invariant forall j :: 0 <= j < i && HasWidth(colWidths, j) ==> cols[j] == Some(colWidths.value[j])
    {
      var width: Option<int> := None;
      if colWidths.Some? && i < |colWidths.value| {
        width := Some(colWidths.value[i]);
      }
      if width.Some? && width.value != 0 {
        cols := cols + [width];
      } else {
        cols := cols + [None];
      }
      i := i + 1;
    }
  }
}
