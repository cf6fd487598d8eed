/**
 * The table node's own attributes (row striping, frozen column and row counts,
 * column widths), its constructor, setters, clone hook, and their JSON form.
 * The element-level fields every Lexical element node serialises are not part
 * of this model.
 */
module TableAttributes {
  import opened Outcomes

  /** The four fields a `TableNode` adds to an element node. */
  datatype TableAttrs = TableAttrs(
    rowStriping: bool,
    frozenColumnCount: int,
    frozenRowCount: int,
    colWidths: Option<seq<int>>)

  /** The table-specific part of `SerializedTableNode`; a missing JSON property is `None`. */
  datatype SerializedTable = SerializedTable(
    colWidths: Option<seq<int>>,
    rowStriping: Option<bool>,
    frozenColumnCount: Option<int>,
    frozenRowCount: Option<int>)

  /** `new TableNode()`: no striping, nothing frozen, no column widths. */
  function NewTable(): (n: TableAttrs)
    ensures !n.rowStriping && n.frozenColumnCount == 0 && n.frozenRowCount == 0 && n.colWidths.None?
  {
    TableAttrs(false, 0, 0, None)
  }

  function SetRowStriping(n: TableAttrs, rowStriping: bool): (r: TableAttrs)
    ensures r.rowStriping == rowStriping
    ensures r.frozenColumnCount == n.frozenColumnCount && r.frozenRowCount == n.frozenRowCount
    ensures r.colWidths == n.colWidths
  {
    n.(rowStriping := rowStriping)
  }

  function SetFrozenColumns(n: TableAttrs, columnCount: int): (r: TableAttrs)
    ensures r.frozenColumnCount == columnCount
    ensures r.rowStriping == n.rowStriping && r.frozenRowCount == n.frozenRowCount
    ensures r.colWidths == n.colWidths
  {
    n.(frozenColumnCount := columnCount)
  }

  function SetFrozenRows(n: TableAttrs, rowCount: int): (r: TableAttrs)
    ensures r.frozenRowCount == rowCount
    ensures r.rowStriping == n.rowStriping && r.frozenColumnCount == n.frozenColumnCount
    ensures r.colWidths == n.colWidths
  {
    n.(frozenRowCount := rowCount)
  }

  function SetColWidths(n: TableAttrs, colWidths: Option<seq<int>>): (r: TableAttrs)
    ensures r.colWidths == colWidths
    ensures r.rowStriping == n.rowStriping
    ensures r.frozenColumnCount == n.frozenColumnCount && r.frozenRowCount == n.frozenRowCount
  {
    n.(colWidths := colWidths)
  }

  /** `afterCloneFrom`: the new node takes over all four fields of the previous one. */
  function AfterCloneFrom(self: TableAttrs, prev: TableAttrs): (r: TableAttrs)
    ensures r == prev
  {
    SetFrozenRows(SetFrozenColumns(SetRowStriping(SetColWidths(self, prev.colWidths),
      prev.rowStriping), prev.frozenColumnCount), prev.frozenRowCount)
  }

  /**
   * `TableNode.clone`: a new node under the same key. Only the key carries
   * over; the four table fields keep the constructor's defaults, whatever
   * the original held.
   */
  function Clone(prev: TableAttrs): (r: TableAttrs)
    ensures !r.rowStriping && r.frozenColumnCount == 0 && r.frozenRowCount == 0 && r.colWidths.None?
  {
    NewTable()
  }

  /**
   * Cloning followed by the `afterCloneFrom` hook, the sequence in which
   * the editor copies a node: the copy carries all four fields of the
   * original, although `clone` alone drops them.
   */
  function CloneWithProperties(prev: TableAttrs): (r: TableAttrs)
    ensures r == prev
  {
    AfterCloneFrom(Clone(prev), prev)
  }

  /** JavaScript's `x || 0` on an optional number. */
  function OrZero(x: Option<int>): int {
    if x.Some? && x.value != 0 then x.value else 0
  }

  /** JavaScript's `x || false` on an optional boolean. */
  function OrFalse(x: Option<bool>): bool {
    x.Some? && x.value
  }

  /**
   * `exportJSON`: the column widths as they are; each frozen count and the
   * striping flag only when truthy, omitted otherwise.
   */
  function ExportJson(n: TableAttrs): (s: SerializedTable)
    ensures s.colWidths == n.colWidths
    ensures s.rowStriping.None? <==> !n.rowStriping
    ensures s.rowStriping.Some? ==> s.rowStriping.value
    ensures s.frozenColumnCount.None? <==> n.frozenColumnCount == 0
    ensures s.frozenColumnCount.Some? ==> s.frozenColumnCount.value == n.frozenColumnCount
    ensures s.frozenRowCount.None? <==> n.frozenRowCount == 0
    ensures s.frozenRowCount.Some? ==> s.frozenRowCount.value == n.frozenRowCount
  {
    SerializedTable(
      n.colWidths,
      if n.rowStriping then Some(true) else None,
      if n.frozenColumnCount != 0 then Some(n.frozenColumnCount) else None,
      if n.frozenRowCount != 0 then Some(n.frozenRowCount) else None)
  }

  /**
   * `updateFromJSON`: every table field is overwritten, a missing value
   * falling back to false or 0 and the widths copied as they are.
   */
  function UpdateFromJson(n: TableAttrs, s: SerializedTable): (r: TableAttrs)
    ensures r.rowStriping <==> s.rowStriping == Some(true)
    ensures s.frozenColumnCount.None? ==> r.frozenColumnCount == 0
    ensures s.frozenColumnCount.Some? ==> r.frozenColumnCount == s.frozenColumnCount.value
    ensures s.frozenRowCount.None? ==> r.frozenRowCount == 0
    ensures s.frozenRowCount.Some? ==> r.frozenRowCount == s.frozenRowCount.value
    ensures r.colWidths == s.colWidths
  {
    SetColWidths(SetFrozenRows(SetFrozenColumns(SetRowStriping(n,
      OrFalse(s.rowStriping)), OrZero(s.frozenColumnCount)), OrZero(s.frozenRowCount)), s.colWidths)
  }

  /** `importJSON`: a fresh node updated from the serialised form. */
  function ImportJson(s: SerializedTable): (r: TableAttrs)
    ensures forall n :: r == UpdateFromJson(n, s)
  {
    UpdateFromJson(NewTable(), s)
  }

  /** Importing an export restores every table field. */
  lemma ExportImportRoundTrip(n: TableAttrs)
    ensures ImportJson(ExportJson(n)) == n
  {
  }

  /**
   * The form `exportJSON` produces for what `importJSON` reads: a false flag
   * and zero counts become omitted properties; everything else is kept.
   */
  function Canonical(s: SerializedTable): SerializedTable {
    SerializedTable(
      s.colWidths,
      if s.rowStriping == Some(true) then s.rowStriping else None,
      if s.frozenColumnCount == Some(0) then None else s.frozenColumnCount,
      if s.frozenRowCount == Some(0) then None else s.frozenRowCount)
  }

  /** Exporting an import gives the input with the defaults omitted. */
  lemma ImportExportCanonical(s: SerializedTable)
    ensures ExportJson(ImportJson(s)) == Canonical(s)
  {
  }

  /** Serialisation is stable: a second import/export pass changes nothing. */
  lemma ExportIdempotent(s: SerializedTable)
    ensures ExportJson(ImportJson(ExportJson(ImportJson(s)))) == ExportJson(ImportJson(s))
  {
  }
}
