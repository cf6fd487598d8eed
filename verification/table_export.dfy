/**
 * The column pruning that `TableNode.exportDOM` performs after its children
 * are exported: only the `<col>` entries of columns covered by some exported
 * cell stay in the `<colgroup>`.
 *
 * The table map is an input: a grid of slots, each naming the cell covering it,
 * that cell's column span, and the column where the cell starts. The keys read
 * back from the exported cells (`data-temporary-table-cell-lexical-key`) are an
 * input too, in document order.
 */
module TableExport {
  import opened TableNodes

  /** One slot of the table map. */
  datatype MapValue = MapValue(cellKey: NodeKey, colSpan: nat, startColumn: nat)

  /** Where a cell starts and how many columns it spans. */
  datatype Span = Span(startColumn: nat, colSpan: nat)

  type TableMap = seq<seq<MapValue>>

  function SpanOf(v: MapValue): Span {
    Span(v.startColumn, v.colSpan)
  }

  /** The slots of a table map in row-major order. */
  function Flatten(m: TableMap): seq<MapValue> {
    if |m| == 0 then [] else Flatten(m[..|m| - 1]) + m[|m| - 1]
  }

  /** Some slot names the cell `k`. */
  predicate Occurs(vs: seq<MapValue>, k: NodeKey) {
    exists i :: 0 <= i < |vs| && vs[i].cellKey == k
  }

  /** Slot `i` is the first to name its cell. */
  predicate FirstOccurrence(vs: seq<MapValue>, i: int) {
    0 <= i < |vs| && forall j :: 0 <= j < i ==> vs[j].cellKey != vs[i].cellKey
  }

  /** Reference definition: each cell of the map with the span recorded at its first slot. */
  function FirstSpans(vs: seq<MapValue>): map<NodeKey, Span> {
    if |vs| == 0 then map[]
    else
      var m := FirstSpans(vs[..|vs| - 1]);
      var v := vs[|vs| - 1];
      if v.cellKey in m then m else m[v.cellKey := SpanOf(v)]
  }

  /** `FirstSpans` records exactly the cells named somewhere in the map. */
  lemma {:induction false} FirstSpansKeys(vs: seq<MapValue>)
    ensures forall k :: k in FirstSpans(vs) <==> Occurs(vs, k)
    decreases |vs|
  {
    if |vs| > 0 {
      var init := vs[..|vs| - 1];
      FirstSpansKeys(init);
      forall k | Occurs(vs, k)
        ensures k in FirstSpans(vs)
      {
        var i :| 0 <= i < |vs| && vs[i].cellKey == k;
        if i < |init| {
          assert init[i] == vs[i];
        }
      }
      forall k | Occurs(init, k)
        ensures Occurs(vs, k)
      {
        var i :| 0 <= i < |init| && init[i].cellKey == k;
        assert vs[i] == init[i];
      }
    }
  }

  /** `FirstSpans` gives each cell the span of the first slot naming it. */
  lemma {:induction false} FirstSpansValues(vs: seq<MapValue>, i: int)
    requires FirstOccurrence(vs, i)
    ensures vs[i].cellKey in FirstSpans(vs) && FirstSpans(vs)[vs[i].cellKey] == SpanOf(vs[i])
    decreases |vs|
  {
    var init := vs[..|vs| - 1];
    var v := vs[|vs| - 1];
    FirstSpansKeys(init);
    if i < |init| {
      assert FirstOccurrence(init, i) by {
        forall j | 0 <= j < i ensures init[j].cellKey != init[i].cellKey {
          assert init[j] == vs[j];
        }
      }
      FirstSpansValues(init, i);
    } else {
      assert i == |vs| - 1;
      assert !Occurs(init, v.cellKey) by {
        forall j | 0 <= j < |init| ensures init[j].cellKey != v.cellKey {
          assert init[j] == vs[j];
        }
      }
    }
  }

  lemma FirstSpansSnoc(seen: seq<MapValue>, v: MapValue)
    ensures FirstSpans(seen + [v]) ==
            if v.cellKey in FirstSpans(seen) then FirstSpans(seen)
            else FirstSpans(seen)[v.cellKey := SpanOf(v)]
  {
    assert (seen + [v])[..|seen|] == seen;
  }

  lemma FlattenSnoc(m: TableMap, y: nat)
    requires y < |m|
    ensures Flatten(m[..y + 1]) == Flatten(m[..y]) + m[y]
  {
    assert m[..y + 1][..y] == m[..y];
  }

  /**
   * The first loop of the export hook: walks the table map row by row and
   * records, for each cell key not yet seen, its column span and start column.
   */
  method CellValues(tableMap: TableMap) returns (cellValues: map<NodeKey, Span>)
    ensures cellValues == FirstSpans(Flatten(tableMap))
  {
    cellValues := map[];
    ghost var seen: seq<MapValue> := [];
    var y := 0;
    while y < |tableMap|
      invariant 0 <= y <= |tableMap|
      invariant seen == Flatten(tableMap[..y])
      invariant cellValues == FirstSpans(seen)
    {
      var mapRow := tableMap[y];
      var x := 0;
      while x < |mapRow|
        invariant 0 <= x <= |mapRow|
        invariant seen == Flatten(tableMap[..y]) + mapRow[..x]
        invariant cellValues == FirstSpans(seen)
      {
        var v := mapRow[x];
        FirstSpansSnoc(seen, v);
        if v.cellKey !in cellValues {
          cellValues := cellValues[v.cellKey := SpanOf(v)];
        }
        seen := seen + [v];
        assert mapRow[..x + 1] == mapRow[..x] + [v];
        x := x + 1;
      }
      assert mapRow[..x] == mapRow;
      FlattenSnoc(tableMap, y);
      y := y + 1;
    }
    assert tableMap[..y] == tableMap;
  }

  /** Column `c` lies in `[startColumn, startColumn + colSpan)`. */
  predicate Covers(s: Span, c: int) {
    s.startColumn <= c < s.startColumn + s.colSpan
  }

  /** A non-empty key naming a recorded cell that covers column `c`. */
  predicate KeyCovers(cellValues: map<NodeKey, Span>, k: NodeKey, c: int) {
    k != "" && k in cellValues && Covers(cellValues[k], c)
  }

  /** Some key read from the exported cells covers column `c`. */
  predicate UsedColumn(cellValues: map<NodeKey, Span>, outKeys: seq<NodeKey>, c: int) {
    exists i :: 0 <= i < |outKeys| && KeyCovers(cellValues, outKeys[i], c)
  }

  lemma UsedColumnSnoc(cellValues: map<NodeKey, Span>, keys: seq<NodeKey>, k: NodeKey, c: int)
    ensures UsedColumn(cellValues, keys + [k], c) <==> UsedColumn(cellValues, keys, c) || KeyCovers(cellValues, k, c)
  {
    if UsedColumn(cellValues, keys, c) {
      var i :| 0 <= i < |keys| && KeyCovers(cellValues, keys[i], c);
      assert (keys + [k])[i] == keys[i];
    }
    if KeyCovers(cellValues, k, c) {
      assert (keys + [k])[|keys|] == k;
    }
    if UsedColumn(cellValues, keys + [k], c) {
      var i :| 0 <= i < |keys + [k]| && KeyCovers(cellValues, (keys + [k])[i], c);
      if i < |keys| {
        assert (keys + [k])[i] == keys[i];
      }
    }
  }

  /**
   * The second loop of the export hook: for each key read from the output
   * that names a recorded cell, marks every column the cell spans, and drops
   * the key so a repeated key is not counted twice.
   */
  method KnownColumns(cellValues: map<NodeKey, Span>, outKeys: seq<NodeKey>) returns (known: set<int>)
    ensures forall c :: c in known <==> UsedColumn(cellValues, outKeys, c)
  {
    var remaining := cellValues;
    known := {};
    var i := 0;
    while i < |outKeys|
      invariant 0 <= i <= |outKeys|
      invariant forall k :: k in remaining ==> k in cellValues && remaining[k] == cellValues[k]
      invariant forall k :: k in cellValues && k !in remaining ==> k in outKeys[..i] && k != ""
      invariant forall c :: c in known <==> UsedColumn(cellValues, outKeys[..i], c)
    {
      var key := outKeys[i];
      assert outKeys[..i + 1] == outKeys[..i] + [key];
      forall c {
        UsedColumnSnoc(cellValues, outKeys[..i], key, c);
      }
      if key != "" && key in remaining {
        var span := remaining[key];
        remaining := remaining - {key};
        ghost var before := known;
        var j := 0;
        while j < span.colSpan
          invariant 0 <= j <= span.colSpan
          invariant forall c :: c in known <==> c in before || span.startColumn <= c < span.startColumn + j
        {
          known := known + {j + span.startColumn};
          j := j + 1;
        }
      } else if key != "" && key in cellValues {
        var p :| 0 <= p < i && outKeys[p] == key;
        forall c | KeyCovers(cellValues, key, c)
          ensures UsedColumn(cellValues, outKeys[..i], c)
        {
          assert outKeys[..i][p] == key;
        }
      }
      i := i + 1;
    }
    assert outKeys[..i] == outKeys;
  }

  /** Reference definition: the indices below `n` that are in `known`, ascending. */
  function KeptIndices(n: nat, known: set<int>): (idx: seq<nat>)
    ensures |idx| <= n
    ensures forall j :: 0 <= j < |idx| ==> idx[j] < n && idx[j] in known
    ensures forall i :: 0 <= i < n && i in known ==> i in idx
    ensures forall j, j' :: 0 <= j < j' < |idx| ==> idx[j] < idx[j']
  {
    if n == 0 then [] else KeptIndices(n - 1, known) + (if n - 1 in known then [n - 1] else [])
  }

  /** `cols.filter((dom, i) => knownColumns.has(i))`. */
  method PruneCols<C>(cols: seq<C>, known: set<int>) returns (kept: seq<C>)
    ensures |kept| == |KeptIndices(|cols|, known)|
    ensures forall j :: 0 <= j < |kept| ==> kept[j] == cols[KeptIndices(|cols|, known)[j]]
  {
    kept := [];
    for i := 0 to |cols|
      invariant |kept| == |KeptIndices(i, known)|
      invariant forall j :: 0 <= j < |kept| ==> kept[j] == cols[KeptIndices(i, known)[j]]
    {
      if i in known {
        kept := kept + [cols[i]];
      }
    }
  }

  /**
   * The column pruning of the export hook end to end. `survivors` lists the
   * indices of the kept `<col>` entries: an ascending selection of the
   * original columns holding exactly the columns some exported cell covers,
   * judged by the first table-map slot of each cell.
   */
  method ExportedColumns<C>(tableMap: TableMap, outKeys: seq<NodeKey>, cols: seq<C>)
    returns (kept: seq<C>, survivors: seq<nat>)
    ensures |kept| == |survivors| <= |cols|
    ensures forall j :: 0 <= j < |survivors| ==> survivors[j] < |cols| && kept[j] == cols[survivors[j]]
    ensures forall j, j' :: 0 <= j < j' < |survivors| ==> survivors[j] < survivors[j']
    ensures forall i :: 0 <= i < |cols| ==>
              (i in survivors <==> UsedColumn(FirstSpans(Flatten(tableMap)), outKeys, i))
  {
    var cellValues := CellValues(tableMap);
    var known := KnownColumns(cellValues, outKeys);
    kept := PruneCols(cols, known);
    survivors := KeptIndices(|cols|, known);
  }
}
