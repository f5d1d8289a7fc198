/** The `gen_csvtable` callback: from the stored source table, the list of
    triggered properties, the column selection, the rows currently shown and
    the DataTable's `sort_by`, it decides which of four things this update
    cycle does (project the source, sort the shown rows, hand them back, or
    show nothing) and produces the new rows, the summary text and the column
    descriptions. */
module ViewEngine {
  import opened Wrappers
  import opened Strings
  import opened Tables

  /** One entry of the DataTable's `columns` property. */
  datatype ColumnSpec = ColumnSpec(name: Name, id: Name)

  /** `[{"name": i, "id": i} for i in names]` */
  function ColumnSpecs(names: seq<Name>): (r: seq<ColumnSpec>)
    ensures |r| == |names|
    ensures forall i :: 0 <= i < |names| ==> r[i].name == names[i] && r[i].id == names[i]
  {
    if names == [] then [] else [ColumnSpec(names[0], names[0])] + ColumnSpecs(names[1..])
  }

  /** The callback's three outputs: the table's `data` (with its key order),
      the text of `displaycols`, and the table's `columns`. */
  datatype Rendered<V> = Rendered(data: Table<V>, summary: string, columns: seq<ColumnSpec>)

  datatype Action = Submit | Sort | Passthrough | Clear

  const SubmitSuffix: string := "n_clicks"
  const SortSuffix: string := "sort_by"

  /** A property id cannot end in both trigger suffixes. */
  lemma SuffixesExclusive(p: string)
    ensures !(EndsWith(p, SubmitSuffix) && EndsWith(p, SortSuffix))
  {
    if |p| >= |SubmitSuffix| {
      assert p[|p| - |SubmitSuffix|..][|SubmitSuffix| - 1] == p[|p| - 1]
          == p[|p| - |SortSuffix|..][|SortSuffix| - 1];
    }
  }

  /** The if/elif chain of the callback, with Python's left-to-right,
      short-circuit evaluation: `triggered[0]` is only looked at once the
      row count before it is non-zero, and raises IndexError on an empty list. */
  function Resolve(sourceRows: nat, viewRows: nat, triggered: seq<string>): (r: Result<Action, Exception>)
    ensures r.Err? ==> r.error == IndexError && |triggered| == 0
    ensures r == Ok(Submit) ==> sourceRows > 0
    ensures r == Ok(Sort) || r == Ok(Passthrough) ==> viewRows > 0
  {
    if sourceRows > 0 && |triggered| == 0 then Err(IndexError)
    else if sourceRows > 0 && EndsWith(triggered[0], SubmitSuffix) then Ok(Submit)
    else if viewRows > 0 && |triggered| == 0 then Err(IndexError)
    else if viewRows > 0 && EndsWith(triggered[0], SortSuffix) then Ok(Sort)
    else if viewRows > 0 then Ok(Passthrough)
    else Ok(Clear)
  }

  /** When each action is chosen. The sort condition needs no "and not a
      submit" conjunct, because no property id ends in both suffixes. */
  lemma ResolveCases(sourceRows: nat, viewRows: nat, triggered: seq<string>)
    ensures var r := Resolve(sourceRows, viewRows, triggered);
      && (r == Ok(Submit) <==>
            sourceRows > 0 && |triggered| > 0 && EndsWith(triggered[0], SubmitSuffix))
      && (r == Ok(Sort) <==>
            viewRows > 0 && |triggered| > 0 && EndsWith(triggered[0], SortSuffix))
      && (r == Ok(Passthrough) <==>
            viewRows > 0 && |triggered| > 0 && !EndsWith(triggered[0], SortSuffix) &&
            !(sourceRows > 0 && EndsWith(triggered[0], SubmitSuffix)))
      && (r == Ok(Clear) <==>
            viewRows == 0 && (sourceRows == 0 || (|triggered| > 0 && !EndsWith(triggered[0], SubmitSuffix))))
      && (r.Err? <==> |triggered| == 0 && (sourceRows > 0 || viewRows > 0))
      && (r.Err? ==> r.error == IndexError)
  {
    if |triggered| > 0 {
      SuffixesExclusive(triggered[0]);
    }
  }

  /** The whole callback. `source` is the table held by the store, `le` the
      order on cells used by `sort_values`. */
  function GenCsvTable<V(==,!new)>(le: (V, V) -> bool, source: Table<V>, triggered: seq<string>,
                                   confirmcols: seq<Name>, csvchart: Table<V>, sortBy: seq<SortSpec>)
    : (r: Result<Rendered<V>, Exception>)
    requires TotalPreorder(le) && WellFormed(source) && WellFormed(csvchart)
    ensures r.Ok? ==> WellFormed(r.value.data)
    ensures r.Ok? ==> r.value.summary == Join(", ", confirmcols)
  {
    var summary := Join(", ", confirmcols);
    match Resolve(|source.rows|, |csvchart.rows|, triggered)
    case Err(e) => Err(e)
    case Ok(Submit) =>
      (match Project(source, confirmcols)
       case Err(e) => Err(e)
       case Ok(t) => Ok(Rendered(t, summary, ColumnSpecs(confirmcols))))
    case Ok(Sort) =>
      if |sortBy| == 0 then Err(IndexError)
      else
        (match SortView(le, csvchart, sortBy[0])
         case Err(e) => Err(e)
         case Ok(t) => Ok(Rendered(t, summary, ColumnSpecs(t.columns))))
    case Ok(Passthrough) => Ok(Rendered(csvchart, summary, ColumnSpecs(csvchart.columns)))
    case Ok(Clear) => Ok(Rendered(EmptyFrame(), summary, []))
  }

  /** Submit: the source is projected onto the selection, one record per
      source row in source order (none at all for an empty selection); the shown rows and any sort directive are
      ignored in that cycle. */
  lemma SubmitBranch<V(!new)>(le: (V, V) -> bool, source: Table<V>, triggered: seq<string>,
                                 confirmcols: seq<Name>, csvchart: Table<V>, sortBy: seq<SortSpec>,
                                 otherChart: Table<V>, otherSortBy: seq<SortSpec>)
    requires TotalPreorder(le) && WellFormed(source) && WellFormed(csvchart) && WellFormed(otherChart)
    requires |source.rows| > 0 && |triggered| > 0 && EndsWith(triggered[0], SubmitSuffix)
    ensures GenCsvTable(le, source, triggered, confirmcols, csvchart, sortBy)
         == GenCsvTable(le, source, triggered, confirmcols, otherChart, otherSortBy)
    ensures var r := GenCsvTable(le, source, triggered, confirmcols, csvchart, sortBy);
            && ((exists c :: c in confirmcols && c !in source.columns) ==>
                  r == Err(KeyError(Missing(confirmcols, source.columns))))
            && ((forall c :: c in confirmcols ==> c in source.columns) ==>
                  && r.Ok?
                  && |r.value.data.rows| == (if confirmcols == [] then 0 else |source.rows|)
                  && r.value.data.columns == Dedup(confirmcols)
                  && r.value.columns == ColumnSpecs(confirmcols)
                  && (forall i :: 0 <= i < |r.value.data.rows| ==>
                        r.value.data.rows[i].Keys == NameSet(confirmcols) &&
                        forall c :: c in confirmcols ==> r.value.data.rows[i][c] == source.rows[i][c]))
  {
    ResolveCases(|source.rows|, |csvchart.rows|, triggered);
    ResolveCases(|source.rows|, |otherChart.rows|, triggered);
  }

  /** Submitting every column of the source, in its order, shows the source itself. */
  lemma SubmitAllColumns<V(!new)>(le: (V, V) -> bool, source: Table<V>, triggered: seq<string>,
                                     csvchart: Table<V>, sortBy: seq<SortSpec>)
    requires TotalPreorder(le) && WellFormed(source) && WellFormed(csvchart) && |source.columns| > 0
    requires |source.rows| > 0 && |triggered| > 0 && EndsWith(triggered[0], SubmitSuffix)
    ensures GenCsvTable(le, source, triggered, source.columns, csvchart, sortBy)
         == Ok(Rendered(source, Join(", ", source.columns), ColumnSpecs(source.columns)))
  {
    ResolveCases(|source.rows|, |csvchart.rows|, triggered);
    ProjectAllColumns(source);
  }

  /** Sort: the shown rows (not the source) come back reordered on
      `sortBy[0].columnId`, ascending exactly when the direction is "asc";
      the column list is the shown one. */
  lemma SortBranch<V(!new)>(le: (V, V) -> bool, source: Table<V>, triggered: seq<string>,
                               confirmcols: seq<Name>, csvchart: Table<V>, sortBy: seq<SortSpec>)
    requires TotalPreorder(le) && WellFormed(source) && WellFormed(csvchart)
    requires |csvchart.rows| > 0 && |triggered| > 0 && EndsWith(triggered[0], SortSuffix)
    ensures var r := GenCsvTable(le, source, triggered, confirmcols, csvchart, sortBy);
            && (|sortBy| == 0 ==> r == Err(IndexError))
            && (|sortBy| > 0 && sortBy[0].columnId !in csvchart.columns ==>
                  r == Err(KeyError([sortBy[0].columnId])))
            && (|sortBy| > 0 && sortBy[0].columnId in csvchart.columns ==>
                  var k := sortBy[0].columnId;
                  && r.Ok?
                  && r.value.data.columns == csvchart.columns
                  && r.value.columns == ColumnSpecs(csvchart.columns)
                  && multiset(r.value.data.rows) == multiset(csvchart.rows)
                  && (sortBy[0].direction == "asc" ==>
                        forall i, j :: 0 <= i < j < |r.value.data.rows| ==>
                          le(r.value.data.rows[i][k], r.value.data.rows[j][k]))
                  && (sortBy[0].direction != "asc" ==>
                        forall i, j :: 0 <= i < j < |r.value.data.rows| ==>
                          le(r.value.data.rows[j][k], r.value.data.rows[i][k])))
    ensures |sortBy| > 0 ==>
              (GenCsvTable(le, source, triggered, confirmcols, csvchart, sortBy)
               == GenCsvTable(le, source, triggered, confirmcols, csvchart, [sortBy[0]]))
  {
    ResolveCases(|source.rows|, |csvchart.rows|, triggered);
  }

  /** Passthrough: shown rows with no submit and no sort trigger come back unchanged. */
  lemma PassthroughBranch<V(!new)>(le: (V, V) -> bool, source: Table<V>, triggered: seq<string>,
                                      confirmcols: seq<Name>, csvchart: Table<V>, sortBy: seq<SortSpec>)
    requires TotalPreorder(le) && WellFormed(source) && WellFormed(csvchart)
    requires |csvchart.rows| > 0 && |triggered| > 0 && !EndsWith(triggered[0], SortSuffix)
    requires !(|source.rows| > 0 && EndsWith(triggered[0], SubmitSuffix))
    ensures var r := GenCsvTable(le, source, triggered, confirmcols, csvchart, sortBy);
            r.Ok? && r.value.data == csvchart && r.value.columns == ColumnSpecs(csvchart.columns)
  {
    ResolveCases(|source.rows|, |csvchart.rows|, triggered);
  }

  /** Otherwise, with no rows shown, the table is emptied: no rows, no columns. */
  lemma ClearBranch<V(!new)>(le: (V, V) -> bool, source: Table<V>, triggered: seq<string>,
                                confirmcols: seq<Name>, csvchart: Table<V>, sortBy: seq<SortSpec>)
    requires TotalPreorder(le) && WellFormed(source) && WellFormed(csvchart)
    requires |csvchart.rows| == 0
    requires |source.rows| == 0 || (|triggered| > 0 && !EndsWith(triggered[0], SubmitSuffix))
    ensures var r := GenCsvTable(le, source, triggered, confirmcols, csvchart, sortBy);
            r.Ok? && r.value.data.rows == [] && r.value.data.columns == [] && r.value.columns == []
  {
    ResolveCases(|source.rows|, |csvchart.rows|, triggered);
  }

  /** Re-rendering: feeding a non-empty result back in, with a trigger that is
      neither a submit nor a sort, hands the same rows back. */
  lemma RerenderIsIdempotent<V(!new)>(le: (V, V) -> bool, source: Table<V>, triggered: seq<string>,
                                         confirmcols: seq<Name>, csvchart: Table<V>, sortBy: seq<SortSpec>,
                                         next: seq<string>, nextSortBy: seq<SortSpec>)
    requires TotalPreorder(le) && WellFormed(source) && WellFormed(csvchart)
    requires GenCsvTable(le, source, triggered, confirmcols, csvchart, sortBy).Ok?
    requires |GenCsvTable(le, source, triggered, confirmcols, csvchart, sortBy).value.data.rows| > 0
    requires |next| > 0 && !EndsWith(next[0], SubmitSuffix) && !EndsWith(next[0], SortSuffix)
    ensures var shown := GenCsvTable(le, source, triggered, confirmcols, csvchart, sortBy).value.data;
            var again := GenCsvTable(le, source, next, confirmcols, shown, nextSortBy);
            again.Ok? && again.value.data == shown
  {
    var shown := GenCsvTable(le, source, triggered, confirmcols, csvchart, sortBy).value.data;
    PassthroughBranch(le, source, next, confirmcols, shown, nextSortBy);
  }
}
