/** Tables as the two callbacks see them: an ordered list of column names and
    a list of records, each record a map from column name to a cell. This is
    both the shape of a pandas DataFrame and of the `records` list a Dash
    DataTable holds; the column list doubles as the key order of the records.
    Cells are of an abstract type `V`, compared by an abstract ordering `le`
    that is only assumed to be a total preorder. */
module Tables {
  import opened Wrappers
  import opened Strings

  type Name = string
  type Row<V> = map<Name, V>

  datatype Table<V> = Table(columns: seq<Name>, rows: seq<Row<V>>)

  /** The exceptions the modelled Python code can raise. */
  datatype Exception =
    | KeyError(keys: seq<Name>)   // a column that the table does not have
    | IndexError                  // `[0]` of an empty list
    | ValueError                  // tuple unpacking of the wrong number of parts
    | Base64Error                 // `base64.b64decode` rejected its input

  /** `pd.DataFrame(data=[])`: no columns, no rows. */
  function EmptyFrame<V>(): (t: Table<V>)
    ensures WellFormed(t) && |t.rows| == 0 && t.columns == []
  {
    Table([], [])
  }

  function NameSet(cs: seq<Name>): set<Name> {
    set c | c in cs
  }

  /** Column names are distinct and every record has exactly those keys. */
  predicate WellFormed<V>(t: Table<V>) {
    NoDup(t.columns) &&
    forall i :: 0 <= i < |t.rows| ==> t.rows[i].Keys == NameSet(t.columns)
  }

  /** The entries of `sel` that are not columns, in the order selected. */
  function Missing(sel: seq<Name>, cols: seq<Name>): (r: seq<Name>)
    ensures forall c :: c in r <==> c in sel && c !in cols
  {
    if sel == [] then []
    else (if sel[0] in cols then [] else [sel[0]]) + Missing(sel[1..], cols)
  }

  /** The record cut down to the selected keys. */
  function Restrict<V>(row: Row<V>, sel: seq<Name>): Row<V>
    requires forall c :: c in sel ==> c in row
  {
    map c | c in sel :: row[c]
  }

  /** `df[sel].to_dict('records')` together with the key order of those
      records. A selected name that is not a column raises KeyError. The
      records are built by zipping the selected columns, so an empty
      selection gives no records at all, whatever the row count. */
  function Project<V>(t: Table<V>, sel: seq<Name>): (r: Result<Table<V>, Exception>)
    requires WellFormed(t)
    ensures r.Err? <==> exists c :: c in sel && c !in t.columns
    ensures r.Err? ==> r.error == KeyError(Missing(sel, t.columns))
    ensures r.Ok? ==> r.value.columns == Dedup(sel) && WellFormed(r.value)
    ensures r.Ok? ==> |r.value.rows| == if sel == [] then 0 else |t.rows|
    ensures r.Ok? ==> forall i :: 0 <= i < |r.value.rows| ==>
              r.value.rows[i].Keys == NameSet(sel) &&
              forall c :: c in sel ==> r.value.rows[i][c] == t.rows[i][c]
  {
    var missing := Missing(sel, t.columns);
    if missing != [] then
      assert missing[0] in missing;
      Err(KeyError(missing))
    else
      var rows := if sel == [] then []
                  else seq(|t.rows|, i requires 0 <= i < |t.rows| => Restrict(t.rows[i], sel));
      assert NameSet(Dedup(sel)) == NameSet(sel);
      Ok(Table(Dedup(sel), rows))
  }

  /** Selecting every column of a table, in its own order, gives the table
      back (a table with rows needs at least one column for that). */
  lemma ProjectAllColumns<V>(t: Table<V>)
    requires WellFormed(t) && (|t.columns| > 0 || |t.rows| == 0)
    ensures Project(t, t.columns) == Ok(t)
  {
    DedupOfNoDup(t.columns);
    var r := Project(t, t.columns);
    assert r.Ok?;
    forall i | 0 <= i < |t.rows| ensures r.value.rows[i] == t.rows[i] {
      assert r.value.rows[i].Keys == t.rows[i].Keys;
    }
    assert r.value.rows == t.rows;
  }

  // ---------------------------------------------------------------------
  // Sorting records by one column

  /** The comparison on cells is total and transitive; ties are allowed. */
  ghost predicate TotalPreorder<V(!new)>(le: (V, V) -> bool) {
    (forall x, y :: le(x, y) || le(y, x)) &&
    (forall x, y, z :: le(x, y) && le(y, z) ==> le(x, z))
  }

  /** The reversed comparison, used for a descending sort. */
  function Reversed<V>(le: (V, V) -> bool): (V, V) -> bool {
    (x, y) => le(y, x)
  }

  lemma ReversedIsTotalPreorder<V(!new)>(le: (V, V) -> bool)
    requires TotalPreorder(le)
    ensures TotalPreorder(Reversed(le))
  {
  }

  predicate HasKey<V>(rows: seq<Row<V>>, k: Name) {
    forall i :: 0 <= i < |rows| ==> k in rows[i]
  }

  ghost predicate SortedOn<V>(le: (V, V) -> bool, k: Name, rows: seq<Row<V>>)
    requires HasKey(rows, k)
  {
    forall i, j :: 0 <= i < j < |rows| ==> le(rows[i][k], rows[j][k])
  }

  /** Inserts one record into rows that are already ordered on `k`. */
  function Insert<V(==,!new)>(le: (V, V) -> bool, k: Name, x: Row<V>, rows: seq<Row<V>>): (r: seq<Row<V>>)
    requires TotalPreorder(le)
    requires k in x && HasKey(rows, k) && SortedOn(le, k, rows)
    ensures multiset(r) == multiset(rows) + multiset{x}
    ensures HasKey(r, k) && SortedOn(le, k, r)
  {
    if rows == [] then [x]
    else if le(x[k], rows[0][k]) then [x] + rows
    else
      var tail := Insert(le, k, x, rows[1..]);
      assert rows == [rows[0]] + rows[1..];
      assert forall j :: 0 <= j < |tail| ==> le(rows[0][k], tail[j][k]) by {
        forall j | 0 <= j < |tail| ensures le(rows[0][k], tail[j][k]) {
          assert tail[j] in multiset(tail);
          if tail[j] != x {
            assert tail[j] in multiset(rows[1..]);
            var m :| 0 <= m < |rows[1..]| && rows[1..][m] == tail[j];
            assert rows[m + 1] == tail[j];
          }
        }
      }
      [rows[0]] + tail
  }

  /** The records ordered on `k`; a permutation of the input. Which of two
      records with equal keys comes first is not part of the contract. */
  function SortRows<V(==,!new)>(le: (V, V) -> bool, k: Name, rows: seq<Row<V>>): (r: seq<Row<V>>)
    requires TotalPreorder(le) && HasKey(rows, k)
    ensures multiset(r) == multiset(rows)
    ensures HasKey(r, k) && SortedOn(le, k, r)
  {
    if rows == [] then []
    else
      assert rows == [rows[0]] + rows[1..];
      Insert(le, k, rows[0], SortRows(le, k, rows[1..]))
  }

  /** One entry of a DataTable's `sort_by` list. */
  datatype SortSpec = SortSpec(columnId: Name, direction: string)

  /** Records that are a permutation of well-formed records are well-formed. */
  lemma PermutationWellFormed<V>(cols: seq<Name>, rows: seq<Row<V>>, perm: seq<Row<V>>)
    requires WellFormed(Table(cols, rows))
    requires multiset(perm) == multiset(rows)
    ensures WellFormed(Table(cols, perm))
  {
    forall i | 0 <= i < |perm| ensures perm[i].Keys == NameSet(cols) {
      assert perm[i] in multiset(rows);
      var j :| 0 <= j < |rows| && rows[j] == perm[i];
    }
  }

  /** `pd.DataFrame.from_records(view).sort_values(by=spec.columnId,
      ascending=spec.direction == 'asc').to_dict('records')`. */
  function SortView<V(==,!new)>(le: (V, V) -> bool, view: Table<V>, spec: SortSpec): (r: Result<Table<V>, Exception>)
    requires TotalPreorder(le) && WellFormed(view)
    ensures r.Err? <==> spec.columnId !in view.columns
    ensures r.Err? ==> r.error == KeyError([spec.columnId])
    ensures r.Ok? ==> r.value.columns == view.columns && WellFormed(r.value)
    ensures r.Ok? ==> multiset(r.value.rows) == multiset(view.rows)
    ensures r.Ok? && spec.direction == "asc" ==>
              forall i, j :: 0 <= i < j < |r.value.rows| ==>
                le(r.value.rows[i][spec.columnId], r.value.rows[j][spec.columnId])
    ensures r.Ok? && spec.direction != "asc" ==>
              forall i, j :: 0 <= i < j < |r.value.rows| ==>
                le(r.value.rows[j][spec.columnId], r.value.rows[i][spec.columnId])
  {
    var k := spec.columnId;
    if k !in view.columns then Err(KeyError([k]))
    else
      assert HasKey(view.rows, k);
      ReversedIsTotalPreorder(le);
      var order := if spec.direction == "asc" then le else Reversed(le);
      var rows := SortRows(order, k, view.rows);
      PermutationWellFormed(view.columns, view.rows, rows);
      Ok(Table(view.columns, rows))
  }
}
