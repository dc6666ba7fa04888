/**
 * Tables as read from and written to CSV files, and the reconciliation of one table
 * against a reference set of sample identifiers (SSNs).
 */
module Tables {
  import opened Outcomes

  /** A cell of a table, as the text it has in the CSV file. */
  type Value = string

  type Row = seq<Value>

  /** A table: its column labels and its rows, cell k of a row belonging to column k. */
  datatype Table = Table(header: seq<string>, rows: seq<Row>)

  /** The label of the identifier column. */
  const SsnColumn: string := "SSN"

  /** Every row has one cell per column, as a table read from CSV has. */
  predicate WellFormed(t: Table) {
    forall r | r in t.rows :: |r| == |t.header|
  }

  /**
   * Reading the CSV file at path: a file that does not exist, or one written without
   * columns (which has nothing to parse), fails; any other file yields its table.
   */
  function ReadCsv(tables: map<Path, Table>, path: Path): Outcome<Table> {
    if path !in tables then Err(NotFound(path))
    else if tables[path].header == [] then Err(EmptyFile(path))
    else Ok(tables[path])
  }

  /** The elements of s that satisfy keep, in their order in s (a boolean mask applied to a table). */
  function Filter<T>(s: seq<T>, keep: T -> bool): (kept: seq<T>)
    ensures |kept| <= |s|
    ensures forall x | x in kept :: x in s && keep(x)
  {
    if s == [] then [] else (if keep(s[0]) then [s[0]] else []) + Filter(s[1..], keep)
  }

  /** sub is obtained from s by deleting elements, without reordering the others. */
  predicate IsSubsequence<T(==)>(sub: seq<T>, s: seq<T>)
    decreases |s|
  {
    sub == [] || (s != [] && ((sub[0] == s[0] && IsSubsequence(sub[1..], s[1..])) || IsSubsequence(sub, s[1..])))
  }

  /** Filtering keeps every element that satisfies the predicate. */
  lemma {:induction false} FilterKeepsAll<T>(s: seq<T>, keep: T -> bool, x: T)
    requires x in s && keep(x)
    ensures x in Filter(s, keep)
  {
    if s[0] != x {
      FilterKeepsAll(s[1..], keep, x);
    }
  }

  /** Filtering preserves the relative order of the elements it keeps. */
  lemma {:induction false} FilterIsSubsequence<T>(s: seq<T>, keep: T -> bool)
    ensures IsSubsequence(Filter(s, keep), s)
  {
    if s != [] {
      FilterIsSubsequence(s[1..], keep);
      if keep(s[0]) {
        assert Filter(s, keep) == [s[0]] + Filter(s[1..], keep);
        assert Filter(s, keep)[1..] == Filter(s[1..], keep);
      } else {
        assert Filter(s, keep) == Filter(s[1..], keep);
      }
    }
  }

  /** Filtering keeps each element that satisfies the predicate as many times as it occurs, and drops every other. */
  lemma {:induction false} FilterMultiset<T>(s: seq<T>, keep: T -> bool)
    ensures forall x :: multiset(Filter(s, keep))[x] == if keep(x) then multiset(s)[x] else 0
  {
    if s != [] {
      FilterMultiset(s[1..], keep);
      assert s == [s[0]] + s[1..];
      assert multiset(s) == multiset([s[0]]) + multiset(s[1..]);
      assert multiset(Filter(s, keep)) == multiset(if keep(s[0]) then [s[0]] else []) + multiset(Filter(s[1..], keep));
    }
  }

  /** Filtering a second time with the same predicate changes nothing. */
  lemma {:induction false} FilterIdempotent<T>(s: seq<T>, keep: T -> bool)
    ensures Filter(Filter(s, keep), keep) == Filter(s, keep)
  {
    if s != [] {
      FilterIdempotent(s[1..], keep);
      var tail := Filter(s[1..], keep);
      if keep(s[0]) {
        var once := [s[0]] + tail;
        assert Filter(s, keep) == once;
        assert once[0] == s[0] && once[1..] == tail;
        assert Filter(once, keep) == [s[0]] + Filter(tail, keep);
      } else {
        assert Filter(s, keep) == tail;
      }
    }
  }

  /** Filtering elements that all satisfy the predicate keeps every one of them, in order. */
  lemma {:induction false} FilterKeepsEvery<T>(s: seq<T>, keep: T -> bool)
    requires forall x | x in s :: keep(x)
    ensures Filter(s, keep) == s
  {
    if s != [] {
      assert forall x | x in s[1..] :: x in s;
      FilterKeepsEvery(s[1..], keep);
      assert s == [s[0]] + s[1..];
    }
  }

  /** The label a column gets under a renaming: its image if it has one, itself otherwise. */
  function Relabel(column: string, renamings: map<string, string>): string {
    if column in renamings then renamings[column] else column
  }

  /** The header after renaming columns; labels the renaming does not mention stay as they are. */
  function Rename(header: seq<string>, renamings: map<string, string>): (renamed: seq<string>)
    ensures |renamed| == |header|
    ensures forall i | 0 <= i < |header| && header[i] in renamings :: renamed[i] == renamings[header[i]]
    ensures forall i | 0 <= i < |header| && header[i] !in renamings :: renamed[i] == header[i]
  {
    if header == [] then [] else [Relabel(header[0], renamings)] + Rename(header[1..], renamings)
  }

  /** The default empty renaming leaves the header as it is. */
  lemma NoRenaming(header: seq<string>)
    ensures Rename(header, map[]) == header
  {
  }

  /** The position of the first column with the given label, or |header| when there is none. */
  function FirstIndex(header: seq<string>, column: string): (i: nat)
    ensures i <= |header|
    ensures i < |header| ==> header[i] == column
    ensures forall j | 0 <= j < i :: header[j] != column
  {
    if header == [] then 0 else if header[0] == column then 0 else 1 + FirstIndex(header[1..], column)
  }

  /** Looking up a column by label: the position of the one column carrying it, or the error. */
  function ColumnIndex(header: seq<string>, column: string): (r: Outcome<nat>)
    ensures r.Ok? ==> r.value < |header| && header[r.value] == column
    ensures r.Ok? ==> forall j | 0 <= j < |header| && j != r.value :: header[j] != column
    ensures r == Err(MissingColumn(column)) <==> column !in header
    ensures r.Err? ==> r.error == MissingColumn(column) || r.error == DuplicateColumn(column)
    ensures r.Ok? <==> column in header && forall i, j | 0 <= i < j < |header| && header[i] == column :: header[j] != column
  {
    var i := FirstIndex(header, column);
    if i == |header| then Err(MissingColumn(column))
    else if column in header[i + 1..] then Err(DuplicateColumn(column))
    else Ok(i)
  }

  /** The set of values of column k over the rows (the set of a column). */
  function ColumnValues(rows: seq<Row>, k: nat): set<Value> {
    set r | r in rows && k < |r| :: r[k]
  }

  /** The identifiers a table holds, or the error of looking up its identifier column. */
  function SsnsOf(t: Table): (r: Outcome<set<Value>>)
    ensures r.Ok? <==> ColumnIndex(t.header, SsnColumn).Ok?
    ensures r.Err? ==> r.error == ColumnIndex(t.header, SsnColumn).error
  {
    match ColumnIndex(t.header, SsnColumn)
    case Err(e) => Err(e)
    case Ok(k) => Ok(ColumnValues(t.rows, k))
  }

  /** The identifiers of a table are exactly the values in its identifier column, row by row. */
  lemma SsnsOfRows(t: Table, v: Value)
    requires SsnsOf(t).Ok?
    ensures var k := ColumnIndex(t.header, SsnColumn).value;
      v in SsnsOf(t).value <==> exists row | row in t.rows :: k < |row| && row[k] == v
  {
  }

  /** The mask of prep_csv: the row's identifier, in column k, is one of ids. */
  function HasSsnIn(k: nat, ids: set<Value>): Row -> bool {
    r => k < |r| && r[k] in ids
  }

  /** What a CSV file without columns holds. */
  const NoColumns: Table := Table([], [])

  /**
   * The table prep_csv writes: the rows whose identifier is in opus, under the table's
   * header. On a table without rows, apply yields an empty mask of objects, which pandas takes
   * for a list of column labels rather than for a mask, so the file written has no columns.
   * The table must have an identifier column.
   */
  function KeptRows(t: Table, opus: set<Value>): (kept: Table)
    requires ColumnIndex(t.header, SsnColumn).Ok?
    ensures t.rows == [] ==> kept == NoColumns
    ensures t.rows != [] ==> kept.header == t.header && |kept.rows| <= |t.rows|
    ensures t.rows != [] ==> SsnsOf(kept) == Ok(SsnsOf(t).value * opus)
  {
    var k := ColumnIndex(t.header, SsnColumn).value;
    KeptValues(t.rows, k, opus);
    if t.rows == [] then NoColumns else Table(t.header, Filter(t.rows, HasSsnIn(k, opus)))
  }

  /**
   * Keeping the rows whose identifier is in opus a second time keeps them all when some row
   * was kept; a table that kept none loses its columns the second time.
   */
  lemma KeptRowsIdempotent(t: Table, opus: set<Value>)
    requires ColumnIndex(t.header, SsnColumn).Ok?
    ensures t.rows != [] ==> ColumnIndex(KeptRows(t, opus).header, SsnColumn).Ok?
    ensures KeptRows(t, opus).rows != [] ==> KeptRows(KeptRows(t, opus), opus) == KeptRows(t, opus)
    ensures t.rows != [] && KeptRows(t, opus).rows == [] ==> KeptRows(KeptRows(t, opus), opus) == NoColumns
  {
    FilterIdempotent(t.rows, HasSsnIn(ColumnIndex(t.header, SsnColumn).value, opus));
  }

  /**
   * prep_csv on a table: rename the columns, look up the identifier column, write what
   * KeptRows keeps of the renamed table and give back the identifiers the renamed table held
   * before any row was dropped.
   */
  function Reconciled(t: Table, opus: set<Value>, renamings: map<string, string>): (r: Outcome<(Table, set<Value>)>)
    ensures r.Ok? <==> ColumnIndex(Rename(t.header, renamings), SsnColumn).Ok?
    ensures r.Err? ==> r.error == ColumnIndex(Rename(t.header, renamings), SsnColumn).error
    ensures r.Ok? && t.rows != [] ==> r.value.0.header == Rename(t.header, renamings) && |r.value.0.rows| <= |t.rows|
    ensures r.Ok? && t.rows == [] ==> r.value == (NoColumns, {})
  {
    var header := Rename(t.header, renamings);
    match ColumnIndex(header, SsnColumn)
    case Err(e) => Err(e)
    case Ok(k) =>
      assert t.rows == [] ==> ColumnValues(t.rows, k) == {} && KeptRows(Table(header, t.rows), opus) == NoColumns;
      Ok((KeptRows(Table(header, t.rows), opus), ColumnValues(t.rows, k)))
  }

  /** The identifiers left after keeping the rows whose identifier is in ids are the old ones that are in ids. */
  lemma KeptValues(rows: seq<Row>, k: nat, ids: set<Value>)
    ensures ColumnValues(Filter(rows, HasSsnIn(k, ids)), k) == ColumnValues(rows, k) * ids
  {
    var kept := Filter(rows, HasSsnIn(k, ids));
    forall v | v in ColumnValues(rows, k) * ids
      ensures v in ColumnValues(kept, k)
    {
      var r :| r in rows && k < |r| && r[k] == v;
      FilterKeepsAll(rows, HasSsnIn(k, ids), r);
    }
  }

  /**
   * What prep_csv writes and returns. The written table has exactly the rows whose
   * identifier is in opus, in their original order and each as often as in the table read;
   * under the renamed header when the table read has rows, and with no columns when it has
   * none. The returned set holds every identifier of the table before filtering, and a
   * written table with columns holds exactly those of them in opus. It fails exactly when the
   * renamed header lacks the identifier column or carries it twice.
   */
  lemma ReconciledSpec(t: Table, opus: set<Value>, renamings: map<string, string>)
    ensures var header := Rename(t.header, renamings);
      Reconciled(t, opus, renamings).Err? <==> ColumnIndex(header, SsnColumn).Err?
    ensures Reconciled(t, opus, renamings).Err? ==>
      Reconciled(t, opus, renamings).error == ColumnIndex(Rename(t.header, renamings), SsnColumn).error
    ensures Reconciled(t, opus, renamings).Ok? ==>
      var (written, ssns) := Reconciled(t, opus, renamings).value;
      var k := ColumnIndex(Rename(t.header, renamings), SsnColumn).value;
      && (t.rows == [] ==> written == NoColumns && ssns == {})
      && (t.rows != [] ==> written.header == Rename(t.header, renamings))
      && IsSubsequence(written.rows, t.rows)
      && (WellFormed(t) ==> WellFormed(written))
      && (forall r | r in t.rows && k < |r| :: r in written.rows <==> r[k] in opus)
      && (forall r :: multiset(written.rows)[r] == if k < |r| && r[k] in opus then multiset(t.rows)[r] else 0)
      && SsnsOf(Table(Rename(t.header, renamings), t.rows)) == Ok(ssns)
      && (t.rows != [] ==> SsnsOf(written) == Ok(ssns * opus))
  {
    var header := Rename(t.header, renamings);
    if ColumnIndex(header, SsnColumn).Ok? && t.rows != [] {
      var k := ColumnIndex(header, SsnColumn).value;
      FilterIsSubsequence(t.rows, HasSsnIn(k, opus));
      FilterMultiset(t.rows, HasSsnIn(k, opus));
      forall r | r in t.rows && k < |r| && r[k] in opus
        ensures r in Filter(t.rows, HasSsnIn(k, opus))
      {
        FilterKeepsAll(t.rows, HasSsnIn(k, opus), r);
      }
    }
  }

  /**
   * With no renaming, reconciling the written table again against the same set writes it
   * unchanged when it kept a row. A table that kept no row is written again without columns,
   * and one read without rows, written without columns, cannot be reconciled again.
   */
  lemma ReconciledIdempotent(t: Table, opus: set<Value>)
    requires Reconciled(t, opus, map[]).Ok?
    ensures var written := Reconciled(t, opus, map[]).value.0;
      && (Reconciled(written, opus, map[]).Ok? <==> t.rows != [])
      && (written.rows != [] ==> Reconciled(written, opus, map[]).value.0 == written)
      && (t.rows != [] && written.rows == [] ==> Reconciled(written, opus, map[]).value.0 == NoColumns)
  {
    NoRenaming(t.header);
    assert Table(t.header, t.rows) == t;
    var written := Reconciled(t, opus, map[]).value.0;
    NoRenaming(written.header);
    assert Table(written.header, written.rows) == written;
    KeptRowsIdempotent(t, opus);
  }

  /**
   * Whether presence in a table is judged on its identifiers before or after filtering
   * against opus, the identifiers of opus it leaves out are the same.
   */
  lemma PreOrPostFilterSameMissing(rows: seq<Row>, k: nat, opus: set<Value>)
    ensures opus - ColumnValues(Filter(rows, HasSsnIn(k, opus)), k) == opus - ColumnValues(rows, k)
  {
    KeptValues(rows, k, opus);
  }

  /** A table keyed by "ICRAF ID" and renamed to "SSN" keeps only its referenced row, but reports both identifiers. */
  lemma RenamedTableExample()
    ensures Reconciled(Table(["ICRAF ID"], [["A1"], ["B2"]]), {"A1"}, map["ICRAF ID" := "SSN"])
         == Ok((Table(["SSN"], [["A1"]]), {"A1", "B2"}))
  {
    var t := Table(["ICRAF ID"], [["A1"], ["B2"]]);
    var header := Rename(t.header, map["ICRAF ID" := "SSN"]);
    assert header == ["SSN"];
    assert ColumnIndex(header, SsnColumn) == Ok(0);
    ExampleRowsKept(t.rows);
    ExampleValues(t.rows);
  }

  /** The rows of RenamedTableExample that the mask keeps. */
  lemma ExampleRowsKept(rows: seq<Row>)
    requires rows == [["A1"], ["B2"]]
    ensures Filter(rows, HasSsnIn(0, {"A1"})) == [["A1"]]
  {
    var keep := HasSsnIn(0, {"A1"});
    assert keep(["B2"]) == false;
    assert Filter(rows[1..], keep) == [];
  }

  /** The identifiers of the rows of RenamedTableExample. */
  lemma ExampleValues(rows: seq<Row>)
    requires rows == [["A1"], ["B2"]]
    ensures ColumnValues(rows, 0) == {"A1", "B2"}
  {
    assert rows[0][0] == "A1" && rows[1][0] == "B2";
  }

}
