/**
 * The cleaning pipeline over a dataset held in memory: its file tree and its tables, each
 * stage a method that changes them in place as the script changes the files on disk.
 */
module Cleaning {
  import opened Outcomes
  import opened Tree
  import opened Tables
  import opened Geo

  const GeorefsPath: Path := ["Georeferences", "georeferences.csv"]

  const ChemistryPaths: seq<Path> := [
    ["Wet_Chemistry", "CROPNUTS", "Wet_Chemistry_CROPNUTS.csv"],
    ["Wet_Chemistry", "ICRAF", "Wet_Chemistry_ICRAF.csv"],
    ["Wet_Chemistry", "RRES", "Wet_Chemistry_RRES.csv"]
  ]

  /** The tables reconciled against the spectra, in the order they are processed. */
  const Paths: seq<Path> := [GeorefsPath] + ChemistryPaths


  /** Every table of the list. */
  const AllTables: set<Path> := set p | p in Paths

  /** The chemistry tables of the list. */
  const ChemistryTables: set<Path> := set p | p in ChemistryPaths

  /** The identifiers the table at p holds in m, when p is counted and the table has an identifier column. */
  function Returned(m: map<Path, Table>, p: Path, counted: set<Path>): set<Value> {
    if p in counted && p in m && SsnsOf(m[p]).Ok? then SsnsOf(m[p]).value else {}
  }

  /** The union of the identifiers returned by the first n tables of ps: it holds what each of them returns. */
  function Accumulated(m: map<Path, Table>, ps: seq<Path>, n: nat, counted: set<Path>): (acc: set<Value>)
    requires n <= |ps|
    ensures forall i | 0 <= i < n :: Returned(m, ps[i], counted) <= acc
  {
    if n == 0 then {} else Accumulated(m, ps, n - 1, counted) + Returned(m, ps[n - 1], counted)
  }

  /** One more table adds the identifiers it returns, if it is counted: the union only grows. */
  lemma AccumulatedStep(m: map<Path, Table>, ps: seq<Path>, i: nat, counted: set<Path>, returned: set<Value>)
    requires i < |ps| && ps[i] in m && SsnsOf(m[ps[i]]) == Ok(returned)
    ensures Accumulated(m, ps, i + 1, counted) == Accumulated(m, ps, i, counted) + (if ps[i] in counted then returned else {})
  {
  }

  /** The union over a longer prefix holds the union over a shorter one. */
  lemma {:induction false} AccumulatedGrows(m: map<Path, Table>, ps: seq<Path>, k: nat, n: nat, counted: set<Path>)
    requires k <= n <= |ps|
    ensures Accumulated(m, ps, k, counted) <= Accumulated(m, ps, n, counted)
  {
    if k < n {
      AccumulatedGrows(m, ps, k, n - 1, counted);
    }
  }

  /** Every identifier of the union was returned by one of the first n tables. */
  lemma {:induction false} AccumulatedFrom(m: map<Path, Table>, ps: seq<Path>, n: nat, counted: set<Path>, v: Value)
    requires n <= |ps| && v in Accumulated(m, ps, n, counted)
    ensures exists i | 0 <= i < n :: v in Returned(m, ps[i], counted)
  {
    if v !in Returned(m, ps[n - 1], counted) {
      AccumulatedFrom(m, ps, n - 1, counted, v);
    }
  }

  /** The union depends only on the tables at the listed paths. */
  lemma {:induction false} AccumulatedAgree(m: map<Path, Table>, m': map<Path, Table>, ps: seq<Path>, n: nat, counted: set<Path>)
    requires n <= |ps|
    requires forall p | p in ps :: (p in m <==> p in m') && (p in m ==> m[p] == m'[p])
    ensures Accumulated(m, ps, n, counted) == Accumulated(m', ps, n, counted)
  {
    if n > 0 {
      AccumulatedAgree(m, m', ps, n - 1, counted);
    }
  }

  /** The table at p, reconciled against opus without renaming: before it has an identifier column, after it holds the rows whose identifier is in opus. */
  ghost predicate ReconciledAt(before: map<Path, Table>, after: map<Path, Table>, p: Path, opus: set<Value>) {
    && p in before && p in after
    && ColumnIndex(before[p].header, SsnColumn).Ok?
    && after[p] == KeptRows(before[p], opus)
  }

  /**
   * The tables after the list is reconciled against opus: every table of the list is
   * ReconciledAt, and every table outside it is as it was.
   */
  ghost predicate ListReconciled(before: map<Path, Table>, after: map<Path, Table>, opus: set<Value>) {
    && (forall p | p in Paths :: ReconciledAt(before, after, p, opus))
    && (forall p | p in after && p !in Paths :: p in before && after[p] == before[p])
  }

  /**
   * The tables after the loop over paths stopped at an error: every table is as it was or,
   * being on the list, reconciled against opus.
   */
  ghost predicate PartlyReconciled(before: map<Path, Table>, after: map<Path, Table>, paths: seq<Path>, opus: set<Value>) {
    && after.Keys == before.Keys
    && forall p | p in after :: p in before && (after[p] == before[p] || (p in paths && ReconciledAt(before, after, p, opus)))
  }

  /** Without renaming, a table can be reconciled exactly when it has an identifier column; it then writes KeptRows and returns its identifiers. */
  lemma ReconciledWithoutRenaming(t: Table, opus: set<Value>)
    ensures Reconciled(t, opus, map[]).Ok? <==> SsnsOf(t).Ok?
    ensures Reconciled(t, opus, map[]).Ok? ==>
      && Reconciled(t, opus, map[]).value.0 == KeptRows(t, opus)
      && Reconciled(t, opus, map[]).value.1 == SsnsOf(t).value
  {
    NoRenaming(t.header);
    assert Table(t.header, t.rows) == t;
  }

  /** A table the loop wrote: one without columns, or one whose identifiers are all in ids. */
  ghost predicate HoldsOnly(t: Table, ids: set<Value>) {
    t == NoColumns || (SsnsOf(t).Ok? && SsnsOf(t).value <= ids)
  }

  /** A reconciled table returns, judged after filtering, the identifiers it returned before that are in opus. */
  lemma ReturnedKept(before: map<Path, Table>, after: map<Path, Table>, p: Path, opus: set<Value>, counted: set<Path>)
    requires ReconciledAt(before, after, p, opus)
    ensures Returned(after, p, counted) == Returned(before, p, counted) * opus
  {
    ReconciledWithoutRenaming(before[p], opus);
  }

  /**
   * Whether the loop unions the identifiers each table held before filtering, as prep_csv
   * returns them, or those left after it, the same identifiers of opus are missing from the
   * union, so the last pruning deletes the same spectra.
   */
  lemma AccumulatedPreOrPostFilter(before: map<Path, Table>, after: map<Path, Table>, ps: seq<Path>, n: nat,
                                   opus: set<Value>, counted: set<Path>)
    requires n <= |ps|
    requires forall p | p in ps :: ReconciledAt(before, after, p, opus)
    ensures forall v | v in opus :: v in Accumulated(after, ps, n, counted) <==> v in Accumulated(before, ps, n, counted)
    ensures opus - Accumulated(after, ps, n, counted) == opus - Accumulated(before, ps, n, counted)
  {
    forall v | v in opus
      ensures v in Accumulated(after, ps, n, counted) <==> v in Accumulated(before, ps, n, counted)
    {
      if v in Accumulated(after, ps, n, counted) {
        AccumulatedFrom(after, ps, n, counted, v);
        var i :| 0 <= i < n && v in Returned(after, ps[i], counted);
        ReturnedKept(before, after, ps[i], opus, counted);
        assert v in Returned(before, ps[i], counted);
      }
      if v in Accumulated(before, ps, n, counted) {
        AccumulatedFrom(before, ps, n, counted, v);
        var i :| 0 <= i < n && v in Returned(before, ps[i], counted);
        ReturnedKept(before, after, ps[i], opus, counted);
        assert v in Returned(after, ps[i], counted);
      }
    }
  }

  /** One turn of the loop over the tables: reconciling the table at paths[i] leaves the tables not yet done as they were. */
  lemma PrepFrame(orig: map<Path, Table>, before: map<Path, Table>, after: map<Path, Table>, paths: seq<Path>, i: nat, opus: set<Value>)
    requires i < |paths|
    requires before.Keys == orig.Keys
    requires forall p | p in before && p !in paths[..i] :: before[p] == orig[p]
    requires paths[i] in before && ColumnIndex(before[paths[i]].header, SsnColumn).Ok?
    requires after == before[paths[i] := KeptRows(before[paths[i]], opus)]
    ensures after.Keys == orig.Keys
    ensures forall p | p in after && p !in paths[..i + 1] :: after[p] == orig[p]
  {
    forall p | p in after && p !in paths[..i + 1]
      ensures after[p] == orig[p]
    {
      assert paths[i] == paths[..i + 1][i];
    }
  }

  /** One turn of the loop over the tables: reconciling the table at paths[i] keeps the tables already done reconciled. */
  lemma PrepStep(orig: map<Path, Table>, before: map<Path, Table>, after: map<Path, Table>, paths: seq<Path>, i: nat, opus: set<Value>)
    requires i < |paths| && paths[i] !in paths[..i]
    requires before.Keys == orig.Keys
    requires forall p | p in before && p !in paths[..i] :: before[p] == orig[p]
    requires forall p | p in paths[..i] :: ReconciledAt(orig, before, p, opus)
    requires paths[i] in before && ColumnIndex(before[paths[i]].header, SsnColumn).Ok?
    requires after == before[paths[i] := KeptRows(before[paths[i]], opus)]
    ensures forall p | p in paths[..i + 1] :: ReconciledAt(orig, after, p, opus)
  {
    var path := paths[i];
    forall p | p in paths[..i + 1]
      ensures ReconciledAt(orig, after, p, opus)
    {
      var j :| 0 <= j <= i && paths[j] == p;
      if j == i {
        assert path in orig && before[path] == orig[path];
      } else {
        assert paths[..i][j] == p;
        assert ReconciledAt(orig, before, p, opus) && p != path;
      }
    }
  }

  /**
   * The state of the loop over the tables after its first i turns: the tables not yet
   * reconciled are as they were, the ones reconciled hold the kept rows, and wetchem is the
   * union of what the counted ones returned.
   */
  ghost predicate LoopState(orig: map<Path, Table>, now: map<Path, Table>, paths: seq<Path>, i: nat,
                            opus: set<Value>, counted: set<Path>, wetchem: set<Value>)
  {
    && i <= |paths|
    && now.Keys == orig.Keys
    && (forall p | p in now && p !in paths[..i] :: now[p] == orig[p])
    && (forall p | p in paths[..i] :: ReconciledAt(orig, now, p, opus))
    && wetchem == Accumulated(orig, paths, i, counted)
  }

  /** Before the first turn nothing is reconciled and nothing accumulated. */
  lemma LoopStart(orig: map<Path, Table>, paths: seq<Path>, opus: set<Value>, counted: set<Path>)
    ensures LoopState(orig, orig, paths, 0, opus, counted, {})
  {
  }

  /** One turn of the loop over the tables takes its state from i turns to i + 1. */
  lemma LoopStep(orig: map<Path, Table>, before: map<Path, Table>, after: map<Path, Table>, paths: seq<Path>, i: nat,
                 opus: set<Value>, counted: set<Path>, wetchem: set<Value>, returned: set<Value>)
    requires i < |paths| && paths[i] !in paths[..i]
    requires LoopState(orig, before, paths, i, opus, counted, wetchem)
    requires paths[i] in before && ColumnIndex(before[paths[i]].header, SsnColumn).Ok?
    requires SsnsOf(before[paths[i]]) == Ok(returned)
    requires after == before[paths[i] := KeptRows(before[paths[i]], opus)]
    ensures LoopState(orig, after, paths, i + 1, opus, counted, if paths[i] in counted then wetchem + returned else wetchem)
  {
    PrepFrame(orig, before, after, paths, i, opus);
    PrepStep(orig, before, after, paths, i, opus);
    AccumulateStep(orig, before, paths, i, counted, wetchem, returned);
  }

  /** After the last turn every table of paths is reconciled and every other one is as it was. */
  lemma LoopDone(orig: map<Path, Table>, after: map<Path, Table>, paths: seq<Path>, opus: set<Value>,
                 counted: set<Path>, wetchem: set<Value>)
    requires LoopState(orig, after, paths, |paths|, opus, counted, wetchem)
    ensures after.Keys == orig.Keys
    ensures forall p | p in after && p !in paths :: after[p] == orig[p]
    ensures forall p | p in paths :: ReconciledAt(orig, after, p, opus)
    ensures wetchem == Accumulated(orig, paths, |paths|, counted)
  {
    assert paths[..|paths|] == paths;
  }


  /** Wherever the loop over the tables stops, the tables are PartlyReconciled. */
  lemma LoopStopped(orig: map<Path, Table>, now: map<Path, Table>, paths: seq<Path>, i: nat,
                    opus: set<Value>, counted: set<Path>, wetchem: set<Value>)
    requires LoopState(orig, now, paths, i, opus, counted, wetchem)
    ensures PartlyReconciled(orig, now, paths, opus)
  {
    forall p | p in now && p in paths[..i]
      ensures p in paths
    {
      var j :| 0 <= j < i && paths[..i][j] == p;
      assert paths[j] == p;
    }
  }

  /** One turn of the loop over the tables adds what the table at paths[i] returns to the union when it is counted. */
  lemma AccumulateStep(orig: map<Path, Table>, before: map<Path, Table>, paths: seq<Path>, i: nat,
                       counted: set<Path>, wetchem: set<Value>, returned: set<Value>)
    requires i < |paths| && paths[i] !in paths[..i]
    requires before.Keys == orig.Keys
    requires forall p | p in before && p !in paths[..i] :: before[p] == orig[p]
    requires wetchem == Accumulated(orig, paths, i, counted)
    requires paths[i] in before && SsnsOf(before[paths[i]]) == Ok(returned)
    ensures (if paths[i] in counted then wetchem + returned else wetchem) == Accumulated(orig, paths, i + 1, counted)
  {
    assert before[paths[i]] == orig[paths[i]];
    AccumulatedStep(orig, paths, i, counted, returned);
  }

  /** Accumulating a list that starts with p is p's identifiers and those of the rest. */
  lemma {:induction false} AccumulatedPrepend(m: map<Path, Table>, p: Path, ps: seq<Path>, n: nat, counted: set<Path>)
    requires n <= |ps|
    ensures Accumulated(m, [p] + ps, n + 1, counted) == Returned(m, p, counted) + Accumulated(m, ps, n, counted)
  {
    if n > 0 {
      AccumulatedPrepend(m, p, ps, n - 1, counted);
      assert ([p] + ps)[n] == ps[n - 1];
    }
  }

  /** The tables of the list are at distinct paths, the georeference table apart from the chemistry tables. */
  lemma PathsDistinct()
    ensures forall i, j | 0 <= i < j < |Paths| :: Paths[i] != Paths[j]
    ensures GeorefsPath !in ChemistryPaths && Paths[0] == GeorefsPath && Paths[1..] == ChemistryPaths
  {
  }

  /** Only the georeference table is counted by AllTables and not by ChemistryTables. */
  lemma PathsCounted()
    ensures GeorefsPath in AllTables && GeorefsPath !in ChemistryTables
    ensures forall p | p in ChemistryPaths :: p in Paths && p in ChemistryTables
  {
    PathsDistinct();
  }

  /**
   * With the georeference table replaced, the union over the list is what that table holds,
   * when it is counted, together with the union over the untouched chemistry tables.
   */
  lemma GeorefsUnion(m: map<Path, Table>, georefs: Table, georefSsns: set<Value>, counted: set<Path>)
    requires SsnsOf(georefs) == Ok(georefSsns)
    ensures Accumulated(m[GeorefsPath := georefs], Paths, |Paths|, counted)
         == (if GeorefsPath in counted then georefSsns else {}) + Accumulated(m, ChemistryPaths, |ChemistryPaths|, counted)
  {
    PathsDistinct();
    var m' := m[GeorefsPath := georefs];
    AccumulatedPrepend(m', GeorefsPath, ChemistryPaths, |ChemistryPaths|, counted);
    AccumulatedAgree(m', m, ChemistryPaths, |ChemistryPaths|, counted);
  }

  /** After reconciliation, every counted table holds only identifiers of opus that are in the union. */
  lemma ReconciledWithin(before: map<Path, Table>, after: map<Path, Table>, paths: seq<Path>, opus: set<Value>, counted: set<Path>)
    requires forall p | p in paths :: ReconciledAt(before, after, p, opus)
    ensures forall p | p in paths && p in counted ::
      p in after && HoldsOnly(after[p], opus * Accumulated(before, paths, |paths|, counted))
  {
    forall p | p in paths && p in counted
      ensures HoldsOnly(after[p], opus * Accumulated(before, paths, |paths|, counted))
    {
      var j :| 0 <= j < |paths| && paths[j] == p;
      ReconciledWithoutRenaming(before[p], opus);
    }
  }

  /**
   * What main's tables end as, given the table map before it, the georeference table it
   * filtered, the map after the loop and the union the loop returned for the tables counted.
   */
  lemma ReconciledOutcome(before: map<Path, Table>, georefs: Table, georefSsns: set<Value>,
                                            after: map<Path, Table>, opus: set<Value>, counted: set<Path>, wetchem: set<Value>)
    requires SsnsOf(georefs) == Ok(georefSsns)
    requires ListReconciled(before[GeorefsPath := georefs], after, opus)
    requires wetchem == Accumulated(before[GeorefsPath := georefs], Paths, |Paths|, counted)
    ensures GeorefsPath in counted ==> wetchem == georefSsns + Accumulated(before, ChemistryPaths, |ChemistryPaths|, counted)
    ensures GeorefsPath !in counted ==> wetchem == Accumulated(before, ChemistryPaths, |ChemistryPaths|, counted)
    ensures forall p | p in Paths && p in counted :: p in after && HoldsOnly(after[p], opus * wetchem)
  {
    GeorefsUnion(before, georefs, georefSsns, counted);
    if GeorefsPath !in counted {
      assert {} + Accumulated(before, ChemistryPaths, |ChemistryPaths|, counted) == Accumulated(before, ChemistryPaths, |ChemistryPaths|, counted);
    }
    ReconciledWithin(before[GeorefsPath := georefs], after, Paths, opus, counted);
  }

  /** ReconciledOutcome when every table of the list is counted, as main is written. */
  lemma AsWrittenOutcome(before: map<Path, Table>, georefs: Table, georefSsns: set<Value>,
                         after: map<Path, Table>, opus: set<Value>, wetchem: set<Value>)
    requires SsnsOf(georefs) == Ok(georefSsns)
    requires ListReconciled(before[GeorefsPath := georefs], after, opus)
    requires wetchem == Accumulated(before[GeorefsPath := georefs], Paths, |Paths|, AllTables)
    ensures wetchem == georefSsns + Accumulated(before, ChemistryPaths, |ChemistryPaths|, AllTables)
    ensures georefSsns <= wetchem
    ensures forall p | p in Paths :: p in after && HoldsOnly(after[p], opus * wetchem)
  {
    PathsCounted();
    ReconciledOutcome(before, georefs, georefSsns, after, opus, AllTables, wetchem);
  }

  /**
   * The tables after main: the georeference table holds the rows of georefs whose identifier
   * is in opus, every chemistry table is reconciled against the table read, and every table
   * outside the list is as it was.
   */
  ghost predicate CleanedTables(before: map<Path, Table>, after: map<Path, Table>, georefs: Table, opus: set<Value>) {
    && GeorefsPath in after && ColumnIndex(georefs.header, SsnColumn).Ok?
    && after[GeorefsPath] == KeptRows(georefs, opus)
    && (forall p | p in ChemistryPaths :: ReconciledAt(before, after, p, opus))
    && (forall p | p in after && p !in Paths :: p in before && after[p] == before[p])
  }

  /** Once the georeference table is replaced by georefs and the list reconciled, the tables are CleanedTables. */
  lemma FinalTables(before: map<Path, Table>, georefs: Table, after: map<Path, Table>, opus: set<Value>)
    requires ListReconciled(before[GeorefsPath := georefs], after, opus)
    ensures CleanedTables(before, after, georefs, opus)
  {
    PathsCounted();
    assert ReconciledAt(before[GeorefsPath := georefs], after, GeorefsPath, opus);
    forall p | p in ChemistryPaths
      ensures ReconciledAt(before, after, p, opus)
    {
      assert p in Paths && p != GeorefsPath;
      ReconciledBesideGeorefs(before, georefs, after, p, opus);
    }
    forall p | p in after && p !in Paths
      ensures p in before && after[p] == before[p]
    {
      assert p != GeorefsPath;
    }
  }

  /** Replacing the georeference table leaves what another table is reconciled against unchanged. */
  lemma ReconciledBesideGeorefs(before: map<Path, Table>, georefs: Table, after: map<Path, Table>, p: Path, opus: set<Value>)
    requires p != GeorefsPath && ReconciledAt(before[GeorefsPath := georefs], after, p, opus)
    ensures ReconciledAt(before, after, p, opus)
  {
  }

  /** CleanedTables fixes every table, so two results over the same paths are equal. */
  lemma CleanedTablesUnique(before: map<Path, Table>, after: map<Path, Table>, after': map<Path, Table>,
                            georefs: Table, opus: set<Value>)
    requires CleanedTables(before, after, georefs, opus) && CleanedTables(before, after', georefs, opus)
    requires after.Keys == after'.Keys
    ensures after == after'
  {
    forall p | p in after
      ensures after[p] == after'[p]
    {
      if p in Paths && p != GeorefsPath {
        assert p in ChemistryPaths;
      }
    }
  }

  /**
   * The tables a run writes over tables that were already reconciled: each table of the list
   * left without rows is written back without columns, and every other table stays.
   */
  function Rewritten(m: map<Path, Table>): map<Path, Table> {
    map p | p in m :: if p in Paths && m[p].rows == [] then NoColumns else m[p]
  }

  /**
   * Rewritten changes nothing exactly when every chemistry table has a row, given a
   * georeference table with a row and chemistry tables that have columns.
   */
  lemma RewrittenFixed(m: map<Path, Table>)
    requires GeorefsPath in m && m[GeorefsPath].rows != []
    requires forall p | p in ChemistryPaths :: p in m && m[p] != NoColumns
    ensures Rewritten(m) == m <==> forall p | p in ChemistryPaths :: m[p].rows != []
  {
    PathsCounted();
    if forall p | p in ChemistryPaths :: m[p].rows != [] {
      forall p | p in m
        ensures Rewritten(m)[p] == m[p]
      {
        if p in Paths && p != GeorefsPath {
          assert p in ChemistryPaths;
        }
      }
    } else {
      var p :| p in ChemistryPaths && m[p].rows == [];
      assert Rewritten(m)[p] != m[p];
    }
  }

  /**
   * What a second run of main finds in the tables1 and files1 a first run left: the same
   * spectra; each table of the list with its SSN column unless the first run wrote it without
   * columns; a georeference table that passes the boundary filter exactly when it has a row,
   * and then comes out of it unchanged holding the georeference SSNs of opus; a tree that
   * pruning by those SSNs leaves as it is; and, when every table of the list has its SSN
   * column, a loop that rewrites the tables as Rewritten does.
   */
  lemma SecondRun<G>(tables0: map<Path, Table>, files0: set<Entry>, boundary: seq<G>, contains: (G, Point) -> bool,
                     opus: set<Value>, georefs: Table, georefSsns: set<Value>, tables1: map<Path, Table>, files1: set<Entry>)
    requires opus == ListIcrs(files0, SpectraBase)
    requires GeorefsPath in tables0 && InsideBoundary(tables0[GeorefsPath], GeorefsPath, boundary, contains) == Ok(georefs)
    requires SsnsOf(georefs) == Ok(georefSsns)
    requires CleanedTables(tables0, tables1, georefs, opus)
    requires files1 == Pruned(files0, DatasetRoot, opus - georefSsns)
    ensures ListIcrs(files1, SpectraBase) == opus
    ensures forall p | p in Paths :: p in tables1 && (SsnsOf(tables1[p]).Ok? <==> tables1[p] != NoColumns)
    ensures InsideBoundary(tables1[GeorefsPath], GeorefsPath, boundary, contains).Ok? <==> tables1[GeorefsPath].rows != []
    ensures tables1[GeorefsPath].rows != [] ==>
      && InsideBoundary(tables1[GeorefsPath], GeorefsPath, boundary, contains) == Ok(tables1[GeorefsPath])
      && SsnsOf(tables1[GeorefsPath]) == Ok(georefSsns * opus)
      && Pruned(files1, DatasetRoot, opus - georefSsns * opus) == files1
    ensures Reconcilable(tables1) ==> CleanedTables(tables1, Rewritten(tables1), tables1[GeorefsPath], opus)
  {
    RootPruningKeepsListing(files0, opus - georefSsns);
    TablesAgain(tables0, georefs, tables1, opus);
    if tables1[GeorefsPath].rows != [] {
      var k := ColumnIndex(georefs.header, SsnColumn).value;
      InsideBoundaryOfKept(tables0[GeorefsPath], GeorefsPath, boundary, contains, HasSsnIn(k, opus));
      PrunedAgain(files0, DatasetRoot, opus, georefSsns);
    }
  }

  /**
   * Each table of the list main leaves has its SSN column unless main wrote it without
   * columns; when every one has it, reconciling them again, the georeference table included,
   * rewrites them as Rewritten does.
   */
  lemma TablesAgain(tables0: map<Path, Table>, georefs: Table, tables1: map<Path, Table>, opus: set<Value>)
    requires CleanedTables(tables0, tables1, georefs, opus)
    ensures forall p | p in Paths :: p in tables1 && (SsnsOf(tables1[p]).Ok? <==> tables1[p] != NoColumns)
    ensures Reconcilable(tables1) ==> CleanedTables(tables1, Rewritten(tables1), tables1[GeorefsPath], opus)
  {
    PathsCounted();
    KeptRowsIdempotent(georefs, opus);
    forall p | p in ChemistryPaths
      ensures SsnsOf(tables1[p]).Ok? <==> tables1[p] != NoColumns
    {
      KeptRowsIdempotent(tables0[p], opus);
    }
    forall p | p in Paths
      ensures p in tables1 && (SsnsOf(tables1[p]).Ok? <==> tables1[p] != NoColumns)
    {
      if p != GeorefsPath {
        assert p in ChemistryPaths;
      }
    }
    if Reconcilable(tables1) {
      var again := Rewritten(tables1);
      forall p | p in ChemistryPaths
        ensures ReconciledAt(tables1, again, p, opus)
      {
        KeptRowsIdempotent(tables0[p], opus);
      }
      forall p | p in again && p !in Paths
        ensures p in tables1 && again[p] == tables1[p]
      {
      }
    }
  }

  /**
   * A run over tables it already reconciled, whose boundary filter returned the georeference
   * table unchanged, writes exactly Rewritten.
   */
  lemma RewrittenAgain(tables1: map<Path, Table>, tables2: map<Path, Table>, againTable: Table, opus: set<Value>)
    requires GeorefsPath in tables1 && againTable == tables1[GeorefsPath]
    requires Reconcilable(tables1) ==> CleanedTables(tables1, Rewritten(tables1), tables1[GeorefsPath], opus)
    requires CleanedTables(tables1, tables2, againTable, opus) && tables2.Keys == tables1.Keys
    ensures tables2 == Rewritten(tables1)
  {
    PathsCounted();
    forall p | p in Paths
      ensures p in tables1 && SsnsOf(tables1[p]).Ok?
    {
      if p != GeorefsPath {
        assert p in ChemistryPaths;
      }
    }
    assert Rewritten(tables1).Keys == tables1.Keys;
    CleanedTablesUnique(tables1, tables2, Rewritten(tables1), againTable, opus);
  }

  /** Every table of the list is present and has an identifier column. */
  ghost predicate Reconcilable(m: map<Path, Table>) {
    forall p | p in Paths :: p in m && SsnsOf(m[p]).Ok?
  }

  /**
   * Filtering the georeference table keeps its columns, so tables that are Reconcilable before
   * the georeference stage still are after it.
   */
  lemma StillReconcilable(before: map<Path, Table>, georefs: Table)
    requires GeorefsPath in before && georefs.header == before[GeorefsPath].header
    ensures Reconcilable(before) ==> Reconcilable(before[GeorefsPath := georefs])
  {
  }

  /**
   * The tables and tree main leaves when it stops at an error. When the georeference table is
   * present with an SSN column and passes the boundary filter, the failure is in the loop:
   * the georeference pruning is done and the tables are PartlyReconciled over the filtered
   * georeference table. Otherwise nothing is deleted, and the georeference table is filtered
   * when it passes the filter (the SSN lookup failed after it) and as it was when it does not.
   */
  ghost predicate Stopped<G>(before: map<Path, Table>, after: map<Path, Table>, filesBefore: set<Entry>, filesAfter: set<Entry>,
                             opus: set<Value>, boundary: seq<G>, contains: (G, Point) -> bool)
  {
    if GeorefsPath !in before || InsideBoundary(before[GeorefsPath], GeorefsPath, boundary, contains).Err? then
      filesAfter == filesBefore && after == before
    else
      var georefs := InsideBoundary(before[GeorefsPath], GeorefsPath, boundary, contains).value;
      if SsnsOf(georefs).Err? then
        filesAfter == filesBefore && after == before[GeorefsPath := georefs]
      else
        && filesAfter == Pruned(filesBefore, DatasetRoot, opus - SsnsOf(georefs).value)
        && PartlyReconciled(before[GeorefsPath := georefs], after, Paths, opus)
  }

  /** An error of the georeference stage leaves main Stopped. */
  lemma StoppedAtGeorefs<G>(before: map<Path, Table>, after: map<Path, Table>, files: set<Entry>,
                            opus: set<Value>, boundary: seq<G>, contains: (G, Point) -> bool)
    requires GeorefsPath !in before || InsideBoundary(before[GeorefsPath], GeorefsPath, boundary, contains).Err? ==> after == before
    requires GeorefsPath in before && InsideBoundary(before[GeorefsPath], GeorefsPath, boundary, contains).Ok? ==>
      && SsnsOf(before[GeorefsPath]).Err?
      && after == before[GeorefsPath := InsideBoundary(before[GeorefsPath], GeorefsPath, boundary, contains).value]
    ensures Stopped(before, after, files, files, opus, boundary, contains)
  {
  }

  /** An error of the loop, after the georeference stage succeeded, leaves main Stopped. */
  lemma StoppedInLoop<G>(before: map<Path, Table>, georefs: Table, georefSsns: set<Value>, after: map<Path, Table>,
                         filesBefore: set<Entry>, filesAfter: set<Entry>, opus: set<Value>, boundary: seq<G>, contains: (G, Point) -> bool)
    requires GeorefsPath in before && InsideBoundary(before[GeorefsPath], GeorefsPath, boundary, contains) == Ok(georefs)
    requires SsnsOf(georefs) == Ok(georefSsns)
    requires filesAfter == Pruned(filesBefore, DatasetRoot, opus - georefSsns)
    requires PartlyReconciled(before[GeorefsPath := georefs], after, Paths, opus)
    ensures Stopped(before, after, filesBefore, filesAfter, opus, boundary, contains)
  {
  }

  /** The georeference table is one of the list. */
  lemma ReconcilableGeorefs(m: map<Path, Table>)
    ensures Reconcilable(m) ==> GeorefsPath in m && SsnsOf(m[GeorefsPath]).Ok?
  {
    PathsDistinct();
  }

  /** ReconciledOutcome when only the chemistry tables are counted, as main evidently intends. */
  lemma IntendedOutcome(before: map<Path, Table>, georefs: Table, georefSsns: set<Value>,
                        after: map<Path, Table>, opus: set<Value>, wetchem: set<Value>)
    requires SsnsOf(georefs) == Ok(georefSsns)
    requires ListReconciled(before[GeorefsPath := georefs], after, opus)
    requires wetchem == Accumulated(before[GeorefsPath := georefs], Paths, |Paths|, ChemistryTables)
    ensures wetchem == Accumulated(before, ChemistryPaths, |ChemistryPaths|, ChemistryTables)
    ensures forall p | p in ChemistryPaths :: p in after && HoldsOnly(after[p], opus * wetchem)
  {
    PathsCounted();
    ReconciledOutcome(before, georefs, georefSsns, after, opus, ChemistryTables, wetchem);
  }

  /**
   * A spectrum B.0 with a georeference inside the boundary but no chemistry row: as main is
   * written its identifier is in the union (the georeference table is counted) and the spectrum
   * stays, while pruning by the chemistry tables alone deletes it.
   */
  lemma GeoreferencedSpectrumSurvives()
    ensures var spectrum := Entry(["Bruker_MPA", "B.0"], true);
      var opus, georefSsns, chemistry := {"B"}, {"B"}, {};
      && spectrum in Pruned(Pruned({spectrum}, DatasetRoot, opus - georefSsns), DatasetRoot, opus - (georefSsns + chemistry))
      && spectrum !in Pruned({spectrum}, DatasetRoot, opus - (georefSsns * chemistry))
  {
    assert "B.0" == "B" + "." + "0";
    StemOfSuffixed("B", "0");
  }

  /** The file name whose stem selects the renaming of "ICRAF ID" to "SSN". */
  const RenamedTableName: string := "wet_chemistry_new.csv"

  /** No table of the list has RenamedTableName as its stem, so every table is reconciled without renaming. */
  lemma DeadRenameBranch()
    ensures forall p | p in Paths :: |p| > 0 && Stem(p[|p| - 1]) != RenamedTableName
  {
    StemIsNotRenamed(GeorefsPath[1]);
    ChemistryNotRenamed();
    assert forall p | p in Paths :: p == GeorefsPath || p in ChemistryPaths;
  }

  /** DeadRenameBranch for the chemistry tables. */
  lemma ChemistryNotRenamed()
    ensures forall p | p in ChemistryPaths :: |p| > 0 && Stem(p[|p| - 1]) != RenamedTableName
  {
    StemIsNotRenamed(ChemistryPaths[0][2]);
    StemIsNotRenamed(ChemistryPaths[1][2]);
    StemIsNotRenamed(ChemistryPaths[2][2]);
  }

  /**
   * A stem is a prefix of its name and RenamedTableName has a '.' at index 17, so a name
   * without one there never has RenamedTableName as its stem.
   */
  lemma StemIsNotRenamed(name: string)
    requires |name| <= 17 || name[17] != '.'
    ensures Stem(name) != RenamedTableName
  {
    assert RenamedTableName[17] == '.';
  }

  /** The dataset: its file tree, and its tables by path. */
  class Dataset {
    var files: set<Entry>
    var tables: map<Path, Table>

    ghost predicate Valid()
      reads this
    {
      forall p | p in tables :: WellFormed(tables[p])
    }

    /** The dataset as found on disk. */
    constructor (files: set<Entry>, tables: map<Path, Table>)
      requires forall p | p in tables :: WellFormed(tables[p])
      ensures Valid() && this.files == files && this.tables == tables
    {
      this.files := files;
      this.tables := tables;
    }

    /** remove_unpaired: delete, one matching entry at a time, every regular file directly inside a spectrum directory below base whose stem is in unpaired. */
    method RemoveUnpaired(base: Path, unpaired: set<Value>)
      modifies this
      ensures files == Pruned(old(files), base, unpaired)
      ensures tables == old(tables)
    {
      var pending := set e | e in files && DirectlyInSpectraDir(e, base);
      while pending != {}
        invariant pending <= old(files)
        invariant files <= old(files) && tables == old(tables)
        invariant forall e | e in old(files) :: e in files <==> (e in pending || !Unpaired(e, base, unpaired))
        decreases pending
      {
        var e :| e in pending;
        if e.isFile && Stem(Name(e)) in unpaired {
          files := files - {e};
        }
        pending := pending - {e};
      }
    }

    /**
     * prep_csv: read the table at path, rename its columns, write back the rows whose
     * identifier is in opus and return the identifiers it held before filtering.
     */
    method PrepCsv(path: Path, opus: set<Value>, renamings: map<string, string>) returns (r: Outcome<set<Value>>)
      requires Valid()
      modifies this
      ensures Valid() && files == old(files)
      ensures ReadCsv(old(tables), path).Err? ==> r == Err(ReadCsv(old(tables), path).error)
      ensures ReadCsv(old(tables), path).Ok? && Reconciled(old(tables)[path], opus, renamings).Err? ==>
        r == Err(Reconciled(old(tables)[path], opus, renamings).error)
      ensures path in old(tables) && Reconciled(old(tables)[path], opus, renamings).Ok? ==> r.Ok?
      ensures r.Err? ==> tables == old(tables)
      ensures r.Ok? ==>
        && path in old(tables) && Reconciled(old(tables)[path], opus, renamings).Ok?
        && r.value == Reconciled(old(tables)[path], opus, renamings).value.1
        && tables == old(tables)[path := Reconciled(old(tables)[path], opus, renamings).value.0]
    {
      var read := ReadCsv(tables, path);
      if read.Err? {
        return Err(read.error);
      }
      var df := read.value;
      var header := Rename(df.header, renamings);
      var column := ColumnIndex(header, SsnColumn);
      if column.Err? {
        return Err(column.error);
      }
      var ssns := ColumnValues(df.rows, column.value);
      var written := KeptRows(Table(header, df.rows), opus);
      tables := tables[path := written];
      return Ok(ssns);
    }

    /** prep_csv called with its default empty renaming: keep the rows whose identifier is in opus and return the identifiers held before. */
    method PrepCsvWithoutRenaming(path: Path, opus: set<Value>) returns (r: Outcome<set<Value>>)
      requires Valid()
      modifies this
      ensures Valid() && files == old(files)
      ensures ReadCsv(old(tables), path).Err? ==> r == Err(ReadCsv(old(tables), path).error)
      ensures ReadCsv(old(tables), path).Ok? && SsnsOf(old(tables)[path]).Err? ==> r == Err(SsnsOf(old(tables)[path]).error)
      ensures path in old(tables) && SsnsOf(old(tables)[path]).Ok? ==> r.Ok?
      ensures r.Err? ==> tables == old(tables)
      ensures r.Ok? ==>
        && path in old(tables) && ColumnIndex(old(tables)[path].header, SsnColumn).Ok?
        && r == SsnsOf(old(tables)[path])
        && tables == old(tables)[path := KeptRows(old(tables)[path], opus)]
    {
      ghost var before := tables;
      r := PrepCsv(path, opus, map[]);
      if path in before {
        ReconciledWithoutRenaming(before[path], opus);
        NoRenaming(before[path].header);
      }
    }

    /** clean_georefs: keep in the table at path the rows whose point lies inside the boundary. */
    method CleanGeorefs<G>(path: Path, boundary: seq<G>, contains: (G, Point) -> bool) returns (r: Outcome<()>)
      requires Valid()
      modifies this
      ensures Valid() && files == old(files)
      ensures ReadCsv(old(tables), path).Err? ==> r == Err(ReadCsv(old(tables), path).error)
      ensures ReadCsv(old(tables), path).Ok? && InsideBoundary(old(tables)[path], path, boundary, contains).Err? ==>
        r == Err(InsideBoundary(old(tables)[path], path, boundary, contains).error)
      ensures path in old(tables) && InsideBoundary(old(tables)[path], path, boundary, contains).Ok? ==> r == Ok(())
      ensures r.Err? ==> tables == old(tables)
      ensures r.Ok? ==>
        && path in old(tables) && InsideBoundary(old(tables)[path], path, boundary, contains).Ok?
        && tables == old(tables)[path := InsideBoundary(old(tables)[path], path, boundary, contains).value]
    {
      var read := ReadCsv(tables, path);
      if read.Err? {
        return Err(read.error);
      }
      var georefs := read.value;
      if georefs.rows == [] {
        return Err(NoRows(path));
      }
      var lat := ColumnIndex(georefs.header, LatitudeColumn);
      if lat.Err? {
        return Err(lat.error);
      }
      var lon := ColumnIndex(georefs.header, LongitudeColumn);
      if lon.Err? {
        return Err(lon.error);
      }
      var inside := Filter(georefs.rows, InsideMask(lat.value, lon.value, boundary, contains));
      InsideBoundarySpec(georefs, path, boundary, contains);
      tables := tables[path := Table(georefs.header, inside)];
      r := Ok(());
    }

    /** remove_opus_without_georefs: delete the spectra of opus whose identifier the table at path lacks. */
    method RemoveOpusWithoutGeorefs(opus: set<Value>, path: Path) returns (r: Outcome<()>)
      requires Valid()
      modifies this
      ensures Valid() && tables == old(tables)
      ensures ReadCsv(old(tables), path).Err? ==> r == Err(ReadCsv(old(tables), path).error) && files == old(files)
      ensures ReadCsv(old(tables), path).Ok? ==>
        match SsnsOf(old(tables)[path])
        case Err(e) => r == Err(e) && files == old(files)
        case Ok(georefSsns) => r == Ok(()) && files == Pruned(old(files), DatasetRoot, opus - georefSsns)
    {
      var read := ReadCsv(tables, path);
      if read.Err? {
        return Err(read.error);
      }
      var georefSsns := SsnsOf(read.value);
      if georefSsns.Err? {
        return Err(georefSsns.error);
      }
      RemoveUnpaired(DatasetRoot, opus - georefSsns.value);
      r := Ok(());
    }

    /** One turn of the loop over the tables: reconcile the table at paths[i] and add what it returns to wetchem when it is counted. */
    method ReconcileNext(ghost orig: map<Path, Table>, paths: seq<Path>, i: nat, opus: set<Value>, counted: set<Path>, wetchem: set<Value>)
      returns (r: Outcome<set<Value>>)
      requires Valid() && i < |paths| && paths[i] !in paths[..i]
      requires LoopState(orig, tables, paths, i, opus, counted, wetchem)
      modifies this
      ensures Valid() && files == old(files) && tables.Keys == orig.Keys
      ensures r.Err? ==> tables == old(tables)
      ensures paths[i] in orig && SsnsOf(orig[paths[i]]).Ok? ==> r.Ok?
      ensures r.Ok? ==> LoopState(orig, tables, paths, i + 1, opus, counted, r.value)
    {
      var path := paths[i];
      ghost var before := tables;
      assert path in orig ==> tables[path] == orig[path];
      var returned := PrepCsvWithoutRenaming(path, opus);
      if returned.Err? {
        return returned;
      }
      LoopStep(orig, before, tables, paths, i, opus, counted, wetchem, returned.value);
      r := Ok(if path in counted then wetchem + returned.value else wetchem);
    }

    /**
     * The loop over the tables: reconcile each against opus without renaming, in order, and
     * accumulate the identifiers returned for the paths in counted; the first error aborts.
     */
    method ReconcileTables(paths: seq<Path>, opus: set<Value>, counted: set<Path>) returns (r: Outcome<set<Value>>)
      requires Valid()
      requires forall i, j | 0 <= i < j < |paths| :: paths[i] != paths[j]
      modifies this
      ensures Valid() && files == old(files) && tables.Keys == old(tables).Keys
      ensures r.Ok? ==> forall p | p in tables && p !in paths :: tables[p] == old(tables)[p]
      ensures r.Ok? ==> forall p | p in paths :: ReconciledAt(old(tables), tables, p, opus)
      ensures r.Ok? ==> r.value == Accumulated(old(tables), paths, |paths|, counted)
      ensures (forall p | p in paths :: p in old(tables) && SsnsOf(old(tables)[p]).Ok?) ==> r.Ok?
      ensures r.Err? ==> PartlyReconciled(old(tables), tables, paths, opus)
    {
      var wetchem: set<Value> := {};
      LoopStart(tables, paths, opus, counted);
      for i := 0 to |paths|
        invariant Valid() && files == old(files)
        invariant LoopState(old(tables), tables, paths, i, opus, counted, wetchem)
      {
        assert paths[i] !in paths[..i];
        var next := ReconcileNext(old(tables), paths, i, opus, counted, wetchem);
        if next.Err? {
          assert paths[i] in paths;
          LoopStopped(old(tables), tables, paths, i, opus, counted, wetchem);
          return next;
        }
        wetchem := next.value;
      }
      LoopDone(old(tables), tables, paths, opus, counted, wetchem);
      r := Ok(wetchem);
    }

    /**
     * The first half of main: filter the georeference table by the boundary, then delete the
     * spectra of opus without a georeference left; returns the identifiers left in the table.
     */
    method GeorefStage<G>(opus: set<Value>, boundary: seq<G>, contains: (G, Point) -> bool) returns (r: Outcome<set<Value>>)
      requires Valid()
      modifies this
      ensures Valid() && files <= old(files) && tables.Keys == old(tables).Keys
      ensures r.Ok? ==>
        && GeorefsPath in old(tables)
        && InsideBoundary(old(tables)[GeorefsPath], GeorefsPath, boundary, contains).Ok?
        && SsnsOf(InsideBoundary(old(tables)[GeorefsPath], GeorefsPath, boundary, contains).value) == Ok(r.value)
        && tables == old(tables)[GeorefsPath := InsideBoundary(old(tables)[GeorefsPath], GeorefsPath, boundary, contains).value]
        && files == Pruned(old(files), DatasetRoot, opus - r.value)
      ensures (&& GeorefsPath in old(tables) && SsnsOf(old(tables)[GeorefsPath]).Ok?
               && InsideBoundary(old(tables)[GeorefsPath], GeorefsPath, boundary, contains).Ok?) ==> r.Ok?
      ensures r.Err? ==> files == old(files)
      ensures r.Err? && ReadCsv(old(tables), GeorefsPath).Err? ==> r.error == ReadCsv(old(tables), GeorefsPath).error && tables == old(tables)
      ensures r.Err? && ReadCsv(old(tables), GeorefsPath).Ok? && InsideBoundary(old(tables)[GeorefsPath], GeorefsPath, boundary, contains).Err? ==>
        r.error == InsideBoundary(old(tables)[GeorefsPath], GeorefsPath, boundary, contains).error && tables == old(tables)
      ensures r.Err? && GeorefsPath in old(tables) && InsideBoundary(old(tables)[GeorefsPath], GeorefsPath, boundary, contains).Ok? ==>
        && r.error == SsnsOf(old(tables)[GeorefsPath]).error
        && tables == old(tables)[GeorefsPath := InsideBoundary(old(tables)[GeorefsPath], GeorefsPath, boundary, contains).value]
    {
      var cleaned := CleanGeorefs(GeorefsPath, boundary, contains);
      if cleaned.Err? {
        return Err(cleaned.error);
      }
      var removed := RemoveOpusWithoutGeorefs(opus, GeorefsPath);
      if removed.Err? {
        return Err(removed.error);
      }
      r := Ok(SsnsOf(tables[GeorefsPath]).value);
    }

    /**
     * The second half of main: reconcile every table of Paths against opus, then delete the
     * spectra of opus that no counted table holds; returns the identifiers the counted tables hold.
     */
    method ChemistryStage(opus: set<Value>, counted: set<Path>) returns (r: Outcome<set<Value>>)
      requires Valid()
      modifies this
      ensures Valid() && files <= old(files) && tables.Keys == old(tables).Keys
      ensures r.Ok? ==>
        && ListReconciled(old(tables), tables, opus)
        && r.value == Accumulated(old(tables), Paths, |Paths|, counted)
        && files == Pruned(old(files), DatasetRoot, opus - r.value)
      ensures Reconcilable(old(tables)) ==> r.Ok?
      ensures r.Err? ==> files == old(files) && PartlyReconciled(old(tables), tables, Paths, opus)
    {
      PathsDistinct();
      r := ReconcileTables(Paths, opus, counted);
      if r.Ok? {
        RemoveUnpaired(DatasetRoot, opus - r.value);
      }
    }

    /**
     * main: list the spectra, filter the georeference table by the boundary, delete the spectra
     * without a georeference, reconcile every table of Paths (the georeference table included)
     * and delete the spectra none of them holds.
     */
    method Clean<G>(boundary: seq<G>, contains: (G, Point) -> bool)
      returns (r: Outcome<()>, opus: set<Value>, ghost georefTable: Table, ghost georefSsns: set<Value>, wetchem: set<Value>)
      requires Valid()
      modifies this
      ensures Valid() && files <= old(files) && tables.Keys == old(tables).Keys
      ensures opus == ListIcrs(old(files), SpectraBase)
      ensures r.Ok? ==>
        && GeorefsPath in old(tables)
        && InsideBoundary(old(tables)[GeorefsPath], GeorefsPath, boundary, contains) == Ok(georefTable)
        && SsnsOf(georefTable) == Ok(georefSsns)
      ensures r.Ok? ==> wetchem == georefSsns + Accumulated(old(tables), ChemistryPaths, |ChemistryPaths|, AllTables)
      ensures r.Ok? ==> files == Pruned(Pruned(old(files), DatasetRoot, opus - georefSsns), DatasetRoot, opus - wetchem)
      ensures r.Ok? ==> forall p | p in Paths :: p in tables && HoldsOnly(tables[p], opus * wetchem)
      ensures r.Ok? ==> georefSsns <= wetchem && files == Pruned(old(files), DatasetRoot, opus - georefSsns)
      ensures r.Ok? ==> CleanedTables(old(tables), tables, georefTable, opus)
      ensures (&& GeorefsPath in old(tables) && Reconcilable(old(tables))
               && InsideBoundary(old(tables)[GeorefsPath], GeorefsPath, boundary, contains).Ok?) ==> r.Ok?
      ensures r.Err? ==> Stopped(old(tables), tables, old(files), files, opus, boundary, contains)
    {
      opus := ListIcrs(files, SpectraBase);
      wetchem := {};
      ReconcilableGeorefs(tables);
      var georefs := GeorefStage(opus, boundary, contains);
      if georefs.Err? {
        StoppedAtGeorefs(old(tables), tables, files, opus, boundary, contains);
        return Err(georefs.error), opus, Table([], []), {}, wetchem;
      }
      georefSsns := georefs.value;
      georefTable := InsideBoundary(old(tables)[GeorefsPath], GeorefsPath, boundary, contains).value;
      StillReconcilable(old(tables), georefTable);
      var chemistry := ChemistryStage(opus, AllTables);
      if chemistry.Err? {
        StoppedInLoop(old(tables), georefTable, georefSsns, tables, old(files), files, opus, boundary, contains);
        return Err(chemistry.error), opus, georefTable, georefSsns, wetchem;
      }
      wetchem := chemistry.value;
      AsWrittenOutcome(old(tables), georefTable, georefSsns, tables, opus, wetchem);
      FinalTables(old(tables), georefTable, tables, opus);
      PrunedAbsorbs(old(files), DatasetRoot, opus, georefSsns, wetchem);
      r := Ok(());
    }

    /**
     * main as evidently intended: as Clean, but only the chemistry tables count towards the
     * identifiers that keep a spectrum, so every spectrum left needs both a georeference
     * inside the boundary and a chemistry row.
     */
    method CleanIntended<G>(boundary: seq<G>, contains: (G, Point) -> bool)
      returns (r: Outcome<()>, opus: set<Value>, ghost georefTable: Table, ghost georefSsns: set<Value>, wetchem: set<Value>)
      requires Valid()
      modifies this
      ensures Valid() && files <= old(files) && tables.Keys == old(tables).Keys
      ensures opus == ListIcrs(old(files), SpectraBase)
      ensures r.Ok? ==>
        && GeorefsPath in old(tables)
        && InsideBoundary(old(tables)[GeorefsPath], GeorefsPath, boundary, contains) == Ok(georefTable)
        && SsnsOf(georefTable) == Ok(georefSsns)
      ensures r.Ok? ==> wetchem == Accumulated(old(tables), ChemistryPaths, |ChemistryPaths|, ChemistryTables)
      ensures r.Ok? ==> files == Pruned(old(files), DatasetRoot, opus - (georefSsns * wetchem))
      ensures r.Ok? ==> forall p | p in ChemistryPaths :: p in tables && HoldsOnly(tables[p], opus * wetchem)
      ensures r.Ok? ==> forall e | e in files && e.isFile && DirectlyInSpectraDir(e, DatasetRoot) && Stem(Name(e)) in opus ::
        Stem(Name(e)) in georefSsns && Stem(Name(e)) in wetchem
      ensures r.Ok? ==> CleanedTables(old(tables), tables, georefTable, opus)
      ensures (&& GeorefsPath in old(tables) && Reconcilable(old(tables))
               && InsideBoundary(old(tables)[GeorefsPath], GeorefsPath, boundary, contains).Ok?) ==> r.Ok?
      ensures r.Err? ==> Stopped(old(tables), tables, old(files), files, opus, boundary, contains)
    {
      opus := ListIcrs(files, SpectraBase);
      wetchem := {};
      ReconcilableGeorefs(tables);
      var georefs := GeorefStage(opus, boundary, contains);
      if georefs.Err? {
        StoppedAtGeorefs(old(tables), tables, files, opus, boundary, contains);
        return Err(georefs.error), opus, Table([], []), {}, wetchem;
      }
      georefSsns := georefs.value;
      georefTable := InsideBoundary(old(tables)[GeorefsPath], GeorefsPath, boundary, contains).value;
      StillReconcilable(old(tables), georefTable);
      var chemistry := ChemistryStage(opus, ChemistryTables);
      if chemistry.Err? {
        StoppedInLoop(old(tables), georefTable, georefSsns, tables, old(files), files, opus, boundary, contains);
        return Err(chemistry.error), opus, georefTable, georefSsns, wetchem;
      }
      wetchem := chemistry.value;
      IntendedOutcome(old(tables), georefTable, georefSsns, tables, opus, wetchem);
      FinalTables(old(tables), georefTable, tables, opus);
      PrunedToBoth(old(files), DatasetRoot, opus, georefSsns, wetchem);
      r := Ok(());
    }

    /**
     * main run twice. When the first run succeeds, the second lists the same spectra and
     * succeeds exactly when the georeference table the first left has a row and no chemistry
     * table was left without columns (read without rows). It then deletes no file and
     * writes each table of the list that has no row back without columns, so what main
     * leaves is a fixed point of main exactly when every chemistry table left has a row.
     */
    method CleanTwice<G>(boundary: seq<G>, contains: (G, Point) -> bool)
      returns (first: Outcome<()>, second: Outcome<()>, opus: set<Value>, opusAgain: set<Value>,
               ghost tablesBetween: map<Path, Table>, ghost filesBetween: set<Entry>)
      requires Valid()
      modifies this
      ensures Valid()
      ensures first.Ok? ==> opusAgain == opus
      ensures first.Ok? ==> GeorefsPath in tablesBetween && forall p | p in ChemistryPaths :: p in tablesBetween
      ensures first.Ok? ==>
        (second.Ok? <==> tablesBetween[GeorefsPath].rows != [] && forall p | p in ChemistryPaths :: tablesBetween[p] != NoColumns)
      ensures first.Ok? && second.Ok? ==> files == filesBetween && tables == Rewritten(tablesBetween)
      ensures first.Ok? && second.Ok? ==> (tables == tablesBetween <==> forall p | p in ChemistryPaths :: tablesBetween[p].rows != [])
    {
      ghost var georefTable, georefSsns, againTable, againSsns;
      var wetchem, wetchemAgain;
      ghost var tables0, files0 := tables, files;
      first, opus, georefTable, georefSsns, wetchem := Clean(boundary, contains);
      tablesBetween, filesBetween := tables, files;
      second, opusAgain, againTable, againSsns, wetchemAgain := Clean(boundary, contains);
      if first.Ok? {
        PathsCounted();
        SecondRun(tables0, files0, boundary, contains, opus, georefTable, georefSsns, tablesBetween, filesBetween);
        if second.Ok? {
          RewrittenAgain(tablesBetween, tables, againTable, opus);
          RewrittenFixed(tablesBetween);
        }
      }
    }
  }
}
