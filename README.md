# afsis-aws-prep cleaning, modelled in Dafny

`cleaning.py` prunes a copy of the AfSIS soil dataset in place. It lists the sample identifiers
(SSNs) of the dry-chemistry spectra. It then filters the georeference table down to the points
inside a boundary (Africa) and deletes the spectra that have no georeference left. Next it
reconciles the georeference table and the three wet-chemistry tables against the spectra: each
table keeps only the rows whose SSN has a spectrum, and each reports the SSNs it held. Finally
it deletes the spectra whose SSN none of the tables reported.

The model has five modules:

- `Outcomes` (`outcomes.dfy`): paths, the exceptions that abort a run, and `Outcome<T>`.
- `Tree` (`tree.dfy`): the directory tree as a set of entries.
  - `Stem` follows pathlib's `Path.stem`.
  - The two glob patterns are the predicates `InSpectraDir` (`Bruker*/**/*`) and `DirectlyInSpectraDir` (`Bruker*/*`).
  - `ListIcrs` is the listing and `Pruned` is the tree after deletion.
- `Tables` (`tables.dfy`): a table as a header and rows of text cells.
  - Column lookup by label, with its errors.
  - The row mask as `Filter`.
  - `prep_csv` on values as `Reconciled`.
- `Geo` (`geo.dfy`): `row_inside` and `clean_georefs` on values.
  - Geometries are a type parameter and containment is a given predicate.
- `Cleaning` (`cleaning.dfy`): the class `Dataset` holds the files and the tables, which the
  script changes on disk.
  - Its methods are `remove_unpaired`, `prep_csv`, `clean_georefs`, `remove_opus_without_georefs`, the loop over the tables and `main`.
  - The lemmas beside them state what a whole run leaves behind.
  - `CleanTwice` and `SecondRun` describe a second run over what a first run left. It fails when the first run emptied the georeference table. It also fails when a chemistry table was read without rows, because the first run wrote that table back without columns. Otherwise it deletes nothing and writes every table again without change, except that a table left without rows is written back without columns. A third run then fails on that file. So what a run leaves is a fixed point of `main` exactly when every table it leaves has a row.

The model follows the code in four places where a reader might expect otherwise:

- `prep_csv` returns the identifiers the table held *before* filtering (cleaning.py:25, 31). `Tables.PreOrPostFilterSameMissing` shows that for one table either choice gives the same missing identifiers. `Cleaning.AccumulatedPreOrPostFilter` shows the same for the union over the loop, so the final deletions are the same either way.
- `list_icrs` lists below `Dry_Chemistry/ICRAF` (cleaning.py:60), but `remove_unpaired` deletes directly below the dataset root (cleaning.py:18). `Tree.RootPruningKeepsListing` shows that these deletions never change the listing.
- `prep_csv` writes a table read without rows as a file with no columns (cleaning.py:28-30). On such a table, `apply` yields an empty Series of objects. `df[...]` takes that for a list of column labels rather than a boolean mask, so it selects no column. `Tables.KeptRows` writes `NoColumns` in this case. `Tables.ReadCsv` fails with EmptyFile on such a file, because pandas finds no columns to parse. The georeference table keeps its header even when no row is inside, because its mask on line 47 is built row by row over a table that has a row.
- The georeference table is one of the tables unioned into `wetchem_ssns` (cleaning.py:64). Because of this, the final pruning deletes nothing that survived the georeference pruning; see "Findings".

## Model

| member | source | states |
|---|---|---|
| Tree.LastDot | cleaning.py:13 | the index of the last '.' of a name, or -1 when the name has none; no '.' follows it |
| Tree.Stem | cleaning.py:13 | the stem is a prefix of the name; when it is shorter, a '.' follows it, no later '.' exists, and neither the stem nor the suffix is empty |
| Tree.StemOfSuffixed | cleaning.py:13 | the stem of `base.ext` is `base` when `ext` has no '.' |
| Tree.DirectlyInSpectraDir | cleaning.py:18 | an entry matches `Bruker*/*` iff it matches `Bruker*/**/*` and lies exactly two levels below base |
| Tree.SpectraGlobNesting | cleaning.py:13-18 | `**` spans any number of directories: an entry matches `Bruker*/**/*` iff it matches `Bruker*/*` or its parent directory, deeper than that, does |
| Tree.ListIcrs | cleaning.py:12-14 | an identifier is listed iff it is the stem of a regular file at any depth inside a `Bruker*` directory below the base |
| Tree.ListIcrsAtMostEntries | cleaning.py:13-14 | collapsing stems into a set never gives more identifiers than there are entries |
| Tree.Pruned | cleaning.py:17-20 | the kept tree is a subset; it holds no regular file directly in a `Bruker*` directory whose stem is to be removed, and it keeps every other entry |
| Tree.PrunedTwice | cleaning.py:17-20 | pruning by S and then by T is pruning by S ∪ T |
| Tree.PrunedToBoth | cleaning.py:71-82 | pruning opus − S and then opus − T is pruning opus − (S ∩ T); every listed spectrum left has its identifier in both S and T |
| Tree.PrunedAbsorbs | cleaning.py:71-82 | when S ⊆ T, pruning opus − T after opus − S deletes nothing more |
| Tree.PrunedAgain | cleaning.py:52-56 | pruning the spectra of opus missing from S, then again those missing from S ∩ opus, deletes nothing more |
| Tree.RootPruningKeepsListing | cleaning.py:60 | deleting at the dataset root never changes the spectra listed below Dry_Chemistry/ICRAF, whatever the identifiers |
| Tables.Filter | cleaning.py:28-30 | the kept rows are among the rows, all satisfy the mask, and there are no more of them |
| Tables.FilterMultiset | cleaning.py:28-30 | the mask keeps each row that satisfies it exactly as often as the table holds it, and no other row |
| Tables.FilterKeepsAll | cleaning.py:28-30 | every row that satisfies the mask is kept |
| Tables.FilterIsSubsequence | cleaning.py:30 | the kept rows keep their original order |
| Tables.FilterIdempotent | cleaning.py:30 | applying the same mask twice keeps the same rows as once |
| Tables.FilterKeepsEvery | cleaning.py:47-49 | a mask that every row satisfies keeps every row, in order |
| Tables.Rename | cleaning.py:24 | renaming maps each label in the renaming to its image, leaves the others, and keeps the number of columns |
| Tables.NoRenaming | cleaning.py:23-24 | the default empty renaming leaves the header unchanged |
| Tables.FirstIndex | cleaning.py:25 | the position of the first column carrying a label, or the header length when none does |
| Tables.ColumnIndex | cleaning.py:25 | the lookup succeeds exactly when the label is present and no two columns carry it, and then gives the one column carrying it; it fails with MissingColumn exactly when no column carries it, and otherwise with DuplicateColumn |
| Tables.SsnsOf | cleaning.py:25 | `set(df['SSN'])` (here and on line 54) succeeds exactly when the SSN lookup does, and fails with the lookup's error |
| Tables.SsnsOfRows | cleaning.py:25 | an identifier is in the SSN set iff some row carries it in the SSN column |
| Tables.Reconciled | cleaning.py:23-31 | prep_csv succeeds exactly when the renamed header has one SSN column, and otherwise fails with the lookup's error; a table read with rows is written under the renamed header with no more rows than it read; a table read without rows is written with no columns, and no identifier is returned |
| Tables.KeptValues | cleaning.py:28-31 | the identifiers left after masking by ids are the old identifiers that are in ids |
| Tables.KeptRows | cleaning.py:28-30 | a table with rows keeps its header and at most its rows, and the SSNs written are exactly its old SSNs that are in opus; a table without rows is written with neither columns nor rows |
| Tables.KeptRowsIdempotent | cleaning.py:28-30 | a table with rows keeps its SSN column; keeping the rows with SSN in opus a second time changes nothing when a row was kept, and writes a table without columns when none was |
| Tables.ReconciledSpec | cleaning.py:23-31 | prep_csv fails exactly when the renamed header lacks SSN or has it twice; it returns the pre-filter SSN set; a table read without rows is written with no columns and returns no identifier; a table read with rows is written under the renamed header with exactly the rows whose SSN is in opus, in order and each as often as in the table read, its rows stay well-formed, and it holds exactly the part of the returned set that is in opus |
| Tables.ReconciledIdempotent | cleaning.py:23-31 | with the default renaming, the written table can be reconciled again exactly when the table read had a row; the second pass writes the same table when a row was kept, and a table without columns when none was |
| Tables.PreOrPostFilterSameMissing | cleaning.py:25-31 | the identifiers of opus missing from the table are the same whether judged before or after filtering |
| Tables.RenamedTableExample | cleaning.py:77 | a table keyed by "ICRAF ID", renamed to SSN, keeps its referenced row and reports both identifiers |
| Geo.AnyContains | cleaning.py:38 | true iff some geometry of the boundary contains the point |
| Geo.RowInside | cleaning.py:33-38 | true iff some boundary geometry contains the point (longitude, latitude) of the row, longitude first |
| Geo.InsideMask | cleaning.py:47 | the mask keeps a row iff some boundary geometry contains its point (longitude, latitude); a row without both cells is dropped |
| Geo.InsideBoundary | cleaning.py:41-49 | clean_georefs succeeds exactly when the table has a row and one Latitude and one Longitude column, and otherwise fails with NoRows or that lookup's error; it keeps the header and no more rows than it read |
| Geo.InsideBoundarySpec | cleaning.py:41-49 | an empty table fails on its first row; a missing Latitude column fails, and then a missing Longitude column; otherwise the header stays and a well-formed table keeps exactly its rows inside the boundary, in order and each as often as in the table read |
| Geo.InsideBoundaryIdempotent | cleaning.py:41-49 | filtering the filtered table again changes nothing, as long as some row was kept |
| Geo.InsideBoundaryKeepsInside | cleaning.py:41-49 | a table with a row and the coordinate columns whose rows all lie inside the boundary comes through the filter unchanged |
| Geo.InsideBoundaryOfKept | cleaning.py:41-49 | rows kept by any mask from the filtered table come through the filter again unchanged, as long as one is kept |
| Geo.SecondRunOnEmptiedTableFails | cleaning.py:45 | when no row was inside, a second run fails on the empty table |
| Cleaning.AccumulatedStep | cleaning.py:79 | one more table adds its SSNs to the union when it is counted |
| Cleaning.Accumulated | cleaning.py:79 | the union over the first n tables holds what each of them returns |
| Cleaning.AccumulatedFrom | cleaning.py:79 | every identifier in the union over the first n tables was returned by one of them |
| Cleaning.ReturnedKept | cleaning.py:25-31 | after a table is reconciled, the identifiers it returns are those it returned before, restricted to opus |
| Cleaning.AccumulatedPreOrPostFilter | cleaning.py:79-81 | once every table is reconciled (prep_csv returning its SSNs before filtering, line 25), an identifier of opus is in the union of the tables after filtering iff it is in the union before, so opus − union is the same either way |
| Cleaning.AccumulatedGrows | cleaning.py:79 | the union over a longer prefix of the list holds the union over a shorter one: wetchem_ssns only grows |
| Cleaning.AccumulatedAgree | cleaning.py:74-79 | the union depends only on the tables of the list |
| Cleaning.AccumulatedPrepend | cleaning.py:64-79 | the union over a list headed by p is what p returns together with the union over the rest |
| Cleaning.ReconciledWithoutRenaming | cleaning.py:79 | with the default renaming, prep_csv succeeds iff the table has one SSN column; it then writes the rows with SSN in opus and returns the table's SSNs |
| Cleaning.PrepFrame | cleaning.py:74-79 | reconciling the table at paths[i] leaves every table not yet processed as it was |
| Cleaning.PrepStep | cleaning.py:74-79 | reconciling the table at paths[i] keeps every table already processed reconciled, and adds it |
| Cleaning.LoopStart | cleaning.py:74 | before the loop nothing is reconciled, every table is as it was and wetchem_ssns is empty |
| Cleaning.LoopStep | cleaning.py:75-79 | one turn of the loop takes its state from i tables done to i + 1: the table at paths[i] now holds its kept rows and its SSNs join the union when counted |
| Cleaning.LoopDone | cleaning.py:74-79 | once the loop has run to its end, every table of the list holds its kept rows, every other table is as it was, and the result is the union over the counted tables |
| Cleaning.LoopStopped | cleaning.py:74-79 | wherever the loop stops, every table is as it was or, being on the list, holds its rows with SSN in opus |
| Cleaning.AccumulateStep | cleaning.py:79 | after the table at paths[i], wetchem_ssns is the union over the first i+1 tables |
| Cleaning.PathsDistinct | cleaning.py:64-67 | the four paths are distinct, the georeference table first and apart from the chemistry tables |
| Cleaning.PathsCounted | cleaning.py:64-67 | the georeference table counts toward the union of all tables but not toward that of the chemistry tables |
| Cleaning.GeorefsUnion | cleaning.py:64-79 | after the georeference table is replaced, the union over the paths is its SSNs (when counted) together with the union over the untouched chemistry tables |
| Cleaning.ReconciledWithin | cleaning.py:74-81 | after the loop, every counted table holds only SSNs that are both spectra and in the union, or was written without columns |
| Cleaning.ReconciledOutcome | cleaning.py:70-81 | the union the loop returns is the filtered georeference SSNs (when counted) plus the chemistry union; every counted table ends within opus ∩ union, or without columns |
| Cleaning.FinalTables | cleaning.py:70-79 | once the georeference table is replaced by its filtered form and the list reconciled, the georeference table holds the filtered rows with SSN in opus, every chemistry table holds its rows with SSN in opus, and every other table is as it was |
| Cleaning.CleanedTablesUnique | cleaning.py:70-79 | the final tables of main are determined by the tables read, the filtered georeference table and opus, once their paths are known |
| Cleaning.RewrittenFixed | cleaning.py:28-30 | rewriting the tables a run left changes nothing exactly when every chemistry table has a row |
| Cleaning.RewrittenAgain | cleaning.py:70-79 | a run over tables it already reconciled, whose boundary filter returned the georeference table unchanged, writes exactly the rewritten tables |
| Cleaning.TablesAgain | cleaning.py:70-79 | every table of the list that main leaves has an SSN column exactly when main did not write it without columns; when every one has it, reconciling them again, georeference table included, writes each table left without rows back without columns and leaves every other table as it is |
| Cleaning.SecondRun | cleaning.py:59-82 | on what a first run left, a second run lists the same spectra; each table of the list has an SSN column unless it was written without columns; the georeference table passes the boundary filter exactly when it has a row, and then comes out unchanged holding the georeference SSNs that are in opus, and pruning by those SSNs deletes nothing; when every table of the list has an SSN column, reconciling rewrites the tables left without rows as tables without columns and leaves every other table as it is |
| Cleaning.StillReconcilable | cleaning.py:47-49 | filtering the georeference table keeps its columns, so when every table of the list has an SSN column before the georeference stage, it still has after it |
| Cleaning.StoppedAtGeorefs | cleaning.py:70-71 | when the georeference stage fails, nothing is deleted and the georeference table is as it was, or filtered when only the SSN lookup failed |
| Cleaning.StoppedInLoop | cleaning.py:74-79 | when the loop fails after the georeference stage, the georeference pruning is done and every table is as the georeference stage left it or reconciled |
| Cleaning.AsWrittenOutcome | cleaning.py:64-81 | as written, wetchem_ssns is the georeference SSNs plus the chemistry union, so it contains every georeference SSN |
| Cleaning.IntendedOutcome | cleaning.py:64-81 | counting only the chemistry tables, the union is exactly the chemistry union and every chemistry table ends within opus ∩ union, or without columns |
| Cleaning.GeoreferencedSpectrumSurvives | cleaning.py:64-82 | a spectrum with a georeference but no chemistry row survives both prunings as written, and is deleted when only chemistry counts |
| Cleaning.DeadRenameBranch | cleaning.py:76-77 | no path of the list has stem `wet_chemistry_new.csv`, so the renaming branch never runs |
| Cleaning.ChemistryNotRenamed | cleaning.py:65-67 | no chemistry table has that stem |
| Cleaning.StemIsNotRenamed | cleaning.py:76 | a name without '.' at index 17 never has that stem |
| Cleaning.Dataset.RemoveUnpaired | cleaning.py:17-20 | deleting one entry at a time leaves exactly the pruned tree; the tables are unchanged |
| Cleaning.Dataset.PrepCsv | cleaning.py:23-31 | a missing file fails with NotFound and a file without columns with EmptyFile; a lookup failure on the renamed header is returned; nothing changes on an error; a table whose renamed header has one SSN column succeeds, is overwritten with the reconciled table, and the pre-filter SSN set is returned |
| Cleaning.Dataset.PrepCsvWithoutRenaming | cleaning.py:79 | the same, with the default renaming: a missing file or one without columns fails as the read does; it succeeds iff the table exists and has one SSN column; the table becomes its rows with SSN in opus, or no columns when it had no row, and the result is its SSN set |
| Cleaning.Dataset.CleanGeorefs | cleaning.py:41-49 | a missing file fails with NotFound and a file without columns with EmptyFile; a failure of the filter is returned and nothing changes; a table with a row and one Latitude and one Longitude column succeeds and is overwritten with its rows inside the boundary |
| Cleaning.Dataset.RemoveOpusWithoutGeorefs | cleaning.py:52-56 | a missing table, a file without columns or a missing SSN column is returned and nothing is deleted; otherwise the tree becomes the pruning of opus − georeference SSNs |
| Cleaning.Dataset.ReconcileNext | cleaning.py:75-79 | one turn of the loop keeps the loop state: tables not yet done are unchanged, tables done are reconciled, the result is the union so far; a table with an SSN column succeeds, and an error leaves the tables as they were |
| Cleaning.Dataset.ReconcileTables | cleaning.py:74-79 | it succeeds when every table of the list exists with an SSN column; on success every table of the list is reconciled against opus, the others are unchanged, the files are untouched, and the result is the union over the counted tables; on an error the files are untouched and every table is as it was or, being on the list, reconciled |
| Cleaning.Dataset.GeorefStage | cleaning.py:70-71 | it succeeds when the georeference table exists, has an SSN column and passes the boundary filter; on success the georeference table is filtered by the boundary, and the spectra of opus without a georeference left are deleted; on an error nothing is deleted; a failed read (NotFound, EmptyFile) and a filter failure return their own error and leave the tables as they were; a missing SSN column fails with its lookup error after the table was filtered |
| Cleaning.Dataset.ChemistryStage | cleaning.py:74-82 | it succeeds when every table of the list exists with an SSN column; on success every table of the list is reconciled and the others are unchanged, the result is the union over the counted tables, and the spectra of opus outside it are deleted; on an error nothing is deleted and every table is as it was or, being on the list, reconciled |
| Cleaning.Dataset.Clean | cleaning.py:59-82 | main as written: opus is the listing; it succeeds when every table exists with an SSN column and the georeference table passes the boundary filter; the georeference table ends as its filtered rows with SSN in opus, each chemistry table as its rows with SSN in opus, every other table as it was; wetchem_ssns is the georeference SSNs plus the chemistry union; every table ends within opus ∩ wetchem_ssns or without columns; the final tree is the two prunings in turn, which equals the georeference pruning alone; on an error it stops where the script raises: when the georeference stage fails nothing is deleted and the georeference table is as it was, or filtered when only its SSN lookup failed; when the loop fails the georeference pruning is done and every table is as that stage left it or reconciled |
| Cleaning.Dataset.CleanIntended | cleaning.py:59-82 | main with only chemistry counted: the same success condition and final tables as Clean; every chemistry table ends within opus ∩ chemistry union or without columns; the final tree is the pruning of opus − (georeference SSNs ∩ chemistry union), and every spectrum of opus left has both a georeference and a chemistry row; on an error it stops as Clean does |
| Cleaning.Dataset.CleanTwice | cleaning.py:59-82 | main run twice: after a successful first run, the second lists the same spectra; it succeeds exactly when the georeference table left has a row and no chemistry table was left without columns; it then deletes no file and writes the tables left without rows back without columns, so the tables stay as they are exactly when every chemistry table left has a row |

## Left out

- Reading and writing CSV: tables are values in a map from path to table. A file without columns is the one read failure modelled (EmptyFile). Parsing, quoting, pandas' type inference (an SSN read as a number, or as NaN for an empty cell) and the write itself are not modelled; cells are text and compared as text.
- Rows with fewer cells than the header: the class invariant `Valid` requires every row to have one cell per column, as a table read by pandas has.
- Tables.ColumnIndex: a header that carries SSN twice after renaming fails with DuplicateColumn, and so does the script. `df['SSN']` is then a frame of two columns. Line 25 collects its column labels rather than SSNs, and the mask on line 28 hashes whole columns, which raises TypeError before anything is written.
- Labels repeated in the file itself: pandas' `read_csv` renames a repeated label to `Latitude.1` and so on, and the script goes on with the first column. The model reads the header as given and fails with DuplicateColumn.
- The shapefile (cleaning.py:43, 70): it is read from a hard-coded path that the model does not use. The boundary is a sequence of geometries and containment (shapely's `contains`) is a parameter, so edge points and a missing or unreadable shapefile are not modelled.
- Coordinates stay text in `Point`; their conversion to floating point is not modelled.
- Printing and progress bars (cleaning.py:26-29, 44-45, tqdm): left out. The `iloc[0]` on line 45 is kept as the NoRows failure of an empty table.
- The command line (cleaning.py:84-86) and the dataset root: entries are relative to the root. A missing root is not modelled; its listing would be empty.
- Glob and deletion order: files are a set, and the final tree does not depend on the order.
- Failures to delete or write (IOError): not modelled; every deletion and write succeeds.
- The renaming branch (cleaning.py:76-77) is not part of the loop, because `Cleaning.DeadRenameBranch` proves it never runs. It would call `prep_csv` without its second argument. The renaming itself is modelled by `PrepCsv` and `Tables.Reconciled`.

## Findings

| source | as written | input that shows it | evidently intended | confidence | as-written member | corrected member |
|---|---|---|---|---|---|---|
| cleaning.py:64-82 | `paths` puts Georeferences/georeferences.csv in the loop whose returned SSNs are unioned into `wetchem_ssns`. Every spectrum that survived the georeference pruning is therefore in `wetchem_ssns`, and the chemistry pruning deletes nothing | spectra A, B, C, D; georeference rows for A, B, C inside the boundary and D outside; chemistry rows only for A and C: B keeps its spectrum (`Cleaning.GeoreferencedSpectrumSurvives`) | only the chemistry tables count toward `wetchem_ssns`, so B is deleted and {A, C} survive | medium, not executed | Cleaning.Dataset.Clean | Cleaning.Dataset.CleanIntended |
