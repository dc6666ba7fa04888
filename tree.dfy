/**
 * The dataset's directory tree as a set of entries, the identifiers (SSNs) read off
 * spectrum file names, and the pruning of spectrum files by identifier.
 */
module Tree {
  import opened Outcomes

  /** An entry of the tree: its path relative to the dataset root and whether it is a regular file. */
  datatype Entry = Entry(path: Path, isFile: bool)

  /** Spectrum directories are the ones whose name starts with this prefix. */
  const SpectraDirPrefix: string := "Bruker"

  /** The directory below which spectra are listed. */
  const SpectraBase: Path := ["Dry_Chemistry", "ICRAF"]

  /** The dataset root, below which spectra are deleted. */
  const DatasetRoot: Path := []

  predicate StartsWith(s: string, prefix: string) {
    |prefix| <= |s| && s[..|prefix|] == prefix
  }

  /** The last component of an entry's path. */
  function Name(e: Entry): string
    requires |e.path| > 0
  {
    e.path[|e.path| - 1]
  }

  /** The index of the last '.' of a name, or -1 when it has none. */
  function LastDot(name: string): (i: int)
    ensures -1 <= i < |name|
    ensures i >= 0 ==> name[i] == '.'
    ensures forall k | i < k < |name| :: name[k] != '.'
  {
    if |name| == 0 then -1
    else if name[|name| - 1] == '.' then |name| - 1
    else LastDot(name[..|name| - 1])
  }

  /**
   * A file name without its last suffix: the part before the last '.', unless that '.'
   * is the first or the last character, in which case the whole name.
   */
  function Stem(name: string): (stem: string)
    ensures stem <= name
    ensures stem != name ==> 0 < |stem| < |name| - 1 && name[|stem|] == '.'
    ensures stem != name ==> forall k | |stem| < k < |name| :: name[k] != '.'
  {
    var i := LastDot(name);
    if 0 < i < |name| - 1 then name[..i] else name
  }

  // Matched by the pattern 'Bruker*/**/*' below base: at any depth inside a spectrum directory.
  predicate InSpectraDir(e: Entry, base: Path) {
    |e.path| >= |base| + 2 && e.path[..|base|] == base && StartsWith(e.path[|base|], SpectraDirPrefix)
  }

  // Matched by the pattern 'Bruker*/*' below base: directly inside a spectrum directory.
  predicate DirectlyInSpectraDir(e: Entry, base: Path): (matched: bool)
    ensures matched <==> InSpectraDir(e, base) && |e.path| == |base| + 2
  {
    |e.path| == |base| + 2 && e.path[..|base|] == base && StartsWith(e.path[|base|], SpectraDirPrefix)
  }

  /** The directory holding an entry, as a directory entry. */
  function Parent(e: Entry): Entry
    requires |e.path| > 0
  {
    Entry(e.path[..|e.path| - 1], false)
  }

  // The '**' of the listing pattern spans any number of directories: an entry matches when it
  // is directly inside a spectrum directory or when its parent directory matches.
  lemma SpectraGlobNesting(e: Entry, base: Path)
    ensures InSpectraDir(e, base) <==>
      DirectlyInSpectraDir(e, base) || (|e.path| > |base| + 2 && InSpectraDir(Parent(e), base))
  {
    if |e.path| > |base| + 2 {
      var parent := Parent(e);
      assert parent.path[..|base|] == e.path[..|base|];
      assert parent.path[|base|] == e.path[|base|];
    }
  }

  /** A regular file directly inside a spectrum directory below base whose stem is one of ids. */
  predicate Unpaired(e: Entry, base: Path, ids: set<string>) {
    e.isFile && DirectlyInSpectraDir(e, base) && Stem(Name(e)) in ids
  }

  /** The identifiers of the spectra below base: the stems of the regular files at any depth in its spectrum directories. */
  function ListIcrs(files: set<Entry>, base: Path): (ids: set<string>)
    ensures forall e | e in files && e.isFile && InSpectraDir(e, base) :: Stem(Name(e)) in ids
    ensures forall id | id in ids :: exists e :: e in files && e.isFile && InSpectraDir(e, base) && Stem(Name(e)) == id
  {
    set e | e in files && e.isFile && InSpectraDir(e, base) :: Stem(Name(e))
  }

  /** The tree once every unpaired file below base has been deleted. */
  function Pruned(files: set<Entry>, base: Path, ids: set<string>): (kept: set<Entry>)
    ensures kept <= files
    ensures forall e | e in kept :: !Unpaired(e, base, ids)
    ensures forall e | e in files && !Unpaired(e, base, ids) :: e in kept
  {
    set e | e in files && !Unpaired(e, base, ids)
  }

  /** Stripping a suffix: the stem of "base.ext" is base when base is not empty and ext has no '.'. */
  lemma StemOfSuffixed(base: string, ext: string)
    requires |base| > 0 && |ext| > 0 && '.' !in ext
    ensures Stem(base + "." + ext) == base
  {
    var name := base + "." + ext;
    var i := LastDot(name);
    assert name[|base|] == '.';
    assert name[..|base|] == base;
  }


  /** Several files with one stem give one identifier: there are never more identifiers than entries. */
  lemma {:induction false} ListIcrsAtMostEntries(files: set<Entry>, base: Path)
    ensures |ListIcrs(files, base)| <= |files|
  {
    if files != {} {
      var e :| e in files;
      var rest := files - {e};
      ListIcrsAtMostEntries(rest, base);
      if e.isFile && InSpectraDir(e, base) {
        assert ListIcrs(files, base) == ListIcrs(rest, base) + {Stem(Name(e))};
      } else {
        assert ListIcrs(files, base) == ListIcrs(rest, base);
      }
    }
  }

  /** Pruning by S and then by T is pruning by S + T. */
  lemma PrunedTwice(files: set<Entry>, base: Path, s: set<string>, t: set<string>)
    ensures Pruned(Pruned(files, base, s), base, t) == Pruned(files, base, s + t)
  {
  }

  /**
   * Pruning the identifiers of opus missing from s, then those missing from t, leaves exactly
   * the spectra of opus whose identifier both s and t hold.
   */
  lemma PrunedToBoth(files: set<Entry>, base: Path, opus: set<string>, s: set<string>, t: set<string>)
    ensures Pruned(Pruned(files, base, opus - s), base, opus - t) == Pruned(files, base, opus - (s * t))
    ensures forall e | e in Pruned(files, base, opus - (s * t)) && e.isFile && DirectlyInSpectraDir(e, base) && Stem(Name(e)) in opus ::
      Stem(Name(e)) in s && Stem(Name(e)) in t
  {
    PrunedTwice(files, base, opus - s, opus - t);
    assert (opus - s) + (opus - t) == opus - (s * t);
  }

  /** When t holds every identifier of s, pruning opus - t after opus - s deletes nothing more. */
  lemma PrunedAbsorbs(files: set<Entry>, base: Path, opus: set<string>, s: set<string>, t: set<string>)
    requires s <= t
    ensures Pruned(Pruned(files, base, opus - s), base, opus - t) == Pruned(files, base, opus - s)
  {
    PrunedTwice(files, base, opus - s, opus - t);
    assert (opus - s) + (opus - t) == opus - s;
  }

  /** Pruning the spectra of opus missing from s, then again those of opus missing from s ∩ opus, deletes nothing more. */
  lemma PrunedAgain(files: set<Entry>, base: Path, opus: set<string>, s: set<string>)
    ensures Pruned(Pruned(files, base, opus - s), base, opus - s * opus) == Pruned(files, base, opus - s)
  {
    assert opus - s * opus == opus - s;
    PrunedTwice(files, base, opus - s, opus - s);
    assert (opus - s) + (opus - s) == opus - s;
  }

  /** Deleting at the dataset root never removes a spectrum listed below Dry_Chemistry/ICRAF. */
  lemma RootPruningKeepsListing(files: set<Entry>, ids: set<string>)
    ensures ListIcrs(Pruned(files, DatasetRoot, ids), SpectraBase) == ListIcrs(files, SpectraBase)
  {
    var kept := Pruned(files, DatasetRoot, ids);
    forall e | e in files && e.isFile && InSpectraDir(e, SpectraBase)
      ensures e in kept
    {
      assert e.path[0] == "Dry_Chemistry";
      assert "Dry_Chemistry"[0] != SpectraDirPrefix[0];
      assert !StartsWith(e.path[0], SpectraDirPrefix);
    }
  }
}
