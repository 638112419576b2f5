/**
 * The run over all files in `main` of scripts/replace_hardcoded_colors.py, given the
 * contents of the files in the order they are visited: every file is processed, and
 * the summary counts the replacements, the files with at least one, and the names
 * written that the palette is not assumed to define yet.
 */
module RunSummary {
  import opened Text
  import opened Palette
  import opened LineRewrite
  import opened FileRewrite

  /** The totals the run reports at its end. */
  datatype Summary = Summary(totalChanges: nat, filesChanged: nat, newConstants: set<string>)

  /** A name whose last segment is not among the suffixes the palette already has. */
  predicate IsNew(name: string) {
    LastSegment(name) !in AllowList
  }

  /** Some change of `cs` writes a new line holding `name`. */
  predicate Holds(cs: seq<Change>, name: string) {
    exists c :: c in cs && Occurs(c.rewritten, name)
  }

  /** Some change of some file writes a new line holding `name`. */
  predicate AnyHolds(results: seq<seq<Change>>, name: string) {
    exists i :: 0 <= i < |results| && Holds(results[i], name)
  }

  /** The table's new names that some new line of `cs` holds. */
  function NeededBy(table: map<string, string>, cs: seq<Change>): set<string> {
    set v | v in table.Values && IsNew(v) && Holds(cs, v)
  }

  /** The summary of a run whose files yielded `results`, in order. A file without
      changes adds nothing; one with changes adds their number to the total, one to the
      files changed, and the names its new lines need. */
  function Summarize(table: map<string, string>, results: seq<seq<Change>>): (s: Summary)
    ensures s.filesChanged <= |results|
    ensures s.filesChanged <= s.totalChanges
    ensures s.totalChanges == 0 <==> s.filesChanged == 0
    ensures forall v :: v in s.newConstants ==> v in table.Values && IsNew(v)
  {
    if |results| == 0 then Summary(0, 0, {})
    else
      var prev := Summarize(table, results[..|results| - 1]);
      var cs := results[|results| - 1];
      if |cs| == 0 then prev
      else Summary(prev.totalChanges + |cs|, prev.filesChanged + 1, prev.newConstants + NeededBy(table, cs))
  }

  /** The results of processing every file. */
  function Results(table: map<string, string>, contents: seq<string>, dryRun: bool): (rs: seq<seq<Change>>)
    ensures |rs| == |contents|
    ensures forall i :: 0 <= i < |contents| ==> rs[i] == ProcessFile(table, contents[i], dryRun).changes
  {
    seq(|contents|, i requires 0 <= i < |contents| => ProcessFile(table, contents[i], dryRun).changes)
  }

  /** The whole run: every file processed, then summarised. */
  function Run(table: map<string, string>, contents: seq<string>, dryRun: bool): Summary {
    Summarize(table, Results(table, contents, dryRun))
  }

  // ---------------------------------------------------------------------------------
  // Reference definitions of the totals
  // ---------------------------------------------------------------------------------

  /** All the changes of all files, one after the other. */
  function Flatten(results: seq<seq<Change>>): seq<Change> {
    if |results| == 0 then [] else Flatten(results[..|results| - 1]) + results[|results| - 1]
  }

  /** The indices below `n` of the files with at least one change. */
  function ChangedFiles(results: seq<seq<Change>>, n: nat): set<nat>
    requires n <= |results|
  {
    set i: nat | i < n && |results[i]| > 0
  }

  /** Adding one more file to the files considered adds its index exactly when it has
      changes. */
  lemma ChangedFilesStep(results: seq<seq<Change>>, n: nat)
    requires n < |results|
    ensures |results[n]| > 0 ==> ChangedFiles(results, n + 1) == ChangedFiles(results, n) + {n}
    ensures |results[n]| == 0 ==> ChangedFiles(results, n + 1) == ChangedFiles(results, n)
    ensures n !in ChangedFiles(results, n)
  {
  }

  /** The total counts every change of every file, and the files changed are those
      with at least one change. */
  lemma {:induction false} SummaryCounts(table: map<string, string>, results: seq<seq<Change>>)
    ensures Summarize(table, results).totalChanges == |Flatten(results)|
    ensures Summarize(table, results).filesChanged == |ChangedFiles(results, |results|)|
    decreases |results|
  {
    if |results| > 0 {
      var n := |results| - 1;
      var prefix: seq<seq<Change>> := results[..n];
      SummaryCounts(table, prefix);
      ChangedFilesStep(results, n);
      assert ChangedFiles(prefix, n) == ChangedFiles(results, n);
    }
  }

  /** Some file of `results` holds `name` exactly when one before the last does or the
      last does. */
  lemma AnyHoldsStep(results: seq<seq<Change>>, name: string)
    requires |results| > 0
    ensures AnyHolds(results, name) <==>
      AnyHolds(results[..|results| - 1], name) || Holds(results[|results| - 1], name)
  {
    var prefix := results[..|results| - 1];
    if AnyHolds(results, name) {
      var i :| 0 <= i < |results| && Holds(results[i], name);
      if i < |prefix| {
        assert prefix[i] == results[i];
      }
    }
    if AnyHolds(prefix, name) {
      var i :| 0 <= i < |prefix| && Holds(prefix[i], name);
      assert results[i] == prefix[i];
    }
  }

  /** A name is needed exactly when it is a new name of the table that the new line of
      some change of some file holds. */
  lemma {:induction false} SummaryNewConstants(table: map<string, string>, results: seq<seq<Change>>, v: string)
    ensures v in Summarize(table, results).newConstants <==>
      v in table.Values && IsNew(v) && AnyHolds(results, v)
    decreases |results|
  {
    if |results| > 0 {
      SummaryNewConstants(table, results[..|results| - 1], v);
      AnyHoldsStep(results, v);
    }
  }

  /** Every needed name has at least one key in the table, so the suggestion printed
      for it has a colour to show. */
  lemma NeededHaveKeys(table: map<string, string>, results: seq<seq<Change>>, v: string)
    requires v in Summarize(table, results).newConstants
    ensures exists k :: k in table && table[k] == v
  {
  }

  // ---------------------------------------------------------------------------------
  // The run
  // ---------------------------------------------------------------------------------

  /** A dry run reports exactly what a real run reports: the flag only decides whether
      files are written. */
  lemma RunDryRunSame(table: map<string, string>, contents: seq<string>)
    ensures Run(table, contents, true) == Run(table, contents, false)
  {
    forall i | 0 <= i < |contents|
      ensures ProcessFile(table, contents[i], true).changes == ProcessFile(table, contents[i], false).changes
    {
      ProcessChangesDryRun(table, contents[i]);
    }
    assert Results(table, contents, true) == Results(table, contents, false);
  }

  /** With the rewriter's own table, the only name ever reported as needed is
      `AppColors.surfaceTint`. */
  lemma OnlySurfaceTintNeeded(contents: seq<string>, dryRun: bool)
    ensures Run(ColorMap, contents, dryRun).newConstants <= {Name(SurfaceTint)}
  {
    OnlySurfaceTintIsNew();
    forall v | v in Run(ColorMap, contents, dryRun).newConstants
      ensures v == Name(SurfaceTint)
    {
      var k :| k in ColorMap && ColorMap[k] == v;
    }
  }

  /** The run's loop: files visited in order, each with changes counted and its
      needed names collected. */
  method Tally(table: map<string, string>, results: seq<seq<Change>>) returns (total: nat, files: nat, needed: set<string>)
    ensures total == |Flatten(results)|
    ensures files == |ChangedFiles(results, |results|)|
    ensures Summary(total, files, needed) == Summarize(table, results)
  {
    total, files, needed := 0, 0, {};
    var i := 0;
    while i < |results|
      invariant i <= |results|
      invariant Summary(total, files, needed) == Summarize(table, results[..i])
    {
      var cs := results[i];
      if |cs| > 0 {
        files := files + 1;
        total := total + |cs|;
        needed := needed + NeededBy(table, cs);
      }
      assert results[..i + 1][..i] == results[..i];
      i := i + 1;
    }
    assert results[..i] == results;
    SummaryCounts(table, results);
  }
}
