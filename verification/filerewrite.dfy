/**
 * `process_file` of scripts/replace_hardcoded_colors.py as a pure function of the
 * file's content, the colour table and the dry-run flag: the content is split into
 * lines, each line is rewritten, a change is recorded for every line that differs,
 * and, outside a dry run and only when something changed, the new content is what
 * would be written back, with the core import inserted when it is missing.
 */
module FileRewrite {
  import opened Wrappers
  import opened Text
  import opened Matcher
  import opened Palette
  import opened LineRewrite

  /** The text whose presence anywhere in the new content means the import is there. */
  const CorePackage: string := "package:core/core.dart"

  /** The declaration added to a file that does not yet mention the core package:
      `import 'package:core/core.dart';`. */
  const ImportLine: string := "import '" + CorePackage + "';"

  /** What a line must start with to count as an import declaration. */
  const ImportKeyword: string := "import "

  /** One recorded change: the 1-based line number, then the old and the new line, both
      stripped of surrounding whitespace. */
  datatype Change = Change(lineNo: nat, original: string, rewritten: string)

  /** What processing a file yields: its changes, and the content written back, if any. */
  datatype Outcome = Outcome(changes: seq<Change>, written: Option<string>)

  /** Every line rewritten on its own. */
  function RewriteLines(table: map<string, string>, lines: seq<string>): (out: seq<string>)
    ensures |out| == |lines|
    ensures forall i :: 0 <= i < |lines| ==> out[i] == RewriteLine(table, lines[i])
  {
    seq(|lines|, i requires 0 <= i < |lines| => RewriteLine(table, lines[i]))
  }

  /** The change recorded for the line numbered `n` (counting from 1): the number and
      both the old and the new line stripped. */
  function Record(lines: seq<string>, out: seq<string>, n: nat): (c: Change)
    requires |out| == |lines| && 1 <= n <= |lines|
    ensures c.lineNo == n
  {
    Change(n, Strip(lines[n - 1]), Strip(out[n - 1]))
  }

  /** The numbers (counting from 1) of the lines from index `i` on that the rewrite
      changed. */
  function ChangedFrom(lines: seq<string>, out: seq<string>, i: nat): (ns: seq<nat>)
    requires |out| == |lines| && i <= |lines|
    ensures forall k :: 0 <= k < |ns| ==> i < ns[k] <= |lines|
    decreases |lines| - i
  {
    if i == |lines| then []
    else if out[i] != lines[i] then [i + 1] + ChangedFrom(lines, out, i + 1)
    else ChangedFrom(lines, out, i + 1)
  }

  /** The change recorded for each of the numbered lines, in the same order. */
  function Records(lines: seq<string>, out: seq<string>, ns: seq<nat>): (cs: seq<Change>)
    requires |out| == |lines| && forall k :: 0 <= k < |ns| ==> 1 <= ns[k] <= |lines|
    ensures |cs| == |ns| && forall k :: 0 <= k < |ns| ==> cs[k] == Record(lines, out, ns[k])
  {
    seq(|ns|, k requires 0 <= k < |ns| => Record(lines, out, ns[k]))
  }

  /** The first line at or after index `j` that starts with `import `. */
  function FirstImport(lines: seq<string>, j: nat): (r: Option<nat>)
    requires j <= |lines|
    ensures r.Some? ==> j <= r.value < |lines| && StartsWith(lines[r.value], ImportKeyword)
    ensures r.Some? ==> forall k :: j <= k < r.value ==> !StartsWith(lines[k], ImportKeyword)
    ensures r.None? ==> forall k :: j <= k < |lines| ==> !StartsWith(lines[k], ImportKeyword)
    decreases |lines| - j
  {
    if j == |lines| then None
    else if StartsWith(lines[j], ImportKeyword) then Some(j)
    else FirstImport(lines, j + 1)
  }

  /** The import declaration inserted before the first import line, or as the first
      line when there is none. */
  function InsertImport(lines: seq<string>): seq<string> {
    match FirstImport(lines, 0)
    case Some(j) => lines[..j] + [ImportLine] + lines[j..]
    case None => [ImportLine] + lines
  }

  /** The changes recorded for a file whose lines were rewritten into `out`. */
  function Changes(lines: seq<string>, out: seq<string>): seq<Change>
    requires |out| == |lines|
  {
    Records(lines, out, ChangedFrom(lines, out, 0))
  }

  /** The content written back: the rewritten lines joined, with the import inserted
      when they do not mention the core package. */
  function NewContent(out: seq<string>): string {
    var joined := Join(out);
    if Occurs(joined, CorePackage) then joined else Join(InsertImport(out))
  }

  /** The end of `process_file` once every line is rewritten: the changes, and the
      new content written back outside a dry run when at least one line changed. */
  function Finish(lines: seq<string>, out: seq<string>, dryRun: bool): Outcome
    requires |out| == |lines|
  {
    var changes := Changes(lines, out);
    if |changes| > 0 && !dryRun then Outcome(changes, Some(NewContent(out)))
    else Outcome(changes, None)
  }

  /** `process_file`: the content split into lines, every line rewritten, then the
      changes recorded and the new content produced. */
  function ProcessFile(table: map<string, string>, content: string, dryRun: bool): Outcome {
    var lines := Split(content);
    Finish(lines, RewriteLines(table, lines), dryRun)
  }

  // ---------------------------------------------------------------------------------
  // The recorded changes
  // ---------------------------------------------------------------------------------

  /** Every numbered line is one the rewrite changed. */
  lemma {:induction false} ChangedFromSound(lines: seq<string>, out: seq<string>, i: nat)
    requires |out| == |lines| && i <= |lines|
    ensures forall k :: 0 <= k < |ChangedFrom(lines, out, i)| ==>
      out[ChangedFrom(lines, out, i)[k] - 1] != lines[ChangedFrom(lines, out, i)[k] - 1]
    decreases |lines| - i
  {
    if i < |lines| {
      ChangedFromSound(lines, out, i + 1);
      var ns := ChangedFrom(lines, out, i);
      var rest := ChangedFrom(lines, out, i + 1);
      if out[i] != lines[i] {
        assert ns == [i + 1] + rest;
        forall k | 0 < k < |ns|
          ensures out[ns[k] - 1] != lines[ns[k] - 1]
        {
          assert ns[k] == rest[k - 1];
        }
      }
    }
  }

  /** The numbers come in strictly ascending order. */
  lemma {:induction false} ChangedFromAscending(lines: seq<string>, out: seq<string>, i: nat)
    requires |out| == |lines| && i <= |lines|
    ensures forall a, b :: 0 <= a < b < |ChangedFrom(lines, out, i)| ==>
      ChangedFrom(lines, out, i)[a] < ChangedFrom(lines, out, i)[b]
    decreases |lines| - i
  {
    if i < |lines| {
      ChangedFromAscending(lines, out, i + 1);
      var ns := ChangedFrom(lines, out, i);
      var rest := ChangedFrom(lines, out, i + 1);
      if out[i] != lines[i] {
        assert ns == [i + 1] + rest;
        forall a, b | 0 <= a < b < |ns|
          ensures ns[a] < ns[b]
        {
          assert ns[b] == rest[b - 1];
          if a > 0 {
            assert ns[a] == rest[a - 1];
          }
        }
      }
    }
  }

  /** Every line at or after index `i` that the rewrite changed is numbered. */
  lemma {:induction false} ChangedFromComplete(lines: seq<string>, out: seq<string>, i: nat, k: nat) returns (a: nat)
    requires |out| == |lines| && i <= k < |lines| && out[k] != lines[k]
    ensures a < |ChangedFrom(lines, out, i)| && ChangedFrom(lines, out, i)[a] == k + 1
    decreases |lines| - i
  {
    var rest := ChangedFrom(lines, out, i + 1);
    if k == i {
      a := 0;
    } else {
      var a' := ChangedFromComplete(lines, out, i + 1, k);
      if out[i] != lines[i] {
        a := a' + 1;
        assert ChangedFrom(lines, out, i)[a] == rest[a'];
      } else {
        a := a';
      }
    }
  }

  /** No line is numbered exactly when the rewrite changed none. */
  lemma {:induction false} ChangedFromEmpty(lines: seq<string>, out: seq<string>, i: nat)
    requires |out| == |lines| && i <= |lines|
    ensures ChangedFrom(lines, out, i) == [] <==> forall k :: i <= k < |lines| ==> out[k] == lines[k]
    decreases |lines| - i
  {
    if i < |lines| {
      ChangedFromEmpty(lines, out, i + 1);
    }
  }

  /** Each change is the record of a line the rewrite changed: its number with the old
      and the new line stripped. */
  lemma ChangesRecorded(lines: seq<string>, out: seq<string>)
    requires |out| == |lines|
    ensures var cs := Changes(lines, out);
      forall a :: 0 <= a < |cs| ==>
        && 1 <= cs[a].lineNo <= |lines|
        && out[cs[a].lineNo - 1] != lines[cs[a].lineNo - 1]
        && cs[a] == Record(lines, out, cs[a].lineNo)
  {
    var ns := ChangedFrom(lines, out, 0);
    var cs := Changes(lines, out);
    ChangedFromSound(lines, out, 0);
    assert cs == Records(lines, out, ns);
    forall a | 0 <= a < |cs|
      ensures && 1 <= cs[a].lineNo <= |lines|
              && out[cs[a].lineNo - 1] != lines[cs[a].lineNo - 1]
              && cs[a] == Record(lines, out, cs[a].lineNo)
    {
      assert cs[a] == Record(lines, out, ns[a]);
      assert out[ns[a] - 1] != lines[ns[a] - 1];
    }
  }

  /** The changes come in strictly ascending line order, so no line has two. */
  lemma ChangesAscending(lines: seq<string>, out: seq<string>)
    requires |out| == |lines|
    ensures var cs := Changes(lines, out);
      forall a, b :: 0 <= a < b < |cs| ==> cs[a].lineNo < cs[b].lineNo
  {
    var ns := ChangedFrom(lines, out, 0);
    var cs := Changes(lines, out);
    ChangedFromAscending(lines, out, 0);
    assert cs == Records(lines, out, ns);
    forall a, b | 0 <= a < b < |cs|
      ensures cs[a].lineNo < cs[b].lineNo
    {
      assert cs[a] == Record(lines, out, ns[a]);
      assert cs[b] == Record(lines, out, ns[b]);
      assert ns[a] < ns[b];
    }
  }

  /** The changes do not depend on the dry-run flag. */
  lemma FinishChanges(lines: seq<string>, out: seq<string>, dryRun: bool)
    requires |out| == |lines|
    ensures Finish(lines, out, dryRun).changes == Changes(lines, out)
  {
  }

  /** Each change of a file records a line its rewrite changed. */
  lemma ProcessChangesRecorded(table: map<string, string>, content: string, dryRun: bool)
    ensures var lines := Split(content);
      var cs := ProcessFile(table, content, dryRun).changes;
      forall a :: 0 <= a < |cs| ==>
        && 1 <= cs[a].lineNo <= |lines|
        && RewriteLine(table, lines[cs[a].lineNo - 1]) != lines[cs[a].lineNo - 1]
        && cs[a] == Record(lines, RewriteLines(table, lines), cs[a].lineNo)
  {
    var lines := Split(content);
    var out := RewriteLines(table, lines);
    FinishChanges(lines, out, dryRun);
    ChangesRecorded(lines, out);
  }

  /** The changes of a file come in strictly ascending line order. */
  lemma ProcessChangesAscending(table: map<string, string>, content: string, dryRun: bool)
    ensures var cs := ProcessFile(table, content, dryRun).changes;
      forall a, b :: 0 <= a < b < |cs| ==> cs[a].lineNo < cs[b].lineNo
  {
    var lines := Split(content);
    var out := RewriteLines(table, lines);
    FinishChanges(lines, out, dryRun);
    ChangesAscending(lines, out);
  }

  /** A dry run records the same changes as a real one. */
  lemma ProcessChangesDryRun(table: map<string, string>, content: string)
    ensures ProcessFile(table, content, true).changes == ProcessFile(table, content, false).changes
  {
    var lines := Split(content);
    var out := RewriteLines(table, lines);
    FinishChanges(lines, out, true);
    FinishChanges(lines, out, false);
  }

  /** Every line the rewrite changes has its change recorded. */
  lemma ProcessRecordsEvery(table: map<string, string>, content: string, dryRun: bool, k: nat) returns (a: nat)
    requires k < |Split(content)| && RewriteLine(table, Split(content)[k]) != Split(content)[k]
    ensures var cs := ProcessFile(table, content, dryRun).changes;
      a < |cs| && cs[a].lineNo == k + 1
  {
    var lines := Split(content);
    a := ChangedFromComplete(lines, RewriteLines(table, lines), 0, k);
  }

  /** Once the lines are rewritten, content is written back exactly outside a dry run
      when a change was recorded, and a change is recorded exactly when a line differs. */
  lemma FinishWrites(lines: seq<string>, out: seq<string>, dryRun: bool)
    requires |out| == |lines|
    ensures Finish(lines, out, dryRun).written.Some? <==> !dryRun && |Changes(lines, out)| > 0
    ensures |Changes(lines, out)| == 0 <==> forall k :: 0 <= k < |lines| ==> out[k] == lines[k]
  {
    ChangedFromEmpty(lines, out, 0);
  }

  /** A change is recorded exactly when the rewrite changes some line. */
  lemma ChangesIffLineChanged(table: map<string, string>, lines: seq<string>)
    ensures |Changes(lines, RewriteLines(table, lines))| == 0 <==>
      forall k :: 0 <= k < |lines| ==> RewriteLine(table, lines[k]) == lines[k]
  {
    var out := RewriteLines(table, lines);
    FinishWrites(lines, out, true);
    assert forall k :: 0 <= k < |lines| ==> out[k] == RewriteLine(table, lines[k]);
  }

  /** Nothing is written in a dry run, nor when no line changed; otherwise something is. */
  lemma WritesOnlyChanges(table: map<string, string>, content: string, dryRun: bool)
    ensures ProcessFile(table, content, dryRun).written.Some? <==> !dryRun && |ProcessFile(table, content, dryRun).changes| > 0
    ensures |ProcessFile(table, content, dryRun).changes| == 0 ==>
      forall k :: 0 <= k < |Split(content)| ==> RewriteLine(table, Split(content)[k]) == Split(content)[k]
    ensures (forall k :: 0 <= k < |Split(content)| ==> RewriteLine(table, Split(content)[k]) == Split(content)[k]) ==>
      |ProcessFile(table, content, dryRun).changes| == 0
  {
    var lines := Split(content);
    var out := RewriteLines(table, lines);
    FinishWrites(lines, out, dryRun);
    FinishChanges(lines, out, dryRun);
    ChangesIffLineChanged(table, lines);
  }

  // ---------------------------------------------------------------------------------
  // The import insertion
  // ---------------------------------------------------------------------------------

  /** The import goes in at index `j`: before the first line starting with `import `,
      or first when no line does; every other line keeps its place in order. */
  lemma InsertImportAt(lines: seq<string>) returns (j: nat)
    ensures j <= |lines| && InsertImport(lines) == lines[..j] + [ImportLine] + lines[j..]
    ensures forall k :: 0 <= k < j ==> !StartsWith(lines[k], ImportKeyword)
    ensures || (j < |lines| && StartsWith(lines[j], ImportKeyword))
            || (j == 0 && forall k :: 0 <= k < |lines| ==> !StartsWith(lines[k], ImportKeyword))
  {
    match FirstImport(lines, 0)
    case Some(i) =>
      j := i;
    case None =>
      j := 0;
      assert lines[..0] == [] && lines[0..] == lines;
  }

  /** The import line holds the core package's name. */
  lemma ImportLineMentionsCore()
    ensures Occurs(ImportLine, CorePackage)
  {
    ConcatWindows("import '", CorePackage, "';");
    assert OccursAt(ImportLine, CorePackage, 8);
  }

  /** The import line holds no parenthesis and no line feed. */
  lemma ImportLinePlain()
    ensures '(' !in ImportLine && '\n' !in ImportLine
  {
    assert '(' !in CorePackage && '\n' !in CorePackage;
    assert '(' !in "import '" && '\n' !in "import '";
  }

  /** Putting `x` between two halves of a sequence that lacks it yields one copy of it. */
  lemma SpliceOnce<T>(s: seq<T>, j: nat, x: T)
    requires j <= |s| && forall k :: 0 <= k < |s| ==> s[k] != x
    ensures multiset(s[..j] + [x] + s[j..])[x] == 1
  {
    assert s == s[..j] + s[j..];
    assert x !in multiset(s);
  }

  /** Inserting the import adds exactly one import line to lines that had none. */
  lemma InsertImportSingle(lines: seq<string>)
    requires forall k :: 0 <= k < |lines| ==> lines[k] != ImportLine
    ensures multiset(InsertImport(lines))[ImportLine] == 1
    ensures |InsertImport(lines)| == |lines| + 1
  {
    var j := InsertImportAt(lines);
    SpliceOnce(lines, j, ImportLine);
  }

  // ---------------------------------------------------------------------------------
  // The content written back
  // ---------------------------------------------------------------------------------

  /** Rewritten lines hold no line feed. */
  lemma RewriteLinesNoLineFeed(table: map<string, string>, lines: seq<string>)
    requires InertTable(table) && forall k :: 0 <= k < |lines| ==> '\n' !in lines[k]
    ensures forall k :: 0 <= k < |RewriteLines(table, lines)| ==> '\n' !in RewriteLines(table, lines)[k]
  {
    forall k | 0 <= k < |lines|
      ensures '\n' !in RewriteLine(table, lines[k])
    {
      RewriteNoLineFeed(table, lines[k]);
    }
  }

  /** Inserting the import line keeps every line free of line feeds. */
  lemma InsertImportNoLineFeed(out: seq<string>)
    requires forall k :: 0 <= k < |out| ==> '\n' !in out[k]
    ensures forall k :: 0 <= k < |InsertImport(out)| ==> '\n' !in InsertImport(out)[k]
  {
    var ins := InsertImport(out);
    var j := InsertImportAt(out);
    ImportLinePlain();
    forall k | 0 <= k < |ins|
      ensures '\n' !in ins[k]
    {
      if k < j {
        assert ins[k] == out[k];
      } else if k > j {
        assert ins[k] == out[k - 1];
      }
    }
  }

  /** The new content splits back into its lines and mentions the core package. */
  lemma NewContentSpec(out: seq<string>)
    requires forall k :: 0 <= k < |out| ==> '\n' !in out[k]
    ensures Occurs(Join(out), CorePackage) ==> Split(NewContent(out)) == out
    ensures !Occurs(Join(out), CorePackage) ==> Split(NewContent(out)) == InsertImport(out)
    ensures Occurs(NewContent(out), CorePackage)
  {
    if Occurs(Join(out), CorePackage) {
      SplitJoin(out);
    } else {
      var ins := InsertImport(out);
      var j := InsertImportAt(out);
      InsertImportNoLineFeed(out);
      ImportLineMentionsCore();
      assert ins[j] == ImportLine;
      SplitJoin(ins);
      OccursInJoin(ins, j, CorePackage);
    }
  }

  /** What a file's processing writes is the new content of its rewritten lines. */
  lemma ProcessWritten(table: map<string, string>, content: string, dryRun: bool)
    requires ProcessFile(table, content, dryRun).written.Some?
    ensures ProcessFile(table, content, dryRun).written.value == NewContent(RewriteLines(table, Split(content)))
  {
  }

  /** What is written splits back into the rewritten lines — with the import line
      inserted when the core package was not mentioned — and it mentions the core
      package. */
  lemma WrittenContent(table: map<string, string>, content: string, dryRun: bool)
    requires InertTable(table) && ProcessFile(table, content, dryRun).written.Some?
    ensures var out := RewriteLines(table, Split(content));
      var w := ProcessFile(table, content, dryRun).written.value;
      && (Occurs(Join(out), CorePackage) ==> Split(w) == out)
      && (!Occurs(Join(out), CorePackage) ==> Split(w) == InsertImport(out))
      && Occurs(w, CorePackage)
  {
    var lines := Split(content);
    RewriteLinesNoLineFeed(table, lines);
    ProcessWritten(table, content, dryRun);
    NewContentSpec(RewriteLines(table, lines));
  }

  /** When the import is inserted, the written content holds exactly one import line. */
  lemma ImportSingleton(table: map<string, string>, content: string, dryRun: bool)
    requires InertTable(table) && ProcessFile(table, content, dryRun).written.Some?
    requires !Occurs(Join(RewriteLines(table, Split(content))), CorePackage)
    ensures var w := ProcessFile(table, content, dryRun).written.value;
      multiset(Split(w))[ImportLine] == 1
  {
    var out := RewriteLines(table, Split(content));
    WrittenContent(table, content, dryRun);
    ImportLineMentionsCore();
    forall k | 0 <= k < |out|
      ensures out[k] != ImportLine
    {
      if out[k] == ImportLine {
        OccursInJoin(out, k, CorePackage);
      }
    }
    InsertImportSingle(out);
  }

  // ---------------------------------------------------------------------------------
  // A second run
  // ---------------------------------------------------------------------------------

  /** A line without an opening parenthesis holds no literal, so it is left alone. */
  lemma NoParenUnchanged(table: map<string, string>, line: string)
    requires InertTable(table) && '(' !in line
    ensures RewriteLine(table, line) == line
  {
    forall q | LiteralAt(line, q)
      ensures false
    {
    }
    RewriteChangesIff(table, line);
  }

  /** Lines each left alone by the rewrite record no change. */
  lemma FixedLinesNoChanges(table: map<string, string>, lines: seq<string>)
    requires forall k :: 0 <= k < |lines| ==> RewriteLine(table, lines[k]) == lines[k]
    ensures ChangedFrom(lines, RewriteLines(table, lines), 0) == []
  {
    ChangedFromEmpty(lines, RewriteLines(table, lines), 0);
  }

  /** Lines each left alone by the rewrite are processed into nothing. */
  lemma FixedLinesNothing(table: map<string, string>, content: string, dryRun: bool)
    requires forall k :: 0 <= k < |Split(content)| ==> RewriteLine(table, Split(content)[k]) == Split(content)[k]
    ensures ProcessFile(table, content, dryRun) == Outcome([], None)
  {
    FixedLinesNoChanges(table, Split(content));
  }

  /** Rewritten lines are left alone by a second rewrite. */
  lemma RewrittenFixed(table: map<string, string>, lines: seq<string>)
    requires InertTable(table)
    ensures var out := RewriteLines(table, lines);
      forall k :: 0 <= k < |out| ==> RewriteLine(table, out[k]) == out[k]
  {
    forall k | 0 <= k < |lines|
      ensures RewriteLine(table, RewriteLine(table, lines[k])) == RewriteLine(table, lines[k])
    {
      RewriteIdempotent(table, lines[k]);
    }
  }

  /** Lines left alone stay so once the import line is inserted among them. */
  lemma InsertImportFixed(table: map<string, string>, out: seq<string>)
    requires InertTable(table)
    requires forall k :: 0 <= k < |out| ==> RewriteLine(table, out[k]) == out[k]
    ensures var ins := InsertImport(out);
      forall k :: 0 <= k < |ins| ==> RewriteLine(table, ins[k]) == ins[k]
  {
    var ins := InsertImport(out);
    var j := InsertImportAt(out);
    ImportLinePlain();
    NoParenUnchanged(table, ImportLine);
    forall k | 0 <= k < |ins|
      ensures RewriteLine(table, ins[k]) == ins[k]
    {
      if k < j {
        assert ins[k] == out[k];
      } else if k > j {
        assert ins[k] == out[k - 1];
      }
    }
  }

  /** Processing what a run wrote changes nothing more and writes nothing: the
      rewritten lines are fixed points, and so is the inserted import line. */
  lemma ProcessIdempotent(table: map<string, string>, content: string, dryRun: bool, again: bool)
    requires InertTable(table) && ProcessFile(table, content, dryRun).written.Some?
    ensures ProcessFile(table, ProcessFile(table, content, dryRun).written.value, again) == Outcome([], None)
  {
    var out := RewriteLines(table, Split(content));
    var w := ProcessFile(table, content, dryRun).written.value;
    WrittenContent(table, content, dryRun);
    RewrittenFixed(table, Split(content));
    if !Occurs(Join(out), CorePackage) {
      InsertImportFixed(table, out);
    }
    FixedLinesNothing(table, w, again);
  }
}
