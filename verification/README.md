# Hard-coded colour rewriter, modelled in Dafny

`scripts/replace_hardcoded_colors.py` walks the Dart sources of the app. It finds
colour literals of the form `Color(0xFFxxxxxx)`, optionally written `const Color(...)`.
Where its table `COLOR_MAP` knows the colour, it replaces the literal by a palette
reference such as `AppColors.primary`. Outside a dry run, it adds the core import to a
changed file that does not already mention `package:core/core.dart`. It reports a summary
at the end.

This project models that rewriter as pure functions and proves properties about them.

| module | file | what it holds |
|---|---|---|
| `Wrappers` | `wrappers.dfy` | `Option` |
| `Text` | `text.dfy` | the Python string operations the script uses: `upper`, `strip`, `in`, `startswith`, `str.replace`, `split('\n')` and `'\n'.join` |
| `Palette` | `palette.dfy` | `COLOR_MAP` (entries in source order, with later duplicates overriding earlier ones as in a dict literal) and the allow-list of names the palette already defines |
| `Matcher` | `matcher.dfy` | the regular expression `(?:const\s+)?Color\((0xFF[A-Fa-f0-9]{6})\)` written out by hand, with `finditer` as leftmost, non-overlapping search |
| `LineRewrite` | `linerewrite.dfy` | the per-line loop: normalise each match, look it up, and replace every occurrence of the matched text |
| `FileRewrite` | `filerewrite.dfy` | `process_file` as a function of the file content and the dry-run flag: the changes, and the content that would be written back, including the import insertion |
| `RunSummary` | `runsummary.dfy` | `main`'s loop over the files: the total number of changes, the number of files changed, and the new constants needed |

The rewriting functions take the colour table as a parameter. The rewrite proofs need
only one fact about the table: each of its names is inert. An inert name holds no
parenthesis and no line feed, holds a dot, and cannot begin or end a match.
`Palette.ColorMapInert` proves this for `COLOR_MAP`.

Behaviour of the code worth knowing, which the model keeps as written:

- The import is inserted *before* the first line that starts with `import `, as
  `lines.insert(j, …)` does. The comment at line 113 says "after".
- A changed line yields one change, however many literals on it were replaced. A
  change is recorded per line, not per match.
- The expression requires the literal text `0xFF`. A literal with another alpha value
  never matches, so forcing the prefix to `0xFF` during normalisation changes nothing.
  Only the case of the six digits matters.
- A mapped match's text is replaced everywhere on the line by `str.replace`, not only
  where the match was found. The rewrite is therefore of the whole line.
- If `Color(0xFF…)` precedes `const Color(0xFF…)` of the same colour on one line, the
  first replacement also rewrites the inner part of the second. The `const` is left in
  front of the name.

## Model

| member | source | states |
|---|---|---|
| Palette.ColorMapKeysCanonical | scripts/replace_hardcoded_colors.py:23-80 | every key of the table is `0xFF` followed by six upper-case hexadecimal digits, the form normalisation produces |
| Palette.ColorMapInert | scripts/replace_hardcoded_colors.py:23-80 | every name in the table holds no parenthesis or line feed, holds a dot, and cannot start or finish a match, so writing it into a line never creates a literal |
| Palette.OnlySurfaceTintIsNew | scripts/replace_hardcoded_colors.py:155-161 | among the table's names, exactly `AppColors.surfaceTint` has a last segment outside the allow-list |
| Palette.LastSegment | scripts/replace_hardcoded_colors.py:156 | `split('.')[-1]`: the result is the part of the name after its last dot, or the whole name when it has no dot |
| Text.Upper | scripts/replace_hardcoded_colors.py:97 | `upper()` on the ASCII group that line 97 passes (`0xFF` and hex digits) keeps the length and maps each character on its own, only `a`-`z` changing |
| Text.StripSpec | scripts/replace_hardcoded_colors.py:106 | `strip()` yields the stretch of the line left after removing whitespace at both ends, and that stretch neither starts nor ends with whitespace |
| Text.FindFrom | scripts/replace_hardcoded_colors.py:112 | the leftmost occurrence at or after an index, and no occurrence before it; none at all when it finds nothing |
| Text.Occurs | scripts/replace_hardcoded_colors.py:112 | `sub in s` holds exactly when `sub` stands somewhere in `s` |
| Text.ReplaceAllAt | scripts/replace_hardcoded_colors.py:103 | `str.replace` keeps the text before the leftmost occurrence, writes the replacement for it, and continues after it |
| Text.ReplaceAllNone | scripts/replace_hardcoded_colors.py:103 | `str.replace` of a text that does not occur leaves the line as it is |
| Text.Split | scripts/replace_hardcoded_colors.py:92 | `split('\n')` gives at least one piece and no piece holds a line feed |
| Text.JoinSplit | scripts/replace_hardcoded_colors.py:110 | joining the split lines with line feeds gives back the content exactly, trailing line feed included |
| Text.SplitJoin | scripts/replace_hardcoded_colors.py:122 | splitting the joined lines gives back the lines when none holds a line feed |
| Matcher.SpaceRun | scripts/replace_hardcoded_colors.py:85 | `\s+` takes the longest run of whitespace: all of it is whitespace and the character after it is not |
| Matcher.MatchAtFound | scripts/replace_hardcoded_colors.py:85 | a match reported at a position is the pattern standing there, and its group is the ten characters before the closing parenthesis |
| Matcher.MatchAtComplete | scripts/replace_hardcoded_colors.py:85 | wherever the pattern matches from a position, the matcher reports a match there ending at the same place, so taking the longest whitespace run never loses a match |
| Matcher.FindAllSound | scripts/replace_hardcoded_colors.py:96 | `finditer` reports matches in ascending order that do not overlap, each being the match at its start |
| Matcher.FindAllCovers | scripts/replace_hardcoded_colors.py:96 | every position where a match could start lies inside some reported match, so the scan skips none |
| Matcher.FindAllFindsLiteral | scripts/replace_hardcoded_colors.py:96 | every `Color(0xFF…)` literal of the line ends one of the reported matches |
| Matcher.LiteralInsideMatch | scripts/replace_hardcoded_colors.py:85 | the only literal inside a match is the one that ends it |
| LineRewrite.Normalize | scripts/replace_hardcoded_colors.py:97-99 | the key is `0xFF` followed by the upper-cased characters of the group after its first four |
| LineRewrite.LiteralKeyCanonical | scripts/replace_hardcoded_colors.py:97-99 | a literal's key always has the form of the table's keys, whatever the case of its digits |
| LineRewrite.FoundCoherent | scripts/replace_hardcoded_colors.py:96-101 | a reported match's text is a whole match of the pattern, and its normalised group is the key of the literal that ends it |
| LineRewrite.StepReplacesAll | scripts/replace_hardcoded_colors.py:100-103 | when the key is mapped, no occurrence of the matched text is left in the line; otherwise the line is unchanged |
| LineRewrite.ReplaceClears | scripts/replace_hardcoded_colors.py:103 | replacing a pattern text by an inert name leaves no occurrence of the pattern text |
| LineRewrite.ApplyUnmapped | scripts/replace_hardcoded_colors.py:100 | when no match's key is in the table, the line is left as it is |
| LineRewrite.RewriteChangesIff | scripts/replace_hardcoded_colors.py:94-105 | a line changes exactly when it holds a literal whose key is mapped, which is exactly when some match's key is mapped |
| LineRewrite.RewriteClears | scripts/replace_hardcoded_colors.py:94-107 | no literal with a mapped key is left in the rewritten line |
| LineRewrite.RewriteIdempotent | scripts/replace_hardcoded_colors.py:94-107 | rewriting a rewritten line changes nothing |
| LineRewrite.RewriteNoLineFeed | scripts/replace_hardcoded_colors.py:103 | rewriting a line without line feeds gives a line without line feeds |
| FileRewrite.ChangesRecorded | scripts/replace_hardcoded_colors.py:105-106 | each change records the 1-based number of a line the rewrite changed, with the old and the new line stripped |
| FileRewrite.ChangesAscending | scripts/replace_hardcoded_colors.py:94-106 | the changes come in strictly ascending line order, so no line has two |
| FileRewrite.ChangedFromComplete | scripts/replace_hardcoded_colors.py:105-106 | every changed line from a given index on is numbered |
| FileRewrite.ProcessChangesRecorded | scripts/replace_hardcoded_colors.py:88-107 | each change of a file records a line of its content that the rewrite changed |
| FileRewrite.ProcessChangesAscending | scripts/replace_hardcoded_colors.py:88-107 | the changes of a file come in strictly ascending line order |
| FileRewrite.ProcessRecordsEvery | scripts/replace_hardcoded_colors.py:105-106 | every line of the file that the rewrite changes has a change with its number |
| FileRewrite.ProcessChangesDryRun | scripts/replace_hardcoded_colors.py:105-109 | a dry run records the same changes as a real run |
| FileRewrite.FinishWrites | scripts/replace_hardcoded_colors.py:105-109 | once the lines are rewritten, content is written back exactly outside a dry run when a change is recorded, and a change is recorded exactly when some rewritten line differs from its original |
| FileRewrite.ChangesIffLineChanged | scripts/replace_hardcoded_colors.py:105-107 | a file has no recorded change exactly when the rewrite leaves every one of its lines as it is |
| FileRewrite.WritesOnlyChanges | scripts/replace_hardcoded_colors.py:109 | content is written exactly when the run is not dry and some line changed, and no line changed exactly when every line is left as it is |
| FileRewrite.FirstImport | scripts/replace_hardcoded_colors.py:115-119 | the index found is the first line starting with `import `; when none is found, no line starts with it |
| FileRewrite.InsertImportAt | scripts/replace_hardcoded_colors.py:114-121 | the import line goes in before the first line starting with `import `, or first when there is none, and every other line keeps its order |
| FileRewrite.InsertImportSingle | scripts/replace_hardcoded_colors.py:117-121 | inserting into lines without the import line adds exactly one copy of it and one line |
| FileRewrite.ImportLineMentionsCore | scripts/replace_hardcoded_colors.py:112-117 | the inserted import line holds `package:core/core.dart` |
| FileRewrite.NewContentSpec | scripts/replace_hardcoded_colors.py:110-122 | the new content splits back into the rewritten lines, with the import inserted when the core package was not mentioned, and it mentions the core package |
| FileRewrite.WrittenContent | scripts/replace_hardcoded_colors.py:109-123 | what a file's processing writes splits back into its rewritten lines, with the import inserted when the core package was missing, and it always mentions the core package |
| FileRewrite.ImportSingleton | scripts/replace_hardcoded_colors.py:112-122 | when the import was inserted, the written content holds exactly one import line |
| FileRewrite.ProcessIdempotent | scripts/replace_hardcoded_colors.py:88-125 | processing written content again records no change and writes nothing |
| RunSummary.Summarize | scripts/replace_hardcoded_colors.py:145-161 | the files changed are at most the files and at most the replacements, there are no replacements exactly when no file changed, and every needed constant is a new name of the table |
| RunSummary.SummaryCounts | scripts/replace_hardcoded_colors.py:145-150 | the total counts every change of every file, and the files changed are the files with at least one change |
| RunSummary.SummaryNewConstants | scripts/replace_hardcoded_colors.py:151-161 | a name is needed exactly when it is a table name outside the allow-list that the new line of some change holds |
| RunSummary.NeededHaveKeys | scripts/replace_hardcoded_colors.py:166-172 | every needed name has a key in the table, so the suggestion printed for it always has a colour to show |
| RunSummary.OnlySurfaceTintNeeded | scripts/replace_hardcoded_colors.py:151-161 | with the script's own table, the only constant ever reported as needed is `AppColors.surfaceTint` |
| RunSummary.RunDryRunSame | scripts/replace_hardcoded_colors.py:145-161 | a dry run reports the same summary as a real run |
| RunSummary.Tally | scripts/replace_hardcoded_colors.py:145-161 | the loop over the files computes the number of changes, the number of files changed and the needed names that the reference definitions give |

## Left out

- Locating the sources (lines 129-136) is left out because it is file-system work. This covers the two candidate directories, the `rglob` and `sorted` calls, and the exit when no directory is found. The run takes the contents of the files in visiting order instead.
- Reading and writing files is left out because it is I/O. `process_file` takes the content as input and returns the content to write as `Outcome.written`.
- `DRY_RUN` is read from the command line at line 19. It is a parameter here.
- Printing is left out because it is output only. This covers the progress lines, the per-change listing, the summary line and the suggestion block at lines 166-172. For the suggestion block, only the fact that each needed name has a key is modelled.
- `Text.Upper`: only ASCII upper-casing is modelled. Python's `str.upper` also changes non-ASCII letters and can change the length (`'ß'` becomes `'SS'`). Line 97 only ever passes `0xFF` and `[A-Fa-f0-9]` characters, so this never matters there.
- The content is the decoded text after `Path.read_text()` has translated newlines: `\r\n` and a lone `\r` both become `\n`. `write_text` writes `\n`. So a changed CRLF file is written back with every line ending changed to `\n`, and a file whose lines are separated by a lone `\r` is split on those. `Text.JoinSplit` and `FileRewrite.WrittenContent` keep unchanged lines of that translated text, not the bytes on disk.
- Python's `\s` and `str.strip` also accept non-ASCII whitespace. The model uses the ASCII whitespace characters only, because non-ASCII text in Dart colour literals is out of scope.
- The order of the suggestion block, `sorted` over the names and then the first key in table order, is not modelled. Only the set of names is.
- apps/babysitter_app/ios/Runner/AppDelegate.swift is not part of this model. It is platform start-up code that does not take part in the rewrite.
