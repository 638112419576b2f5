/**
 * The Python string primitives the rewriter relies on — `str.isspace`, `str.upper`,
 * `str.strip`, `in`, `str.startswith`, `str.replace`, `str.split('\n')` and
 * `'\n'.join` — on strings as sequences of characters.
 */
module Text {
  import opened Wrappers

  /** `str.isspace` on ASCII (also what the regular-expression class `\s` accepts there):
      space, tab, line feed, vertical tab, form feed, carriage return and 0x1C-0x1F. */
  predicate IsSpace(c: char) {
    c == ' ' || 9 <= c as int <= 13 || 28 <= c as int <= 31
  }

  /** The character class `[A-Fa-f0-9]`. */
  predicate IsHexDigit(c: char) {
    '0' <= c <= '9' || 'a' <= c <= 'f' || 'A' <= c <= 'F'
  }

  predicate AllSpace(t: string) {
    forall k :: 0 <= k < |t| ==> IsSpace(t[k])
  }

  predicate AllHex(t: string) {
    forall k :: 0 <= k < |t| ==> IsHexDigit(t[k])
  }

  /** `str.upper` on one ASCII character; every other character is left alone. */
  function UpperChar(c: char): (u: char)
    ensures 'a' <= c <= 'z' ==> 'A' <= u <= 'Z' && u as int == c as int - 32
    ensures !('a' <= c <= 'z') ==> u == c
  {
    if 'a' <= c <= 'z' then (c as int - 32) as char else c
  }

  /** `str.upper`, character by character. */
  function Upper(s: string): (u: string)
    ensures |u| == |s|
    ensures forall i :: 0 <= i < |s| ==> u[i] == UpperChar(s[i])
  {
    seq(|s|, i requires 0 <= i < |s| => UpperChar(s[i]))
  }

  /** Upper-casing commutes with taking a slice. */
  lemma UpperSlice(s: string, i: nat, j: nat)
    requires i <= j <= |s|
    ensures Upper(s)[i..j] == Upper(s[i..j])
  {
  }

  // ---------------------------------------------------------------------------------
  // str.strip()
  // ---------------------------------------------------------------------------------

  /** Length of the longest all-whitespace prefix. */
  function LeadingSpaces(s: string): (n: nat)
    ensures n <= |s|
  {
    if |s| > 0 && IsSpace(s[0]) then 1 + LeadingSpaces(s[1..]) else 0
  }

  /** Length of the longest all-whitespace suffix. */
  function TrailingSpaces(s: string): (n: nat)
    ensures n <= |s|
  {
    if |s| > 0 && IsSpace(s[|s| - 1]) then 1 + TrailingSpaces(s[..|s| - 1]) else 0
  }

  /** The leading run is all whitespace and stops before a non-whitespace character. */
  lemma {:induction false} LeadingSpacesSpec(s: string)
    ensures AllSpace(s[..LeadingSpaces(s)])
    ensures LeadingSpaces(s) < |s| ==> !IsSpace(s[LeadingSpaces(s)])
  {
    if |s| > 0 && IsSpace(s[0]) {
      LeadingSpacesSpec(s[1..]);
      assert s[..LeadingSpaces(s)] == [s[0]] + s[1..][..LeadingSpaces(s[1..])];
    }
  }

  /** The trailing run is all whitespace and starts after a non-whitespace character. */
  lemma {:induction false} TrailingSpacesSpec(s: string)
    ensures AllSpace(s[|s| - TrailingSpaces(s)..])
    ensures TrailingSpaces(s) < |s| ==> !IsSpace(s[|s| - TrailingSpaces(s) - 1])
  {
    if |s| > 0 && IsSpace(s[|s| - 1]) {
      var t := s[..|s| - 1];
      TrailingSpacesSpec(t);
      assert s[|s| - TrailingSpaces(s)..] == t[|t| - TrailingSpaces(t)..] + [s[|s| - 1]];
    }
  }

  /** `r` is `s` with an all-whitespace prefix of length `i` and an all-whitespace
      suffix removed. */
  predicate TrimmedAt(s: string, r: string, i: int) {
    0 <= i <= |s| - |r| && r == s[i..i + |r|] && AllSpace(s[..i]) && AllSpace(s[i + |r|..])
  }

  lemma TrimmedWitness(s: string, a: nat, b: nat)
    requires a <= |s| && b <= |s| - a
    requires AllSpace(s[..a]) && AllSpace(s[a..][|s| - a - b..])
    ensures TrimmedAt(s, s[a..][..|s| - a - b], a)
  {
    assert s[a..][|s| - a - b..] == s[|s| - b..];
  }

  /** `str.strip()`: the line with its leading and trailing whitespace removed. */
  function Strip(s: string): string {
    var rest := s[LeadingSpaces(s)..];
    rest[..|rest| - TrailingSpaces(rest)]
  }

  /** What `str.strip()` returns stands in the line between an all-whitespace prefix
      and an all-whitespace suffix, and neither begins nor ends with whitespace. */
  lemma StripSpec(s: string)
    ensures exists i :: TrimmedAt(s, Strip(s), i)
    ensures var r := Strip(s); |r| > 0 ==> !IsSpace(r[0]) && !IsSpace(r[|r| - 1])
  {
    var a := LeadingSpaces(s);
    var b := TrailingSpaces(s[a..]);
    LeadingSpacesSpec(s);
    TrailingSpacesSpec(s[a..]);
    TrimmedWitness(s, a, b);
    var r := Strip(s);
    if |r| > 0 {
      assert r[0] == s[a];
      assert r[|r| - 1] == s[a..][|s| - a - b - 1];
    }
  }

  // ---------------------------------------------------------------------------------
  // Substring search: `sub in s`, `str.startswith`
  // ---------------------------------------------------------------------------------

  /** `sub` occurs in `s` starting at index `k`. */
  predicate OccursAt(s: string, sub: string, k: int) {
    0 <= k && k + |sub| <= |s| && s[k..k + |sub|] == sub
  }

  /** The leftmost occurrence of `sub` in `s` at or after index `i`. */
  function FindFrom(s: string, sub: string, i: nat): (r: Option<nat>)
    ensures r.Some? ==> i <= r.value && OccursAt(s, sub, r.value)
    ensures r.Some? ==> forall k :: i <= k < r.value ==> !OccursAt(s, sub, k)
    ensures r.None? ==> forall k :: i <= k ==> !OccursAt(s, sub, k)
    decreases |s| + 1 - i
  {
    if i + |sub| > |s| then None
    else if s[i..i + |sub|] == sub then Some(i)
    else FindFrom(s, sub, i + 1)
  }

  /** Python's `sub in s`. */
  predicate Occurs(s: string, sub: string)
    ensures Occurs(s, sub) <==> exists k :: OccursAt(s, sub, k)
  {
    FindFrom(s, sub, 0).Some?
  }

  /** Python's `s.startswith(prefix)`. */
  predicate StartsWith(s: string, prefix: string) {
    |prefix| <= |s| && s[..|prefix|] == prefix
  }

  /** An occurrence inside a part of a concatenation is an occurrence in the whole. */
  lemma OccursInConcat(a: string, b: string, c: string, sub: string)
    requires Occurs(b, sub)
    ensures Occurs(a + b + c, sub)
  {
    var k :| OccursAt(b, sub, k);
    assert (a + b + c)[|a| + k..|a| + k + |sub|] == b[k..k + |sub|];
    assert OccursAt(a + b + c, sub, |a| + k);
  }

  // ---------------------------------------------------------------------------------
  // str.replace(old, new)
  // ---------------------------------------------------------------------------------

  /** Python's `s.replace(pat, rep)` for a non-empty `pat`, scanning left to right:
      where `pat` starts, `rep` is written and the scan resumes after `pat`;
      elsewhere the character is kept. */
  function ReplaceAll(s: string, pat: string, rep: string): string
    requires |pat| > 0
    decreases |s|
  {
    if |s| < |pat| then s
    else if s[..|pat|] == pat then rep + ReplaceAll(s[|pat|..], pat, rep)
    else [s[0]] + ReplaceAll(s[1..], pat, rep)
  }

  /** Where `pat` does not start at index `j`, the scan keeps the character there. */
  lemma ReplaceAllKeep(s: string, pat: string, rep: string, j: nat)
    requires |pat| > 0 && j < |s| && !OccursAt(s, pat, j)
    ensures ReplaceAll(s[j..], pat, rep) == [s[j]] + ReplaceAll(s[j + 1..], pat, rep)
  {
    var t := s[j..];
    if |t| >= |pat| {
      assert t[..|pat|] == s[j..j + |pat|];
    }
    assert t[1..] == s[j + 1..];
  }

  /** Where `pat` starts at index `i`, the scan writes `rep` and resumes after it. */
  lemma ReplaceAllHead(s: string, pat: string, rep: string, i: nat)
    requires |pat| > 0 && OccursAt(s, pat, i)
    ensures ReplaceAll(s[i..], pat, rep) == rep + ReplaceAll(s[i + |pat|..], pat, rep)
  {
    var t := s[i..];
    assert t[..|pat|] == pat;
    assert t[|pat|..] == s[i + |pat|..];
  }

  lemma PrefixStep<T>(s: seq<T>, k: nat, x: seq<T>)
    requires 0 < k <= |s|
    ensures s[..k - 1] + ([s[k - 1]] + x) == s[..k] + x
  {
    assert s[..k - 1] + [s[k - 1]] == s[..k];
  }

  /** Regrouping a concatenation, kept as its own step so that the proofs using it do not
      have to find it among the other sequence facts in their context. */
  lemma ConcatAssoc<T>(a: seq<T>, b: seq<T>, c: seq<T>)
    ensures a + (b + c) == a + b + c
  {
  }

  /** Where `pat` does not start before index `k`, the first `k` characters are kept. */
  lemma {:induction false} ReplaceAllSkip(s: string, pat: string, rep: string, k: nat)
    requires |pat| > 0 && k <= |s|
    requires forall j :: 0 <= j < k ==> !OccursAt(s, pat, j)
    ensures ReplaceAll(s, pat, rep) == s[..k] + ReplaceAll(s[k..], pat, rep)
  {
    if k == 0 {
      assert s[..0] == [] && s[0..] == s;
    } else {
      ReplaceAllSkip(s, pat, rep, k - 1);
      ReplaceAllKeep(s, pat, rep, k - 1);
      PrefixStep(s, k, ReplaceAll(s[k..], pat, rep));
    }
  }

  /** Where `pat` does not occur, nothing is replaced. */
  lemma ReplaceAllNone(s: string, pat: string, rep: string)
    requires |pat| > 0 && FindFrom(s, pat, 0).None?
    ensures ReplaceAll(s, pat, rep) == s
  {
    ReplaceAllSkip(s, pat, rep, |s|);
    assert s[..|s|] == s;
  }

  /** The scan agrees with the leftmost-occurrence description of `str.replace`: the
      text before the leftmost occurrence is kept, `rep` replaces it, and the rest is
      replaced in turn. */
  lemma ReplaceAllAt(s: string, pat: string, rep: string, i: nat)
    requires |pat| > 0 && FindFrom(s, pat, 0) == Some(i)
    ensures i + |pat| <= |s| && ReplaceAll(s, pat, rep) == s[..i] + rep + ReplaceAll(s[i + |pat|..], pat, rep)
  {
    ReplaceAllSkip(s, pat, rep, i);
    ReplaceAllHead(s, pat, rep, i);
    ConcatAssoc(s[..i], rep, ReplaceAll(s[i + |pat|..], pat, rep));
  }

  /** Every character of the result comes from the input or from the replacement. */
  lemma {:induction false} ReplaceAllChars(s: string, pat: string, rep: string)
    requires |pat| > 0
    ensures forall c :: c in ReplaceAll(s, pat, rep) ==> c in s || c in rep
    decreases |s|
  {
    if |s| >= |pat| {
      if s[..|pat|] == pat {
        ReplaceAllChars(s[|pat|..], pat, rep);
        assert forall c :: c in s[|pat|..] ==> c in s;
      } else {
        ReplaceAllChars(s[1..], pat, rep);
        assert forall c :: c in s[1..] ==> c in s;
      }
    }
  }

  // ---------------------------------------------------------------------------------
  // Windows: a string standing inside another
  // ---------------------------------------------------------------------------------

  /** `y` stands in `x` at offset `off`. */
  predicate Window(x: string, y: string, off: int) {
    0 <= off && off + |y| <= |x| && x[off..off + |y|] == y
  }

  lemma WindowSlice(x: string, y: string, off: int, a: int, b: int)
    requires Window(x, y, off) && 0 <= a <= b <= |y|
    ensures x[off + a..off + b] == y[a..b]
  {
    forall k | 0 <= k < b - a
      ensures x[off + a..off + b][k] == y[a..b][k]
    {
      assert x[off + a + k] == x[off..off + |y|][a + k];
    }
  }

  /** An occurrence inside the window is an occurrence in `x`, and conversely. */
  lemma OccursWindow(x: string, y: string, off: int, t: string, a: int)
    requires Window(x, y, off) && 0 <= a && a + |t| <= |y|
    ensures OccursAt(x, t, off + a) <==> OccursAt(y, t, a)
  {
    WindowSlice(x, y, off, a, a + |t|);
  }

  /** The three parts of a concatenation stand in it one after the other. */
  lemma ConcatWindows(a: string, b: string, c: string)
    ensures Window(a + b + c, a, 0) && Window(a + b + c, b, |a|) && Window(a + b + c, c, |a| + |b|)
  {
    var x := a + b + c;
    assert x[0..|a|] == a;
    assert x[|a|..|a| + |b|] == b;
    assert x[|a| + |b|..|a| + |b| + |c|] == c;
  }

  /** A prefix stands at the start. */
  lemma PrefixWindow(s: string, i: nat)
    requires i <= |s|
    ensures Window(s, s[..i], 0)
  {
    assert s[0..i] == s[..i];
  }

  /** A suffix stands at its offset. */
  lemma SuffixWindow(s: string, i: nat)
    requires i <= |s|
    ensures Window(s, s[i..], i)
  {
    assert s[i..i + |s[i..]|] == s[i..];
  }

  // ---------------------------------------------------------------------------------
  // content.split('\n') and '\n'.join(lines)
  // ---------------------------------------------------------------------------------

  /** A one-character substring occurs exactly where that character stands. */
  lemma CharOccursAt(s: string, c: char, j: int)
    ensures OccursAt(s, [c], j) <==> 0 <= j < |s| && s[j] == c
  {
    if 0 <= j < |s| && s[j] == c {
      assert s[j..j + 1] == [c];
    }
  }

  /** A character that never occurs as a one-character substring does not occur at all. */
  lemma NoOccurrenceNoChar(s: string, c: char)
    requires forall j :: 0 <= j < |s| ==> !OccursAt(s, [c], j)
    ensures c !in s
  {
    forall j | 0 <= j < |s|
      ensures s[j] != c
    {
      CharOccursAt(s, c, j);
    }
  }

  /** Python's `s.split('\n')`: never empty, and no piece holds a line feed. */
  function Split(s: string): (lines: seq<string>)
    ensures |lines| >= 1
    ensures forall k :: 0 <= k < |lines| ==> '\n' !in lines[k]
    decreases |s|
  {
    match FindFrom(s, "\n", 0)
    case None =>
      NoOccurrenceNoChar(s, '\n');
      [s]
    case Some(i) =>
      forall j | 0 <= j < i
        ensures !OccursAt(s[..i], "\n", j)
      {
        CharOccursAt(s, '\n', j);
        CharOccursAt(s[..i], '\n', j);
      }
      NoOccurrenceNoChar(s[..i], '\n');
      [s[..i]] + Split(s[i + 1..])
  }

  /** Python's `'\n'.join(lines)`. */
  function Join(lines: seq<string>): string {
    if |lines| == 0 then ""
    else if |lines| == 1 then lines[0]
    else lines[0] + "\n" + Join(lines[1..])
  }

  /** Joining a line in front of a non-empty list puts one line feed between. */
  lemma JoinCons(head: string, rest: seq<string>)
    requires |rest| >= 1
    ensures Join([head] + rest) == head + "\n" + Join(rest)
  {
    assert ([head] + rest)[1..] == rest;
  }

  /** Splitting then joining gives back the content exactly, trailing line feed included. */
  lemma {:induction false} JoinSplit(s: string)
    ensures Join(Split(s)) == s
    decreases |s|
  {
    match FindFrom(s, "\n", 0)
    case None =>
    case Some(i) =>
      var rest := Split(s[i + 1..]);
      JoinSplit(s[i + 1..]);
      JoinCons(s[..i], rest);
      CharOccursAt(s, '\n', i);
      assert s == s[..i] + "\n" + s[i + 1..];
  }

  /** Joining lines free of line feeds, then splitting, gives back the same lines. */
  lemma {:induction false} SplitJoin(lines: seq<string>)
    requires |lines| >= 1
    requires forall k :: 0 <= k < |lines| ==> '\n' !in lines[k]
    ensures Split(Join(lines)) == lines
    decreases |lines|
  {
    var s := Join(lines);
    if |lines| == 1 {
      assert s == lines[0];
      forall j
        ensures !OccursAt(s, "\n", j)
      {
        CharOccursAt(s, '\n', j);
      }
    } else {
      var head := lines[0];
      var tail := Join(lines[1..]);
      assert s == head + "\n" + tail;
      var n := |head|;
      assert s[n..n + 1] == "\n";
      assert OccursAt(s, "\n", n);
      match FindFrom(s, "\n", 0)
      case None =>
        assert false;
      case Some(i) =>
        if i < n {
          CharOccursAt(s, '\n', i);
          assert false;
        }
        assert s[..n] == head;
        assert s[n + 1..] == tail;
        SplitJoin(lines[1..]);
        assert Split(s) == [head] + lines[1..];
    }
  }

  /** Each line appears verbatim inside the joined content. */
  lemma {:induction false} JoinContainsLine(lines: seq<string>, k: nat) returns (o: nat)
    requires k < |lines|
    ensures o + |lines[k]| <= |Join(lines)| && Join(lines)[o..o + |lines[k]|] == lines[k]
    decreases |lines|
  {
    if |lines| == 1 {
      o := 0;
    } else if k == 0 {
      o := 0;
      assert Join(lines) == lines[0] + ("\n" + Join(lines[1..]));
    } else {
      var o' := JoinContainsLine(lines[1..], k - 1);
      var head := lines[0] + "\n";
      assert Join(lines) == head + Join(lines[1..]);
      o := |head| + o';
      assert Join(lines)[o..o + |lines[k]|] == Join(lines[1..])[o'..o' + |lines[k]|];
    }
  }

  /** A substring of one line is a substring of the joined content. */
  lemma OccursInJoin(lines: seq<string>, k: nat, sub: string)
    requires k < |lines| && Occurs(lines[k], sub)
    ensures Occurs(Join(lines), sub)
  {
    var o := JoinContainsLine(lines, k);
    var s := Join(lines);
    assert s == s[..o] + lines[k] + s[o + |lines[k]|..];
    OccursInConcat(s[..o], lines[k], s[o + |lines[k]|..], sub);
  }

}
