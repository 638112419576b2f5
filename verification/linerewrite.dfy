/**
 * One line of a Dart file rewritten the way `process_file` in
 * scripts/replace_hardcoded_colors.py rewrites it: every match found in the
 * original line is looked up by its normalised value and, when the table maps it,
 * every occurrence of the matched text in the line as rewritten so far is replaced
 * by the mapped `AppColors` name.
 */
module LineRewrite {
  import opened Wrappers
  import opened Text
  import opened Matcher
  import opened Palette

  // ---------------------------------------------------------------------------------
  // Normalisation and lookup keys
  // ---------------------------------------------------------------------------------

  /** `"0xFF" + hex_val[4:]` where `hex_val` is the captured value upper-cased. */
  function Normalize(hex: string): (key: string)
    ensures |hex| >= 4 ==> |key| == |hex| && key[..4] == "0xFF"
    ensures forall j :: 4 <= j < |key| ==> |hex| >= 4 && key[j] == UpperChar(hex[j])
  {
    var u := Upper(hex);
    "0xFF" + (if |u| >= 4 then u[4..] else "")
  }

  /** The key of the literal at `q`: `0xFF` and its six digits in upper case. */
  function LiteralKey(s: string, q: int): string
    requires LiteralAt(s, q)
  {
    "0xFF" + Upper(s[q + 10..q + 16])
  }

  /** A literal's key always has the form of the table's keys, whatever the case of
      its digits. */
  lemma LiteralKeyCanonical(s: string, q: int)
    requires LiteralAt(s, q)
    ensures CanonicalKey(LiteralKey(s, q))
  {
    var d := s[q + 10..q + 16];
    forall j | 0 <= j < 6
      ensures UpperHexDigit(Upper(d)[j])
    {
      assert d[j] == s[q + 10 + j];
    }
  }

  /** The normalised group of a match is the key of the match's literal. */
  lemma NormalizeFound(s: string, m: Match)
    requires Found(s, m)
    ensures Normalize(m.hex) == LiteralKey(s, End(m) - 17)
  {
    var e := End(m);
    UpperSlice(m.hex, 4, 10);
    assert m.hex[4..] == s[e - 7..e - 1];
  }

  /** The table maps the literal at `q`. */
  predicate MappedAt(table: map<string, string>, s: string, q: int) {
    LiteralAt(s, q) && LiteralKey(s, q) in table
  }

  /** The key of the literal that ends a pattern text. */
  function TextKey(t: string): string
    requires PatternText(t)
  {
    LiteralKey(t, |t| - 17)
  }

  /** A match whose text is a pattern text and whose group normalises to that text's
      key, as every match the matcher reports is. */
  predicate Coherent(m: Match) {
    PatternText(m.text) && Normalize(m.hex) == TextKey(m.text)
  }

  // ---------------------------------------------------------------------------------
  // Literals and occurrences seen through a window
  // ---------------------------------------------------------------------------------

  /** A literal inside the window is mapped in `x` exactly when it is mapped in `y`. */
  lemma MappedWindow(table: map<string, string>, x: string, y: string, off: int, q: int)
    requires Window(x, y, off) && 0 <= q && q + 17 <= |y|
    ensures MappedAt(table, x, off + q) <==> MappedAt(table, y, q)
    ensures LiteralAt(y, q) ==> LiteralKey(x, off + q) == LiteralKey(y, q)
  {
    WindowSlice(x, y, off, q, q + 17);
    PatternShift(x, off + q, off + q + 17, y, q);
    WindowSlice(x, y, off, q + 10, q + 16);
  }

  /** A pattern text standing in `x` is a match of the pattern there, and the literal
      ending it has the text's key. */
  lemma OccursPattern(x: string, t: string, a: int)
    requires PatternText(t) && OccursAt(x, t, a)
    ensures PatternAt(x, a, a + |t|)
    ensures LiteralKey(x, a + |t| - 17) == TextKey(t)
  {
    assert t[0..|t|] == t;
    PatternShift(x, a, a + |t|, t, 0);
    MappedWindow(map[], x, t, a, |t| - 17);
  }

  /** The literal ending a pattern text standing in `x` has the text's key. */
  lemma OccursPatternKey(x: string, t: string, a: int, q: int)
    requires PatternText(t) && OccursAt(x, t, a) && q == a + |t| - 17
    ensures LiteralAt(x, q) && LiteralKey(x, q) == TextKey(t)
  {
    OccursPattern(x, t, a);
  }

  /** The found match's text is coherent with its group. */
  lemma FoundCoherent(s: string, m: Match)
    requires Found(s, m)
    ensures Coherent(m)
  {
    FoundText(s, m);
    FoundKey(s, m);
  }

  /** The found match's text is a pattern text. */
  lemma FoundText(s: string, m: Match)
    requires Found(s, m)
    ensures PatternText(m.text)
  {
    PatternSlice(s, m.start, End(m));
  }

  /** The found match's group normalises to its text's key. */
  lemma FoundKey(s: string, m: Match)
    requires Found(s, m) && PatternText(m.text)
    ensures Normalize(m.hex) == TextKey(m.text)
  {
    NormalizeFound(s, m);
    OccursPatternKey(s, m.text, m.start, End(m) - 17);
  }

  // ---------------------------------------------------------------------------------
  // Why rewriting cannot create or straddle a match
  // ---------------------------------------------------------------------------------

  /** Two matches of the pattern that overlap end at the same index: a match holds a
      `)` only as its last character. */
  lemma PatternOverlap(x: string, a: int, e: int, b: int, f: int)
    requires PatternAt(x, a, e) && PatternAt(x, b, f) && a < f && b < e
    ensures e == f
  {
  }

  /** Two pattern texts standing in a line and overlapping end at the same index. */
  lemma OccurrencesMeet(x: string, t: string, a: int, u: string, b: int)
    requires PatternText(t) && PatternText(u) && OccursAt(x, t, a) && OccursAt(x, u, b)
    requires a < b + |u| && b < a + |t|
    ensures a + |t| == b + |u|
  {
    OccursPattern(x, t, a);
    OccursPattern(x, u, b);
    PatternOverlap(x, a, a + |t|, b, b + |u|);
  }

  /** The characters of a name standing at `o` in `r`, one by one. */
  lemma NameChars(r: string, n: string, o: int)
    requires OccursAt(r, n, o)
    ensures forall j :: 0 <= j < |n| ==> r[o + j] == n[j]
  {
    forall j | 0 <= j < |n|
      ensures r[o + j] == n[j]
    {
      assert r[o + j] == r[o..o + |n|][j];
    }
  }

  /** An inert name written into a line never overlaps a literal there: the literal's
      `C`, `(` and `)` cannot stand in the name, and the name's `.` cannot stand in
      the literal. */
  lemma InertMeetsLiteral(r: string, q: int, n: string, o: int)
    requires LiteralAt(r, q) && InertName(n) && OccursAt(r, n, o)
    ensures o + |n| <= q || q + 17 <= o
  {
    NameChars(r, n, o);
  }

  /** An inert name written into a line never overlaps a match of the pattern there:
      not its literal, and not its `const` prefix either, since the name ends neither
      in whitespace nor in a piece of `const`. */
  lemma InertMeetsPattern(r: string, a: int, e: int, n: string, o: int)
    requires PatternAt(r, a, e) && InertName(n) && OccursAt(r, n, o)
    ensures o + |n| <= a || e <= o
  {
    InertMeetsLiteral(r, e - 17, n, o);
    NameChars(r, n, o);
  }

  // ---------------------------------------------------------------------------------
  // Replace-all with a mapped match
  // ---------------------------------------------------------------------------------

  /** `str.replace` with a pattern text and an inert name leaves no occurrence of the
      pattern text behind. */
  lemma {:induction false} ReplaceClears(s: string, pat: string, rep: string)
    requires PatternText(pat) && InertName(rep)
    ensures !Occurs(ReplaceAll(s, pat, rep), pat)
    decreases |s|
  {
    match FindFrom(s, pat, 0)
    case None =>
      ReplaceAllNone(s, pat, rep);
    case Some(i) =>
      ReplaceAllAt(s, pat, rep, i);
      ReplaceClears(s[i + |pat|..], pat, rep);
      ClearsStep(s, pat, rep, i, ReplaceAll(s[i + |pat|..], pat, rep));
  }

  /** The step of `ReplaceClears`: a prefix before the first occurrence, the name and
      a rest free of the pattern text hold no occurrence together. */
  lemma ClearsStep(s: string, pat: string, rep: string, i: nat, R: string)
    requires PatternText(pat) && InertName(rep) && !Occurs(R, pat)
    requires i <= |s| && forall k :: 0 <= k < i ==> !OccursAt(s, pat, k)
    ensures !Occurs(s[..i] + rep + R, pat)
  {
    ConcatWindows(s[..i], rep, R);
    PrefixWindow(s, i);
    SpliceClear(s, s[..i], pat, rep, R, s[..i] + rep + R);
  }

  /** A pattern text and an inert name standing in the same line do not overlap. */
  lemma TextMeetsName(r: string, t: string, a: int, n: string, o: int)
    requires PatternText(t) && OccursAt(r, t, a) && InertName(n) && OccursAt(r, n, o)
    ensures a + |t| <= o || o + |n| <= a
  {
    OccursPattern(r, t, a);
    InertMeetsPattern(r, a, a + |t|, n, o);
  }

  /** Splicing an inert name between a prefix free of the pattern text and a rest free
      of it cannot create an occurrence. */
  lemma SpliceClear(s: string, A: string, pat: string, rep: string, R: string, r: string)
    requires PatternText(pat) && InertName(rep) && !Occurs(R, pat)
    requires Window(s, A, 0) && forall k :: 0 <= k < |A| ==> !OccursAt(s, pat, k)
    requires |r| == |A| + |rep| + |R|
    requires Window(r, A, 0) && Window(r, rep, |A|) && Window(r, R, |A| + |rep|)
    ensures !Occurs(r, pat)
  {
    if a :| OccursAt(r, pat, a) {
      TextMeetsName(r, pat, a, rep, |A|);
      if a + |pat| <= |A| {
        OccursWindow(r, A, 0, pat, a);
        OccursWindow(s, A, 0, pat, a);
      } else {
        OccursWindow(r, R, |A| + |rep|, pat, a - |A| - |rep|);
      }
    }
  }

  /** Every mapped literal of `x` ends an occurrence of one of the texts `T`. */
  ghost predicate Covered(table: map<string, string>, x: string, T: set<string>) {
    forall q :: MappedAt(table, x, q) ==> CoverIn(x, q, T)
  }

  /** Some text of `T` stands in `x` ending where the literal at `q` ends. */
  ghost predicate CoverIn(x: string, q: int, T: set<string>) {
    exists t :: t in T && |t| <= q + 17 && OccursAt(x, t, q + 17 - |t|)
  }

  ghost predicate AllPatterns(T: set<string>) {
    forall t :: t in T ==> PatternText(t)
  }

  /** The text of `T` covering a mapped literal of a covered line. */
  lemma CoverOf(table: map<string, string>, x: string, T: set<string>, q: int) returns (t: string)
    requires Covered(table, x, T) && MappedAt(table, x, q)
    ensures t in T && |t| <= q + 17 && OccursAt(x, t, q + 17 - |t|)
  {
    assert CoverIn(x, q, T);
    t :| t in T && |t| <= q + 17 && OccursAt(x, t, q + 17 - |t|);
  }

  /** A literal after the first replaced occurrence is covered within the rest of the
      line: an occurrence covering it cannot reach back across the replaced one. */
  lemma CoverAfter(table: map<string, string>, s: string, i: nat, pat: string, B: string, U: set<string>, qb: int)
    requires AllPatterns(U) && pat in U && OccursAt(s, pat, i)
    requires Window(s, B, i + |pat|) && i + |pat| + |B| == |s|
    requires Covered(table, s, U)
    requires MappedAt(table, B, qb)
    ensures CoverIn(B, qb, U)
  {
    var off := i + |pat|;
    var q := off + qb;
    MappedWindow(table, s, B, off, qb);
    var t := CoverOf(table, s, U, q);
    var a := q + 17 - |t|;
    NotAcross(s, U, t, a, pat, i);
    OccursInSuffix(s, B, off, t, a);
  }

  /** An occurrence of a pattern text that ends after another one ends starts after it
      too. */
  lemma NotAcross(x: string, U: set<string>, t: string, a: int, u: string, b: int)
    requires AllPatterns(U) && t in U && u in U && OccursAt(x, t, a) && OccursAt(x, u, b)
    requires b + |u| < a + |t|
    ensures b + |u| <= a
  {
    if a < b + |u| {
      OccurrencesMeet(x, t, a, u, b);
    }
  }

  /** An occurrence inside the window stands in the window's own text. */
  lemma OccursInSuffix(x: string, y: string, off: int, t: string, a: int)
    requires Window(x, y, off) && off + |y| == |x| && off <= a && OccursAt(x, t, a)
    ensures OccursAt(y, t, a - off)
  {
    OccursWindow(x, y, off, t, a - off);
  }

  /** Adding a pattern text to a set of them keeps them all pattern texts. */
  lemma AllPatternsAdd(T: set<string>, pat: string)
    requires AllPatterns(T) && PatternText(pat)
    ensures AllPatterns(T + {pat})
  {
  }

  /** Every mapped literal of the rest after the first occurrence is covered there. */
  lemma CoveredAfter(table: map<string, string>, s: string, i: nat, pat: string, T: set<string>)
    requires PatternText(pat) && AllPatterns(T) && OccursAt(s, pat, i)
    requires Covered(table, s, T + {pat})
    ensures Covered(table, s[i + |pat|..], T + {pat})
  {
    var B := s[i + |pat|..];
    var U := T + {pat};
    AllPatternsAdd(T, pat);
    SuffixWindow(s, i + |pat|);
    forall qb | MappedAt(table, B, qb)
      ensures CoverIn(B, qb, U)
    {
      CoverAfter(table, s, i, pat, B, U, qb);
    }
  }

  /** A mapped literal before the first replaced occurrence keeps its cover, and that
      cover is not the replaced text (whose first occurrence comes later). */
  lemma CoverBefore(table: map<string, string>, s: string, A: string, pat: string, T: set<string>, r: string, q: int)
    requires |pat| > 0 && Window(s, A, 0) && forall k :: 0 <= k < |A| ==> !OccursAt(s, pat, k)
    requires Covered(table, s, T + {pat})
    requires Window(r, A, 0) && 0 <= q && q + 17 <= |A| && MappedAt(table, r, q)
    ensures CoverIn(r, q, T)
  {
    MappedWindow(table, r, A, 0, q);
    MappedWindow(table, s, A, 0, q);
    var t := CoverOf(table, s, T + {pat}, q);
    var a := q + 17 - |t|;
    assert t == pat ==> 0 <= a < |A|;
    assert t in T;
    OccursWindow(s, A, 0, t, a);
    OccursWindow(r, A, 0, t, a);
    assert |t| <= q + 17 && OccursAt(r, t, a);
  }

  /** A mapped literal in the rewritten rest keeps the cover it has there. */
  lemma CoverInRest(table: map<string, string>, r: string, R: string, off: int, T: set<string>, q: int)
    requires Window(r, R, off) && Covered(table, R, T)
    requires off <= q && q + 17 <= off + |R| && MappedAt(table, r, q)
    ensures CoverIn(r, q, T)
  {
    MappedWindow(table, r, R, off, q - off);
    var t := CoverOf(table, R, T, q - off);
    OccursWindow(r, R, off, t, q - off + 17 - |t|);
    assert t in T && |t| <= q + 17 && OccursAt(r, t, q + 17 - |t|);
  }

  /** After splicing the name in, every mapped literal is covered by the remaining
      texts: those before come from the prefix, none meets the name, and those after
      are covered in the rewritten rest. */
  lemma CoveredSplice(table: map<string, string>, s: string, A: string, pat: string, rep: string, R: string, T: set<string>, r: string)
    requires |pat| > 0 && InertName(rep) && Window(s, A, 0) && forall k :: 0 <= k < |A| ==> !OccursAt(s, pat, k)
    requires Covered(table, s, T + {pat}) && Covered(table, R, T)
    requires |r| == |A| + |rep| + |R|
    requires Window(r, A, 0) && Window(r, rep, |A|) && Window(r, R, |A| + |rep|)
    ensures Covered(table, r, T)
  {
    forall q | MappedAt(table, r, q)
      ensures CoverIn(r, q, T)
    {
      InertMeetsLiteral(r, q, rep, |A|);
      if q + 17 <= |A| {
        CoverBefore(table, s, A, pat, T, r, q);
      } else {
        CoverInRest(table, r, R, |A| + |rep|, T, q);
      }
    }
  }

  /** Where the replaced text does not occur, no literal can be covered by it. */
  lemma CoveredWithout(table: map<string, string>, s: string, pat: string, T: set<string>)
    requires forall k :: 0 <= k ==> !OccursAt(s, pat, k)
    requires Covered(table, s, T + {pat})
    ensures Covered(table, s, T)
  {
    forall q | MappedAt(table, s, q)
      ensures CoverIn(s, q, T)
    {
      var t :| t in T + {pat} && |t| <= q + 17 && OccursAt(s, t, q + 17 - |t|);
    }
  }

  /** Splicing the name between the untouched prefix and a covered rest leaves every
      mapped literal covered. */
  lemma SpliceCovered(table: map<string, string>, s: string, i: nat, pat: string, rep: string, R: string, T: set<string>)
    requires |pat| > 0 && InertName(rep) && i <= |s| && forall k :: 0 <= k < i ==> !OccursAt(s, pat, k)
    requires Covered(table, s, T + {pat}) && Covered(table, R, T)
    ensures Covered(table, s[..i] + rep + R, T)
  {
    ConcatWindows(s[..i], rep, R);
    PrefixWindow(s, i);
    CoveredSplice(table, s, s[..i], pat, rep, R, T, s[..i] + rep + R);
  }

  /** Coverage is a property of the text alone. Kept as its own step so that a proof can
      move coverage across an equation between two long expressions without unfolding
      `Covered`. */
  lemma CoveredEq(table: map<string, string>, x: string, y: string, T: set<string>)
    requires x == y && Covered(table, x, T)
    ensures Covered(table, y, T)
  {
  }

  /** One step of the replacement: with the rest already rewritten and covered, the
      whole rewritten line is covered. */
  lemma SpliceStep(table: map<string, string>, s: string, i: nat, pat: string, rep: string, T: set<string>)
    requires |pat| > 0 && InertName(rep) && FindFrom(s, pat, 0) == Some(i)
    requires Covered(table, s, T + {pat})
    requires i + |pat| <= |s| && Covered(table, ReplaceAll(s[i + |pat|..], pat, rep), T)
    ensures Covered(table, ReplaceAll(s, pat, rep), T)
  {
    var R := ReplaceAll(s[i + |pat|..], pat, rep);
    SpliceCovered(table, s, i, pat, rep, R, T);
    ReplaceAllAt(s, pat, rep, i);
    CoveredEq(table, s[..i] + rep + R, ReplaceAll(s, pat, rep), T);
  }

  /** Replacing every occurrence of a mapped text by an inert name keeps every other
      mapped literal covered by the remaining texts, and creates no new literal. */
  lemma {:induction false} ReplaceKeepsCovered(table: map<string, string>, s: string, pat: string, rep: string, T: set<string>)
    requires PatternText(pat) && InertName(rep) && AllPatterns(T)
    requires Covered(table, s, T + {pat})
    ensures Covered(table, ReplaceAll(s, pat, rep), T)
    decreases |s|
  {
    match FindFrom(s, pat, 0)
    case None =>
      ReplaceAllNone(s, pat, rep);
      CoveredWithout(table, s, pat, T);
    case Some(i) =>
      CoveredAfter(table, s, i, pat, T);
      ReplaceKeepsCovered(table, s[i + |pat|..], pat, rep, T);
      SpliceStep(table, s, i, pat, rep, T);
  }

  /** Coverage by a set carries over to any larger set. */
  lemma CoveredMono(table: map<string, string>, x: string, T: set<string>, U: set<string>)
    requires Covered(table, x, T) && T <= U
    ensures Covered(table, x, U)
  {
    forall q | MappedAt(table, x, q)
      ensures CoverIn(x, q, U)
    {
      var t :| t in T && |t| <= q + 17 && OccursAt(x, t, q + 17 - |t|);
    }
  }

  // ---------------------------------------------------------------------------------
  // The rewrite of one line
  // ---------------------------------------------------------------------------------

  /** Every match has a non-empty text. */
  predicate NonEmptyTexts(ms: seq<Match>) {
    forall i :: 0 <= i < |ms| ==> |ms[i].text| > 0
  }

  /** One pass of the inner loop: when the match's normalised value is a key of the
      table, every occurrence of the matched text in the line so far is replaced by
      the name the table gives. */
  function Step(table: map<string, string>, cur: string, m: Match): string
    requires |m.text| > 0
  {
    var key := Normalize(m.hex);
    if key in table then ReplaceAll(cur, m.text, table[key]) else cur
  }

  /** The inner loop over the matches, in order, starting from the line so far. */
  function Apply(table: map<string, string>, cur: string, ms: seq<Match>): string
    requires NonEmptyTexts(ms)
    decreases |ms|
  {
    if |ms| == 0 then cur else Apply(table, Step(table, cur, ms[0]), ms[1..])
  }

  /** The matches of a line, as `CONTEXT_PATTERN.finditer(line)` reports them. */
  function Matches(line: string): (ms: seq<Match>)
    ensures NonEmptyTexts(ms)
  {
    FindAllSound(line, 0);
    FindAll(line, 0)
  }

  /** `new_line` after the inner loop: the line rewritten by each of its matches in turn. */
  function RewriteLine(table: map<string, string>, line: string): string {
    Apply(table, line, Matches(line))
  }

  /** The texts of the matches whose normalised value the table maps. */
  ghost function MappedTexts(table: map<string, string>, ms: seq<Match>): set<string>
    decreases |ms|
  {
    if |ms| == 0 then {}
    else (if Normalize(ms[0].hex) in table then {ms[0].text} else {}) + MappedTexts(table, ms[1..])
  }

  /** A mapped match contributes its text. */
  lemma {:induction false} MappedTextsHas(table: map<string, string>, ms: seq<Match>, i: nat)
    requires i < |ms| && Normalize(ms[i].hex) in table
    ensures ms[i].text in MappedTexts(table, ms)
    decreases |ms|
  {
    if i > 0 {
      MappedTextsHas(table, ms[1..], i - 1);
    }
  }

  /** The mapped texts of coherent matches are pattern texts. */
  lemma {:induction false} MappedTextsPatterns(table: map<string, string>, ms: seq<Match>)
    requires forall i :: 0 <= i < |ms| ==> Coherent(ms[i])
    ensures AllPatterns(MappedTexts(table, ms))
    decreases |ms|
  {
    if |ms| > 0 {
      MappedTextsPatterns(table, ms[1..]);
    }
  }

  /** Every match of a line is coherent. */
  lemma MatchesCoherent(line: string)
    ensures forall i :: 0 <= i < |Matches(line)| ==> Coherent(Matches(line)[i])
  {
    forall i | 0 <= i < |Matches(line)|
      ensures Coherent(Matches(line)[i])
    {
      FindAllFound(line, 0, i);
      FoundCoherent(line, Matches(line)[i]);
    }
  }

  /** Before the loop, each mapped literal of the line ends one of the mapped matches. */
  lemma InitiallyCovered(table: map<string, string>, line: string)
    ensures Covered(table, line, MappedTexts(table, Matches(line)))
  {
    var ms := Matches(line);
    forall q | MappedAt(table, line, q)
      ensures CoverIn(line, q, MappedTexts(table, ms))
    {
      var i := FindAllFindsLiteral(line, q);
      FindAllFound(line, 0, i);
      NormalizeFound(line, ms[i]);
      MappedTextsHas(table, ms, i);
      assert OccursAt(line, ms[i].text, ms[i].start);
    }
  }

  /** Running the loop over the remaining matches leaves no mapped literal, as long as
      each mapped literal so far ends an occurrence of a remaining mapped text. */
  lemma {:induction false} ApplyClears(table: map<string, string>, cur: string, ms: seq<Match>)
    requires InertTable(table) && NonEmptyTexts(ms)
    requires forall i :: 0 <= i < |ms| ==> Coherent(ms[i])
    requires Covered(table, cur, MappedTexts(table, ms))
    ensures Covered(table, Apply(table, cur, ms), {})
    decreases |ms|
  {
    if |ms| > 0 {
      var m := ms[0];
      var rest := ms[1..];
      var U := MappedTexts(table, rest);
      var key := Normalize(m.hex);
      if key in table {
        var T := U - {m.text};
        assert MappedTexts(table, ms) == T + {m.text};
        MappedTextsPatterns(table, rest);
        ReplaceKeepsCovered(table, cur, m.text, table[key], T);
        CoveredMono(table, Step(table, cur, m), T, U);
      }
      ApplyClears(table, Step(table, cur, m), rest);
    }
  }

  /** Matches none of whose values the table maps leave the line as it is. */
  lemma {:induction false} ApplyUnmapped(table: map<string, string>, cur: string, ms: seq<Match>)
    requires NonEmptyTexts(ms)
    requires forall i :: 0 <= i < |ms| ==> Normalize(ms[i].hex) !in table
    ensures Apply(table, cur, ms) == cur
    decreases |ms|
  {
    if |ms| > 0 {
      ApplyUnmapped(table, cur, ms[1..]);
    }
  }

  /** A match whose value the table maps sits on a mapped literal of the line. */
  lemma MappedMatch(table: map<string, string>, line: string, i: nat)
    requires i < |Matches(line)| && Normalize(Matches(line)[i].hex) in table
    ensures MappedAt(table, line, End(Matches(line)[i]) - 17)
  {
    FindAllFound(line, 0, i);
    NormalizeFound(line, Matches(line)[i]);
  }

  /** No literal the table maps survives the rewrite of a line. */
  lemma RewriteClears(table: map<string, string>, line: string)
    requires InertTable(table)
    ensures forall q :: !MappedAt(table, RewriteLine(table, line), q)
  {
    InitiallyCovered(table, line);
    MatchesCoherent(line);
    ApplyClears(table, line, Matches(line));
  }

  /** A line changes exactly when it holds a literal whose value the table maps, and
      exactly when one of the matches the loop visits has a mapped value. */
  lemma RewriteChangesIff(table: map<string, string>, line: string)
    requires InertTable(table)
    ensures RewriteLine(table, line) != line <==> exists q :: MappedAt(table, line, q)
    ensures RewriteLine(table, line) != line <==>
      exists i :: 0 <= i < |Matches(line)| && Normalize(Matches(line)[i].hex) in table
  {
    var ms := Matches(line);
    RewriteClears(table, line);
    if i :| 0 <= i < |ms| && Normalize(ms[i].hex) in table {
      MappedMatch(table, line, i);
    } else {
      ApplyUnmapped(table, line, ms);
    }
  }

  /** Rewriting a rewritten line changes nothing. */
  lemma RewriteIdempotent(table: map<string, string>, line: string)
    requires InertTable(table)
    ensures RewriteLine(table, RewriteLine(table, line)) == RewriteLine(table, line)
  {
    RewriteClears(table, line);
    RewriteChangesIff(table, RewriteLine(table, line));
  }

  /** The loop writes no character that is neither in the line nor in some name. */
  lemma {:induction false} ApplyNoChar(table: map<string, string>, cur: string, ms: seq<Match>, c: char)
    requires NonEmptyTexts(ms) && c !in cur
    requires forall k :: k in table ==> c !in table[k]
    ensures c !in Apply(table, cur, ms)
    decreases |ms|
  {
    if |ms| > 0 {
      var m := ms[0];
      if Normalize(m.hex) in table {
        ReplaceAllChars(cur, m.text, table[Normalize(m.hex)]);
      }
      ApplyNoChar(table, Step(table, cur, m), ms[1..], c);
    }
  }

  /** A line without a line feed stays without one, so the rewritten lines join and
      split back into the same lines. */
  lemma RewriteNoLineFeed(table: map<string, string>, line: string)
    requires InertTable(table) && '\n' !in line
    ensures '\n' !in RewriteLine(table, line)
  {
    ApplyNoChar(table, line, Matches(line), '\n');
  }

  /** After a step with a mapped value, the matched text no longer occurs in the line;
      with an unmapped value, the line is unchanged. */
  lemma StepReplacesAll(table: map<string, string>, cur: string, m: Match)
    requires InertTable(table) && PatternText(m.text)
    ensures Normalize(m.hex) in table ==> !Occurs(Step(table, cur, m), m.text)
    ensures Normalize(m.hex) !in table ==> Step(table, cur, m) == cur
  {
    if Normalize(m.hex) in table {
      ReplaceClears(cur, m.text, table[Normalize(m.hex)]);
    }
  }
}
