/**
 * A hand-written matcher for the pattern `(?:const\s+)?Color\((0xFF[A-Fa-f0-9]{6})\)`
 * of scripts/replace_hardcoded_colors.py, searched the way `re.finditer` searches:
 * left to right, leftmost match first, never overlapping.
 */
module Matcher {
  import opened Wrappers
  import opened Text

  /** A bare literal `Color(0xFF` + six hexadecimal digits + `)` starts at index `q`.
      The `0xFF` is literal and case-sensitive; only the six digits may be in either
      case. */
  predicate LiteralAt(s: string, q: int) {
    && 0 <= q && q + 17 <= |s|
    && s[q] == 'C' && s[q + 1] == 'o' && s[q + 2] == 'l' && s[q + 3] == 'o' && s[q + 4] == 'r'
    && s[q + 5] == '(' && s[q + 6] == '0' && s[q + 7] == 'x' && s[q + 8] == 'F' && s[q + 9] == 'F'
    && (forall k :: q + 10 <= k < q + 16 ==> IsHexDigit(s[k]))
    && s[q + 16] == ')'
  }

  /** The word `const` starts at index `p`. */
  predicate ConstAt(s: string, p: int) {
    0 <= p && p + 5 <= |s| && s[p] == 'c' && s[p + 1] == 'o' && s[p + 2] == 'n' && s[p + 3] == 's' && s[p + 4] == 't'
  }

  /** Every character of `s[i..j]` is whitespace. */
  predicate SpacesBetween(s: string, i: int, j: int)
    requires 0 <= i && j <= |s|
  {
    forall k :: i <= k < j ==> IsSpace(s[k])
  }

  /** The whole pattern matches `s[p..e]`: an optional `const` followed by at least one
      whitespace character, then a bare literal. */
  predicate PatternAt(s: string, p: int, e: int) {
    && 0 <= p && p + 17 <= e <= |s|
    && LiteralAt(s, e - 17)
    && (e - p == 17 || (e - p >= 23 && ConstAt(s, p) && SpacesBetween(s, p + 5, e - 17)))
  }

  /** The whole pattern matches exactly `t`. */
  predicate PatternText(t: string) {
    PatternAt(t, 0, |t|)
  }

  /** Whether the pattern matches a stretch depends only on the characters in it. */
  lemma PatternShift(s: string, p: int, e: int, t: string, p': int)
    requires 0 <= p <= e <= |s| && 0 <= p' && p' + (e - p) <= |t|
    requires s[p..e] == t[p'..p' + (e - p)]
    ensures PatternAt(s, p, e) <==> PatternAt(t, p', p' + (e - p))
  {
    var e' := p' + (e - p);
    forall k | p <= k < e
      ensures s[k] == t[k - p + p']
    {
      assert s[k] == s[p..e][k - p];
    }
    forall k | p' <= k < e'
      ensures t[k] == s[k - p' + p]
    {
      assert t[k] == t[p'..e'][k - p'];
    }
  }

  /** The pattern matches a stretch of `s` exactly when it matches that slice alone. */
  lemma PatternSlice(s: string, p: int, e: int)
    requires 0 <= p <= e <= |s|
    ensures PatternAt(s, p, e) <==> PatternText(s[p..e])
  {
    PatternShift(s, p, e, s[p..e], 0);
  }

  /** One match: where it starts, the whole matched text (group 0), and the captured
      `0xFF…` value (group 1). */
  datatype Match = Match(start: nat, text: string, hex: string)

  /** The index just past a match. */
  function End(m: Match): nat {
    m.start + |m.text|
  }

  /** `m` is a match of the pattern found at its position in `s`: its text is what
      stands there, and its group is the ten characters before the closing `)`. */
  predicate Found(s: string, m: Match) {
    && End(m) <= |s|
    && m.text == s[m.start..End(m)]
    && PatternAt(s, m.start, End(m))
    && m.hex == s[End(m) - 11..End(m) - 1]
  }

  /** The number of whitespace characters starting at index `i`. */
  function SpaceRun(s: string, i: nat): (n: nat)
    requires i <= |s|
    ensures i + n <= |s| && SpacesBetween(s, i, i + n)
    ensures i + n < |s| ==> !IsSpace(s[i + n])
    decreases |s| - i
  {
    if i < |s| && IsSpace(s[i]) then 1 + SpaceRun(s, i + 1) else 0
  }

  /** Whether the pattern matches at index `p`, and where that match ends. The
      optional group is tried first with `\s+` taking every whitespace character;
      backing off to fewer would leave whitespace where `C` must stand, so no other
      length can succeed (see `MatchAtComplete`). Failing that, a bare literal. */
  function MatchAt(s: string, p: nat): (r: Option<Match>)
    requires p <= |s|
    ensures r.Some? ==> r.value.start == p && p < End(r.value) <= |s|
  {
    var n := if ConstAt(s, p) then SpaceRun(s, p + 5) else 0;
    if ConstAt(s, p) && n > 0 && LiteralAt(s, p + 5 + n) then
      var e := p + 5 + n + 17;
      Some(Match(p, s[p..e], s[e - 11..e - 1]))
    else if LiteralAt(s, p) then
      Some(Match(p, s[p..p + 17], s[p + 6..p + 16]))
    else
      None
  }

  /** What `MatchAt` reports is a match of the pattern standing at `p`. */
  lemma MatchAtFound(s: string, p: nat)
    requires p <= |s|
    ensures MatchAt(s, p).Some? ==> Found(s, MatchAt(s, p).value)
  {
  }

  /** Wherever the pattern can match at `p`, `MatchAt` reports that very match: no
      match at `p` is missed, and no second one exists. */
  lemma MatchAtComplete(s: string, p: nat, e: nat)
    requires PatternAt(s, p, e)
    ensures MatchAt(s, p).Some? && End(MatchAt(s, p).value) == e
  {
  }

  /** The matches `re.finditer` reports from index `p` on, left to right. */
  function FindAll(s: string, p: nat): (ms: seq<Match>)
    requires p <= |s|
    decreases |s| - p
  {
    if p == |s| then []
    else
      match MatchAt(s, p)
      case Some(m) => [m] + FindAll(s, End(m))
      case None => FindAll(s, p + 1)
  }

  /** Every reported match is the match of the pattern at its own position, at or
      after `p`, and each one ends before the next begins. */
  lemma {:induction false} FindAllSound(s: string, p: nat)
    requires p <= |s|
    ensures forall i :: 0 <= i < |FindAll(s, p)| ==>
      p <= FindAll(s, p)[i].start <= |s| && MatchAt(s, FindAll(s, p)[i].start) == Some(FindAll(s, p)[i])
    ensures forall i, j :: 0 <= i < j < |FindAll(s, p)| ==> End(FindAll(s, p)[i]) <= FindAll(s, p)[j].start
    decreases |s| - p
  {
    if p < |s| {
      match MatchAt(s, p)
      case Some(m) =>
        FindAllSound(s, End(m));
      case None =>
        FindAllSound(s, p + 1);
    }
  }

  /** Every reported match is a match of the pattern at its position. */
  lemma FindAllFound(s: string, p: nat, i: nat)
    requires p <= |s| && i < |FindAll(s, p)|
    ensures Found(s, FindAll(s, p)[i])
  {
    FindAllSound(s, p);
    MatchAtFound(s, FindAll(s, p)[i].start);
  }

  /** No match is skipped: wherever the pattern matches at or after `p`, that
      position lies inside one of the reported matches. */
  lemma {:induction false} FindAllCovers(s: string, p: nat, x: nat) returns (i: nat)
    requires p <= x < |s| && MatchAt(s, x).Some?
    ensures i < |FindAll(s, p)| && FindAll(s, p)[i].start <= x < End(FindAll(s, p)[i])
    decreases |s| - p
  {
    var r := MatchAt(s, p);
    var ms := FindAll(s, p);
    if r.Some? {
      var m := r.value;
      var rest := FindAll(s, End(m));
      assert ms == [m] + rest;
      if x >= End(m) {
        var i' := FindAllCovers(s, End(m), x);
        i := i' + 1;
        assert ms[i] == rest[i'];
      } else {
        i := 0;
      }
    } else {
      assert p != x;
      assert ms == FindAll(s, p + 1);
      i := FindAllCovers(s, p + 1, x);
    }
  }

  /** A literal inside a match is that match's own literal. */
  lemma LiteralInsideMatch(s: string, m: Match, q: int)
    requires Found(s, m) && m.start <= q < End(m) && LiteralAt(s, q)
    ensures q == End(m) - 17
  {
  }

  /** Every literal in the line ends one of the matches `re.finditer` reports. */
  lemma FindAllFindsLiteral(s: string, q: int) returns (i: nat)
    requires LiteralAt(s, q)
    ensures i < |FindAll(s, 0)| && End(FindAll(s, 0)[i]) == q + 17
  {
    assert PatternAt(s, q, q + 17);
    MatchAtComplete(s, q, q + 17);
    i := FindAllCovers(s, 0, q);
    FindAllFound(s, 0, i);
    LiteralInsideMatch(s, FindAll(s, 0)[i], q);
  }
}
